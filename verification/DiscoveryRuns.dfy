/**
 * Import discovery terminates: when the imports stay within finitely many files, every interleaving is finite, never
 * gets stuck before everything is parsed, and so ends with the import closure.
 */
module DiscoveryRuns {
  import opened ModuleDiscovery

  /** How many steps the module at a path still gives rise to, entering it in the table included. */
  function Weight(env: Env, s: State, p: Path): nat {
    var n := |Targets(env, p)|;
    if p !in s.table then 2 * n + 4
    else
      var id := s.table[p];
      if id !in s.stages then 0
      else
        match s.stages[id]
        case ToLaunch => 2 * n + 3
        case HeldBy(_) => 2 * n + 3
        case Ended => 0
        case InJob(j) => if j in s.jobs then JobWeight(s.jobs[j].pc, n) else 0
  }

  function JobWeight(pc: Pc, n: nat): nat {
    match pc
    case Queued => 2 * n + 2
    case Importing(k) => if k < n then 2 * (n - k) + 1 else 1
    case Spawning(k, _) => if k < n then 2 * (n - k) else 2
  }

  function Total(env: Env, s: State, files: seq<Path>): nat {
    if files == [] then 0 else Weight(env, s, files[0]) + Total(env, s, files[1..])
  }

  lemma {:induction false} TotalNotMore(env: Env, s: State, s': State, files: seq<Path>)
    requires forall p :: p in files ==> Weight(env, s', p) <= Weight(env, s, p)
    ensures Total(env, s', files) <= Total(env, s, files)
  {
    hide Weight;
    if files != [] {
      TotalNotMore(env, s, s', files[1..]);
    }
  }

  lemma {:induction false} TotalLess(env: Env, s: State, s': State, files: seq<Path>, q: Path)
    requires forall p :: p in files ==> Weight(env, s', p) <= Weight(env, s, p)
    requires q in files && Weight(env, s', q) < Weight(env, s, q)
    ensures Total(env, s', files) < Total(env, s, files)
  {
    hide Weight;
    if files[0] == q {
      TotalNotMore(env, s, s', files[1..]);
    } else {
      TotalLess(env, s, s', files[1..], q);
    }
  }

  // -----------------------------------------------------------------------------------------------
  // Every step makes progress
  // -----------------------------------------------------------------------------------------------

  /** A module the step is not about weighs what it did. */
  lemma OtherWeight(env: Env, s: State, x: Action, p: Path)
    requires ActorInv(env, s, x) && Enabled(env, s, x) && p in s.table && ModuleInv(env, s, s.table[p])
    requires forall j :: j in s.jobs ==> j < s.nextJob
    requires var id := s.table[p];
             && (if x.Launch? then x.id != id else s.jobs[x.j].id != id)
             && (x.Spawn? ==> s.jobs[x.j].pc.child != id)
    ensures Weight(env, Next(env, s, x), p) == Weight(env, s, p)
  {
    hide Next, Targets, KnowsImports, JobWeight;
    var id := s.table[p];
    if x.Read? || x.Finish? {
      EndElsewhere(env, s, x, id);
    } else if x.Lookup? {
      EnterElsewhere(env, s, x, id);
    } else {
      AddElsewhere(env, s, x, id);
    }
  }

  /** The module of the stepping job weighs less. */
  lemma OwnWeight(env: Env, s: State, x: Action)
    requires ActorInv(env, s, x) && Enabled(env, s, x) && !x.Launch?
    requires forall j :: j in s.jobs ==> j < s.nextJob
    ensures var p := s.modules[s.jobs[x.j].id].path;
            p in s.table && s.table[p] == s.jobs[x.j].id && Weight(env, Next(env, s, x), p) < Weight(env, s, p)
  {
    hide Targets, KnowsImports;
  }

  /** So does a module whose job is spawned. */
  lemma SpawnedWeight(env: Env, s: State, x: Action, id: ModuleId)
    requires ActorInv(env, s, x) && Enabled(env, s, x) && id < |s.modules| && ModuleInv(env, s, id)
    requires forall j :: j in s.jobs ==> j < s.nextJob
    requires (x.Launch? && id == x.id) || (x.Spawn? && id == s.jobs[x.j].pc.child && id != s.jobs[x.j].id)
    ensures var p := s.modules[id].path;
            p in s.table && s.table[p] == id && Weight(env, Next(env, s, x), p) < Weight(env, s, p)
  {
    hide Targets, KnowsImports;
  }

  /** And a path that was not in the table weighs no more. */
  lemma NewWeight(env: Env, s: State, x: Action, p: Path)
    requires ActorInv(env, s, x) && Enabled(env, s, x) && p !in s.table
    ensures Weight(env, Next(env, s, x), p) <= Weight(env, s, p)
  {
    hide Targets, KnowsImports;
  }

  /** The path whose module a step is about. */
  function Subject(s: State, x: Action): Path
    requires if x.Launch? then x.id < |s.modules| else InRange(s, x.j)
  {
    if x.Launch? then s.modules[x.id].path else s.modules[s.jobs[x.j].id].path
  }

  lemma KnownWeight(env: Env, init: seq<Path>, s: State, x: Action, p: Path)
    requires Inv(env, init, s) && Enabled(env, s, x) && p in s.table
    ensures (if x.Launch? then x.id < |s.modules| else InRange(s, x.j))
    ensures Weight(env, Next(env, s, x), p) <= Weight(env, s, p)
    ensures p == Subject(s, x) ==> Weight(env, Next(env, s, x), p) < Weight(env, s, p)
  {
    Actor(env, init, s, x);
    JobNumbers(env, init, s);
    ModuleOf(env, init, s, x, p);
    hide Inv, Next, Enabled, Weight, ModuleInv, JobInv, TableInv, BoundsInv;
    var id := s.table[p];
    if !x.Launch? && s.jobs[x.j].id == id {
      OwnWeight(env, s, x);
    } else if (x.Launch? && x.id == id) || (x.Spawn? && s.jobs[x.j].pc.child == id) {
      SpawnedWeight(env, s, x, id);
    } else {
      OtherWeight(env, s, x, p);
    }
  }

  lemma ModuleOf(env: Env, init: seq<Path>, s: State, x: Action, p: Path)
    requires Inv(env, init, s) && Enabled(env, s, x) && p in s.table
    ensures s.table[p] < |s.modules| && s.modules[s.table[p]].path == p && ModuleInv(env, s, s.table[p])
    ensures (if x.Launch? then x.id < |s.modules| else InRange(s, x.j))
    ensures p == Subject(s, x) ==> s.table[p] == if x.Launch? then x.id else s.jobs[x.j].id
  {
    hide Targets, KnowsImports, ReachInv;
    if x.Launch? {
      assert ModuleInv(env, s, x.id);
    } else {
      assert JobInv(env, s, x.j) && ModuleInv(env, s, s.jobs[x.j].id);
    }
  }

  lemma StepProgress(env: Env, init: seq<Path>, s: State, x: Action, files: seq<Path>)
    requires Inv(env, init, s) && Enabled(env, s, x) && forall p :: p in s.table ==> p in files
    ensures Total(env, Next(env, s, x), files) < Total(env, s, files)
  {
    Actor(env, init, s, x);
    SubjectKnown(env, init, s, x);
    hide Inv, Next, Enabled, Weight, ModuleInv, JobInv, ActorInv;
    forall p | p in files ensures Weight(env, Next(env, s, x), p) <= Weight(env, s, p) {
      if p in s.table {
        KnownWeight(env, init, s, x, p);
      } else {
        NewWeight(env, s, x, p);
      }
    }
    KnownWeight(env, init, s, x, Subject(s, x));
    TotalLess(env, s, Next(env, s, x), files, Subject(s, x));
  }

  lemma SubjectKnown(env: Env, init: seq<Path>, s: State, x: Action)
    requires Inv(env, init, s) && Enabled(env, s, x)
    ensures (if x.Launch? then x.id < |s.modules| else InRange(s, x.j)) && Subject(s, x) in s.table
  {
    hide Targets, KnowsImports, ReachInv;
    if x.Launch? {
      assert ModuleInv(env, s, x.id);
    } else {
      assert JobInv(env, s, x.j) && ModuleInv(env, s, s.jobs[x.j].id);
    }
  }

  // -----------------------------------------------------------------------------------------------
  // Every run is finite, and none gets stuck
  // -----------------------------------------------------------------------------------------------

  /** The files hold every initial module and everything a file among them imports. */
  ghost predicate ClosedUnderImports(env: Env, init: seq<Path>, files: seq<Path>) {
    && (forall p :: p in init ==> p in files)
    && forall p, q :: p in files && Imports(env, p, q) ==> q in files
  }

  lemma {:induction false} ChainInFiles(env: Env, init: seq<Path>, files: seq<Path>, c: seq<Path>)
    requires ClosedUnderImports(env, init, files) && Chain(env, init, c)
    ensures c[|c| - 1] in files
    decreases |c|
  {
    hide Imports;
    if |c| > 1 {
      var n := |c| - 1;
      ChainInFiles(env, init, files, c[..n]);
      assert c[..n][n - 1] == c[n - 1] && Imports(env, c[n - 1], c[n]);
    }
  }

  lemma TableInFiles(env: Env, init: seq<Path>, s: State, files: seq<Path>)
    requires Inv(env, init, s) && ClosedUnderImports(env, init, files)
    ensures forall p :: p in s.table ==> p in files
  {
    hide Targets, KnowsImports, Imports, ModuleInv, JobInv;
    forall p | p in s.table ensures p in files {
      assert Imported(env, init, p);
      var c :| Chain(env, init, c) && c[|c| - 1] == p;
      ChainInFiles(env, init, files, c);
    }
  }

  lemma {:induction false} RunProgress(env: Env, init: seq<Path>, s: State, run: seq<Action>, files: seq<Path>)
    requires Inv(env, init, s) && Trace(env, s, run) && ClosedUnderImports(env, init, files)
    ensures |run| + Total(env, After(env, s, run), files) <= Total(env, s, files)
    decreases |run|
  {
    hide Inv, Next, Enabled, Total, ClosedUnderImports;
    if run != [] {
      TableInFiles(env, init, s, files);
      StepProgress(env, init, s, run[0], files);
      InvNext(env, init, s, run[0]);
      RunProgress(env, init, Next(env, s, run[0]), run[1..], files);
    }
  }

  /** While something is left to launch or a job is alive, some step is possible. */
  lemma NeverStuck(env: Env, init: seq<Path>, s: State) returns (x: Action)
    requires Inv(env, init, s) && !s.Quiescent()
    ensures Enabled(env, s, x)
  {
    hide Targets, KnowsImports, ReachInv, ModuleInv;
    if s.toLaunch != {} {
      var id :| id in s.toLaunch;
      x := Launch(id);
    } else {
      var j := SomeJob(s.jobs);
      assert JobInv(env, s, j);
      var pc := s.jobs[j].pc;
      x := match pc
        case Queued => Read(j)
        case Spawning(_, _) => Spawn(j)
        case Importing(k) =>
          if k < |Targets(env, s.modules[s.jobs[j].id].path)| then Lookup(j) else Finish(j);
    }
  }

  lemma SomeJob(jobs: map<JobId, Job>) returns (j: JobId)
    requires jobs != map[]
    ensures j in jobs
  {
    assert (forall i :: i !in jobs) ==> jobs == map[];
    j :| j in jobs;
  }

  lemma {:induction false} RunsOut(env: Env, init: seq<Path>, s: State, files: seq<Path>) returns (run: seq<Action>)
    requires Inv(env, init, s) && ClosedUnderImports(env, init, files)
    ensures Trace(env, s, run) && After(env, s, run).Quiescent()
    decreases Total(env, s, files)
  {
    hide Inv, Next, Enabled, Total, ClosedUnderImports, State.Quiescent;
    run := [];
    if !s.Quiescent() {
      var x := NeverStuck(env, init, s);
      TableInFiles(env, init, s, files);
      StepProgress(env, init, s, x, files);
      InvNext(env, init, s, x);
      var rest := RunsOut(env, init, Next(env, s, x), files);
      run := [x] + rest;
      assert run[0] == x && run[1..] == rest;
    }
  }

  /** Two steps for each import of a file and four for the file itself. */
  function Bound(env: Env, files: seq<Path>): nat {
    if files == [] then 0
    else
      (match env.parse(files[0]) case Vuir(imports) => 2 * |imports| case _ => 0) + 4 + Bound(env, files[1..])
  }

  lemma {:induction false} TotalBounded(env: Env, s: State, files: seq<Path>)
    ensures Total(env, s, files) <= Bound(env, files)
  {
    if files != [] {
      WeightBounded(env, s, files[0]);
      TotalBounded(env, s, files[1..]);
    }
  }

  lemma WeightBounded(env: Env, s: State, p: Path)
    ensures Weight(env, s, p) <= (match env.parse(p) case Vuir(imports) => 2 * |imports| case _ => 0) + 4
  {
    if env.parse(p).Vuir? {
      ResolvedAre(env, p, env.parse(p).imports, p);
    }
  }

  /**
   * When the imports stay within finitely many files, no interleaving of the jobs takes more steps than two for each
   * import and four for each file, and from every reached state the jobs can go on until nothing is left to do;
   * `ModuleDiscovery.DiscoversClosure` says what has then been found.
   */
  lemma DiscoveryTerminates(env: Env, init: seq<Path>, run: seq<Action>, files: seq<Path>) returns (rest: seq<Action>)
    requires Trace(env, Start(init), run) && ClosedUnderImports(env, init, files)
    ensures |run| <= Bound(env, files)
    ensures Trace(env, After(env, Start(init), run), rest)
    ensures After(env, After(env, Start(init), run), rest).Quiescent()
  {
    hide *;
    InvStart(env, init);
    RunInv(env, init, run);
    RunProgress(env, init, Start(init), run, files);
    TotalBounded(env, Start(init), files);
    rest := RunsOut(env, init, After(env, Start(init), run), files);
  }

  /** A run that can go no further has discovered everything. */
  lemma StopsOnlyWhenDone(env: Env, init: seq<Path>, run: seq<Action>)
    requires Trace(env, Start(init), run) && forall x :: !Enabled(env, After(env, Start(init), run), x)
    ensures After(env, Start(init), run).Quiescent()
  {
    hide *;
    RunInv(env, init, run);
    if !After(env, Start(init), run).Quiescent() {
      var x := NeverStuck(env, init, After(env, Start(init), run));
      assert false;
    }
  }

  // -----------------------------------------------------------------------------------------------
  // The modules reported as failed
  // -----------------------------------------------------------------------------------------------

  ghost predicate FailedInv(env: Env, s: State) {
    && Unique(s.failed)
    && forall id: ModuleId :: RightlyFailed(env, s, id)
  }

  ghost predicate RightlyFailed(env: Env, s: State, id: ModuleId) {
    id in s.failed <==> id < |s.modules| && Over(s, id) && !env.parse(s.modules[id].path).Vuir?
  }

  lemma RightlyNext(env: Env, s: State, x: Action, id: ModuleId)
    requires ActorInv(env, s, x) && Enabled(env, s, x) && RightlyFailed(env, s, id)
    ensures RightlyFailed(env, Next(env, s, x), id)
  {
    hide Targets, KnowsImports, Unique;
  }

  lemma OnceFailed(env: Env, s: State, x: Action)
    requires ActorInv(env, s, x) && Enabled(env, s, x) && Unique(s.failed)
    requires x.Read? ==> RightlyFailed(env, s, s.jobs[x.j].id)
    ensures Unique(Next(env, s, x).failed)
  {
    hide Targets, KnowsImports;
  }

  lemma FailedNext(env: Env, s: State, x: Action)
    requires ActorInv(env, s, x) && Enabled(env, s, x) && FailedInv(env, s)
    ensures FailedInv(env, Next(env, s, x))
  {
    hide Next, RightlyFailed, Unique, ModuleInv, JobInv, Targets;
    assert x.Read? ==> RightlyFailed(env, s, s.jobs[x.j].id);
    OnceFailed(env, s, x);
    forall id: ModuleId ensures RightlyFailed(env, Next(env, s, x), id) {
      RightlyNext(env, s, x, id);
    }
  }

  lemma {:induction false} FailedRun(env: Env, init: seq<Path>, s: State, run: seq<Action>)
    requires Inv(env, init, s) && Trace(env, s, run) && FailedInv(env, s)
    ensures FailedInv(env, After(env, s, run))
    decreases |run|
  {
    hide Inv, Next, Enabled, FailedInv, ActorInv;
    if run != [] {
      Actor(env, init, s, run[0]);
      FailedNext(env, s, run[0]);
      InvNext(env, init, s, run[0]);
      FailedRun(env, init, Next(env, s, run[0]), run[1..]);
    }
  }

  /** Discovery ends with exactly the listed modules reported whose file cannot be read or parsed, each once. */
  lemma FailuresReported(env: Env, init: seq<Path>, run: seq<Action>, id: ModuleId)
    requires Trace(env, Start(init), run) && After(env, Start(init), run).Quiescent()
    ensures var s := After(env, Start(init), run);
            && Unique(s.failed)
            && (id in s.failed <==> Listed(s, id) && !env.parse(s.modules[id].path).Vuir?)
  {
    StartFailed(env, init);
    hide Targets, KnowsImports, Inv, Start, Trace, After;
    InvStart(env, init);
    RunInv(env, init, run);
    FailedRun(env, init, Start(init), run);
    var s := After(env, Start(init), run);
    assert RightlyFailed(env, s, id);
    if id < |s.modules| {
      AllOver(env, init, s, id);
    }
  }

  lemma StartFailed(env: Env, init: seq<Path>)
    ensures FailedInv(env, Start(init))
  {
    hide InitialTable;
  }
}
