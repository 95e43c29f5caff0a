/**
 * Import discovery: parsing jobs, each for one module, that enter the modules they import into a shared path table
 * and spawn the jobs of the new ones.
 */
module ModuleDiscovery {
  type Path = string
  type ModuleId = nat
  type JobId = nat

  /** What opening, parsing and lowering the file at a path gives. */
  datatype Parse = CannotRead | Broken | Vuir(imports: seq<string>)

  /** The file system and parser, and how an import is resolved against the importing file's directory. */
  datatype Env = Env(parse: Path -> Parse, resolve: (Path, string) -> Path)

  predicate IsFile(name: string) {
    name != "root" && name != "std" && name != "builtin"
  }

  function Resolved(env: Env, from: Path, imports: seq<string>): seq<Path> {
    if imports == [] then []
    else if IsFile(imports[0]) then [env.resolve(from, imports[0])] + Resolved(env, from, imports[1..])
    else Resolved(env, from, imports[1..])
  }

  /** Paths of the files a module imports, in order. */
  function Targets(env: Env, path: Path): seq<Path> {
    match env.parse(path)
    case Vuir(imports) => Resolved(env, path, imports)
    case _ => []
  }

  /** The file at `from` parses and imports p: under some name other than those that are not files. */
  ghost predicate Imports(env: Env, from: Path, p: Path) {
    && env.parse(from).Vuir?
    && var imports := env.parse(from).imports;
       exists i ::
         && 0 <= i < |imports| && imports[i] != "root" && imports[i] != "std" && imports[i] != "builtin"
         && p == env.resolve(from, imports[i])
  }

  lemma {:induction false} ResolvedAre(env: Env, from: Path, imports: seq<string>, p: Path)
    ensures p in Resolved(env, from, imports) <==>
              exists i :: 0 <= i < |imports| && IsFile(imports[i]) && p == env.resolve(from, imports[i])
    ensures |Resolved(env, from, imports)| <= |imports|
  {
    if imports != [] {
      var rest := imports[1..];
      ResolvedAre(env, from, rest, p);
      assert forall i :: 0 < i < |imports| ==> imports[i] == rest[i - 1];
      assert forall i :: 0 <= i < |rest| ==> rest[i] == imports[i + 1];
      assert Resolved(env, from, imports) ==
        (if IsFile(imports[0]) then [env.resolve(from, imports[0])] else []) + Resolved(env, from, rest);
    }
  }

  /** A job looks up exactly the paths its file imports. */
  lemma TargetsAre(env: Env, from: Path, p: Path)
    ensures p in Targets(env, from) <==> Imports(env, from, p)
  {
    hide Resolved;
    if env.parse(from).Vuir? {
      ResolvedAre(env, from, env.parse(from).imports, p);
    }
  }

  // -----------------------------------------------------------------------------------------------
  // The jobs
  // -----------------------------------------------------------------------------------------------

  /** `source` and `vuir` are the module's set-once fields. */
  datatype Module = Module(path: Path, source: bool, vuir: bool)

  datatype Pc =
    | Queued                                // spawned
    | Importing(k: nat)                     // next: look up import k, or finish
    | Spawning(k: nat, child: ModuleId)     // entered import k as a new module; next: spawn its job

  datatype Job = Job(id: ModuleId, pc: Pc)

  /** Who will parse a module, or that it has been. */
  datatype Stage = ToLaunch | HeldBy(j: JobId) | InJob(j: JobId) | Ended

  /** `stages`, `starts` and `setTwice` are history; `toLaunch` are the initial modules not spawned yet. */
  datatype State = State(
    modules: seq<Module>,
    table: map<Path, ModuleId>,
    toLaunch: set<ModuleId>,
    jobs: map<JobId, Job>,
    nextJob: JobId,
    failed: seq<ModuleId>,
    stages: map<ModuleId, Stage>,
    starts: seq<ModuleId>,
    setTwice: bool)
  {
    predicate Quiescent() {
      toLaunch == {} && jobs == map[]
    }
  }

  /** The path table after the initial modules were inserted one after the other. */
  function InitialTable(init: seq<Path>): (t: map<Path, ModuleId>)
    ensures forall p :: p in t ==> t[p] < |init| && init[t[p]] == p
    ensures forall i :: 0 <= i < |init| ==> init[i] in t && i <= t[init[i]]
  {
    if init == [] then map[]
    else
      var n := |init| - 1;
      assert forall i :: 0 <= i < n ==> init[i] == init[..n][i];
      InitialTable(init[..n])[init[n] := n]
  }

  function Start(init: seq<Path>): State {
    var t := InitialTable(init);
    State(
      seq(|init|, i requires 0 <= i < |init| => Module(init[i], false, false)),
      t, t.Values, map[], 0, [],
      map id | id in t.Values :: ToLaunch,
      [], false)
  }

  datatype Action =
    | Launch(id: ModuleId)
    | Read(j: JobId)         // open, parse, lower; set the source
    | Lookup(j: JobId)       // the table lock: known, or a new module
    | Spawn(j: JobId)
    | Finish(j: JobId)       // set the VUIR

  predicate InRange(s: State, j: JobId) {
    j in s.jobs && s.jobs[j].id < |s.modules|
  }

  predicate Enabled(env: Env, s: State, x: Action) {
    match x
    case Launch(id) => id in s.toLaunch
    case Read(j) => InRange(s, j) && s.jobs[j].pc.Queued?
    case Lookup(j) =>
      InRange(s, j) && s.jobs[j].pc.Importing? && s.jobs[j].pc.k < |Targets(env, s.modules[s.jobs[j].id].path)|
    case Spawn(j) => InRange(s, j) && s.jobs[j].pc.Spawning?
    case Finish(j) =>
      InRange(s, j) && s.jobs[j].pc.Importing? && s.jobs[j].pc.k >= |Targets(env, s.modules[s.jobs[j].id].path)|
  }

  function AddJob(s: State, id: ModuleId): State {
    s.(jobs := s.jobs[s.nextJob := Job(id, Queued)],
       nextJob := s.nextJob + 1,
       stages := s.stages[id := InJob(s.nextJob)])
  }

  function EndJob(s: State, j: JobId): State
    requires j in s.jobs
  {
    s.(jobs := s.jobs - {j}, stages := s.stages[s.jobs[j].id := Ended])
  }

  function Next(env: Env, s: State, x: Action): State
    requires Enabled(env, s, x)
  {
    match x
    case Launch(id) => AddJob(s.(toLaunch := s.toLaunch - {id}), id)
    case Read(j) =>
      var id := s.jobs[j].id;
      var m := s.modules[id];
      var begun := s.(starts := s.starts + [id]);
      var sourced := begun.(
        modules := s.modules[id := m.(source := true)], setTwice := s.setTwice || m.source);
      (match env.parse(m.path)
       case CannotRead => EndJob(begun.(failed := s.failed + [id]), j)
       case Broken => EndJob(sourced.(failed := s.failed + [id]), j)
       case Vuir(_) => sourced.(jobs := s.jobs[j := Job(id, Importing(0))]))
    case Lookup(j) =>
      var id, k := s.jobs[j].id, s.jobs[j].pc.k;
      var p := Targets(env, s.modules[id].path)[k];
      if p in s.table then s.(jobs := s.jobs[j := Job(id, Importing(k + 1))])
      else
        var child := |s.modules|;
        s.(modules := s.modules + [Module(p, false, false)],
           table := s.table[p := child],
           jobs := s.jobs[j := Job(id, Spawning(k, child))],
           stages := s.stages[child := HeldBy(j)])
    case Spawn(j) =>
      var id, k := s.jobs[j].id, s.jobs[j].pc.k;
      AddJob(s.(jobs := s.jobs[j := Job(id, Importing(k + 1))]), s.jobs[j].pc.child)
    case Finish(j) =>
      var id := s.jobs[j].id;
      var m := s.modules[id];
      EndJob(s.(modules := s.modules[id := m.(vuir := true)], setTwice := s.setTwice || m.vuir), j)
  }

  // -----------------------------------------------------------------------------------------------
  // Invariants
  // -----------------------------------------------------------------------------------------------

  predicate Unique<T(==)>(q: seq<T>) {
    forall i, j :: 0 <= i < j < |q| ==> q[i] != q[j]
  }

  /** The table maps a path to the module of that path, so two paths never share a module. */
  ghost predicate TableInv(s: State) {
    forall p :: p in s.table ==> s.table[p] < |s.modules| && s.modules[s.table[p]].path == p
  }

  /** The module the table gives for its own path. */
  predicate Listed(s: State, id: ModuleId) {
    id < |s.modules| && s.modules[id].path in s.table && s.table[s.modules[id].path] == id
  }

  /** The module's file has been read by its job. */
  predicate Begun(s: State, id: ModuleId) {
    id in s.stages &&
    match s.stages[id]
    case ToLaunch => false
    case HeldBy(_) => false
    case InJob(j) => j in s.jobs && !s.jobs[j].pc.Queued?
    case Ended => true
  }

  predicate Over(s: State, id: ModuleId) {
    id in s.stages && s.stages[id].Ended?
  }

  /** How many imports of its module a job has entered. */
  function Entered(pc: Pc): nat {
    match pc
    case Queued => 0
    case Importing(k) => k
    case Spawning(k, _) => k + 1
  }

  predicate KnowsImports(s: State, targets: seq<Path>, n: nat) {
    forall k :: 0 <= k < |targets| && k < n ==> targets[k] in s.table
  }

  ghost predicate JobInv(env: Env, s: State, j: JobId)
    requires j in s.jobs
  {
    var id, pc := s.jobs[j].id, s.jobs[j].pc;
    && j < s.nextJob && id < |s.modules| && id in s.stages && s.stages[id] == InJob(j)
    && (pc.Spawning? ==> pc.child in s.stages && s.stages[pc.child] == HeldBy(j))
    && (!pc.Queued? ==> env.parse(s.modules[id].path).Vuir?)
    && KnowsImports(s, Targets(env, s.modules[id].path), Entered(pc))
  }

  /** A listed module is at exactly one stage, which agrees with the jobs; its set-once fields say how far it got. */
  ghost predicate ModuleInv(env: Env, s: State, id: ModuleId)
    requires id < |s.modules|
  {
    var m := s.modules[id];
    && (id in s.stages <==> Listed(s, id))
    && (id in s.toLaunch <==> id in s.stages && s.stages[id].ToLaunch?)
    && (id in s.stages && s.stages[id].InJob? ==> s.stages[id].j in s.jobs && s.jobs[s.stages[id].j].id == id)
    && (id in s.stages && s.stages[id].HeldBy? ==>
          s.stages[id].j in s.jobs && s.jobs[s.stages[id].j].pc.Spawning? && s.jobs[s.stages[id].j].pc.child == id)
    && (id in s.starts <==> Begun(s, id))
    && (m.source <==> Begun(s, id) && !env.parse(m.path).CannotRead?)
    && (m.vuir <==> Over(s, id) && env.parse(m.path).Vuir?)
    && (Over(s, id) ==> KnowsImports(s, Targets(env, m.path), |Targets(env, m.path)|))
  }

  ghost predicate BoundsInv(s: State) {
    && (forall id :: id in s.stages ==> id < |s.modules|)
    && (forall id :: id in s.toLaunch ==> id < |s.modules|)
    && (forall id :: id in s.starts ==> id < |s.modules|)
    && Unique(s.starts) && !s.setTwice
  }

  /** A chain of imports from an initial module. */
  ghost predicate Chain(env: Env, init: seq<Path>, c: seq<Path>) {
    && c != [] && c[0] in init
    && forall k :: 0 < k < |c| ==> Imports(env, c[k - 1], c[k])
  }

  ghost predicate Imported(env: Env, init: seq<Path>, p: Path) {
    exists c: seq<Path> :: Chain(env, init, c) && c[|c| - 1] == p
  }

  ghost predicate ReachInv(env: Env, init: seq<Path>, s: State) {
    && (forall p :: p in s.table ==> Imported(env, init, p))
    && (forall p :: p in init ==> p in s.table)
  }

  ghost predicate Inv(env: Env, init: seq<Path>, s: State) {
    && TableInv(s) && BoundsInv(s)
    && (forall j :: j in s.jobs ==> JobInv(env, s, j))
    && (forall id: ModuleId :: id < |s.modules| ==> ModuleInv(env, s, id))
    && ReachInv(env, init, s)
  }

  /** The job a step is taken by. */
  ghost predicate ActorInv(env: Env, s: State, x: Action) {
    && TableInv(s) && BoundsInv(s)
    && (!x.Launch? ==> x.j in s.jobs && JobInv(env, s, x.j) && ModuleInv(env, s, s.jobs[x.j].id))
    && (x.Launch? ==> x.id < |s.modules| && ModuleInv(env, s, x.id))
  }

  lemma TableNext(env: Env, s: State, x: Action)
    requires ActorInv(env, s, x) && Enabled(env, s, x)
    ensures TableInv(Next(env, s, x))
  {
    hide Targets, KnowsImports;
  }

  lemma BoundsNext(env: Env, s: State, x: Action)
    requires ActorInv(env, s, x) && Enabled(env, s, x)
    ensures BoundsInv(Next(env, s, x))
  {
    hide Targets, KnowsImports;
  }

  /** Everything said about a job depends on its own entries, and on paths staying in the table. */
  ghost predicate SameJob(s: State, s': State, j: JobId)
    requires j in s.jobs && s.jobs[j].id < |s.modules|
  {
    var id, pc := s.jobs[j].id, s.jobs[j].pc;
    && j in s'.jobs && s'.jobs[j] == s.jobs[j] && s.nextJob <= s'.nextJob
    && id < |s'.modules| && s'.modules[id].path == s.modules[id].path
    && (id in s.stages ==> id in s'.stages && s'.stages[id] == s.stages[id])
    && (pc.Spawning? && pc.child in s.stages ==> pc.child in s'.stages && s'.stages[pc.child] == s.stages[pc.child])
    && forall p :: p in s.table ==> p in s'.table
  }

  lemma JobFrame(env: Env, s: State, s': State, j: JobId)
    requires j in s.jobs && JobInv(env, s, j) && SameJob(s, s', j)
    ensures j in s'.jobs && JobInv(env, s', j)
  {
    hide Targets;
  }

  lemma ReadElsewhere(env: Env, s: State, x: Action, j: JobId)
    requires ActorInv(env, s, x) && Enabled(env, s, x) && j in s.jobs && JobInv(env, s, j)
    requires (x.Read? || x.Finish?) && x.j != j
    ensures SameJob(s, Next(env, s, x), j)
  {
    hide Targets, KnowsImports;
  }

  lemma SpawnElsewhere(env: Env, s: State, x: Action, j: JobId)
    requires ActorInv(env, s, x) && Enabled(env, s, x) && j in s.jobs && JobInv(env, s, j)
    requires x.Launch? || (x.Spawn? && x.j != j)
    ensures SameJob(s, Next(env, s, x), j)
  {
    hide Targets, KnowsImports;
  }

  lemma LookupElsewhere(env: Env, s: State, x: Action, j: JobId)
    requires ActorInv(env, s, x) && Enabled(env, s, x) && j in s.jobs && JobInv(env, s, j)
    requires x.Lookup? && x.j != j
    ensures SameJob(s, Next(env, s, x), j)
  {
    hide Targets, KnowsImports;
  }

  lemma OtherJobNext(env: Env, s: State, x: Action, j: JobId)
    requires ActorInv(env, s, x) && Enabled(env, s, x) && j in s.jobs && JobInv(env, s, j)
    requires x.Launch? || x.j != j
    ensures j in Next(env, s, x).jobs && JobInv(env, Next(env, s, x), j)
  {
    assert s.jobs[j].id < |s.modules|;
    hide Next, ActorInv, JobInv, SameJob;
    if x.Read? || x.Finish? {
      ReadElsewhere(env, s, x, j);
    } else if x.Lookup? {
      LookupElsewhere(env, s, x, j);
    } else {
      SpawnElsewhere(env, s, x, j);
    }
    JobFrame(env, s, Next(env, s, x), j);
  }

  lemma OwnJobNext(env: Env, s: State, x: Action)
    requires ActorInv(env, s, x) && Enabled(env, s, x) && !x.Launch? && x.j in Next(env, s, x).jobs
    ensures JobInv(env, Next(env, s, x), x.j)
  {
    hide Targets;
  }

  lemma NewJobNext(env: Env, s: State, x: Action, j: JobId)
    requires ActorInv(env, s, x) && Enabled(env, s, x) && j !in s.jobs && j in Next(env, s, x).jobs
    requires x.Spawn? ==> s.jobs[x.j].pc.child < |s.modules| && ModuleInv(env, s, s.jobs[x.j].pc.child)
    ensures JobInv(env, Next(env, s, x), j)
  {
    hide Targets;
  }

  /** Everything said about a module depends on its own entries only. */
  ghost predicate SameModule(s: State, s': State, id: ModuleId)
    requires id < |s.modules|
  {
    && id < |s'.modules| && s'.modules[id] == s.modules[id]
    && (id in s'.stages <==> id in s.stages) && (id in s.stages ==> s'.stages[id] == s.stages[id])
    && (id in s'.toLaunch <==> id in s.toLaunch) && (id in s'.starts <==> id in s.starts)
    && (forall p :: p in s.table ==> p in s'.table && s'.table[p] == s.table[p])
    && (forall p :: p in s'.table && p !in s.table ==> s'.table[p] != id)
    && (id in s.stages && (s.stages[id].InJob? || s.stages[id].HeldBy?) && s.stages[id].j in s.jobs ==>
          s.stages[id].j in s'.jobs && s'.jobs[s.stages[id].j] == s.jobs[s.stages[id].j])
  }

  lemma ModuleFrame(env: Env, s: State, s': State, id: ModuleId)
    requires id < |s.modules| && ModuleInv(env, s, id) && SameModule(s, s', id)
    ensures ModuleInv(env, s', id)
  {
    hide Targets;
  }

  lemma AddElsewhere(env: Env, s: State, x: Action, id: ModuleId)
    requires ActorInv(env, s, x) && Enabled(env, s, x) && id < |s.modules| && ModuleInv(env, s, id)
    requires forall j :: j in s.jobs ==> j < s.nextJob
    requires (x.Launch? && x.id != id) || (x.Spawn? && s.jobs[x.j].id != id && s.jobs[x.j].pc.child != id)
    ensures SameModule(s, Next(env, s, x), id)
  {
    hide Targets, KnowsImports;
  }

  lemma EndElsewhere(env: Env, s: State, x: Action, id: ModuleId)
    requires ActorInv(env, s, x) && Enabled(env, s, x) && id < |s.modules| && ModuleInv(env, s, id)
    requires (x.Read? || x.Finish?) && s.jobs[x.j].id != id
    ensures SameModule(s, Next(env, s, x), id)
  {
    hide Targets, KnowsImports;
  }

  lemma EnterElsewhere(env: Env, s: State, x: Action, id: ModuleId)
    requires ActorInv(env, s, x) && Enabled(env, s, x) && id < |s.modules| && ModuleInv(env, s, id)
    requires x.Lookup? && s.jobs[x.j].id != id
    ensures SameModule(s, Next(env, s, x), id)
  {
    hide Targets, KnowsImports;
  }

  /** A module no step of this kind is about. */
  lemma OtherModuleNext(env: Env, s: State, x: Action, id: ModuleId)
    requires ActorInv(env, s, x) && Enabled(env, s, x) && id < |s.modules| && ModuleInv(env, s, id)
    requires forall j :: j in s.jobs ==> j < s.nextJob
    requires if x.Launch? then x.id != id else s.jobs[x.j].id != id
    requires x.Spawn? ==> s.jobs[x.j].pc.child != id
    ensures ModuleInv(env, Next(env, s, x), id)
  {
    hide Next, ModuleInv, SameModule, JobInv;
    if x.Read? || x.Finish? {
      EndElsewhere(env, s, x, id);
    } else if x.Lookup? {
      EnterElsewhere(env, s, x, id);
    } else {
      AddElsewhere(env, s, x, id);
    }
    ModuleFrame(env, s, Next(env, s, x), id);
  }

  /** The module of the stepping job. */
  lemma OwnModuleNext(env: Env, s: State, x: Action)
    requires ActorInv(env, s, x) && Enabled(env, s, x) && !x.Launch?
    requires forall j :: j in s.jobs ==> j < s.nextJob
    ensures ModuleInv(env, Next(env, s, x), s.jobs[x.j].id)
  {
    NoTargets(env, s.modules[s.jobs[x.j].id].path);
    hide Targets;
  }

  lemma NoTargets(env: Env, path: Path)
    ensures !env.parse(path).Vuir? ==> Targets(env, path) == []
  {}

  /** The module whose job is spawned. */
  lemma SpawnedModuleNext(env: Env, s: State, x: Action, id: ModuleId)
    requires ActorInv(env, s, x) && Enabled(env, s, x) && id < |s.modules| && ModuleInv(env, s, id)
    requires forall j :: j in s.jobs ==> j < s.nextJob
    requires (x.Launch? && id == x.id) || (x.Spawn? && id == s.jobs[x.j].pc.child && id != s.jobs[x.j].id)
    ensures ModuleInv(env, Next(env, s, x), id)
  {
    hide Targets;
  }

  /** The module a lookup adds. */
  lemma AddedModuleNext(env: Env, s: State, x: Action, id: ModuleId)
    requires ActorInv(env, s, x) && Enabled(env, s, x) && |s.modules| <= id < |Next(env, s, x).modules|
    ensures ModuleInv(env, Next(env, s, x), id)
  {
    hide Targets;
  }

  lemma ModulesNext(env: Env, init: seq<Path>, s: State, x: Action, id: ModuleId)
    requires Inv(env, init, s) && Enabled(env, s, x) && id < |Next(env, s, x).modules|
    ensures ModuleInv(env, Next(env, s, x), id)
  {
    hide Targets, Next, ModuleInv, JobInv, ReachInv;
    Actor(env, init, s, x);
    JobNumbers(env, init, s);
    if id >= |s.modules| {
      AddedModuleNext(env, s, x, id);
    } else if !x.Launch? && s.jobs[x.j].id == id {
      OwnModuleNext(env, s, x);
    } else if (x.Launch? && id == x.id) || (x.Spawn? && id == s.jobs[x.j].pc.child) {
      SpawnedModuleNext(env, s, x, id);
    } else {
      OtherModuleNext(env, s, x, id);
    }
  }

  lemma Actor(env: Env, init: seq<Path>, s: State, x: Action)
    requires Inv(env, init, s) && Enabled(env, s, x)
    ensures ActorInv(env, s, x)
  {
    hide Targets, ReachInv, KnowsImports;
  }

  lemma JobNumbers(env: Env, init: seq<Path>, s: State)
    requires Inv(env, init, s)
    ensures forall j :: j in s.jobs ==> j < s.nextJob
  {
    hide Targets, ReachInv, KnowsImports;
    assert forall j :: j in s.jobs ==> JobInv(env, s, j);
  }

  lemma JobsNext(env: Env, init: seq<Path>, s: State, x: Action, j: JobId)
    requires Inv(env, init, s) && Enabled(env, s, x) && j in Next(env, s, x).jobs
    ensures JobInv(env, Next(env, s, x), j)
  {
    Actor(env, init, s, x);
    hide Targets, Next, ModuleInv, ReachInv, KnowsImports;
    if j !in s.jobs {
      NewJobNext(env, s, x, j);
    } else if x.Launch? || x.j != j {
      OtherJobNext(env, s, x, j);
    } else {
      OwnJobNext(env, s, x);
    }
  }

  lemma ReachNext(env: Env, init: seq<Path>, s: State, x: Action)
    requires ActorInv(env, s, x) && Enabled(env, s, x) && ReachInv(env, init, s)
    ensures ReachInv(env, init, Next(env, s, x))
  {
    hide Targets, KnowsImports, Imported;
    if x.Lookup? {
      var id := s.jobs[x.j].id;
      var from := s.modules[id].path;
      var p := Targets(env, from)[s.jobs[x.j].pc.k];
      assert from in s.table;
      ImportedFurther(env, init, from, p);
    }
  }

  lemma ImportedFurther(env: Env, init: seq<Path>, from: Path, p: Path)
    requires Imported(env, init, from) && p in Targets(env, from)
    ensures Imported(env, init, p)
  {
    hide Targets, Imports;
    TargetsAre(env, from, p);
    var c :| Chain(env, init, c) && c[|c| - 1] == from;
    assert Chain(env, init, c + [p]) && (c + [p])[|c|] == p;
  }

  lemma InvNext(env: Env, init: seq<Path>, s: State, x: Action)
    requires Inv(env, init, s) && Enabled(env, s, x)
    ensures Inv(env, init, Next(env, s, x))
  {
    hide Targets, Next, ModuleInv, JobInv, ReachInv;
    Actor(env, init, s, x);
    TableNext(env, s, x);
    BoundsNext(env, s, x);
    ReachNext(env, init, s, x);
    var s' := Next(env, s, x);
    forall j | j in s'.jobs ensures JobInv(env, s', j) {
      JobsNext(env, init, s, x, j);
    }
    forall id: ModuleId | id < |s'.modules| ensures ModuleInv(env, s', id) {
      ModulesNext(env, init, s, x, id);
    }
  }

  lemma StartModule(env: Env, init: seq<Path>, id: ModuleId)
    requires id < |init|
    ensures ModuleInv(env, Start(init), id)
  {
    hide Targets, KnowsImports, InitialTable;
    var s := Start(init);
    assert s.modules[id] == Module(init[id], false, false);
    assert id in s.table.Values <==> Listed(s, id) by {
      assert Listed(s, id) ==> s.table[init[id]] in s.table.Values;
    }
  }

  lemma StartBounds(init: seq<Path>)
    ensures TableInv(Start(init)) && BoundsInv(Start(init)) && GrowthInv(init, Start(init))
  {
    hide InitialTable;
  }

  lemma StartReach(env: Env, init: seq<Path>)
    ensures ReachInv(env, init, Start(init))
  {
    hide InitialTable, Targets;
    forall p | p in Start(init).table ensures Imported(env, init, p) {
      assert Chain(env, init, [p]) && [p][0] == p;
    }
  }

  lemma InvStart(env: Env, init: seq<Path>)
    ensures Inv(env, init, Start(init)) && GrowthInv(init, Start(init))
  {
    hide ModuleInv, JobInv, InitialTable, ReachInv, GrowthInv, TableInv, BoundsInv;
    StartBounds(init);
    StartReach(env, init);
    var s := Start(init);
    forall id: ModuleId | id < |s.modules| ensures ModuleInv(env, s, id) {
      StartModule(env, init, id);
    }
  }

  // -----------------------------------------------------------------------------------------------
  // Every run
  // -----------------------------------------------------------------------------------------------

  ghost predicate Trace(env: Env, s: State, run: seq<Action>)
    decreases |run|
  {
    run == [] || (Enabled(env, s, run[0]) && Trace(env, Next(env, s, run[0]), run[1..]))
  }

  ghost function After(env: Env, s: State, run: seq<Action>): State
    requires Trace(env, s, run)
    decreases |run|
  {
    if run == [] then s else After(env, Next(env, s, run[0]), run[1..])
  }

  /** The initial modules keep their numbers and every later one is listed. */
  ghost predicate GrowthInv(init: seq<Path>, s: State) {
    && |init| <= |s.modules|
    && (forall i :: 0 <= i < |init| ==> s.modules[i].path == init[i])
    && (forall p :: p in InitialTable(init) ==> p in s.table && s.table[p] == InitialTable(init)[p])
    && (forall id: ModuleId :: |init| <= id < |s.modules| ==> Listed(s, id))
  }

  ghost predicate Grows(s: State, s': State) {
    && |s.modules| <= |s'.modules|
    && (forall i :: 0 <= i < |s.modules| ==> s'.modules[i].path == s.modules[i].path)
    && (forall p :: p in s.table ==> p in s'.table && s'.table[p] == s.table[p])
    && (forall id: ModuleId :: |s.modules| <= id < |s'.modules| ==> Listed(s', id))
  }

  lemma LookupGrows(env: Env, s: State, x: Action)
    requires Enabled(env, s, x) && x.Lookup?
    ensures Grows(s, Next(env, s, x))
  {
    hide Targets;
  }

  lemma StepGrows(env: Env, s: State, x: Action)
    requires Enabled(env, s, x)
    ensures Grows(s, Next(env, s, x))
  {
    hide Targets;
    if x.Lookup? {
      LookupGrows(env, s, x);
    } else {
      assert Next(env, s, x).table == s.table && |Next(env, s, x).modules| == |s.modules|;
    }
  }

  lemma GrowthNext(env: Env, init: seq<Path>, s: State, x: Action)
    requires GrowthInv(init, s) && Enabled(env, s, x)
    ensures GrowthInv(init, Next(env, s, x))
  {
    hide Next, InitialTable;
    StepGrows(env, s, x);
    var s' := Next(env, s, x);
    forall id: ModuleId | |init| <= id < |s'.modules| ensures Listed(s', id) {
      assert id < |s.modules| ==> Listed(s, id);
    }
  }

  lemma {:induction false} InvRun(env: Env, init: seq<Path>, s: State, run: seq<Action>)
    requires Inv(env, init, s) && GrowthInv(init, s) && Trace(env, s, run)
    ensures Inv(env, init, After(env, s, run)) && GrowthInv(init, After(env, s, run))
    decreases |run|
  {
    hide Targets, Next, Inv, GrowthInv, InitialTable;
    if run != [] {
      InvNext(env, init, s, run[0]);
      GrowthNext(env, init, s, run[0]);
      InvRun(env, init, Next(env, s, run[0]), run[1..]);
    }
  }

  lemma TableOfInv(env: Env, init: seq<Path>, s: State)
    requires Inv(env, init, s)
    ensures TableInv(s) && BoundsInv(s)
  {
    hide Targets, KnowsImports, ModuleInv, JobInv, ReachInv;
  }

  lemma RunInv(env: Env, init: seq<Path>, run: seq<Action>)
    requires Trace(env, Start(init), run)
    ensures Inv(env, init, After(env, Start(init), run)) && GrowthInv(init, After(env, Start(init), run))
  {
    hide *;
    InvStart(env, init);
    InvRun(env, init, Start(init), run);
  }

  /** In every run each module is read at most once, no set-once field is set again, and the table stays injective. */
  lemma ReadOnce(env: Env, init: seq<Path>, run: seq<Action>, p: Path, q: Path)
    requires Trace(env, Start(init), run)
    ensures var s := After(env, Start(init), run);
            && !s.setTwice && Unique(s.starts)
            && (p in s.table ==> s.table[p] < |s.modules| && s.modules[s.table[p]].path == p)
            && (p in s.table && q in s.table && s.table[p] == s.table[q] ==> p == q)
  {
    hide After, Trace, Start, Inv, GrowthInv;
    RunInv(env, init, run);
    TableOfInv(env, init, After(env, Start(init), run));
  }

  lemma {:induction false} ChainInTable(env: Env, init: seq<Path>, s: State, c: seq<Path>)
    requires Inv(env, init, s) && s.Quiescent() && Chain(env, init, c)
    ensures c[|c| - 1] in s.table
    decreases |c|
  {
    hide Targets, Imported, Imports;
    if |c| > 1 {
      var n := |c| - 1;
      assert c[..n][|c[..n]| - 1] == c[n - 1];
      ChainInTable(env, init, s, c[..n]);
      AllOver(env, init, s, s.table[c[n - 1]]);
      TargetsAre(env, c[n - 1], c[n]);
      var t := Targets(env, c[n - 1]);
      assert c[n] in t && KnowsImports(s, t, |t|);
    }
  }

  /** With nothing left to launch and no job, every listed module is finished. */
  lemma AllOver(env: Env, init: seq<Path>, s: State, id: ModuleId)
    requires Inv(env, init, s) && s.Quiescent() && id < |s.modules|
    ensures Over(s, id) <==> Listed(s, id)
    ensures ModuleInv(env, s, id)
  {
    hide Targets, KnowsImports;
    assert ModuleInv(env, s, id);
  }

  lemma FinishedModule(env: Env, init: seq<Path>, s: State, id: ModuleId)
    requires Inv(env, init, s) && s.Quiescent() && id < |s.modules|
    ensures id in s.starts <==> Listed(s, id)
    ensures s.modules[id].vuir <==> Listed(s, id) && env.parse(s.modules[id].path).Vuir?
  {
    hide Targets, KnowsImports, Inv;
    AllOver(env, init, s, id);
  }

  lemma TableImported(env: Env, init: seq<Path>, s: State, p: Path)
    requires Inv(env, init, s) && s.Quiescent()
    ensures p in s.table <==> Imported(env, init, p)
  {
    hide Targets, KnowsImports, ModuleInv, JobInv;
    if Imported(env, init, p) {
      var c :| Chain(env, init, c) && c[|c| - 1] == p;
      ChainInTable(env, init, s, c);
    }
  }

  /**
   * Whatever the interleaving, discovery ends with exactly the import closure of the initial modules; each listed
   * module was read once, and has a VUIR exactly when its file parses.
   */
  lemma DiscoversClosure(env: Env, init: seq<Path>, run: seq<Action>)
    requires Trace(env, Start(init), run) && After(env, Start(init), run).Quiescent()
    ensures var s := After(env, Start(init), run);
            && (forall p :: p in s.table <==> Imported(env, init, p))
            && (forall id: ModuleId :: id < |s.modules| ==>
                  && (id in s.starts <==> Listed(s, id))
                  && (s.modules[id].vuir <==> Listed(s, id) && env.parse(s.modules[id].path).Vuir?))
  {
    hide *;
    RunInv(env, init, run);
    var s := After(env, Start(init), run);
    forall p ensures p in s.table <==> Imported(env, init, p) {
      TableImported(env, init, s, p);
    }
    forall id: ModuleId | id < |s.modules|
      ensures && (id in s.starts <==> Listed(s, id))
              && (s.modules[id].vuir <==> Listed(s, id) && env.parse(s.modules[id].path).Vuir?)
    {
      FinishedModule(env, init, s, id);
    }
  }

  lemma ListedIff(init: seq<Path>, s: State)
    requires GrowthInv(init, s)
    ensures (forall id: ModuleId :: id < |s.modules| ==> Listed(s, id)) <==> Unique(init)
  {
    hide InitialTable;
    var t := InitialTable(init);
    if Unique(init) {
      forall id: ModuleId | id < |s.modules| ensures Listed(s, id) {
        if id < |init| {
          assert init[t[init[id]]] == init[id];
        }
      }
    } else {
      var i, j :| 0 <= i < j < |init| && init[i] == init[j];
      assert j <= t[init[j]];
      assert !Listed(s, i);
    }
  }

  /** Every module is listed, and so gets parsed, exactly when the initial paths are distinct. */
  lemma AllListedIff(env: Env, init: seq<Path>, run: seq<Action>)
    requires Trace(env, Start(init), run)
    ensures var s := After(env, Start(init), run);
            (forall id: ModuleId :: id < |s.modules| ==> Listed(s, id)) <==> Unique(init)
  {
    hide *;
    RunInv(env, init, run);
    ListedIff(init, After(env, Start(init), run));
  }
}
