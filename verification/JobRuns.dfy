/**
 * The main loop can always still exit: from every reached state the closures alive can finish, after which the loop
 * lowers what is queued and its exit test succeeds.
 */
module JobRuns {
  import opened Options
  import opened AnalysisJobs

  // -----------------------------------------------------------------------------------------------
  // What is left to do
  // -----------------------------------------------------------------------------------------------

  function ClaimedJobs(s: State): set<nat> {
    set r | r in s.jobs && s.jobs[r].work.Claimed?
  }

  function ClonedJobs(s: State): set<nat> {
    set r | r in s.jobs && s.jobs[r].work.Cloned?
  }

  function UnmarkedJobs(s: State): set<nat> {
    set r | r in s.jobs && !s.jobs[r].phase.Marked?
  }

  /** Steps of the main thread's own set-up. */
  function SetupLeft(m: MainPc): nat {
    match m
    case Setup(Claimed(_)) => 3
    case Setup(Cloned(_, _)) => 2
    case Setup(Body) => 1
    case _ => 0
  }

  /** The steps of a closure that neither claims nor spawns anything more. */
  function JobStep(s: State, r: nat): Action
    requires r in s.jobs
  {
    var job := s.jobs[r];
    match job.work
    case Claimed(_) => Clone(Closure(r))
    case Cloned(_, _) => Spawn(Closure(r))
    case Body => if job.unit.Some? && !job.phase.Marked? then MarkDone(r) else Drop(r)
  }

  function MainStep(m: MainPc): Action
    requires m.Setup?
  {
    match m.work
    case Claimed(_) => Clone(Main)
    case Cloned(_, _) => Spawn(Main)
    case Body => EnterLoop
  }

  lemma Shrinks(a: set<nat>, b: set<nat>, r: nat)
    requires r in a && b == a - {r}
    ensures |b| < |a|
  {}

  lemma MainProgress(c: Config, s: State)
    requires RefsInv(s) && s.main.Setup?
    ensures var x := MainStep(s.main);
            Enabled(c, s, x) && SetupLeft(Next(c, s, x).main) < SetupLeft(s.main)
  {}

  /** A closure in the middle of cloning or spawning gets on with it. */
  lemma CloneProgress(c: Config, s: State, r: nat)
    requires RefsInv(s) && r in s.jobs && s.jobs[r].work.Claimed? && !s.main.Setup?
    ensures var x := JobStep(s, r);
            && Enabled(c, s, x) && Next(c, s, x).main == s.main
            && |ClaimedJobs(Next(c, s, x))| < |ClaimedJobs(s)|
  {
    assert Settled(s, r);
    var s' := Next(c, s, JobStep(s, r));
    hide RefsInv;
    assert ClaimedJobs(s') == ClaimedJobs(s) - {r};
    Shrinks(ClaimedJobs(s), ClaimedJobs(s'), r);
  }

  lemma SpawnProgress(c: Config, s: State, r: nat)
    requires RefsInv(s) && r in s.jobs && s.jobs[r].work.Cloned? && !s.main.Setup?
    ensures var x := JobStep(s, r);
            && Enabled(c, s, x) && Next(c, s, x).main == s.main
            && ClaimedJobs(Next(c, s, x)) == ClaimedJobs(s)
            && |ClonedJobs(Next(c, s, x))| < |ClonedJobs(s)|
  {
    assert Settled(s, r) && s.WorkOf(Closure(r)).Cloned?;
    assert s.WorkOf(Closure(r)).ref in s.flights;
    var s' := Next(c, s, JobStep(s, r));
    assert s.jobs[r].work.ref !in s.jobs;
    hide RefsInv;
    assert ClaimedJobs(s') == ClaimedJobs(s);
    assert ClonedJobs(s') == ClonedJobs(s) - {r};
    Shrinks(ClonedJobs(s), ClonedJobs(s'), r);
  }

  lemma MarkProgress(c: Config, s: State, r: nat)
    requires r in s.jobs && s.jobs[r].work.Body? && s.jobs[r].unit.Some? && !s.jobs[r].phase.Marked?
    ensures var x := JobStep(s, r);
            && Enabled(c, s, x) && Next(c, s, x).main == s.main
            && ClaimedJobs(Next(c, s, x)) == ClaimedJobs(s) && ClonedJobs(Next(c, s, x)) == ClonedJobs(s)
            && |UnmarkedJobs(Next(c, s, x))| < |UnmarkedJobs(s)|
  {
    var s' := Next(c, s, JobStep(s, r));
    assert ClaimedJobs(s') == ClaimedJobs(s);
    assert ClonedJobs(s') == ClonedJobs(s);
    assert UnmarkedJobs(s') == UnmarkedJobs(s) - {r};
    Shrinks(UnmarkedJobs(s), UnmarkedJobs(s'), r);
  }

  lemma DropProgress(c: Config, s: State, r: nat)
    requires r in s.jobs && s.jobs[r].work.Body? && (s.jobs[r].unit.None? || s.jobs[r].phase.Marked?)
    ensures var x := JobStep(s, r);
            && Enabled(c, s, x) && Next(c, s, x).main == s.main
            && ClaimedJobs(Next(c, s, x)) == ClaimedJobs(s) && ClonedJobs(Next(c, s, x)) == ClonedJobs(s)
            && |UnmarkedJobs(Next(c, s, x))| <= |UnmarkedJobs(s)|
            && |Next(c, s, x).jobs.Keys| < |s.jobs.Keys|
  {
    var s' := Next(c, s, JobStep(s, r));
    assert ClaimedJobs(s') == ClaimedJobs(s);
    assert ClonedJobs(s') == ClonedJobs(s);
    assert UnmarkedJobs(s') == UnmarkedJobs(s) - {r};
    Smaller(UnmarkedJobs(s), r);
    assert s'.jobs.Keys == s.jobs.Keys - {r};
    Shrinks(s.jobs.Keys, s'.jobs.Keys, r);
  }

  lemma Smaller(a: set<nat>, r: nat)
    ensures |a - {r}| <= |a|
  {
    if r in a {
      Shrinks(a, a - {r}, r);
    } else {
      assert a - {r} == a;
    }
  }

  // -----------------------------------------------------------------------------------------------
  // The runs
  // -----------------------------------------------------------------------------------------------

  lemma Prepend(c: Config, s: State, x: Action, rest: seq<Action>)
    requires Enabled(c, s, x) && Trace(c, Next(c, s, x), rest)
    ensures Trace(c, s, [x] + rest) && After(c, s, [x] + rest) == After(c, Next(c, s, x), rest)
  {
    hide Enabled, Next;
    assert ([x] + rest)[0] == x && ([x] + rest)[1..] == rest;
  }

  lemma {:induction false} Concat(c: Config, s: State, run: seq<Action>, more: seq<Action>)
    requires Trace(c, s, run) && Trace(c, After(c, s, run), more)
    ensures Trace(c, s, run + more) && After(c, s, run + more) == After(c, After(c, s, run), more)
    decreases |run|
  {
    hide Enabled, Next;
    if run == [] {
      assert run + more == more;
    } else {
      Concat(c, Next(c, s, run[0]), run[1..], more);
      assert (run + more)[0] == run[0] && (run + more)[1..] == run[1..] + more;
    }
  }

  /** The main thread leaves its set-up. */
  lemma {:induction false} SetupEnds(c: Config, s: State) returns (run: seq<Action>)
    requires Inv(c, s)
    ensures Trace(c, s, run) && !After(c, s, run).main.Setup?
    decreases SetupLeft(s.main)
  {
    run := [];
    if s.main.Setup? {
      var x := MainStep(s.main);
      MainProgress(c, s);
      InvNext(c, s, x);
      hide Enabled, Next, Inv, RefsInv;
      var rest := SetupEnds(c, Next(c, s, x));
      Prepend(c, s, x, rest);
      run := [x] + rest;
    }
  }

  /** Every closure alive finishes. */
  lemma {:induction false} JobsEnd(c: Config, s: State) returns (run: seq<Action>)
    requires Inv(c, s) && !s.main.Setup?
    ensures Trace(c, s, run) && After(c, s, run).jobs == map[] && !After(c, s, run).main.Setup?
    decreases |ClaimedJobs(s)|, |ClonedJobs(s)|, |UnmarkedJobs(s)|, |s.jobs.Keys|
  {
    RefsOf(c, s);
    hide Enabled, Next, Inv, RefsInv, ClaimedJobs, ClonedJobs, UnmarkedJobs, JobStep;
    run := [];
    if s.jobs != map[] {
      var r := SomeJob(s.jobs);
      var x := JobStep(s, r);
      if s.jobs[r].work.Claimed? {
        CloneProgress(c, s, r);
      } else if s.jobs[r].work.Cloned? {
        SpawnProgress(c, s, r);
      } else if s.jobs[r].unit.Some? && !s.jobs[r].phase.Marked? {
        MarkProgress(c, s, r);
      } else {
        DropProgress(c, s, r);
      }
      InvNext(c, s, x);
      var rest := JobsEnd(c, Next(c, s, x));
      Prepend(c, s, x, rest);
      run := [x] + rest;
    }
  }

  lemma RefsOf(c: Config, s: State)
    requires Inv(c, s)
    ensures RefsInv(s)
  {}

  lemma SomeJob(jobs: map<nat, Job>) returns (r: nat)
    requires jobs != map[]
    ensures r in jobs
  {
    assert (forall i :: i !in jobs) ==> jobs == map[];
    r :| r in jobs;
  }

  /** How far the main loop is from its exit when the queue is empty, or from its next pop. */
  function LoopLeft(m: MainPc, empty: bool): nat {
    match m
    case Draining => if empty then 4 else 1
    case Test => 3
    case HalfTested => 2
    case _ => 0
  }

  function LoopStep(s: State): Action {
    match s.main
    case Test => TestFirst
    case HalfTested => TestSecond
    case _ => if s.queue == [] then PopNothing else Pop
  }

  lemma LoopProgress(c: Config, s: State)
    requires s.refs == {0} && !s.main.Setup? && !s.main.Exited?
    ensures Enabled(c, s, LoopStep(s))
    ensures var s' := Next(c, s, LoopStep(s));
            && s'.refs == {0} && !s'.main.Setup? && |s'.queue| <= |s.queue|
            && (|s'.queue| == |s.queue| ==> LoopLeft(s'.main, s'.queue == []) < LoopLeft(s.main, s.queue == []))
  {}

  /** With no closure left the loop lowers what is queued and exits. */
  lemma {:induction false} LoopEnds(c: Config, s: State) returns (run: seq<Action>)
    requires s.refs == {0} && !s.main.Setup?
    ensures Trace(c, s, run) && After(c, s, run).main.Exited?
    decreases |s.queue|, LoopLeft(s.main, s.queue == [])
  {
    hide Enabled, Next, LoopStep, LoopLeft;
    run := [];
    if !s.main.Exited? {
      var x := LoopStep(s);
      LoopProgress(c, s);
      var rest := LoopEnds(c, Next(c, s, x));
      Prepend(c, s, x, rest);
      run := [x] + rest;
    }
  }

  lemma OnlyMainsReference(c: Config, s: State)
    requires Inv(c, s) && s.jobs == map[] && !s.main.Setup?
    ensures s.refs == {0}
  {
    forall r ensures r !in s.flights {
      assert r in s.flights ==> s.Acts(s.flights[r]);
    }
  }

  /**
   * The loop can always still exit: whatever has happened, some continuation takes every closure to its end and the
   * main thread out of its loop; what holds then is `AnalysisJobs.ExitIsFinal`.
   */
  lemma ExitIsReachable(c: Config, s: State) returns (run: seq<Action>)
    requires Reaches(c, s)
    ensures Trace(c, s, run) && After(c, s, run).main.Exited?
  {
    ReachesInv(c, s);
    hide Inv, RefsInv, Enabled, Next, Trace, After;
    var setup := SetupEnds(c, s);
    InvRun(c, s, setup);
    var s1 := After(c, s, setup);
    var jobs := JobsEnd(c, s1);
    InvRun(c, s1, jobs);
    var s2 := After(c, s1, jobs);
    OnlyMainsReference(c, s2);
    var loop := LoopEnds(c, s2);
    Concat(c, s1, jobs, loop);
    Concat(c, s, setup, jobs + loop);
    run := setup + (jobs + loop);
  }

  /** Once nothing is left, the two halves of the exit test succeed, one after the other. */
  lemma TestSucceeds(c: Config, s: State)
    requires s.main.Test? && s.refs == {0} && s.queue == []
    ensures Trace(c, s, [TestFirst, TestSecond]) && After(c, s, [TestFirst, TestSecond]).main.Exited?
  {
    var s1 := Next(c, s, TestFirst);
    Prepend(c, s1, TestSecond, []);
    Prepend(c, s, TestFirst, [TestSecond] + []);
    assert [TestFirst] + ([TestSecond] + []) == [TestFirst, TestSecond];
  }
}
