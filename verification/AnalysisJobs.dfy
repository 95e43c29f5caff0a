/**
 * Analysis jobs, the code-generation queue and the main loop of `compile`, as a step machine.
 *
 * Every spawned closure owns a clone of the compilation unit's `Arc`; the main loop stops when its own clone is the
 * only one and the queue is empty, reading the count first.
 */
module AnalysisJobs {
  import opened Options

  /** A unit of semantic analysis: a declaration or a runtime function. */
  type SemaUnit = nat

  datatype UnitState = Queued | Done

  /** Who executes a step: the main thread while it sets up, or the closure owning this reference. */
  datatype Actor = Main | Closure(ref: nat)

  /** What an executing body is in the middle of. */
  datatype Work =
    | Body
    | Claimed(unit: SemaUnit)                        // entered as Queued, lock released; next: clone the Arc
    | Cloned(task: Option<SemaUnit>, ref: nat)       // next: spawn the closure

  /** A unit's closure runs its analysis, may push a function to code generation, enters Done and is dropped. */
  datatype Phase = Running | Pushed | Marked

  /** A live closure; the ones that analyse no unit (a module, the main declaration) have none. */
  datatype Job = Job(unit: Option<SemaUnit>, work: Work, phase: Phase)

  datatype MainPc =
    | Setup(work: Work)      // before the loop: analyses the builtin modules, spawns the first closures
    | Test                   // next: the first half of the exit test
    | HalfTested             // the first half held; next: the second half
    | Draining               // pops and lowers until the queue is empty
    | Exited

  /** Whether the exit test reads the reference count before the queue. */
  datatype Config = Config(countFirst: bool)

  /**
   * References of the `Arc` are named; 0 is the main thread's. `flights` names who has cloned a reference it has not
   * spawned yet, `holder` who is responsible for a queued unit; `claims`, `pushed` and `lowered` are history.
   */
  datatype State = State(
    refs: set<nat>,
    nextRef: nat,
    jobs: map<nat, Job>,
    main: MainPc,
    table: map<SemaUnit, UnitState>,
    queue: seq<SemaUnit>,
    flights: map<nat, Actor>,
    holder: map<SemaUnit, Actor>,
    claims: seq<SemaUnit>,
    pushed: seq<SemaUnit>,
    lowered: seq<SemaUnit>)
  {
    /** The actor exists and its body can take steps. */
    predicate Acts(a: Actor) {
      match a
      case Main => main.Setup?
      case Closure(r) => r in jobs && jobs[r].phase.Running?
    }

    function WorkOf(a: Actor): Work {
      match a
      case Main => if main.Setup? then main.work else Body
      case Closure(r) => if r in jobs then jobs[r].work else Body
    }

    function SetWork(a: Actor, w: Work): State
      requires Acts(a)
    {
      match a
      case Main => this.(main := Setup(w))
      case Closure(r) => this.(jobs := jobs[r := jobs[r].(work := w)])
    }

    predicate CountIsOne() {
      |refs| == 1
    }
  }

  function Start(): State {
    State({0}, 1, map[], Setup(Body), map[], [], map[], map[], [], [], [])
  }

  datatype Action =
    | Claim(a: Actor, unit: SemaUnit)      // analyze_sema_unit_if_needed on a unit not yet in the table
    | Clone(a: Actor)                      // clones the Arc for a claimed unit
    | CloneOther(a: Actor)                 // clones the Arc for a closure without unit
    | Spawn(a: Actor)
    | PushTask(r: nat)
    | MarkDone(r: nat)
    | Drop(r: nat)
    | EnterLoop
    | TestFirst
    | TestSecond
    | Pop
    | PopNothing

  predicate Enabled(c: Config, s: State, x: Action) {
    match x
    case Claim(a, u) => s.Acts(a) && s.WorkOf(a).Body? && u !in s.table
    case Clone(a) => s.Acts(a) && s.WorkOf(a).Claimed?
    case CloneOther(a) => s.Acts(a) && s.WorkOf(a).Body?
    case Spawn(a) => s.Acts(a) && s.WorkOf(a).Cloned?
    case PushTask(r) => r in s.jobs && s.jobs[r].unit.Some? && s.jobs[r].work.Body? && s.jobs[r].phase.Running?
    case MarkDone(r) => r in s.jobs && s.jobs[r].unit.Some? && s.jobs[r].work.Body? && !s.jobs[r].phase.Marked?
    case Drop(r) => r in s.jobs && s.jobs[r].work.Body? && (s.jobs[r].unit.Some? ==> s.jobs[r].phase.Marked?)
    case EnterLoop => s.main == Setup(Body)
    case TestFirst => s.main.Test?
    case TestSecond => s.main.HalfTested?
    case Pop => s.main.Draining? && s.queue != []
    case PopNothing => s.main.Draining? && s.queue == []
  }

  function Next(c: Config, s: State, x: Action): State
    requires Enabled(c, s, x)
  {
    match x
    case Claim(a, u) =>
      s.SetWork(a, Claimed(u)).(
        table := s.table[u := Queued], holder := s.holder[u := a], claims := s.claims + [u])
    case Clone(a) =>
      s.SetWork(a, Cloned(Some(s.WorkOf(a).unit), s.nextRef)).(
        refs := s.refs + {s.nextRef}, nextRef := s.nextRef + 1, flights := s.flights[s.nextRef := a])
    case CloneOther(a) =>
      s.SetWork(a, Cloned(None, s.nextRef)).(
        refs := s.refs + {s.nextRef}, nextRef := s.nextRef + 1, flights := s.flights[s.nextRef := a])
    case Spawn(a) =>
      var w := s.WorkOf(a);
      var s' := s.SetWork(a, Body);
      s'.(
        jobs := s'.jobs[w.ref := Job(w.task, Body, Running)],
        flights := s.flights - {w.ref},
        holder := if w.task.Some? then s.holder[w.task.value := Closure(w.ref)] else s.holder)
    case PushTask(r) =>
      var u := s.jobs[r].unit.value;
      s.(jobs := s.jobs[r := s.jobs[r].(phase := Pushed)], queue := s.queue + [u], pushed := s.pushed + [u])
    case MarkDone(r) =>
      var u := s.jobs[r].unit.value;
      s.(jobs := s.jobs[r := s.jobs[r].(phase := Marked)], table := s.table[u := Done], holder := s.holder - {u})
    case Drop(r) => s.(jobs := s.jobs - {r}, refs := s.refs - {r})
    case EnterLoop => s.(main := Test)
    case TestFirst =>
      s.(main := if (if c.countFirst then s.CountIsOne() else s.queue == []) then HalfTested else Draining)
    case TestSecond =>
      s.(main := if (if c.countFirst then s.queue == [] else s.CountIsOne()) then Exited else Draining)
    case Pop => s.(queue := s.queue[1..], lowered := s.lowered + [s.queue[0]])
    case PopNothing => s.(main := Test)
  }

  // -----------------------------------------------------------------------------------------------
  // Invariants
  // -----------------------------------------------------------------------------------------------

  predicate Unique(q: seq<SemaUnit>) {
    forall i, j :: 0 <= i < j < |q| ==> q[i] != q[j]
  }

  /** The references are exactly the main thread's, those of live closures and those not spawned yet. */
  ghost predicate RefsInv(s: State) {
    && s.refs == {0} + s.jobs.Keys + s.flights.Keys
    && (forall r :: r in s.refs ==> r < s.nextRef)
    && 0 !in s.jobs && 0 !in s.flights
    && (forall r :: r in s.flights ==> r !in s.jobs && s.Acts(s.flights[r]) && FlightOf(s, s.flights[r], r))
    && (forall a :: s.WorkOf(a).Cloned? ==>
          s.Acts(a) && s.WorkOf(a).ref in s.flights && s.flights[s.WorkOf(a).ref] == a)
    && (forall r :: Settled(s, r))
  }

  /** A closure whose body is no longer running is in the middle of nothing. */
  predicate Settled(s: State, r: nat) {
    r in s.jobs && !s.jobs[r].phase.Running? ==> s.jobs[r].work.Body?
  }

  predicate FlightOf(s: State, a: Actor, r: nat) {
    s.WorkOf(a).Cloned? && s.WorkOf(a).ref == r
  }

  /** The actor is the one that will bring the unit to Done. */
  predicate Responsible(s: State, a: Actor, u: SemaUnit) {
    Starts(s, a, u) || Analyses(s, a, u)
  }

  predicate Analyses(s: State, a: Actor, u: SemaUnit) {
    a.Closure? && a.ref in s.jobs && s.jobs[a.ref].unit == Some(u) && !s.jobs[a.ref].phase.Marked?
  }

  /** The actor is about to spawn the closure that will analyse the unit. */
  predicate Starts(s: State, a: Actor, u: SemaUnit) {
    s.WorkOf(a) == Claimed(u) || (s.WorkOf(a).Cloned? && s.WorkOf(a).task == Some(u))
  }

  /** Each unit is claimed once and, while queued, exactly one actor answers for it. */
  ghost predicate UnitsInv(s: State) {
    && Unique(s.claims) && (forall u :: u in s.claims <==> u in s.table)
    && (forall u :: u in s.holder <==> u in s.table && s.table[u].Queued?)
    && (forall u :: u in s.holder ==> Responsible(s, s.holder[u], u))
    && (forall a, u :: Responsible(s, a, u) ==> u in s.holder && s.holder[u] == a)
    && (forall a, u :: Starts(s, a, u) ==> s.Acts(a) && !Analyses(s, a, u))
  }

  /** Functions leave the queue in the order they were pushed, and only a unit's own closure pushes it, once. */
  ghost predicate QueueInv(s: State) {
    && s.pushed == s.lowered + s.queue
    && Unique(s.pushed)
    && (forall u :: u in s.pushed ==> u in s.table)
    && (forall u :: u in s.pushed && s.table[u].Queued? ==> PushedBy(s, u))
  }

  predicate PushedBy(s: State, u: SemaUnit) {
    u in s.holder && Analyses(s, s.holder[u], u) && s.jobs[s.holder[u].ref].phase.Pushed?
  }

  ghost predicate MainInv(c: Config, s: State) {
    && (c.countFirst && s.main.HalfTested? ==> s.refs == {0})
    && (c.countFirst && s.main.Exited? ==> s.refs == {0} && s.queue == [])
  }

  ghost predicate Inv(c: Config, s: State) {
    RefsInv(s) && UnitsInv(s) && QueueInv(s) && MainInv(c, s)
  }

  // -----------------------------------------------------------------------------------------------
  // What a step does to the actors
  // -----------------------------------------------------------------------------------------------

  function WorkAfter(s: State, x: Action, a: Actor): Work {
    match x
    case Claim(b, u) => if a == b then Claimed(u) else s.WorkOf(a)
    case Clone(b) =>
      if a == b && s.WorkOf(a).Claimed? then Cloned(Some(s.WorkOf(a).unit), s.nextRef) else s.WorkOf(a)
    case CloneOther(b) => if a == b then Cloned(None, s.nextRef) else s.WorkOf(a)
    case Spawn(b) => if a == b then Body else s.WorkOf(a)
    case _ => s.WorkOf(a)
  }

  predicate ActsAfter(s: State, x: Action, a: Actor) {
    match x
    case Spawn(b) => s.Acts(a) || (s.WorkOf(b).Cloned? && a == Closure(s.WorkOf(b).ref))
    case PushTask(r) => s.Acts(a) && a != Closure(r)
    case MarkDone(r) => s.Acts(a) && a != Closure(r)
    case Drop(r) => s.Acts(a) && a != Closure(r)
    case EnterLoop => s.Acts(a) && a != Main
    case _ => s.Acts(a)
  }

  predicate AnalysesAfter(s: State, x: Action, a: Actor, u: SemaUnit) {
    match x
    case Spawn(b) =>
      Analyses(s, a, u) ||
      (s.WorkOf(b).Cloned? && a == Closure(s.WorkOf(b).ref) && s.WorkOf(b).task == Some(u))
    case MarkDone(r) => Analyses(s, a, u) && a != Closure(r)
    case _ => Analyses(s, a, u)
  }

  lemma SetWorkEffect(s: State, a: Actor, w: Work, b: Actor)
    requires s.Acts(a)
    ensures s.SetWork(a, w).WorkOf(b) == if a == b then w else s.WorkOf(b)
    ensures s.SetWork(a, w).Acts(b) <==> s.Acts(b)
    ensures s.SetWork(a, w).jobs.Keys == s.jobs.Keys
  {}

  lemma BodyStepEffect(c: Config, s: State, x: Action, b: Actor)
    requires RefsInv(s) && Enabled(c, s, x) && (x.Claim? || x.Clone? || x.CloneOther? || x.Spawn?)
    ensures Next(c, s, x).WorkOf(b) == WorkAfter(s, x, b)
    ensures Next(c, s, x).Acts(b) <==> ActsAfter(s, x, b)
  {
    var w := WorkAfter(s, x, x.a);
    SetWorkEffect(s, x.a, w, b);
    if x.Spawn? {
      assert s.WorkOf(x.a).ref !in s.jobs;
    }
  }

  lemma ActorNext(c: Config, s: State, x: Action, a: Actor)
    requires RefsInv(s) && Enabled(c, s, x)
    ensures Next(c, s, x).WorkOf(a) == WorkAfter(s, x, a)
    ensures Next(c, s, x).Acts(a) <==> ActsAfter(s, x, a)
  {
    if x.Claim? || x.Clone? || x.CloneOther? || x.Spawn? {
      BodyStepEffect(c, s, x, a);
    }
  }

  /** Only spawning, marking and dropping change which closures there are and what they analyse. */
  lemma SpawnAnalyses(c: Config, s: State, x: Action, a: Actor, u: SemaUnit)
    requires RefsInv(s) && Enabled(c, s, x) && x.Spawn?
    ensures Analyses(Next(c, s, x), a, u) <==> AnalysesAfter(s, x, a, u)
  {
    assert s.WorkOf(x.a).ref !in s.jobs;
  }

  lemma BodyAnalyses(c: Config, s: State, x: Action, a: Actor, u: SemaUnit)
    requires Enabled(c, s, x) && (x.Claim? || x.Clone? || x.CloneOther?)
    ensures Analyses(Next(c, s, x), a, u) <==> Analyses(s, a, u)
  {}

  lemma JobAnalyses(c: Config, s: State, x: Action, a: Actor, u: SemaUnit)
    requires Enabled(c, s, x) && (x.PushTask? || x.MarkDone? || x.Drop?)
    ensures Analyses(Next(c, s, x), a, u) <==> AnalysesAfter(s, x, a, u)
  {}

  lemma MainAnalyses(c: Config, s: State, x: Action, a: Actor, u: SemaUnit)
    requires Enabled(c, s, x) && (x.EnterLoop? || x.TestFirst? || x.TestSecond? || x.Pop? || x.PopNothing?)
    ensures Analyses(Next(c, s, x), a, u) <==> Analyses(s, a, u)
  {}

  lemma AnalysesNext(c: Config, s: State, x: Action, a: Actor, u: SemaUnit)
    requires RefsInv(s) && Enabled(c, s, x)
    ensures Analyses(Next(c, s, x), a, u) <==> AnalysesAfter(s, x, a, u)
  {
    hide Next, RefsInv, Analyses;
    if x.Spawn? {
      SpawnAnalyses(c, s, x, a, u);
    } else if x.Claim? || x.Clone? || x.CloneOther? {
      BodyAnalyses(c, s, x, a, u);
    } else if x.PushTask? || x.MarkDone? || x.Drop? {
      JobAnalyses(c, s, x, a, u);
    } else {
      MainAnalyses(c, s, x, a, u);
    }
  }

  // -----------------------------------------------------------------------------------------------
  // Every step keeps the invariants
  // -----------------------------------------------------------------------------------------------

  /** How a step changes the sets of live closures and of references under way. */
  lemma SpawnSets(c: Config, s: State, x: Action)
    requires RefsInv(s) && Enabled(c, s, x) && x.Spawn?
    ensures var r := s.WorkOf(x.a).ref;
            && r in s.flights && Next(c, s, x).refs == s.refs && Next(c, s, x).nextRef == s.nextRef
            && Next(c, s, x).jobs.Keys == s.jobs.Keys + {r} && Next(c, s, x).flights == s.flights - {r}
  {
    SetWorkEffect(s, x.a, Body, x.a);
  }

  lemma CloneSets(c: Config, s: State, x: Action)
    requires RefsInv(s) && Enabled(c, s, x) && (x.Clone? || x.CloneOther?)
    ensures && Next(c, s, x).refs == s.refs + {s.nextRef} && Next(c, s, x).nextRef == s.nextRef + 1
            && Next(c, s, x).jobs.Keys == s.jobs.Keys && Next(c, s, x).flights == s.flights[s.nextRef := x.a]
  {
    SetWorkEffect(s, x.a, WorkAfter(s, x, x.a), x.a);
  }

  lemma DropSets(c: Config, s: State, x: Action)
    requires RefsInv(s) && Enabled(c, s, x) && x.Drop?
    ensures && Next(c, s, x).refs == s.refs - {x.r} && Next(c, s, x).nextRef == s.nextRef
            && Next(c, s, x).jobs.Keys == s.jobs.Keys - {x.r} && Next(c, s, x).flights == s.flights
            && x.r != 0 && x.r !in s.flights
  {}

  lemma OtherSets(c: Config, s: State, x: Action)
    requires RefsInv(s) && Enabled(c, s, x) && !x.Spawn? && !x.Clone? && !x.CloneOther? && !x.Drop?
    ensures && Next(c, s, x).refs == s.refs && Next(c, s, x).nextRef == s.nextRef
            && Next(c, s, x).jobs.Keys == s.jobs.Keys && Next(c, s, x).flights == s.flights
  {
    hide RefsInv;
    if x.Claim? {
      SetWorkEffect(s, x.a, Claimed(x.unit), x.a);
    } else if x.PushTask? || x.MarkDone? {
      assert Next(c, s, x).jobs.Keys == s.jobs.Keys;
    }
  }

  lemma RefSetNext(c: Config, s: State, x: Action)
    requires RefsInv(s) && Enabled(c, s, x)
    ensures var s' := Next(c, s, x);
            && s'.refs == {0} + s'.jobs.Keys + s'.flights.Keys && (forall r :: r in s'.refs ==> r < s'.nextRef)
            && 0 !in s'.jobs && 0 !in s'.flights
  {
    hide Next, WorkAfter;
    if x.Spawn? {
      SpawnSets(c, s, x);
    } else if x.Clone? || x.CloneOther? {
      CloneSets(c, s, x);
    } else if x.Drop? {
      DropSets(c, s, x);
    } else {
      OtherSets(c, s, x);
    }
  }

  lemma BodySettled(c: Config, s: State, x: Action, r: nat)
    requires Enabled(c, s, x) && (x.Claim? || x.Clone? || x.CloneOther? || x.Spawn?) && Settled(s, r)
    ensures Settled(Next(c, s, x), r)
  {}

  lemma JobSettled(c: Config, s: State, x: Action, r: nat)
    requires Enabled(c, s, x) && (x.PushTask? || x.MarkDone? || x.Drop?) && Settled(s, r)
    ensures Settled(Next(c, s, x), r)
  {}

  lemma SettledNext(c: Config, s: State, x: Action, r: nat)
    requires Enabled(c, s, x) && Settled(s, r)
    ensures Settled(Next(c, s, x), r)
  {
    if x.Claim? || x.Clone? || x.CloneOther? || x.Spawn? {
      BodySettled(c, s, x, r);
    } else if x.PushTask? || x.MarkDone? || x.Drop? {
      JobSettled(c, s, x, r);
    } else {
      assert Next(c, s, x).jobs == s.jobs;
    }
  }

  lemma FlightNext(c: Config, s: State, x: Action, r: nat)
    requires RefsInv(s) && Enabled(c, s, x) && r in Next(c, s, x).flights
    ensures var s' := Next(c, s, x);
            r !in s'.jobs && s'.Acts(s'.flights[r]) && FlightOf(s', s'.flights[r], r)
  {
    hide Next;
    ActorNext(c, s, x, Next(c, s, x).flights[r]);
    if r in s.flights {
      assert FlightOf(s, s.flights[r], r);
    }
    if x.Spawn? {
      SpawnSets(c, s, x);
    } else if x.Clone? || x.CloneOther? {
      CloneSets(c, s, x);
    } else if x.Drop? {
      DropSets(c, s, x);
    } else {
      OtherSets(c, s, x);
    }
  }

  lemma ClonedNext(c: Config, s: State, x: Action, a: Actor)
    requires RefsInv(s) && Enabled(c, s, x) && Next(c, s, x).WorkOf(a).Cloned?
    ensures var s' := Next(c, s, x);
            s'.Acts(a) && s'.WorkOf(a).ref in s'.flights && s'.flights[s'.WorkOf(a).ref] == a
  {
    ActorNext(c, s, x, a);
    if s.WorkOf(a).Cloned? {
      assert s.flights[s.WorkOf(a).ref] == a;
    }
    if x.Spawn? {
      assert s.flights[s.WorkOf(x.a).ref] == x.a;
    }
  }

  lemma RefsNext(c: Config, s: State, x: Action)
    requires RefsInv(s) && Enabled(c, s, x)
    ensures RefsInv(Next(c, s, x))
  {
    hide Next, Settled;
    var s' := Next(c, s, x);
    RefSetNext(c, s, x);
    forall r ensures Settled(s', r) {
      SettledNext(c, s, x, r);
    }
    forall r | r in s'.flights ensures r !in s'.jobs && s'.Acts(s'.flights[r]) && FlightOf(s', s'.flights[r], r) {
      FlightNext(c, s, x, r);
    }
    forall a | s'.WorkOf(a).Cloned?
      ensures s'.Acts(a) && s'.WorkOf(a).ref in s'.flights && s'.flights[s'.WorkOf(a).ref] == a
    {
      ClonedNext(c, s, x, a);
    }
  }

  predicate StartsAfter(s: State, x: Action, a: Actor, u: SemaUnit) {
    match x
    case Claim(b, v) => if a == b then u == v else Starts(s, a, u)
    case Spawn(b) => Starts(s, a, u) && a != b
    case CloneOther(b) => Starts(s, a, u) && a != b
    case _ => Starts(s, a, u)
  }

  lemma StartsNext(c: Config, s: State, x: Action, a: Actor, u: SemaUnit)
    requires RefsInv(s) && Enabled(c, s, x)
    ensures Starts(Next(c, s, x), a, u) <==> StartsAfter(s, x, a, u)
  {
    ActorNext(c, s, x, a);
  }

  function HolderAfter(s: State, x: Action): map<SemaUnit, Actor> {
    match x
    case Claim(a, u) => s.holder[u := a]
    case Spawn(a) =>
      var w := s.WorkOf(a);
      if w.Cloned? && w.task.Some? then s.holder[w.task.value := Closure(w.ref)] else s.holder
    case MarkDone(r) => if r in s.jobs && s.jobs[r].unit.Some? then s.holder - {s.jobs[r].unit.value} else s.holder
    case _ => s.holder
  }

  function TableAfter(s: State, x: Action): map<SemaUnit, UnitState> {
    match x
    case Claim(a, u) => s.table[u := Queued]
    case MarkDone(r) => if r in s.jobs && s.jobs[r].unit.Some? then s.table[s.jobs[r].unit.value := Done] else s.table
    case _ => s.table
  }

  lemma SetWorkFrame(s: State, a: Actor, w: Work)
    requires s.Acts(a)
    ensures var s' := s.SetWork(a, w);
            s'.table == s.table && s'.holder == s.holder && s'.claims == s.claims
            && s'.queue == s.queue && s'.pushed == s.pushed && s'.lowered == s.lowered
  {}

  lemma HolderEffect(c: Config, s: State, x: Action)
    requires Enabled(c, s, x)
    ensures Next(c, s, x).holder == HolderAfter(s, x)
  {
    hide State.Acts, State.SetWork;
    if x.Claim? || x.Clone? || x.CloneOther? || x.Spawn? {
      SetWorkFrame(s, x.a, WorkAfter(s, x, x.a));
    }
  }

  lemma TableEffect(c: Config, s: State, x: Action)
    requires Enabled(c, s, x)
    ensures Next(c, s, x).table == TableAfter(s, x)
    ensures Next(c, s, x).claims == if x.Claim? then s.claims + [x.unit] else s.claims
  {
    hide State.Acts, State.SetWork;
    if x.Claim? || x.Clone? || x.CloneOther? || x.Spawn? {
      SetWorkFrame(s, x.a, WorkAfter(s, x, x.a));
    }
  }

  lemma SpawnResponsible(c: Config, s: State, x: Action, a: Actor, u: SemaUnit)
    requires RefsInv(s) && UnitsInv(s) && Enabled(c, s, x) && x.Spawn?
    requires StartsAfter(s, x, a, u) || AnalysesAfter(s, x, a, u)
    ensures u in HolderAfter(s, x) && HolderAfter(s, x)[u] == a
  {
    assert Responsible(s, a, u) ==> u in s.holder && s.holder[u] == a;
    var w := s.WorkOf(x.a);
    assert w.ref !in s.jobs;
    assert w.task.Some? ==> Starts(s, x.a, w.task.value) && Responsible(s, x.a, w.task.value);
  }

  lemma MarkResponsible(c: Config, s: State, x: Action, a: Actor, u: SemaUnit)
    requires UnitsInv(s) && Enabled(c, s, x) && x.MarkDone?
    requires StartsAfter(s, x, a, u) || AnalysesAfter(s, x, a, u)
    ensures u in HolderAfter(s, x) && HolderAfter(s, x)[u] == a
  {
    assert Responsible(s, a, u) ==> u in s.holder && s.holder[u] == a;
    var v := s.jobs[x.r].unit.value;
    assert Analyses(s, Closure(x.r), v) && Responsible(s, Closure(x.r), v);
  }

  /** Whoever answers for a unit after a step is recorded as its holder. */
  lemma ResponsibleNext(c: Config, s: State, x: Action, a: Actor, u: SemaUnit)
    requires RefsInv(s) && UnitsInv(s) && Enabled(c, s, x)
    requires StartsAfter(s, x, a, u) || AnalysesAfter(s, x, a, u)
    ensures u in Next(c, s, x).holder && Next(c, s, x).holder[u] == a
  {
    hide Next, RefsInv;
    HolderEffect(c, s, x);
    if x.Spawn? {
      SpawnResponsible(c, s, x, a, u);
    } else if x.MarkDone? {
      MarkResponsible(c, s, x, a, u);
    } else {
      assert Responsible(s, a, u) ==> u in s.holder && s.holder[u] == a;
    }
  }

  /** The recorded holder of a unit answers for it after a step. */
  lemma HolderNext(c: Config, s: State, x: Action, u: SemaUnit)
    requires RefsInv(s) && UnitsInv(s) && Enabled(c, s, x) && u in Next(c, s, x).holder
    ensures var a := Next(c, s, x).holder[u]; StartsAfter(s, x, a, u) || AnalysesAfter(s, x, a, u)
  {
    hide Next, RefsInv;
    HolderEffect(c, s, x);
    assert u in s.holder ==> Responsible(s, s.holder[u], u);
    if x.MarkDone? {
      MarkedHolder(c, s, x.r);
    }
  }

  lemma MarkedHolder(c: Config, s: State, r: nat)
    requires RefsInv(s) && UnitsInv(s) && Enabled(c, s, MarkDone(r))
    ensures var u := s.jobs[r].unit.value;
            u in s.holder && s.holder[u] == Closure(r) && forall v :: Responsible(s, Closure(r), v) <==> v == u
  {
    assert Responsible(s, Closure(r), s.jobs[r].unit.value);
  }

  lemma StartsOthersOnly(c: Config, s: State, x: Action, a: Actor, u: SemaUnit)
    requires RefsInv(s) && UnitsInv(s) && Enabled(c, s, x) && StartsAfter(s, x, a, u)
    ensures ActsAfter(s, x, a) && !AnalysesAfter(s, x, a, u)
  {
    assert Starts(s, a, u) ==> s.Acts(a) && !Analyses(s, a, u);
    assert Responsible(s, a, u) ==> u in s.holder && s.holder[u] == a;
    if x.Spawn? {
      assert s.WorkOf(x.a).ref !in s.jobs;
    }
  }

  lemma ClaimsNext(c: Config, s: State, x: Action)
    requires UnitsInv(s) && Enabled(c, s, x)
    ensures var s' := Next(c, s, x); Unique(s'.claims) && forall u :: u in s'.claims <==> u in s'.table
  {
    hide Next, Responsible, Starts;
    TableEffect(c, s, x);
    if x.Claim? {
      assert x.unit !in s.claims;
    } else if x.MarkDone? {
      assert Analyses(s, Closure(x.r), s.jobs[x.r].unit.value);
      MarkedInTable(c, s, x.r);
    }
  }

  lemma MarkedInTable(c: Config, s: State, r: nat)
    requires UnitsInv(s) && Enabled(c, s, MarkDone(r))
    ensures s.jobs[r].unit.value in s.table
  {
    assert Responsible(s, Closure(r), s.jobs[r].unit.value);
  }

  /** The units with a holder are the queued ones. */
  lemma QueuedNext(c: Config, s: State, x: Action, u: SemaUnit)
    requires RefsInv(s) && UnitsInv(s) && Enabled(c, s, x)
    ensures var s' := Next(c, s, x); u in s'.holder <==> u in s'.table && s'.table[u].Queued?
  {
    hide Next, RefsInv;
    HolderEffect(c, s, x);
    TableEffect(c, s, x);
    if x.Spawn? {
      var w := s.WorkOf(x.a);
      assert w.task.Some? ==> Starts(s, x.a, w.task.value) && Responsible(s, x.a, w.task.value);
    } else if x.MarkDone? {
      MarkedHolder(c, s, x.r);
    }
  }

  lemma UnitsNext(c: Config, s: State, x: Action)
    requires RefsInv(s) && UnitsInv(s) && Enabled(c, s, x)
    ensures UnitsInv(Next(c, s, x))
  {
    hide Next, RefsInv, Starts, Analyses, StartsAfter, AnalysesAfter, ActsAfter;
    var s' := Next(c, s, x);
    ClaimsNext(c, s, x);
    forall u ensures u in s'.holder <==> u in s'.table && s'.table[u].Queued? {
      QueuedNext(c, s, x, u);
    }
    forall u | u in s'.holder ensures Responsible(s', s'.holder[u], u) {
      HolderNext(c, s, x, u);
      StartsNext(c, s, x, s'.holder[u], u);
      AnalysesNext(c, s, x, s'.holder[u], u);
    }
    forall a, u | Responsible(s', a, u) ensures u in s'.holder && s'.holder[u] == a {
      StartsNext(c, s, x, a, u);
      AnalysesNext(c, s, x, a, u);
      ResponsibleNext(c, s, x, a, u);
    }
    forall a, u | Starts(s', a, u) ensures s'.Acts(a) && !Analyses(s', a, u) {
      StartsNext(c, s, x, a, u);
      AnalysesNext(c, s, x, a, u);
      ActorNext(c, s, x, a);
      StartsOthersOnly(c, s, x, a, u);
    }
  }

  lemma PushNext(c: Config, s: State, r: nat)
    requires RefsInv(s) && UnitsInv(s) && QueueInv(s) && Enabled(c, s, PushTask(r))
    ensures QueueInv(Next(c, s, PushTask(r)))
  {
    var s', u := Next(c, s, PushTask(r)), s.jobs[r].unit.value;
    assert Responsible(s, Closure(r), u);
    assert u !in s.pushed by { assert u in s.pushed ==> PushedBy(s, u); }
    forall v | v in s'.pushed && s'.table[v].Queued? ensures PushedBy(s', v) {
      assert v != u ==> PushedBy(s, v);
    }
  }

  lemma QueueEffect(c: Config, s: State, x: Action)
    requires Enabled(c, s, x) && !x.PushTask? && s.pushed == s.lowered + s.queue
    ensures var s' := Next(c, s, x); s'.pushed == s.pushed && s'.pushed == s'.lowered + s'.queue
  {
    hide State.Acts, State.SetWork;
    if x.Claim? || x.Clone? || x.CloneOther? || x.Spawn? {
      SetWorkFrame(s, x.a, WorkAfter(s, x, x.a));
    }
  }

  lemma OtherQueueNext(c: Config, s: State, x: Action)
    requires RefsInv(s) && UnitsInv(s) && QueueInv(s) && Enabled(c, s, x) && !x.PushTask?
    ensures QueueInv(Next(c, s, x))
  {
    hide Next, RefsInv, UnitsInv, PushedBy, Unique;
    var s' := Next(c, s, x);
    QueueEffect(c, s, x);
    TableEffect(c, s, x);
    forall v | v in s'.pushed && s'.table[v].Queued? ensures PushedBy(s', v) {
      assert PushedBy(s, v);
      PushedStays(c, s, x, v);
    }
  }

  lemma SpawnsAnother(c: Config, s: State, x: Action, v: SemaUnit)
    requires RefsInv(s) && UnitsInv(s) && Enabled(c, s, x) && x.Spawn? && PushedBy(s, v)
    ensures s.WorkOf(x.a).task != Some(v) && s.WorkOf(x.a).ref !in s.jobs
  {
    var w := s.WorkOf(x.a);
    assert s.flights[w.ref] == x.a;
    assert w.task == Some(v) ==> Starts(s, x.a, v) && Responsible(s, x.a, v);
  }

  lemma SpawnKeepsPushed(c: Config, s: State, x: Action, v: SemaUnit)
    requires RefsInv(s) && UnitsInv(s) && Enabled(c, s, x) && x.Spawn? && PushedBy(s, v)
    ensures PushedBy(Next(c, s, x), v)
  {
    SpawnsAnother(c, s, x, v);
  }

  lemma BodyKeepsPushed(c: Config, s: State, x: Action, v: SemaUnit)
    requires UnitsInv(s) && Enabled(c, s, x) && (x.Claim? || x.Clone? || x.CloneOther?) && PushedBy(s, v)
    ensures PushedBy(Next(c, s, x), v)
  {}

  lemma JobKeepsPushed(c: Config, s: State, x: Action, v: SemaUnit)
    requires RefsInv(s) && UnitsInv(s) && Enabled(c, s, x) && (x.MarkDone? || x.Drop?)
    requires PushedBy(s, v) && v in Next(c, s, x).table && Next(c, s, x).table[v].Queued?
    ensures PushedBy(Next(c, s, x), v)
  {
    if x.MarkDone? {
      MarkedHolder(c, s, x.r);
    }
  }

  lemma MainKeepsPushed(c: Config, s: State, x: Action, v: SemaUnit)
    requires Enabled(c, s, x) && (x.EnterLoop? || x.TestFirst? || x.TestSecond? || x.Pop? || x.PopNothing?)
    requires PushedBy(s, v)
    ensures PushedBy(Next(c, s, x), v)
  {}

  lemma PushedStays(c: Config, s: State, x: Action, v: SemaUnit)
    requires RefsInv(s) && UnitsInv(s) && Enabled(c, s, x) && !x.PushTask?
    requires PushedBy(s, v) && v in Next(c, s, x).table && Next(c, s, x).table[v].Queued?
    ensures PushedBy(Next(c, s, x), v)
  {
    hide Next, RefsInv, UnitsInv, PushedBy;
    if x.Spawn? {
      SpawnKeepsPushed(c, s, x, v);
    } else if x.Claim? || x.Clone? || x.CloneOther? {
      BodyKeepsPushed(c, s, x, v);
    } else if x.MarkDone? || x.Drop? {
      JobKeepsPushed(c, s, x, v);
    } else {
      MainKeepsPushed(c, s, x, v);
    }
  }

  lemma OneReference(refs: set<nat>)
    requires 0 in refs && |refs| == 1
    ensures refs == {0}
  {
    assert |refs - {0}| == 0;
  }

  lemma MainNext(c: Config, s: State, x: Action)
    requires RefsInv(s) && MainInv(c, s) && Enabled(c, s, x)
    ensures MainInv(c, Next(c, s, x))
  {
    if x.TestFirst? && s.CountIsOne() {
      OneReference(s.refs);
    }
    if c.countFirst && (s.main.HalfTested? || s.main.Exited?) {
      OnlyMainIsLeft(c, s, x);
    }
  }

  /** Once the only reference is the main thread's and it has left the set-up, nothing but the main loop can step. */
  lemma OnlyMainIsLeft(c: Config, s: State, x: Action)
    requires RefsInv(s) && s.refs == {0} && !s.main.Setup? && Enabled(c, s, x)
    ensures s.jobs == map[] && s.flights == map[]
    ensures x.TestFirst? || x.TestSecond? || x.Pop? || x.PopNothing?
  {
    assert forall r :: r in s.jobs || r in s.flights ==> r in s.refs;
  }

  lemma InvStart(c: Config)
    ensures Inv(c, Start())
  {}

  lemma InvNext(c: Config, s: State, x: Action)
    requires Inv(c, s) && Enabled(c, s, x)
    ensures Inv(c, Next(c, s, x))
  {
    hide Next, RefsInv, UnitsInv, QueueInv, MainInv;
    RefsNext(c, s, x);
    UnitsNext(c, s, x);
    MainNext(c, s, x);
    if x.PushTask? {
      PushNext(c, s, x.r);
    } else {
      OtherQueueNext(c, s, x);
    }
  }

  // -----------------------------------------------------------------------------------------------
  // Every run
  // -----------------------------------------------------------------------------------------------

  ghost predicate Trace(c: Config, s: State, run: seq<Action>)
    decreases |run|
  {
    run == [] || (Enabled(c, s, run[0]) && Trace(c, Next(c, s, run[0]), run[1..]))
  }

  ghost function After(c: Config, s: State, run: seq<Action>): State
    requires Trace(c, s, run)
    decreases |run|
  {
    if run == [] then s else After(c, Next(c, s, run[0]), run[1..])
  }

  ghost predicate Reaches(c: Config, s: State) {
    exists run: seq<Action> :: Trace(c, Start(), run) && After(c, Start(), run) == s
  }

  lemma {:induction false} InvRun(c: Config, s: State, run: seq<Action>)
    requires Inv(c, s) && Trace(c, s, run)
    ensures Inv(c, After(c, s, run))
    decreases |run|
  {
    if run != [] {
      InvNext(c, s, run[0]);
      InvRun(c, Next(c, s, run[0]), run[1..]);
    }
  }

  lemma ReachesInv(c: Config, s: State)
    requires Reaches(c, s)
    ensures Inv(c, s)
  {
    var run :| Trace(c, Start(), run) && After(c, Start(), run) == s;
    InvStart(c);
    InvRun(c, Start(), run);
  }

  lemma {:induction false} AfterSnoc(c: Config, s: State, run: seq<Action>, x: Action)
    requires Trace(c, s, run) && Enabled(c, After(c, s, run), x)
    ensures Trace(c, s, run + [x]) && After(c, s, run + [x]) == Next(c, After(c, s, run), x)
    decreases |run|
  {
    if run == [] {
      assert run + [x] == [x] && [x][1..] == [];
    } else {
      AfterSnoc(c, Next(c, s, run[0]), run[1..], x);
      assert (run + [x])[1..] == run[1..] + [x];
    }
  }

  lemma ReachesNext(c: Config, s: State, x: Action)
    requires Reaches(c, s) && Enabled(c, s, x)
    ensures Reaches(c, Next(c, s, x))
  {
    var run :| Trace(c, Start(), run) && After(c, Start(), run) == s;
    AfterSnoc(c, Start(), run, x);
  }

  /** No unit is ever claimed twice or analysed by two closures, and no function is pushed or lowered twice. */
  lemma ClaimedOnce(c: Config, s: State, q: nat, r: nat, u: SemaUnit)
    requires Reaches(c, s)
    ensures Unique(s.claims) && Unique(s.pushed) && Unique(s.lowered) && s.lowered <= s.pushed
    ensures Analyses(s, Closure(q), u) && Analyses(s, Closure(r), u) ==> q == r
  {
    ReachesInv(c, s);
    assert Responsible(s, Closure(q), u) && Responsible(s, Closure(r), u) ==> q == r;
    assert forall i :: 0 <= i < |s.lowered| ==> s.lowered[i] == s.pushed[i];
  }

  /** The reference count is exactly one more than the closures that are live or being spawned. */
  lemma CountIsExact(c: Config, s: State)
    requires Reaches(c, s)
    ensures |s.refs| == 1 + |s.jobs.Keys| + |s.flights.Keys|
  {
    ReachesInv(c, s);
    CountUnion(s.jobs.Keys, s.flights.Keys, s.refs);
  }

  lemma CountUnion(a: set<nat>, b: set<nat>, all: set<nat>)
    requires all == {0} + a + b && 0 !in a && 0 !in b && forall r :: r in b ==> r !in a
    ensures |all| == 1 + |a| + |b|
  {
    assert all == {0} + (a + b) && a !! b && {0} !! a + b;
  }

  /** When the loop has exited, nothing is live or can start, every unit is Done and everything pushed is lowered. */
  lemma ExitIsFinal(c: Config, s: State, x: Action)
    requires c.countFirst && Reaches(c, s) && s.main.Exited?
    ensures s.jobs == map[] && s.flights == map[] && s.queue == [] && s.lowered == s.pushed
    ensures forall u :: u in s.claims ==> u in s.table && s.table[u].Done?
    ensures !Enabled(c, s, x)
  {
    ReachesInv(c, s);
    assert forall r :: r in s.jobs || r in s.flights ==> r in s.refs;
    NobodyAnswers(s);
  }

  lemma NobodyAnswers(s: State)
    requires UnitsInv(s) && s.jobs == map[] && !s.main.Setup?
    ensures forall u :: u in s.claims ==> u in s.table && s.table[u].Done?
  {
    forall u ensures u !in s.holder {
      assert u in s.holder ==> Responsible(s, s.holder[u], u);
      assert u in s.holder && Starts(s, s.holder[u], u) ==> s.Acts(s.holder[u]);
    }
  }

  // -----------------------------------------------------------------------------------------------
  // The order of the two reads matters
  // -----------------------------------------------------------------------------------------------

  /** One closure for unit 7, live; the main thread is in its loop. */
  lemma OneClosure(c: Config) returns (s: State)
    ensures Reaches(c, s) && s.main.Test? && s.refs == {0, 1} && s.queue == [] && s.pushed == [] && s.lowered == []
    ensures s.jobs == map[1 := Job(Some(7), Body, Running)]
  {
    var s0 := Start();
    assert Trace(c, s0, []) && After(c, s0, []) == s0;
    var s1 := Next(c, s0, Claim(Main, 7));
    ReachesNext(c, s0, Claim(Main, 7));
    var s2 := Next(c, s1, Clone(Main));
    ReachesNext(c, s1, Clone(Main));
    var s3 := Next(c, s2, Spawn(Main));
    ReachesNext(c, s2, Spawn(Main));
    s := Next(c, s3, EnterLoop);
    ReachesNext(c, s3, EnterLoop);
  }

  /** Reading the queue first: the closure pushes between the two reads. */
  lemma PushedBetweenReads(c: Config) returns (s: State)
    requires !c.countFirst
    ensures Reaches(c, s) && s.main.HalfTested? && s.refs == {0, 1} && s.pushed == [7] && s.lowered == []
    ensures s.jobs == map[1 := Job(Some(7), Body, Pushed)]
  {
    hide Reaches;
    var s0 := OneClosure(c);
    var s1 := Next(c, s0, TestFirst);
    ReachesNext(c, s0, TestFirst);
    s := Next(c, s1, PushTask(1));
    ReachesNext(c, s1, PushTask(1));
  }

  /** It is dropped before the count is read, so the loop exits and what it pushed is never lowered. */
  lemma QueueFirstLosesTask(c: Config) returns (s: State)
    requires !c.countFirst
    ensures Reaches(c, s) && s.main.Exited? && s.lowered != s.pushed
  {
    hide Reaches;
    var s2 := PushedBetweenReads(c);
    var s3 := Next(c, s2, MarkDone(1));
    ReachesNext(c, s2, MarkDone(1));
    var s4 := Next(c, s3, Drop(1));
    ReachesNext(c, s3, Drop(1));
    assert s4.refs == {0};
    s := Next(c, s4, TestSecond);
    ReachesNext(c, s4, TestSecond);
  }

  /** The exit test detects termination in every run exactly because the count is read first. */
  lemma ExitSoundIff(c: Config)
    ensures (forall s :: Reaches(c, s) && s.main.Exited? ==> s.lowered == s.pushed) <==> c.countFirst
  {
    if c.countFirst {
      forall s | Reaches(c, s) && s.main.Exited? ensures s.lowered == s.pushed {
        ExitIsFinal(c, s, TestFirst);
      }
    } else {
      var s := QueueFirstLosesTask(c);
    }
  }
}
