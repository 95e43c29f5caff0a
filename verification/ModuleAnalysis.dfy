/** Claiming a module's analysis: any number of callers of `get_or_analyze_module_sync` at once. */
module ModuleAnalysis {
  import opened Options

  type ModuleId = nat
  type CallId = nat
  type Value = nat

  datatype Status = Pending | InProgress | Done(value: Value) | Failed

  datatype Pc =
    | Entered                            // next: is there a VUIR?
    | Claiming                           // next: under the lock, Pending becomes InProgress
    | Running                            // claimed; next: the analysis, which publishes the namespace
    | Ran(result: Option<Value>)         // next: store the result
    | Reading                            // not claimed; next: read the state
    | Returned(result: Option<Value>)
    | Unreachable                        // read Pending after a failed claim

  datatype Call = Call(m: ModuleId, pc: Pc)

  /** `claimer` is history: the call that claimed each module. `publishedTwice` records a namespace set again. */
  datatype State = State(
    status: map<ModuleId, Status>,
    calls: map<CallId, Call>,
    namespaces: set<ModuleId>,
    publishedTwice: bool,
    claimer: map<ModuleId, CallId>)
  {
    function Of(m: ModuleId): Status {
      if m in status then status[m] else Pending
    }

    function Goto(c: CallId, pc: Pc): State
      requires c in calls
    {
      this.(calls := calls[c := Call(calls[c].m, pc)])
    }
  }

  /** The modules with a VUIR; fixed, as parsing is over. */
  datatype Config = Config(parsed: set<ModuleId>)

  datatype Action =
    | Enter(c: CallId, m: ModuleId)
    | CheckVuir(c: CallId)
    | TryClaim(c: CallId)
    | Run(c: CallId, value: Value)
    | Store(c: CallId)
    | Read(c: CallId)

  predicate Enabled(s: State, x: Action) {
    match x
    case Enter(c, _) => c !in s.calls
    case CheckVuir(c) => c in s.calls && s.calls[c].pc.Entered?
    case TryClaim(c) => c in s.calls && s.calls[c].pc.Claiming?
    case Run(c, _) => c in s.calls && s.calls[c].pc.Running?
    case Store(c) => c in s.calls && s.calls[c].pc.Ran?
    case Read(c) => c in s.calls && s.calls[c].pc.Reading?
  }

  function Next(k: Config, s: State, x: Action): State
    requires Enabled(s, x)
  {
    match x
    case Enter(c, m) => s.(calls := s.calls[c := Call(m, Entered)])
    case CheckVuir(c) => s.Goto(c, if s.calls[c].m in k.parsed then Claiming else Returned(None))
    case TryClaim(c) =>
      var m := s.calls[c].m;
      if s.Of(m).Pending? then s.Goto(c, Running).(status := s.status[m := InProgress], claimer := s.claimer[m := c])
      else s.Goto(c, Reading)
    case Run(c, v) =>
      var m := s.calls[c].m;
      if m in k.parsed then
        s.Goto(c, Ran(Some(v))).(
          namespaces := s.namespaces + {m}, publishedTwice := s.publishedTwice || m in s.namespaces)
      else s.Goto(c, Ran(None))
    case Store(c) =>
      var m, r := s.calls[c].m, s.calls[c].pc.result;
      s.Goto(c, Returned(r)).(status := s.status[m := if r.Some? then Done(r.value) else Failed])
    case Read(c) =>
      s.Goto(c, match s.Of(s.calls[c].m)
                case Pending => Unreachable
                case InProgress => Claiming
                case Done(v) => Returned(Some(v))
                case Failed => Returned(None))
  }

  predicate Works(call: Call) {
    call.pc.Running? || call.pc.Ran?
  }

  ghost predicate CallInv(k: Config, s: State, c: CallId)
    requires c in s.calls
  {
    var m, pc := s.calls[c].m, s.calls[c].pc;
    && (!pc.Entered? && pc != Returned(None) ==> m in k.parsed)
    && (pc == Returned(None) ==> m !in k.parsed)
    && (Works(s.calls[c]) ==> s.Of(m).InProgress? && m in s.claimer && s.claimer[m] == c)
    && (pc.Running? ==> m !in s.namespaces)
    && (pc.Ran? ==> m in s.namespaces && pc.result.Some?)
    && (pc.Reading? ==> !s.Of(m).Pending?)
    && (pc.Returned? && pc.result.Some? ==> s.Of(m) == Done(pc.result.value))
    && !pc.Unreachable?
  }

  ghost predicate ModuleInv(k: Config, s: State, m: ModuleId) {
    && !s.Of(m).Failed?
    && (s.Of(m).Pending? <==> m !in s.claimer)
    && (s.Of(m).Pending? ==> m !in s.namespaces)
    && (s.Of(m).InProgress? ==> s.claimer[m] in s.calls && s.calls[s.claimer[m]].m == m && Works(s.calls[s.claimer[m]]))
    && (s.Of(m).Done? ==> m in s.namespaces)
  }

  ghost predicate Inv(k: Config, s: State) {
    && !s.publishedTwice
    && (forall c :: c in s.calls ==> CallInv(k, s, c))
    && (forall m :: ModuleInv(k, s, m))
  }

  lemma InvNext(k: Config, s: State, x: Action)
    requires Inv(k, s) && Enabled(s, x)
    ensures Inv(k, Next(k, s, x))
  {
    var s' := Next(k, s, x);
    if !x.Enter? {
      assert CallInv(k, s, x.c) && ModuleInv(k, s, s.calls[x.c].m);
    }
    forall c | c in s'.calls ensures CallInv(k, s', c) {
      if c in s.calls {
        assert CallInv(k, s, c);
        if c == x.c { OwnCallNext(k, s, x); } else { OtherCallNext(k, s, x, c); }
      }
    }
    forall m ensures ModuleInv(k, s', m) {
      assert ModuleInv(k, s, m);
      ModuleNext(k, s, x, m);
    }
  }

  /** The stepping call and its module. */
  ghost predicate ActorInv(k: Config, s: State, x: Action) {
    !x.Enter? ==> x.c in s.calls && CallInv(k, s, x.c) && ModuleInv(k, s, s.calls[x.c].m)
  }

  lemma OwnCallNext(k: Config, s: State, x: Action)
    requires ActorInv(k, s, x) && Enabled(s, x) && !x.Enter?
    ensures CallInv(k, Next(k, s, x), x.c)
  {}

  lemma OtherCallNext(k: Config, s: State, x: Action, c: CallId)
    requires ActorInv(k, s, x) && Enabled(s, x) && c in s.calls && CallInv(k, s, c) && c != x.c
    ensures CallInv(k, Next(k, s, x), c)
  {}

  lemma ModuleNext(k: Config, s: State, x: Action, m: ModuleId)
    requires ActorInv(k, s, x) && Enabled(s, x) && ModuleInv(k, s, m)
    ensures ModuleInv(k, Next(k, s, x), m)
  {}

  /** A module never returns to Pending, its claimer never changes, and a stored value stays. */
  ghost predicate Advances(a: State, b: State) {
    && (forall m :: m in a.claimer ==> m in b.claimer && b.claimer[m] == a.claimer[m])
    && (forall m :: !a.Of(m).Pending? ==> !b.Of(m).Pending?)
    && (forall m :: a.Of(m).Done? ==> b.Of(m) == a.Of(m))
  }

  lemma AdvancesNext(k: Config, s: State, x: Action)
    requires Inv(k, s) && Enabled(s, x)
    ensures Advances(s, Next(k, s, x))
  {
    if !x.Enter? {
      assert CallInv(k, s, x.c) && ModuleInv(k, s, s.calls[x.c].m);
    }
  }

  ghost predicate Trace(k: Config, s: State, run: seq<Action>)
    decreases |run|
  {
    run == [] || (Enabled(s, run[0]) && Trace(k, Next(k, s, run[0]), run[1..]))
  }

  ghost function After(k: Config, s: State, run: seq<Action>): State
    requires Trace(k, s, run)
    decreases |run|
  {
    if run == [] then s else After(k, Next(k, s, run[0]), run[1..])
  }

  function Start(): State {
    State(map[], map[], {}, false, map[])
  }

  lemma {:induction false} InvRun(k: Config, s: State, run: seq<Action>)
    requires Inv(k, s) && Trace(k, s, run)
    ensures Inv(k, After(k, s, run)) && Advances(s, After(k, s, run))
    decreases |run|
  {
    if run != [] {
      InvNext(k, s, run[0]);
      AdvancesNext(k, s, run[0]);
      InvRun(k, Next(k, s, run[0]), run[1..]);
    }
  }

  /**
   * However callers interleave: at most one of them ever analyses a module, nobody reads Pending after losing the
   * claim, the namespace is published once, and a call fails exactly when the module has no VUIR; all others get the
   * same value, whenever they return.
   */
  lemma OneAnalysisForAll(k: Config, before: seq<Action>, after: seq<Action>, c: CallId, d: CallId)
    requires Trace(k, Start(), before) && Trace(k, After(k, Start(), before), after)
    requires c in After(k, Start(), before).calls
    requires d in After(k, After(k, Start(), before), after).calls
    ensures var s := After(k, Start(), before);
            var s' := After(k, s, after);
            var a, b := s.calls[c], s'.calls[d];
            && !a.pc.Unreachable? && !s.publishedTwice
            && (a.pc.Returned? ==> (a.pc.result.None? <==> a.m !in k.parsed))
            && (a.m == b.m && Works(a) && Works(b) ==> c == d)
            && (a.m == b.m && a.pc.Returned? && b.pc.Returned? ==> a.pc.result == b.pc.result)
            && (a.m == b.m && a.pc.Returned? && Works(b) ==> false)
  {
    InvRun(k, Start(), before);
    var s := After(k, Start(), before);
    InvRun(k, s, after);
    var s' := After(k, s, after);
    assert CallInv(k, s, c) && CallInv(k, s', d);
    assert ModuleInv(k, s, s.calls[c].m) && ModuleInv(k, s', s'.calls[d].m);
  }

  // -----------------------------------------------------------------------------------------------
  // Where the result comes from, and that it comes
  // -----------------------------------------------------------------------------------------------

  /** Some past step was an analysis of the module that gave v. */
  ghost predicate Analysed(s: State, past: seq<Action>, m: ModuleId, v: Value) {
    exists i :: 0 <= i < |past| && RanOn(s, past[i], m, v)
  }

  predicate RanOn(s: State, x: Action, m: ModuleId, v: Value) {
    x.Run? && x.value == v && x.c in s.calls && s.calls[x.c].m == m
  }

  /** Everything stored or returned was given by an analysis of that module. */
  ghost predicate Grounded(s: State, past: seq<Action>) {
    && (forall c :: c in s.calls && (s.calls[c].pc.Ran? || s.calls[c].pc.Returned?) && s.calls[c].pc.result.Some? ==>
          Analysed(s, past, s.calls[c].m, s.calls[c].pc.result.value))
    && forall m :: s.Of(m).Done? ==> Analysed(s, past, m, s.Of(m).value)
  }

  lemma AnalysedNext(k: Config, s: State, x: Action, past: seq<Action>, m: ModuleId, v: Value)
    requires Enabled(s, x) && (Analysed(s, past, m, v) || RanOn(s, x, m, v))
    ensures Analysed(Next(k, s, x), past + [x], m, v)
  {
    var later := past + [x];
    if Analysed(s, past, m, v) {
      var i :| 0 <= i < |past| && RanOn(s, past[i], m, v);
      assert RanOn(Next(k, s, x), later[i], m, v);
    } else {
      assert RanOn(Next(k, s, x), later[|past|], m, v);
    }
  }

  lemma GroundedNext(k: Config, s: State, x: Action, past: seq<Action>)
    requires Enabled(s, x) && Grounded(s, past)
    ensures Grounded(Next(k, s, x), past + [x])
  {
    hide Analysed;
    var s' := Next(k, s, x);
    forall c | c in s'.calls && (s'.calls[c].pc.Ran? || s'.calls[c].pc.Returned?) && s'.calls[c].pc.result.Some?
      ensures Analysed(s', past + [x], s'.calls[c].m, s'.calls[c].pc.result.value)
    {
      AnalysedNext(k, s, x, past, s'.calls[c].m, s'.calls[c].pc.result.value);
    }
    forall m | s'.Of(m).Done? ensures Analysed(s', past + [x], m, s'.Of(m).value) {
      if x.Store? && m == s.calls[x.c].m {
        assert s.calls[x.c].pc.result == Some(s'.Of(m).value);
      } else {
        assert s.Of(m) == s'.Of(m);
      }
      AnalysedNext(k, s, x, past, m, s'.Of(m).value);
    }
  }

  lemma {:induction false} GroundedRun(k: Config, s: State, past: seq<Action>, run: seq<Action>)
    requires Trace(k, s, run) && Grounded(s, past)
    ensures Grounded(After(k, s, run), past + run)
    decreases |run|
  {
    hide Grounded, Next, Enabled;
    if run == [] {
      assert past + run == past;
    } else {
      GroundedNext(k, s, run[0], past);
      GroundedRun(k, Next(k, s, run[0]), past + [run[0]], run[1..]);
      assert past + [run[0]] + run[1..] == past + run;
    }
  }

  /** In every run, the value a call returns is the one an analysis of its module gave. */
  lemma ReturnsTheAnalysis(k: Config, run: seq<Action>, c: CallId)
    requires Trace(k, Start(), run) && c in After(k, Start(), run).calls
    ensures var s := After(k, Start(), run);
            var call := s.calls[c];
            call.pc.Returned? && call.pc.result.Some? ==>
              exists i :: && 0 <= i < |run| && run[i].Run? && run[i].value == call.pc.result.value
                          && run[i].c in s.calls && s.calls[run[i].c].m == call.m
  {
    GroundedRun(k, Start(), [], run);
    var s := After(k, Start(), run);
    assert [] + run == run;
    if s.calls[c].pc.Returned? && s.calls[c].pc.result.Some? {
      var v := s.calls[c].pc.result.value;
      assert Analysed(s, run, s.calls[c].m, v);
      var i :| 0 <= i < |run| && RanOn(s, run[i], s.calls[c].m, v);
      assert run[i].Run? && run[i].value == v;
    }
  }

  predicate OnlyBy(run: seq<Action>, c: CallId) {
    forall i :: 0 <= i < |run| ==> run[i].c == c
  }

  /** How many steps a call takes at most when no other call is analysing its module. */
  function StepsLeft(pc: Pc): nat {
    match pc
    case Entered => 5
    case Claiming => 4
    case Running => 3
    case Ran(_) => 2
    case Reading => 1
    case _ => 0
  }

  /** What a call returns if no other call is analysing its module and its own analysis, if it comes to it, gives v. */
  function Answer(k: Config, s: State, c: CallId, v: Value): Option<Value>
    requires c in s.calls
  {
    var m, pc := s.calls[c].m, s.calls[c].pc;
    if pc.Ran? || pc.Returned? then pc.result
    else if m !in k.parsed then None
    else if s.Of(m).Done? then Some(s.Of(m).value)
    else Some(v)
  }

  lemma CallStep(k: Config, s: State, c: CallId, v: Value) returns (x: Action)
    requires Inv(k, s) && c in s.calls && !s.calls[c].pc.Returned?
    requires s.Of(s.calls[c].m).InProgress? ==> Works(s.calls[c])
    ensures x.c == c && Enabled(s, x) && Inv(k, Next(k, s, x)) && c in Next(k, s, x).calls
    ensures var s' := Next(k, s, x);
            && s'.calls[c].m == s.calls[c].m && Answer(k, s', c, v) == Answer(k, s, c, v)
            && StepsLeft(s'.calls[c].pc) < StepsLeft(s.calls[c].pc)
            && (s'.Of(s'.calls[c].m).InProgress? ==> Works(s'.calls[c]))
  {
    assert CallInv(k, s, c) && ModuleInv(k, s, s.calls[c].m);
    x := match s.calls[c].pc
      case Entered => CheckVuir(c)
      case Claiming => TryClaim(c)
      case Running => Run(c, v)
      case Ran(_) => Store(c)
      case _ => Read(c);
    InvNext(k, s, x);
    hide Inv;
  }

  lemma {:induction false} CallRuns(k: Config, s: State, c: CallId, v: Value) returns (run: seq<Action>)
    requires Inv(k, s) && c in s.calls && (s.Of(s.calls[c].m).InProgress? ==> Works(s.calls[c]))
    ensures OnlyBy(run, c) && Trace(k, s, run) && c in After(k, s, run).calls
    ensures After(k, s, run).calls[c].pc == Returned(Answer(k, s, c, v))
    decreases StepsLeft(s.calls[c].pc)
  {
    hide Inv, Next, Enabled;
    run := [];
    if !s.calls[c].pc.Returned? {
      var x := CallStep(k, s, c, v);
      var rest := CallRuns(k, Next(k, s, x), c, v);
      run := [x] + rest;
      assert run[0] == x && run[1..] == rest;
    }
  }

  /**
   * Nobody waits in vain: in every reached state, a call returns by its own steps alone unless another call is
   * analysing its module; and then that other call finishes by its own steps alone.
   */
  lemma CallReturns(k: Config, before: seq<Action>, c: CallId, v: Value) returns (worker: CallId, run: seq<Action>)
    requires Trace(k, Start(), before) && c in After(k, Start(), before).calls
    ensures var s := After(k, Start(), before);
            var m := s.calls[c].m;
            && worker in s.calls && s.calls[worker].m == m
            && (if s.Of(m).InProgress? then Works(s.calls[worker]) else worker == c)
            && OnlyBy(run, worker) && Trace(k, s, run) && worker in After(k, s, run).calls
            && After(k, s, run).calls[worker].pc == Returned(Answer(k, s, worker, v))
  {
    InvRun(k, Start(), before);
    var s := After(k, Start(), before);
    assert CallInv(k, s, c) && ModuleInv(k, s, s.calls[c].m);
    worker := if s.Of(s.calls[c].m).InProgress? then s.claimer[s.calls[c].m] else c;
    hide Inv, After, Trace;
    run := CallRuns(k, s, worker, v);
  }
}
