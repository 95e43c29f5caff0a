/**
 * The append-only arena `VirtMemArenaDynArray`: concurrent pushes as a step machine, one atomic access per step.
 *
 * A push reserves an index (fetch_add on len), commits memory for it, writes the slot, and publishes it by a
 * compare-and-swap that moves `initialized` from its index to the next one.
 */
module VirtualDynArray {
  import opened Options
  import opened Power

  type Tid = nat

  /** Capacity in elements and commit granularity in elements. */
  datatype Config = Config(capacity: nat, granularity: nat) {
    ghost predicate Valid() {
      granularity > 0
    }

    /** End of the commit granule of an index, cut at the capacity. */
    function CommitEnd(index: nat): nat
      requires granularity > 0
    {
      var end := (index / granularity + 1) * granularity;
      if end < capacity then end else capacity
    }
  }

  /** Where a thread is inside `push`. */
  datatype Pc<T> =
    | Idle
    | Reserved(index: nat, value: T)                             // next: the capacity assertion
    | Checking(index: nat, value: T)                             // next: first load of committed_elements
    | Growing(index: nat, value: T, end: nat)                    // next: second load of committed_elements
    | Committing(index: nat, value: T, end: nat, start: nat)     // next: commit end - start elements from start
    | Storing(index: nat, value: T, end: nat)                    // next: store committed_elements
    | Writing(index: nat, value: T)                              // next: write the slot
    | Publishing(index: nat, value: T)                           // next: compare_exchange_weak, retried on failure
    | Returned(index: nat, value: T)
    | Panicked(index: nat)                                       // index beyond the capacity
    | Underflowed(index: nat)                                    // end - start below zero
  {
    /** Holds a reserved index that is not published yet. */
    predicate Active() {
      Reserved? || Checking? || Growing? || Committing? || Storing? || Writing? || Publishing?
    }

    predicate Holds(i: nat) {
      (Active() || Underflowed?) && index == i
    }
  }

  /**
   * `pages` are the element positions in committed memory. `pushed` and `owner` are history: the value and the
   * thread of the push that reserved each index.
   */
  datatype State<T> = State(
    len: nat,
    initialized: nat,
    committed: nat,
    pages: set<nat>,
    slots: map<nat, T>,
    threads: map<Tid, Pc<T>>,
    pushed: seq<T>,
    owner: seq<Tid>)
  {
    function At(t: Tid): Pc<T> {
      if t in threads then threads[t] else Idle
    }

    function Move(t: Tid, pc: Pc<T>): State<T> {
      this.(threads := threads[t := pc])
    }
  }

  function Empty<T>(): State<T> {
    State(0, 0, 0, {}, map[], map[], [], [])
  }

  /** One atomic step of one thread. A weak compare-and-swap may also fail for no reason. */
  datatype Action<T> = Reserve(t: Tid, value: T) | Advance(t: Tid) | SpuriousFailure(t: Tid)

  predicate Enabled<T>(s: State<T>, a: Action<T>) {
    match a
    case Reserve(t, _) => s.At(t).Idle? || s.At(t).Returned?
    case Advance(t) => s.At(t).Active()
    case SpuriousFailure(t) => s.At(t).Publishing?
  }

  predicate Within(lo: nat, i: nat, hi: nat) {
    lo <= i < hi
  }

  function Range(lo: nat, hi: nat): (r: set<nat>)
    ensures forall i: nat :: i in r <==> lo <= i < hi
  {
    set i: nat | lo <= i < hi && Within(lo, i, hi)
  }

  function Next<T>(c: Config, s: State<T>, a: Action<T>): State<T>
    requires c.Valid() && Enabled(s, a)
  {
    match a
    case Reserve(t, v) =>
      s.Move(t, Reserved(s.len, v)).(len := s.len + 1, pushed := s.pushed + [v], owner := s.owner + [t])
    case SpuriousFailure(t) => s
    case Advance(t) =>
      match s.At(t)
      case Reserved(i, v) => s.Move(t, if i < c.capacity then Checking(i, v) else Panicked(i))
      case Checking(i, v) => s.Move(t, if i < s.committed then Writing(i, v) else Growing(i, v, c.CommitEnd(i)))
      case Growing(i, v, end) => s.Move(t, Committing(i, v, end, s.committed))
      case Committing(i, v, end, start) =>
        if end < start then s.Move(t, Underflowed(i))
        else s.Move(t, Storing(i, v, end)).(pages := s.pages + Range(start, end))
      case Storing(i, v, end) => s.Move(t, Writing(i, v)).(committed := end)
      case Writing(i, v) => s.Move(t, Publishing(i, v)).(slots := s.slots[i := v])
      case Publishing(i, v) =>
        if s.initialized == i then s.Move(t, Returned(i, v)).(initialized := i + 1) else s
  }

  // -----------------------------------------------------------------------------------------------
  // Safety of every interleaving
  // -----------------------------------------------------------------------------------------------

  /** Indices that can ever be published. */
  function Reachable<T>(c: Config, s: State<T>): nat {
    if s.len < c.capacity then s.len else c.capacity
  }

  ghost predicate Shape<T>(s: State<T>) {
    |s.pushed| == |s.owner| == s.len
  }

  ghost predicate ThreadInv<T>(c: Config, s: State<T>, t: Tid)
    requires Shape(s)
  {
    var pc := s.At(t);
    && (pc.Active() || pc.Underflowed? ==> pc.index < s.len && s.owner[pc.index] == t && s.initialized <= pc.index)
    && (pc.Active() ==> s.pushed[pc.index] == pc.value && (!pc.Reserved? ==> pc.index < c.capacity))
    && (pc.Underflowed? ==> pc.index < c.capacity)
    && (pc.Publishing? ==> pc.index in s.slots && s.slots[pc.index] == pc.value)
    && (pc.Returned? ==>
          pc.index < s.initialized && pc.index < s.len && s.owner[pc.index] == t && s.pushed[pc.index] == pc.value)
    && (pc.Panicked? ==> c.capacity <= pc.index < s.len && s.owner[pc.index] == t)
  }

  /** Published slots hold what their pusher brought. */
  ghost predicate SlotsInv<T>(s: State<T>)
    requires Shape(s)
  {
    s.initialized <= s.len && forall i :: 0 <= i < s.initialized ==> i in s.slots && s.slots[i] == s.pushed[i]
  }

  /** Every reserved index within the capacity that is not published yet is held by the thread that reserved it. */
  ghost predicate HoldersInv<T>(c: Config, s: State<T>)
    requires Shape(s)
  {
    forall i :: s.initialized <= i < Reachable(c, s) ==> s.At(s.owner[i]).Holds(i)
  }

  ghost predicate Inv<T>(c: Config, s: State<T>) {
    && Shape(s)
    && s.initialized <= Reachable(c, s)
    && (forall t :: t in s.threads ==> ThreadInv(c, s, t))
    && SlotsInv(s)
    && HoldersInv(c, s)
  }

  lemma InvInit<T>(c: Config)
    ensures Inv(c, Empty<T>())
  {}

  lemma OwnThreadNext<T>(c: Config, s: State<T>, a: Action<T>)
    requires c.Valid() && Inv(c, s) && Enabled(s, a)
    ensures Shape(Next(c, s, a)) && ThreadInv(c, Next(c, s, a), a.t)
  {
    assert ThreadInv(c, s, a.t);
  }

  /** A thread's own facts survive when history grows and the others publish and write elsewhere. */
  lemma ThreadFrame<T>(c: Config, s: State<T>, s': State<T>, u: Tid)
    requires Shape(s) && Shape(s') && ThreadInv(c, s, u) && s'.At(u) == s.At(u)
    requires s.pushed <= s'.pushed && s.owner <= s'.owner && s.initialized <= s'.initialized
    requires s.At(u).Active() || s.At(u).Underflowed? ==> s'.initialized <= s.At(u).index
    requires s.At(u).Publishing? && s.At(u).index in s.slots ==>
      s.At(u).index in s'.slots && s'.slots[s.At(u).index] == s.slots[s.At(u).index]
    ensures ThreadInv(c, s', u)
  {}

  /** What a step does to the history, and to an index another thread holds. */
  lemma StepElsewhere<T>(c: Config, s: State<T>, a: Action<T>, u: Tid)
    requires c.Valid() && Shape(s) && Enabled(s, a) && ThreadInv(c, s, a.t) && ThreadInv(c, s, u) && u != a.t
    ensures var s' := Next(c, s, a);
            && Shape(s') && s'.At(u) == s.At(u)
            && s.pushed <= s'.pushed && s.owner <= s'.owner && s.initialized <= s'.initialized
            && (s.At(u).Active() || s.At(u).Underflowed? ==> s'.initialized <= s.At(u).index)
            && (s.At(u).Publishing? && s.At(u).index in s.slots ==>
                 s.At(u).index in s'.slots && s'.slots[s.At(u).index] == s.slots[s.At(u).index])
  {
    hide Config.CommitEnd, Range;
  }

  lemma OtherThreadNext<T>(c: Config, s: State<T>, a: Action<T>, u: Tid)
    requires c.Valid() && Shape(s) && Enabled(s, a) && ThreadInv(c, s, a.t) && ThreadInv(c, s, u) && u != a.t
    ensures Shape(Next(c, s, a)) && ThreadInv(c, Next(c, s, a), u)
  {
    StepElsewhere(c, s, a, u);
    hide Next, ThreadInv, Shape;
    ThreadFrame(c, s, Next(c, s, a), u);
  }

  lemma HolderNext<T>(c: Config, s: State<T>, a: Action<T>, i: nat)
    requires c.Valid() && Shape(s) && Enabled(s, a) && ThreadInv(c, s, a.t)
    requires i < s.len && i < c.capacity && s.At(s.owner[i]).Holds(i) && Next(c, s, a).initialized <= i
    ensures Next(c, s, a).At(s.owner[i]).Holds(i)
  {
    if s.owner[i] == a.t {
    } else {
      assert Next(c, s, a).At(s.owner[i]) == s.At(s.owner[i]);
    }
  }

  lemma HoldersNext<T>(c: Config, s: State<T>, a: Action<T>)
    requires c.Valid() && Inv(c, s) && Enabled(s, a)
    ensures Shape(Next(c, s, a)) && HoldersInv(c, Next(c, s, a))
  {
    var s' := Next(c, s, a);
    assert ThreadInv(c, s, a.t) by { assert a.t in s.threads ==> ThreadInv(c, s, a.t); }
    forall i | s'.initialized <= i < Reachable(c, s') ensures s'.At(s'.owner[i]).Holds(i) {
      if i < s.len {
        assert s.At(s.owner[i]).Holds(i);
        HolderNext(c, s, a, i);
      }
    }
  }

  lemma SlotsNext<T>(c: Config, s: State<T>, a: Action<T>)
    requires c.Valid() && Inv(c, s) && Enabled(s, a)
    ensures Shape(Next(c, s, a)) && SlotsInv(Next(c, s, a)) && Next(c, s, a).initialized <= Reachable(c, Next(c, s, a))
  {
    assert a.t in s.threads ==> ThreadInv(c, s, a.t);
  }

  /** A thread that never stepped is idle and has nothing to keep. */
  lemma AnyThread<T>(c: Config, s: State<T>, t: Tid)
    requires Inv(c, s)
    ensures ThreadInv(c, s, t)
  {
    assert t in s.threads ==> ThreadInv(c, s, t);
  }

  lemma InvNext<T>(c: Config, s: State<T>, a: Action<T>)
    requires c.Valid() && Inv(c, s) && Enabled(s, a)
    ensures Inv(c, Next(c, s, a))
  {
    OwnThreadNext(c, s, a);
    HoldersNext(c, s, a);
    SlotsNext(c, s, a);
    var s' := Next(c, s, a);
    forall u | u in s'.threads ensures ThreadInv(c, s', u) {
      if u != a.t {
        AnyThread(c, s, a.t);
        AnyThread(c, s, u);
        OtherThreadNext(c, s, a, u);
      }
    }
  }

  /** What no step ever undoes: history is append-only and published slots keep their value. */
  ghost predicate Extends<T>(s: State<T>, s': State<T>) {
    && s.pushed <= s'.pushed && s.owner <= s'.owner
    && s.len <= s'.len && s.initialized <= s'.initialized
    && forall i :: 0 <= i < s.initialized && i in s.slots ==> i in s'.slots && s'.slots[i] == s.slots[i]
  }

  lemma ExtendsNext<T>(c: Config, s: State<T>, a: Action<T>)
    requires c.Valid() && Inv(c, s) && Enabled(s, a)
    ensures Extends(s, Next(c, s, a))
  {
    assert ThreadInv(c, s, a.t);
  }

  ghost predicate Trace<T>(c: Config, s: State<T>, run: seq<Action<T>>)
    requires c.Valid()
    decreases |run|
  {
    run == [] || (Enabled(s, run[0]) && Trace(c, Next(c, s, run[0]), run[1..]))
  }

  ghost function After<T>(c: Config, s: State<T>, run: seq<Action<T>>): State<T>
    requires c.Valid() && Trace(c, s, run)
    decreases |run|
  {
    if run == [] then s else After(c, Next(c, s, run[0]), run[1..])
  }

  lemma {:induction false} InvRun<T>(c: Config, s: State<T>, run: seq<Action<T>>)
    requires c.Valid() && Inv(c, s) && Trace(c, s, run)
    ensures Inv(c, After(c, s, run)) && Extends(s, After(c, s, run))
    decreases |run|
  {
    if run != [] {
      InvNext(c, s, run[0]);
      ExtendsNext(c, s, run[0]);
      InvRun(c, Next(c, s, run[0]), run[1..]);
    }
  }

  /** `get`: the slot, or None where the assertion on `initialized` fails. */
  function Get<T>(s: State<T>, i: nat): (r: Option<T>) {
    if i < s.initialized && i in s.slots then Some(s.slots[i]) else None
  }

  /** Whatever happened before and happens after, a push that returned is readable, with its own value, for good. */
  lemma ReturnedIsReadable<T>(c: Config, before: seq<Action<T>>, after: seq<Action<T>>, t: Tid)
    requires c.Valid() && Trace(c, Empty(), before) && Trace(c, After(c, Empty(), before), after)
    requires After(c, Empty(), before).At(t).Returned?
    ensures var pc := After(c, Empty(), before).At(t);
            Get(After(c, After(c, Empty(), before), after), pc.index) == Some(pc.value)
  {
    var s := After(c, Empty(), before);
    InvInit<T>(c);
    InvRun(c, Empty(), before);
    assert ThreadInv(c, s, t);
    InvRun(c, s, after);
  }

  /** The index of the thread's latest push lies at or past lo. */
  predicate PushedFrom<T>(pc: Pc<T>, lo: nat) {
    !pc.Idle? && lo <= pc.index
  }

  predicate Reserves<T>(run: seq<Action<T>>, t: Tid) {
    exists k :: 0 <= k < |run| && run[k].Reserve? && run[k].t == t
  }

  lemma PushedFromNext<T>(c: Config, s: State<T>, a: Action<T>, t: Tid, lo: nat)
    requires c.Valid() && Enabled(s, a) && lo <= s.len
    ensures lo <= Next(c, s, a).len
    ensures PushedFrom(s.At(t), lo) || (a.Reserve? && a.t == t) ==> PushedFrom(Next(c, s, a).At(t), lo)
  {}

  /** A push begun during the run gets an index not below the length at its start. */
  lemma {:induction false} LaterPush<T>(c: Config, s: State<T>, run: seq<Action<T>>, t: Tid, lo: nat)
    requires c.Valid() && Trace(c, s, run) && lo <= s.len && (PushedFrom(s.At(t), lo) || Reserves(run, t))
    ensures PushedFrom(After(c, s, run).At(t), lo)
    decreases |run|
  {
    hide Next, Enabled, PushedFrom;
    if run != [] {
      PushedFromNext(c, s, run[0], t, lo);
      if !PushedFrom(s.At(t), lo) && !(run[0].Reserve? && run[0].t == t) {
        var k :| 0 <= k < |run| && run[k].Reserve? && run[k].t == t;
        assert run[1..][k - 1] == run[k];
      }
      LaterPush(c, Next(c, s, run[0]), run[1..], t, lo);
    }
  }

  /**
   * No two pushes of a run are given the same index: not those of two threads, whatever the moments they are looked
   * at, and not a push of a thread and a later one of the same thread.
   */
  lemma IndicesUnique<T>(c: Config, before: seq<Action<T>>, after: seq<Action<T>>, t: Tid, u: Tid)
    requires c.Valid() && Trace(c, Empty(), before) && Trace(c, After(c, Empty(), before), after)
    requires t != u || Reserves(after, u)
    ensures var s := After(c, Empty(), before);
            var x, y := s.At(t), After(c, s, after).At(u);
            && ((x.Active() || x.Returned?) && (y.Active() || y.Returned?) ==> x.index != y.index)
            && (x.Returned? && y.Active() ==> x.index < y.index)
  {
    var s := After(c, Empty(), before);
    var s' := After(c, s, after);
    InvInit<T>(c);
    InvRun(c, Empty(), before);
    InvRun(c, s, after);
    assert ThreadInv(c, s, t) && ThreadInv(c, s', u);
    if t == u {
      LaterPush(c, s, after, u, s.len);
    }
  }

  /** While something is unpublished, the holder of the next index exists; if it is at its CAS, the CAS succeeds. */
  lemma SomePublisherProceeds<T>(c: Config, s: State<T>)
    requires c.Valid() && Inv(c, s) && s.initialized < Reachable(c, s)
    ensures var t := s.owner[s.initialized];
            && s.At(t).Holds(s.initialized)
            && (s.At(t).Active() ==>
                && Enabled(s, Advance(t))
                && Next(c, s, Advance(t)) != s
                && (s.At(t).Publishing? ==> Next(c, s, Advance(t)).initialized == s.initialized + 1))
  {
    var t := s.owner[s.initialized];
    assert s.At(t).Holds(s.initialized);
    if s.At(t).Active() {
      assert Next(c, s, Advance(t)).At(t) != s.At(t);
    }
  }

  /** How many steps a push has left at most, its compare-and-swap succeeding. */
  function StepsLeft<T>(pc: Pc<T>): nat {
    match pc
    case Reserved(_, _) => 7
    case Checking(_, _) => 6
    case Growing(_, _, _) => 5
    case Committing(_, _, _, _) => 4
    case Storing(_, _, _) => 3
    case Writing(_, _) => 2
    case Publishing(_, _) => 1
    case _ => 0
  }

  /** The holder of the next index to publish gets closer to its return with every step, or underflows. */
  lemma OwnStep<T>(c: Config, s: State<T>, t: Tid)
    requires c.Valid() && s.At(t).Active() && s.At(t).index == s.initialized < c.capacity
    ensures Enabled(s, Advance(t))
    ensures var pc, s' := s.At(t), Next(c, s, Advance(t));
            var pc' := s'.At(t);
            && s.pushed == s'.pushed && s.len == s'.len
            && (if pc'.Active() then
                  pc'.index == pc.index == s'.initialized && pc'.value == pc.value && StepsLeft(pc') < StepsLeft(pc)
                else
                  || (pc' == Returned(pc.index, pc.value) && s'.initialized == s.initialized + 1)
                  || pc' == Underflowed(pc.index))
  {
    hide Range, Config.CommitEnd;
  }

  predicate OnlyBy<T>(run: seq<Action<T>>, t: Tid) {
    forall k :: 0 <= k < |run| ==> run[k].t == t
  }

  lemma {:induction false} HolderFinishes<T>(c: Config, s: State<T>, t: Tid) returns (run: seq<Action<T>>)
    requires c.Valid() && s.At(t).Active() && s.At(t).index == s.initialized < c.capacity
    ensures OnlyBy(run, t) && Trace(c, s, run)
    ensures var pc, s' := s.At(t), After(c, s, run);
            || (s'.At(t) == Returned(pc.index, pc.value) && s'.initialized == pc.index + 1)
            || s'.At(t) == Underflowed(pc.index)
    decreases StepsLeft(s.At(t))
  {
    hide Next, Enabled;
    OwnStep(c, s, t);
    var s' := Next(c, s, Advance(t));
    var rest: seq<Action<T>> := [];
    if s'.At(t).Active() {
      rest := HolderFinishes(c, s', t);
    }
    run := [Advance(t)] + rest;
    assert run[0] == Advance(t) && run[1..] == rest;
  }

  /**
   * No push ever waits in vain: whenever something within the capacity is unpublished, the thread that reserved the
   * next index publishes it, with the value it brought, by its own steps alone, unless its commit underflows.
   */
  lemma NextIndexGetsPublished<T>(c: Config, before: seq<Action<T>>) returns (run: seq<Action<T>>)
    requires c.Valid() && Trace(c, Empty(), before)
    requires var s := After(c, Empty(), before); s.initialized < s.len && s.initialized < c.capacity
    ensures var s := After(c, Empty(), before);
            && s.initialized < |s.owner| && s.initialized < |s.pushed|
            && var i, t := s.initialized, s.owner[s.initialized];
               && OnlyBy(run, t) && Trace(c, s, run)
               && (After(c, s, run).At(t) == Underflowed(i)
                   || (After(c, s, run).At(t) == Returned(i, s.pushed[i])
                       && Get(After(c, s, run), i) == Some(s.pushed[i])))
  {
    var s := After(c, Empty(), before);
    InvInit<T>(c);
    InvRun(c, Empty(), before);
    var i, t := s.initialized, s.owner[s.initialized];
    assert s.At(t).Holds(i) && ThreadInv(c, s, t);
    run := [];
    if s.At(t).Active() {
      run := HolderFinishes(c, s, t);
      InvRun(c, s, run);
    }
  }

  /** A push panics only when its index lies beyond the capacity. */
  lemma PanicsBeyondCapacity<T>(c: Config, run: seq<Action<T>>, t: Tid)
    requires c.Valid() && Trace(c, Empty(), run)
    ensures var s := After(c, Empty(), run);
            s.At(t).Panicked? ==> c.capacity <= s.At(t).index < |s.owner| && s.owner[s.At(t).index] == t
  {
    InvInit<T>(c);
    InvRun(c, Empty(), run);
    AnyThread(c, After(c, Empty(), run), t);
  }

  /** A read finds exactly the published indices, each with the value that was pushed to it. */
  lemma GetFinds<T>(c: Config, run: seq<Action<T>>, i: nat)
    requires c.Valid() && Trace(c, Empty(), run)
    ensures var s := After(c, Empty(), run);
            && s.initialized <= |s.pushed|
            && Get(s, i) == if i < s.initialized then Some(s.pushed[i]) else None
  {
    InvInit<T>(c);
    InvRun(c, Empty(), run);
  }

  /** With no push under way, everything within capacity has been published. */
  lemma Quiescence<T>(c: Config, s: State<T>)
    requires c.Valid() && Inv(c, s)
    requires forall t :: t in s.threads ==> !s.threads[t].Active() && !s.threads[t].Underflowed?
    ensures s.initialized == Reachable(c, s)
    ensures s.initialized == s.len <==> s.len <= c.capacity
    ensures forall i :: 0 <= i < s.initialized ==> Get(s, i) == Some(s.pushed[i])
  {
    var next := s.initialized;
    if next < Reachable(c, s) && s.At(s.owner[next]).Holds(next) {
      assert false;
    }
  }

  // -----------------------------------------------------------------------------------------------
  // Every slot is written in committed memory, serialised or not
  // -----------------------------------------------------------------------------------------------

  /** What a thread under way knows of the committed memory; the counter may go back, the memory does not. */
  ghost predicate MemoryThreadInv<T>(c: Config, s: State<T>, pc: Pc<T>) {
    && (pc.Checking? ==> pc.index < c.capacity)
    && (pc.Growing? || pc.Committing? || pc.Storing? ==> pc.index < pc.end)
    && (pc.Committing? ==> Range(0, pc.start) <= s.pages)
    && (pc.Storing? ==> Range(0, pc.end) <= s.pages)
    && (pc.Writing? ==> pc.index in s.pages)
  }

  ghost predicate MemoryInv<T>(c: Config, s: State<T>) {
    && Range(0, s.committed) <= s.pages
    && forall t :: t in s.threads ==> MemoryThreadInv(c, s, s.threads[t])
  }

  lemma CommitEndCovers(c: Config, i: nat)
    requires c.Valid() && i < c.capacity
    ensures i < c.CommitEnd(i) <= c.capacity
    ensures c.CommitEnd(i) == c.capacity || (c.CommitEnd(i) % c.granularity == 0 && c.CommitEnd(i) - i <= c.granularity)
  {
    var q, g := i / c.granularity, c.granularity;
    assert i == q * g + i % g;
    assert (q + 1) * g == q * g + g;
    MultipleOf(q + 1, g);
  }

  lemma MultipleOf(q: nat, g: nat)
    requires g > 0
    ensures q * g % g == 0
  {
    DivModUnique(q * g, g, q, 0);
  }

  lemma MemoryStep<T>(c: Config, s: State<T>, a: Action<T>)
    requires c.Valid() && Enabled(s, a) && Range(0, s.committed) <= s.pages && MemoryThreadInv(c, s, s.At(a.t))
    ensures var s' := Next(c, s, a);
            && s.pages <= s'.pages && Range(0, s'.committed) <= s'.pages && MemoryThreadInv(c, s', s'.At(a.t))
  {
    hide Config.CommitEnd;
    if a.Advance? && s.At(a.t).Checking? {
      CommitEndCovers(c, s.At(a.t).index);
    }
  }

  lemma MemoryInvNext<T>(c: Config, s: State<T>, a: Action<T>)
    requires c.Valid() && Enabled(s, a) && MemoryInv(c, s)
    ensures MemoryInv(c, Next(c, s, a))
  {
    assert MemoryThreadInv(c, s, s.At(a.t));
    MemoryStep(c, s, a);
    var s' := Next(c, s, a);
    forall u | u in s'.threads ensures MemoryThreadInv(c, s', s'.threads[u]) {
      if u != a.t {
        assert s'.threads[u] == s.At(u);
        assert MemoryThreadInv(c, s, s.threads[u]);
      }
    }
  }

  lemma {:induction false} MemoryRun<T>(c: Config, s: State<T>, run: seq<Action<T>>)
    requires c.Valid() && Trace(c, s, run) && MemoryInv(c, s)
    ensures MemoryInv(c, After(c, s, run))
    decreases |run|
  {
    hide MemoryInv, Next, Enabled;
    if run != [] {
      MemoryInvNext(c, s, run[0]);
      MemoryRun(c, Next(c, s, run[0]), run[1..]);
    }
  }

  /** In every interleaving a thread about to write its slot finds it in committed memory and within the capacity. */
  lemma WritesCommitted<T>(c: Config, run: seq<Action<T>>, t: Tid)
    requires c.Valid() && Trace(c, Empty(), run)
    ensures var s := After(c, Empty(), run);
            s.At(t).Writing? ==> s.At(t).index in s.pages && s.At(t).index < c.capacity
  {
    InvInit<T>(c);
    InvRun(c, Empty(), run);
    MemoryRun(c, Empty(), run);
    var s := After(c, Empty(), run);
    assert t in s.threads ==> ThreadInv(c, s, t) && MemoryThreadInv(c, s, s.threads[t]);
  }

  // -----------------------------------------------------------------------------------------------
  // Memory commits, when pushes to one arena are serialised
  // -----------------------------------------------------------------------------------------------

  /** Pushes are serialised when a push only begins while no other is under way. */
  predicate Serial<T>(s: State<T>, a: Action<T>) {
    a.Reserve? ==> forall u :: u in s.threads && u != a.t ==> !s.threads[u].Active()
  }

  predicate NoneActive<T>(s: State<T>) {
    forall t :: t in s.threads ==> !s.threads[t].Active()
  }

  /** Committed memory is one growing prefix; only between the commit and its store is it ahead of the counter. */
  ghost predicate CommitInv<T>(c: Config, s: State<T>) {
    && s.committed <= c.capacity
    && (forall t, u :: t in s.threads && u in s.threads && s.threads[t].Active() && s.threads[u].Active() ==> t == u)
    && (forall t :: t in s.threads ==> !s.threads[t].Underflowed?)
    && (forall t :: t in s.threads && s.threads[t].Active() ==> CommitThreadInv(c, s, s.threads[t]))
    && (NoneActive(s) ==> s.pages == Range(0, s.committed))
  }

  ghost predicate CommitThreadInv<T>(c: Config, s: State<T>, pc: Pc<T>) {
    && (pc.Growing? || pc.Committing? || pc.Storing? ==> s.committed <= pc.index < pc.end <= c.capacity)
    && (pc.Committing? ==> pc.start == s.committed)
    && (pc.Writing? ==> pc.index < s.committed)
    && s.pages == Range(0, if pc.Storing? then pc.end else s.committed)
  }

  /** Among serialised pushes the one under way holds the next index to publish. */
  lemma SoleHoldsNext<T>(c: Config, s: State<T>, t: Tid)
    requires Inv(c, s) && CommitInv(c, s) && s.At(t).Active() && s.At(t).index < c.capacity
    ensures s.At(t).index == s.initialized
  {
    assert ThreadInv(c, s, t);
    var i := s.initialized;
    assert i < s.At(t).index ==> s.At(s.owner[i]).Holds(i);
  }

  /** The step of the one push under way. */
  lemma CommitStep<T>(c: Config, s: State<T>, a: Action<T>)
    requires c.Valid() && a.Advance? && Enabled(s, a) && s.committed <= c.capacity
    requires CommitThreadInv(c, s, s.At(a.t)) && (s.At(a.t).Checking? ==> s.At(a.t).index < c.capacity)
    ensures var s' := Next(c, s, a);
            && s'.committed <= c.capacity && !s'.At(a.t).Underflowed?
            && (s'.At(a.t).Active() ==> CommitThreadInv(c, s', s'.At(a.t)))
            && (!s'.At(a.t).Active() ==> s'.pages == Range(0, s'.committed))
  {
    if s.At(a.t).Checking? {
      CommitEndCovers(c, s.At(a.t).index);
    }
    if s.At(a.t).Committing? {
      assert Next(c, s, a).pages == Range(0, s.At(a.t).end);
    }
  }

  lemma CommitInvNext<T>(c: Config, s: State<T>, a: Action<T>)
    requires c.Valid() && Inv(c, s) && CommitInv(c, s) && Enabled(s, a) && Serial(s, a)
    ensures CommitInv(c, Next(c, s, a))
  {
    assert ThreadInv(c, s, a.t);
    hide Inv;
    if a.Reserve? {
      assert NoneActive(s);
    } else if a.Advance? {
      AdvanceCommits(c, s, a);
    }
  }

  lemma AdvanceCommits<T>(c: Config, s: State<T>, a: Action<T>)
    requires c.Valid() && CommitInv(c, s) && Enabled(s, a) && a.Advance?
    requires s.At(a.t).Checking? ==> s.At(a.t).index < c.capacity
    ensures CommitInv(c, Next(c, s, a))
  {
    CommitStep(c, s, a);
    AdvanceThreads(c, s, a);
    hide Next, CommitThreadInv;
  }

  lemma AdvanceThreads<T>(c: Config, s: State<T>, a: Action<T>)
    requires c.Valid() && Enabled(s, a) && a.Advance?
    ensures a.t in s.threads && s.threads[a.t].Active()
    ensures Next(c, s, a).threads == s.threads[a.t := Next(c, s, a).At(a.t)]
  {
    hide Config.CommitEnd, Range;
  }

  ghost predicate SerialTrace<T>(c: Config, s: State<T>, run: seq<Action<T>>)
    requires c.Valid()
    decreases |run|
  {
    run == [] || (Enabled(s, run[0]) && Serial(s, run[0]) && SerialTrace(c, Next(c, s, run[0]), run[1..]))
  }

  lemma {:induction false} SerialRun<T>(c: Config, s: State<T>, run: seq<Action<T>>)
    requires c.Valid() && Inv(c, s) && CommitInv(c, s) && SerialTrace(c, s, run)
    ensures Trace(c, s, run) && Inv(c, After(c, s, run)) && CommitInv(c, After(c, s, run))
    decreases |run|
  {
    if run != [] {
      InvNext(c, s, run[0]);
      CommitInvNext(c, s, run[0]);
      SerialRun(c, Next(c, s, run[0]), run[1..]);
    }
  }

  /**
   * In every serialised run: a slot is written only in committed memory, each commit starts where the last one
   * ended, makes the committed part longer and stays within the capacity, and the subtraction never underflows.
   */
  lemma SerialCommits<T>(c: Config, run: seq<Action<T>>, t: Tid)
    requires c.Valid() && SerialTrace(c, Empty(), run)
    ensures Trace(c, Empty(), run)
    ensures var s := After(c, Empty(), run);
            && !s.At(t).Underflowed?
            && (s.At(t).Writing? ==> s.At(t).index in s.pages && s.At(t).index < c.capacity)
            && (s.At(t).Committing? ==>
                && s.pages == Range(0, s.At(t).start) && s.At(t).start <= s.At(t).index < s.At(t).end <= c.capacity
                && Next(c, s, Advance(t)).pages == Range(0, s.At(t).end))
    ensures NoneActive(After(c, Empty(), run)) ==>
            After(c, Empty(), run).initialized == Reachable(c, After(c, Empty(), run))
  {
    InvInit<T>(c);
    SerialRun(c, Empty(), run);
    var s := After(c, Empty(), run);
    assert t in s.threads ==> ThreadInv(c, s, t);
    if s.At(t).Committing? {
      assert Range(0, s.At(t).start) + Range(s.At(t).start, s.At(t).end) == Range(0, s.At(t).end);
    }
    if NoneActive(s) {
      Quiescence(c, s);
    }
  }

  // -----------------------------------------------------------------------------------------------
  // Without serialisation: exactly when the subtraction can underflow
  // -----------------------------------------------------------------------------------------------

  ghost predicate Reaches<T(!new)>(c: Config, s: State<T>)
    requires c.Valid()
  {
    exists run: seq<Action<T>> :: Trace(c, Empty(), run) && After(c, Empty(), run) == s
  }

  lemma {:induction false} AfterSnoc<T>(c: Config, s: State<T>, run: seq<Action<T>>, a: Action<T>)
    requires c.Valid() && Trace(c, s, run) && Enabled(After(c, s, run), a)
    ensures Trace(c, s, run + [a]) && After(c, s, run + [a]) == Next(c, After(c, s, run), a)
    decreases |run|
  {
    if run == [] {
      assert run + [a] == [a] && [a][1..] == [];
    } else {
      AfterSnoc(c, Next(c, s, run[0]), run[1..], a);
      assert (run + [a])[1..] == run[1..] + [a];
    }
  }

  lemma ReachesNext<T(!new)>(c: Config, s: State<T>, a: Action<T>)
    requires c.Valid() && Reaches(c, s) && Enabled(s, a)
    ensures Reaches(c, Next(c, s, a))
  {
    var run :| Trace(c, Empty(), run) && After(c, Empty(), run) == s;
    AfterSnoc(c, Empty(), run, a);
  }

  /** A push of v stands before its second load of the counter, and no commit has been made. */
  ghost predicate Stalled<T>(c: Config, s: State<T>, v: T) {
    && s.At(0) == Growing(0, v, c.granularity) && s.committed == 0
    && forall t :: t >= s.len ==> t !in s.threads
  }

  lemma FirstStalls<T(!new)>(c: Config, v: T) returns (s: State<T>)
    requires c.Valid() && c.granularity < c.capacity
    ensures Reaches(c, s) && Stalled(c, s, v) && s.len == 1
  {
    DivSmall(c.granularity);
    assert c.CommitEnd(0) == c.granularity;
    hide Config.CommitEnd, Reaches;
    var s0: State<T> := Empty();
    StartReached<T>(c);
    var s1 := Next(c, s0, Reserve(0, v));
    ReachesNext(c, s0, Reserve(0, v));
    var s2 := Next(c, s1, Advance(0));
    ReachesNext(c, s1, Advance(0));
    s := Next(c, s2, Advance(0));
    ReachesNext(c, s2, Advance(0));
  }

  lemma StartReached<T(!new)>(c: Config)
    requires c.Valid()
    ensures Reaches(c, Empty<T>())
  {
    var s0: State<T> := Empty();
    assert Trace(c, s0, []) && After(c, s0, []) == s0;
  }

  /** The first push stops between its two loads of the counter, and n more threads reserve an index each. */
  lemma {:induction false} ReserveBehindStalled<T(!new)>(c: Config, v: T, n: nat) returns (s: State<T>)
    requires c.Valid() && c.granularity < c.capacity
    ensures Reaches(c, s) && Stalled(c, s, v) && s.len == n + 1
    ensures n > 0 ==> s.At(n) == Reserved(n, v)
    decreases n
  {
    hide Reaches;
    if n == 0 {
      s := FirstStalls(c, v);
    } else {
      var p := ReserveBehindStalled(c, v, n - 1);
      ReachesNext(c, p, Reserve(n, v));
      s := Next(c, p, Reserve(n, v));
    }
  }

  lemma DivSmall(g: nat)
    requires g > 0
    ensures 0 / g == 0 && g / g == 1 && (0 / g + 1) * g == g && (g / g + 1) * g == g + g
  {}

  /** A thread in the second granule commits past the granule of the stalled push, which then subtracts below zero. */
  lemma StalledUnderflows<T(!new)>(c: Config, p: State<T>, v: T, t: nat)
    requires c.Valid() && c.granularity < c.capacity && t == c.granularity
    requires Reaches(c, p) && Stalled(c, p, v) && p.At(t) == Reserved(t, v)
    ensures exists s: State<T> :: Reaches(c, s) && s.At(0).Underflowed?
  {
    DivSmall(t);
    assert c.CommitEnd(t) > t;
    hide Config.CommitEnd, Reaches;
    var s1 := Next(c, p, Advance(t));
    ReachesNext(c, p, Advance(t));
    var s2 := Next(c, s1, Advance(t));
    ReachesNext(c, s1, Advance(t));
    assert s2.At(t) == Growing(t, v, c.CommitEnd(t));
    var s3 := Next(c, s2, Advance(t));
    ReachesNext(c, s2, Advance(t));
    var s4 := Next(c, s3, Advance(t));
    ReachesNext(c, s3, Advance(t));
    var s5 := Next(c, s4, Advance(t));
    ReachesNext(c, s4, Advance(t));
    StalledOvertaken(c, s5, v);
  }

  lemma StalledOvertaken<T(!new)>(c: Config, p: State<T>, v: T)
    requires c.Valid() && Reaches(c, p) && p.At(0) == Growing(0, v, c.granularity) && p.committed > c.granularity
    ensures exists s: State<T> :: Reaches(c, s) && s.At(0).Underflowed?
  {
    hide Reaches;
    var s1 := Next(c, p, Advance(0));
    ReachesNext(c, p, Advance(0));
    ReachesNext(c, s1, Advance(0));
    assert Next(c, s1, Advance(0)).At(0).Underflowed?;
  }

  /** With a single granule every commit goes to the capacity. */
  ghost predicate OneGranuleInv<T>(c: Config, s: State<T>) {
    && s.committed <= c.capacity
    && forall t :: t in s.threads ==>
         var pc := s.threads[t];
         && !pc.Underflowed?
         && (pc.Checking? || pc.Growing? ==> pc.index < c.capacity)
         && (pc.Growing? || pc.Committing? || pc.Storing? ==> pc.end == c.capacity)
         && (pc.Committing? ==> pc.start <= c.capacity)
  }

  lemma OneGranuleNext<T>(c: Config, s: State<T>, a: Action<T>)
    requires c.Valid() && c.capacity <= c.granularity && OneGranuleInv(c, s) && Enabled(s, a)
    ensures OneGranuleInv(c, Next(c, s, a))
  {
    if a.Advance? && s.At(a.t).Checking? {
      OneGranule(s.At(a.t).index, c.granularity);
    }
  }

  lemma OneGranule(i: nat, g: nat)
    requires i < g
    ensures (i / g + 1) * g == g
  {}

  lemma {:induction false} OneGranuleRun<T>(c: Config, s: State<T>, run: seq<Action<T>>)
    requires c.Valid() && c.capacity <= c.granularity && OneGranuleInv(c, s) && Trace(c, s, run)
    ensures OneGranuleInv(c, After(c, s, run))
    decreases |run|
  {
    if run != [] {
      OneGranuleNext(c, s, run[0]);
      OneGranuleRun(c, Next(c, s, run[0]), run[1..]);
    }
  }

  lemma OneGranuleNeverUnderflows<T>(c: Config, run: seq<Action<T>>, t: Tid)
    requires c.Valid() && c.capacity <= c.granularity && Trace(c, Empty(), run)
    ensures !After(c, Empty(), run).At(t).Underflowed?
  {
    OneGranuleRun(c, Empty(), run);
  }

  /**
   * Without serialised pushes the subtraction stays in range in every run exactly when one commit covers everything,
   * for elements of any type that has a value.
   */
  lemma CommitsNeverUnderflowIff<T(!new)>(c: Config, v: T)
    requires c.Valid()
    ensures (forall s: State<T>, t: Tid :: Reaches(c, s) ==> !s.At(t).Underflowed?) <==> c.capacity <= c.granularity
  {
    if c.capacity <= c.granularity {
      forall s: State<T>, t: Tid | Reaches(c, s) ensures !s.At(t).Underflowed? {
        var run :| Trace(c, Empty(), run) && After(c, Empty(), run) == s;
        OneGranuleNeverUnderflows(c, run, t);
      }
    } else {
      var p := ReserveBehindStalled(c, v, c.granularity);
      StalledUnderflows(c, p, v, c.granularity);
    }
  }

  /**
   * The arena of type-info entries is pushed to under the locks of different shards, so its pushes overlap. It holds
   * 8192 four-byte elements; 65536 bytes of commit granularity make 16384 elements, more than its capacity. So in
   * every run no commit underflows and every slot is written in committed memory.
   */
  lemma TypeInfoArenaSafe<T>(run: seq<Action<T>>, t: Tid)
    requires Trace(Config(8192, 16384), Empty(), run)
    ensures var s := After(Config(8192, 16384), Empty(), run);
            && !s.At(t).Underflowed?
            && (s.At(t).Writing? ==> s.At(t).index in s.pages && s.At(t).index < 8192)
  {
    OneGranuleNeverUnderflows(Config(8192, 16384), run, t);
    WritesCommitted(Config(8192, 16384), run, t);
  }
}
