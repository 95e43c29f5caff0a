/**
 * What one thread's own steps do to the sharded index map: every operation called while its shard is unlocked runs to
 * its end, with the answer of the plain map, and panics exactly when its shard is full.
 */
module OperationRuns {
  import opened Options
  import opened Power
  import opened Limbs
  import opened ShardedIndexMap
  import I = ShardIndex
  import A = VirtualDynArray

  predicate OnlyBy<K, V>(run: seq<Action<K, V>>, t: Tid) {
    forall k :: 0 <= k < |run| ==> run[k].t == t
  }

  lemma ValidOf<K(!new), V>(c: Config<K>, s: State<K, V>)
    requires Inv(c, s)
    ensures c.Valid()
  {}

  /** The shard a thread inside its critical section works on, and what it knows of it. */
  lemma Mine<K(!new), V>(c: Config<K>, s: State<K, V>, t: Tid) returns (j: nat)
    requires Inv(c, s) && s.At(t).Critical()
    ensures c.Valid() && j == c.ShardOf(s.At(t).op.key) < |s.shards| && j < Pow2(c.bits)
    ensures ShardInv(c, j, s.shards[j]) && CriticalInv(c, j, s.shards[j], t, s.At(t))
  {
    assert ThreadInv(c, s, t);
    j := c.ShardOf(s.At(t).op.key);
  }

  // -----------------------------------------------------------------------------------------------
  // A panic means a full shard
  // -----------------------------------------------------------------------------------------------

  /** A thread that has unwound found its shard full, and a push that panicked is about to unwind. */
  ghost predicate PanicInv<K, V>(c: Config<K>, s: State<K, V>, t: Tid) {
    var pc := s.At(t);
    && (pc.Unwound? ==>
        var j := c.ShardOf(pc.op.key); j < |s.shards| && s.shards[j].arena.len > c.arena.capacity)
    && forall j :: 0 <= j < |s.shards| && s.shards[j].arena.At(t).Panicked? ==>
         pc.Unwound? || (pc.Pushing? && c.ShardOf(pc.op.key) == j)
  }

  /** The stepping thread: it unwinds only from a push that panicked. */
  lemma OwnPanic<K, V>(c: Config<K>, j: nat, sh: Shard<K, V>, pc: Pc<K, V>, a: Action<K, V>)
    requires StepReady(c, j, sh, pc, a) && (sh.arena.At(a.t).Panicked? ==> pc.Pushing?)
    ensures var sh', pc' := NextShard(c, sh, pc, a), NextPc(j, sh, pc, a);
            && (pc'.Unwound? ==> sh'.arena.len > c.arena.capacity)
            && (sh'.arena.At(a.t).Panicked? ==> pc'.Unwound? || pc'.Pushing?)
  {
    hide A.CommitInv, A.HoldersInv, A.SlotsInv, A.Config.CommitEnd, A.Range, TableInv;
    if a.Unwind? {
      assert A.ThreadInv(c.arena, sh.arena, a.t);
    }
  }

  lemma LenGrows<K, V>(c: Config<K>, sh: Shard<K, V>, pc: Pc<K, V>, a: Action<K, V>)
    requires c.Valid() && ShardEnabled(sh, pc, a)
    ensures sh.arena.len <= NextShard(c, sh, pc, a).arena.len
  {
    hide A.Config.CommitEnd, A.Range;
  }

  lemma NoStepAfterUnwinding<K, V>(sh: Shard<K, V>, pc: Pc<K, V>, a: Action<K, V>)
    requires ShardEnabled(sh, pc, a)
    ensures !pc.Unwound?
  {}

  lemma PanicNext<K(!new), V>(c: Config<K>, s: State<K, V>, a: Action<K, V>, t: Tid)
    requires Inv(c, s) && Enabled(c, s, a) && PanicInv(c, s, t)
    ensures PanicInv(c, Next(c, s, a), t)
  {
    hide Inv, Enabled, TableInv, Next, NextShard, NextPc, ShardEnabled, ShardInv, CriticalInv, Target;
    ValidOf(c, s);
    if a.Call? {
      CallFrame(c, s, a);
    } else {
      var j := Ready(c, s, a);
      StepFrame(c, s, a, j);
      var sh, pc := s.shards[j], s.At(a.t);
      LenGrows(c, sh, pc, a);
      NoStepAfterUnwinding(sh, pc, a);
      PcShape(j, sh, pc, a);
      if t == a.t {
        OwnPanic(c, j, sh, pc, a);
      } else {
        ArenaThreads(c, sh, pc, a, t);
      }
    }
  }

  lemma {:induction false} PanicRun<K(!new), V>(c: Config<K>, s: State<K, V>, run: seq<Action<K, V>>, t: Tid)
    requires c.Valid() && Inv(c, s) && Trace(c, s, run) && PanicInv(c, s, t)
    ensures PanicInv(c, After(c, s, run), t)
    decreases |run|
  {
    hide Inv, PanicInv, Next, Enabled;
    if run != [] {
      InvNext(c, s, run[0]);
      PanicNext(c, s, run[0], t);
      PanicRun(c, Next(c, s, run[0]), run[1..], t);
    }
  }

  lemma StartPanics<K(!new), V>(c: Config<K>, t: Tid)
    requires c.Valid()
    ensures PanicInv(c, Start<K, V>(c), t)
  {}

  // -----------------------------------------------------------------------------------------------
  // An unlocked shard holds as many keys as pushes to it succeeded
  // -----------------------------------------------------------------------------------------------

  /** Thread t has pushed slot i of shard j and not linked it yet. */
  predicate Pending<K, V>(c: Config<K>, s: State<K, V>, j: nat, t: Tid, i: u32)
    requires j < |s.shards|
  {
    var pc, arena := s.At(t), s.shards[j].arena;
    && (pc.Linking? || pc.Pushing?) && c.ShardOf(pc.op.key) == j
    && (if pc.Linking? then pc.local == i else arena.At(t).Returned? && arena.At(t).index == i)
  }

  /** A published slot is linked, or some thread is about to link it. */
  ghost predicate Accounted<K, V>(c: Config<K>, s: State<K, V>, j: nat, i: u32) {
    j < |s.shards| && i < s.shards[j].arena.initialized ==>
      i in s.shards[j].table || exists t :: Pending(c, s, j, t, i)
  }

  /** What a step on shard j makes of slot i. */
  lemma SlotStep<K, V>(c: Config<K>, j: nat, sh: Shard<K, V>, pc: Pc<K, V>, a: Action<K, V>, i: u32)
    requires StepReady(c, j, sh, pc, a)
    ensures var sh', pc' := NextShard(c, sh, pc, a), NextPc(j, sh, pc, a);
            && (i in sh.table ==> i in sh'.table)
            && (sh.arena.initialized <= i < sh'.arena.initialized ==>
                 pc'.Pushing? && sh'.arena.At(a.t).Returned? && sh'.arena.At(a.t).index == i)
            && (pc.Linking? && pc.local == i ==> i in sh'.table)
            && (pc.Pushing? && sh.arena.At(a.t).Returned? && sh.arena.At(a.t).index == i ==>
                 pc'.Linking? && pc'.local == i)
  {
    hide ShardInv, A.Config.CommitEnd, A.Range;
  }

  lemma AccountedNext<K(!new), V>(c: Config<K>, s: State<K, V>, a: Action<K, V>, j: nat, i: u32)
    requires Inv(c, s) && Enabled(c, s, a) && Accounted(c, s, j, i)
    ensures Accounted(c, Next(c, s, a), j, i)
  {
    hide Inv, Enabled, Next, Pending, ShardInv, CriticalInv, Target, ShardEnabled;
    ValidOf(c, s);
    var s' := Next(c, s, a);
    if a.Call? {
      CallFrame(c, s, a);
    } else {
      var x := Ready(c, s, a);
      StepFrame(c, s, a, x);
      SlotStep(c, x, s.shards[x], s.At(a.t), a, i);
      hide NextShard, NextPc, StepReady;
      if j == x && s.shards[x].arena.initialized <= i < s'.shards[x].arena.initialized {
        JustPublished(c, s, a, x, i);
      }
    }
    if j < |s.shards| && i < s.shards[j].arena.initialized && i !in s.shards[j].table {
      var t :| Pending(c, s, j, t, i);
      PendingNext(c, s, a, j, t, i);
    }
  }

  lemma JustPublished<K(!new), V>(c: Config<K>, s: State<K, V>, a: Action<K, V>, j: nat, i: u32)
    requires Inv(c, s) && Enabled(c, s, a) && !a.Call? && j == Target(c, s, a) == c.ShardOf(s.At(a.t).op.key)
    requires c.Valid() && j < |s.shards| && j < |Next(c, s, a).shards|
    requires s.shards[j].arena.initialized <= i < Next(c, s, a).shards[j].arena.initialized
    ensures Pending(c, Next(c, s, a), j, a.t, i)
  {
    hide Inv, Enabled, Next, NextShard, NextPc, ShardInv, CriticalInv, ShardEnabled;
    var x := Ready(c, s, a);
    StepFrame(c, s, a, x);
    PcShape(x, s.shards[x], s.At(a.t), a);
    SlotStep(c, x, s.shards[x], s.At(a.t), a, i);
  }

  /** A slot that awaits its link is still awaiting it after a step, or linked. */
  lemma PendingNext<K(!new), V>(c: Config<K>, s: State<K, V>, a: Action<K, V>, j: nat, t: Tid, i: u32)
    requires Inv(c, s) && Enabled(c, s, a) && j < |s.shards| && Pending(c, s, j, t, i)
    ensures c.Valid() && j < |Next(c, s, a).shards|
    ensures Pending(c, Next(c, s, a), j, t, i) || i in Next(c, s, a).shards[j].table
  {
    hide Inv, Enabled, Next, NextShard, NextPc, ShardEnabled, ShardInv, CriticalInv, Target;
    ValidOf(c, s);
    if a.Call? {
      CallFrame(c, s, a);
    } else {
      var x := Ready(c, s, a);
      StepFrame(c, s, a, x);
      PcShape(x, s.shards[x], s.At(a.t), a);
      SlotStep(c, x, s.shards[x], s.At(a.t), a, i);
      ArenaThreads(c, s.shards[x], s.At(a.t), a, t);
    }
  }

  lemma {:induction false} AccountedRun<K(!new), V>(
      c: Config<K>, s: State<K, V>, run: seq<Action<K, V>>, j: nat, i: u32)
    requires c.Valid() && Inv(c, s) && Trace(c, s, run) && Accounted(c, s, j, i)
    ensures Accounted(c, After(c, s, run), j, i)
    decreases |run|
  {
    hide Inv, Accounted, Next, Enabled;
    if run != [] {
      InvNext(c, s, run[0]);
      AccountedNext(c, s, run[0], j, i);
      AccountedRun(c, Next(c, s, run[0]), run[1..], j, i);
    }
  }

  /** While a shard is unlocked, no push is under way and every published slot is linked. */
  lemma UnlockedShard<K(!new), V>(c: Config<K>, s: State<K, V>, j: nat)
    requires Inv(c, s) && j < |s.shards| && s.shards[j].holder.None?
    requires forall i: u32 :: Accounted(c, s, j, i)
    ensures var arena := s.shards[j].arena;
            && arena.initialized == (if arena.len < c.arena.capacity then arena.len else c.arena.capacity)
            && forall i: u32 :: i in s.shards[j].table <==> i < arena.initialized
  {
    forall t ensures ThreadInv(c, s, t) {
      InvOf(c, s, t);
    }
    assert ShardInv(c, j, s.shards[j]);
    hide Inv;
    var arena := s.shards[j].arena;
    forall t | t in arena.threads ensures !arena.threads[t].Active() && !arena.threads[t].Underflowed? {
      assert arena.At(t) == arena.threads[t] && ThreadInv(c, s, t);
    }
    A.Quiescence(c.arena, arena);
    forall i: u32 | i < arena.initialized ensures i in s.shards[j].table {
      assert Accounted(c, s, j, i);
      forall t ensures !Pending(c, s, j, t, i) {
        assert ThreadInv(c, s, t);
      }
    }
  }

  /** The keys of the plain map that belong to shard j. */
  function KeysOf<K, V>(c: Config<K>, m: map<K, Cell<V>>, j: nat): set<K> {
    set k | k in m && c.ShardOf(k) == j
  }

  /** The keys of the first n pushes. */
  function FirstKeys<K, V>(pushed: seq<(K, V)>, n: nat): set<K>
    requires n <= |pushed|
  {
    set i | 0 <= i < n :: pushed[i].0
  }

  lemma {:induction false} DistinctKeys<K, V>(pushed: seq<(K, V)>, n: nat)
    requires n <= |pushed| && forall i, l :: 0 <= i < l < n ==> pushed[i].0 != pushed[l].0
    ensures |FirstKeys(pushed, n)| == n
  {
    if n > 0 {
      DistinctKeys(pushed, n - 1);
      assert pushed[n - 1].0 !in FirstKeys(pushed, n - 1);
      assert FirstKeys(pushed, n) == FirstKeys(pushed, n - 1) + {pushed[n - 1].0};
    }
  }

  lemma TableKeys<K(!new), V>(c: Config<K>, s: State<K, V>, j: nat)
    requires Inv(c, s) && j < |s.shards|
    requires forall i: u32 :: i in s.shards[j].table <==> i < s.shards[j].arena.initialized
    ensures s.shards[j].arena.initialized <= |s.shards[j].arena.pushed|
    ensures KeysOf(c, Replay(s.log), j) == FirstKeys(s.shards[j].arena.pushed, s.shards[j].arena.initialized)
    ensures |KeysOf(c, Replay(s.log), j)| == s.shards[j].arena.initialized
  {
    var sh, m := s.shards[j], Replay(s.log);
    assert ShardInv(c, j, sh);
    LogOf(c, s, j);
    hide Inv, Replay;
    Fits(c, j, sh);
    var n := sh.arena.initialized;
    forall i | 0 <= i < n ensures sh.arena.pushed[i].0 in KeysOf(c, m, j) {
      assert (i as u32) in sh.table && Stored(j, sh, i as u32, m);
    }
    forall k | k in KeysOf(c, m, j) ensures k in FirstKeys(sh.arena.pushed, n) {
      assert Linked(j, sh, k, m[k].index);
    }
    DistinctKeys(sh.arena.pushed, n);
  }

  lemma Fits<K, V>(c: Config<K>, j: nat, sh: Shard<K, V>)
    requires c.Valid() && ShardInv(c, j, sh)
    ensures sh.arena.initialized <= c.arena.capacity < 0x1_0000_0000
  {}

  /**
   * An unlocked shard holds as many keys as pushes were made to it, or all its slots are taken: the keys of the plain
   * map that hash to it.
   */
  lemma KeysCounted<K(!new), V>(c: Config<K>, run: seq<Action<K, V>>, j: nat)
    requires c.Valid() && Trace(c, Start(c), run)
    requires j < |After(c, Start(c), run).shards| && After(c, Start(c), run).shards[j].holder.None?
    ensures var s := After(c, Start(c), run);
            var len := s.shards[j].arena.len;
            |KeysOf(c, Replay(s.log), j)| == if len < c.arena.capacity then len else c.arena.capacity
  {
    InvStart<K, V>(c);
    var s := After(c, Start(c), run);
    InvRun(c, Start(c), run);
    forall i: u32 ensures Accounted(c, s, j, i) {
      AccountedRun(c, Start(c), run, j, i);
    }
    hide Inv, Accounted, Start, After, Trace;
    UnlockedShard(c, s, j);
    TableKeys(c, s, j);
  }

  /** Every slot of the shard is linked. */
  ghost predicate Full<K, V>(c: Config<K>, s: State<K, V>, j: nat) {
    j < |s.shards| && forall i: u32 :: i < c.arena.capacity ==> i in s.shards[j].table
  }

  /** When a thread unwinds, its shard is full. */
  lemma UnwindsFull<K(!new), V>(c: Config<K>, s: State<K, V>, t: Tid, j: nat)
    requires Inv(c, s) && s.At(t).Pushing? && j == c.ShardOf(s.At(t).op.key) < |s.shards|
    requires s.shards[j].arena.At(t).Panicked?
    requires forall i: u32 :: Accounted(c, s, j, i)
    ensures Full(c, s, j)
  {
    var x := Mine(c, s, t);
    forall u ensures ThreadInv(c, s, u) {
      InvOf(c, s, u);
    }
    hide Inv;
    var arena := s.shards[j].arena;
    assert A.ThreadInv(c.arena, arena, t);
    forall u | u in arena.threads ensures !arena.threads[u].Active() && !arena.threads[u].Underflowed? {
      assert arena.At(u) == arena.threads[u] && ThreadInv(c, s, u);
    }
    A.Quiescence(c.arena, arena);
    forall i: u32 | i < arena.initialized ensures i in s.shards[j].table {
      assert Accounted(c, s, j, i);
      forall u ensures !Pending(c, s, j, u, i) {
        assert ThreadInv(c, s, u);
      }
    }
  }

  /** A thread that has unwound found its shard full, and it stays full. */
  ghost predicate FullInv<K, V>(c: Config<K>, s: State<K, V>, t: Tid) {
    s.At(t).Unwound? ==> Full(c, s, c.ShardOf(s.At(t).op.key))
  }

  lemma TableGrows<K, V>(c: Config<K>, sh: Shard<K, V>, pc: Pc<K, V>, a: Action<K, V>)
    requires c.Valid() && ShardEnabled(sh, pc, a)
    ensures sh.table <= NextShard(c, sh, pc, a).table
  {}

  /** A thread unwinds from a push that panicked. */
  lemma UnwindsFrom<K, V>(c: Config<K>, j: nat, sh: Shard<K, V>, pc: Pc<K, V>, a: Action<K, V>)
    requires StepReady(c, j, sh, pc, a) && NextPc(j, sh, pc, a).Unwound?
    ensures pc.Pushing? && sh.arena.At(a.t).Panicked?
  {
    hide A.CommitInv, A.HoldersInv, A.SlotsInv, TableInv;
  }

  lemma FullNext<K(!new), V>(c: Config<K>, s: State<K, V>, a: Action<K, V>, t: Tid)
    requires Inv(c, s) && Enabled(c, s, a) && FullInv(c, s, t)
    requires forall j: nat, i: u32 :: Accounted(c, s, j, i)
    ensures FullInv(c, Next(c, s, a), t)
  {
    hide Inv, Enabled, Next, NextShard, NextPc, ShardEnabled, ShardInv, CriticalInv, Target, Accounted;
    InvOf(c, s, t);
    if a.Call? {
      CallFrame(c, s, a);
    } else {
      var j := Ready(c, s, a);
      StepFrame(c, s, a, j);
      var sh, pc := s.shards[j], s.At(a.t);
      TableGrows(c, sh, pc, a);
      NoStepAfterUnwinding(sh, pc, a);
      PcShape(j, sh, pc, a);
      if t == a.t && Next(c, s, a).At(t).Unwound? {
        UnwindsFrom(c, j, sh, pc, a);
        UnwindsFull(c, s, t, j);
      }
    }
  }

  lemma {:induction false} FullRun<K(!new), V>(c: Config<K>, s: State<K, V>, run: seq<Action<K, V>>, t: Tid)
    requires c.Valid() && Inv(c, s) && Trace(c, s, run) && FullInv(c, s, t)
    requires forall j: nat, i: u32 :: Accounted(c, s, j, i)
    ensures FullInv(c, After(c, s, run), t)
    decreases |run|
  {
    hide Inv, FullInv, Next, Enabled, Accounted;
    if run != [] {
      InvNext(c, s, run[0]);
      FullNext(c, s, run[0], t);
      forall j: nat, i: u32 ensures Accounted(c, Next(c, s, run[0]), j, i) {
        AccountedNext(c, s, run[0], j, i);
      }
      FullRun(c, Next(c, s, run[0]), run[1..], t);
    }
  }

  /**
   * In every run an operation panics only when more pushes than its shard has slots have been made to it; as many
   * keys of the plain map as it has slots hash to it then.
   */
  lemma PanicsOnlyWhenFull<K(!new), V>(c: Config<K>, run: seq<Action<K, V>>, t: Tid)
    requires c.Valid() && Trace(c, Start(c), run)
    ensures var s := After(c, Start(c), run);
            s.At(t).Unwound? ==>
              var j := c.hash(s.At(t).op.key) % Pow2(c.bits);
              && j < |s.shards| && s.shards[j].arena.len > c.arena.capacity
              && |KeysOf(c, Replay(s.log), j)| == c.arena.capacity
  {
    InvStart<K, V>(c);
    StartPanics<K, V>(c, t);
    var s := After(c, Start(c), run);
    forall j: nat, i: u32 ensures Accounted(c, Start<K, V>(c), j, i) {}
    InvRun(c, Start(c), run);
    PanicRun(c, Start(c), run, t);
    FullRun(c, Start(c), run, t);
    hide Inv, Start, After, Trace, Replay;
    if s.At(t).Unwound? {
      var j := c.ShardOf(s.At(t).op.key);
      ShardOfInRange(c, s.At(t).op.key);
      FullTable(c, s, j);
      TableKeys(c, s, j);
    }
  }

  lemma FullTable<K(!new), V>(c: Config<K>, s: State<K, V>, j: nat)
    requires Inv(c, s) && Full(c, s, j)
    ensures s.shards[j].arena.initialized == c.arena.capacity
    ensures forall i: u32 :: i in s.shards[j].table <==> i < s.shards[j].arena.initialized
  {
    assert ShardInv(c, j, s.shards[j]);
    if c.arena.capacity > 0 {
      assert (c.arena.capacity - 1) as u32 in s.shards[j].table;
    }
  }

  // -----------------------------------------------------------------------------------------------
  // The steps of one thread, from the last to the first
  // -----------------------------------------------------------------------------------------------

  lemma Prepend<K, V>(c: Config<K>, s: State<K, V>, a: Action<K, V>, rest: seq<Action<K, V>>)
    requires c.Valid() && Enabled(c, s, a) && Trace(c, Next(c, s, a), rest)
    ensures Trace(c, s, [a] + rest) && After(c, s, [a] + rest) == After(c, Next(c, s, a), rest)
  {
    hide Enabled, Next;
    var run := [a] + rest;
    assert run[0] == a && run[1..] == rest;
  }

  /** Where a run of thread t leaves it and the log, the lock of its shard being free again. */
  ghost predicate Ends<K, V>(
      c: Config<K>, s: State<K, V>, run: seq<Action<K, V>>, t: Tid, pc: Pc<K, V>, log: seq<Event<K, V>>)
    requires c.Valid() && !pc.Idle?
  {
    && OnlyBy(run, t) && Trace(c, s, run)
    && var s', j := After(c, s, run), c.ShardOf(pc.op.key);
       s'.At(t) == pc && s'.log == log && j < |s'.shards| && s'.shards[j].holder.None?
  }

  lemma EndsLater<K, V>(
      c: Config<K>, s: State<K, V>, a: Action<K, V>, rest: seq<Action<K, V>>, pc: Pc<K, V>, log: seq<Event<K, V>>)
    requires c.Valid() && !pc.Idle? && Enabled(c, s, a) && Ends(c, Next(c, s, a), rest, a.t, pc, log)
    ensures Ends(c, s, [a] + rest, a.t, pc, log)
  {
    hide Enabled, Next;
    Prepend(c, s, a, rest);
  }

  lemma UnlockRun<K(!new), V>(c: Config<K>, s: State<K, V>, t: Tid) returns (run: seq<Action<K, V>>)
    requires Inv(c, s) && s.At(t).Unlocking?
    ensures c.Valid() && Ends(c, s, run, t, Done(s.At(t).op, s.At(t).n, s.At(t).result), s.log)
  {
    hide Inv, ShardInv, CriticalInv;
    var j := Mine(c, s, t);
    var a := Unlock(t);
    assert Enabled(c, s, a);
    StepFrame(c, s, a, j);
    Prepend(c, s, a, []);
    run := [a] + [];
  }

  /** The event with which thread t takes effect. */
  function EventAt<K, V>(t: Tid, pc: Pc<K, V>, r: Result<V>): Event<K, V>
    requires !pc.Idle?
  {
    Event(t, pc.n, pc.op, r)
  }

  /** A step that takes effect, and the unlocking after it. */
  lemma EffectRun<K(!new), V>(c: Config<K>, s: State<K, V>, a: Action<K, V>, r: Result<V>)
    returns (run: seq<Action<K, V>>)
    requires Inv(c, s) && s.At(a.t).Critical() && !s.At(a.t).Effective() && Enabled(c, s, a)
    requires Next(c, s, a).At(a.t) == Unlocking(s.At(a.t).op, s.At(a.t).n, r)
    requires Next(c, s, a).log == s.log + [EventAt(a.t, s.At(a.t), r)]
    ensures var pc := s.At(a.t);
            c.Valid() && Ends(c, s, run, a.t, Done(pc.op, pc.n, r), s.log + [EventAt(a.t, pc, r)])
  {
    InvNext(c, s, a);
    var rest := UnlockRun(c, Next(c, s, a), a.t);
    hide Inv, Next, Enabled;
    EndsLater(c, s, a, rest, Done(s.At(a.t).op, s.At(a.t).n, r), s.log + [EventAt(a.t, s.At(a.t), r)]);
    run := [a] + rest;
  }

  lemma LinkRun<K(!new), V>(c: Config<K>, s: State<K, V>, t: Tid) returns (run: seq<Action<K, V>>)
    requires Inv(c, s) && s.At(t).Linking?
    ensures var pc := s.At(t);
            var r := Result(Some(I.Pack(c.ShardOf(pc.op.key), pc.local)), None);
            c.Valid() && Ends(c, s, run, t, Done(pc.op, pc.n, r), s.log + [EventAt(t, pc, r)])
  {
    hide Inv, ShardInv, CriticalInv;
    var j := Mine(c, s, t);
    var a := Link(t);
    assert Enabled(c, s, a);
    StepFrame(c, s, a, j);
    run := EffectRun(c, s, a, Result(Some(I.Pack(j, s.At(t).local)), None));
  }

  /** Under the lock, a push within the capacity holds the next index to publish. */
  lemma HoldsNext<K, V>(c: Config<K>, j: nat, sh: Shard<K, V>, t: Tid)
    requires ShardInv(c, j, sh) && sh.arena.At(t).Active() && sh.arena.At(t).index < c.arena.capacity
    ensures sh.arena.At(t).index == sh.arena.initialized
  {
    A.SoleHoldsNext(c.arena, sh.arena, t);
  }

  /** The index a returned push was given fits the table's 32-bit entries. */
  lemma ReturnedFits<K, V>(c: Config<K>, j: nat, sh: Shard<K, V>, t: Tid)
    requires c.Valid() && ShardInv(c, j, sh) && sh.arena.At(t).Returned?
    ensures sh.arena.At(t).index < 0x1_0000_0000
  {
    assert A.ThreadInv(c.arena, sh.arena, t);
  }

  /** An arena step of a push: it stays a push of the same operation, with the same index, closer to its end. */
  lemma PushOn<K(!new), V>(c: Config<K>, s: State<K, V>, t: Tid)
    requires Inv(c, s) && s.At(t).Pushing?
    requires var j := c.ShardOf(s.At(t).op.key); j < |s.shards| && s.shards[j].arena.At(t).Active()
    requires var j := c.ShardOf(s.At(t).op.key); s.shards[j].arena.At(t).index < c.arena.capacity
    ensures var a, j := PushStep(t, false), c.ShardOf(s.At(t).op.key);
            && c.Valid() && Enabled(c, s, a) && Next(c, s, a).At(t) == s.At(t) && Next(c, s, a).log == s.log
            && j < |Next(c, s, a).shards|
            && var pc, pc' := s.shards[j].arena.At(t), Next(c, s, a).shards[j].arena.At(t);
               && (pc'.Active() || pc'.Returned?) && pc'.index == pc.index
               && A.StepsLeft(pc') < A.StepsLeft(pc)
  {
    hide Inv;
    var j := Mine(c, s, t);
    var a := PushStep(t, false);
    hide ShardInv, CriticalInv, Target, A.Next, A.Enabled;
    HoldsNext(c, j, s.shards[j], t);
    A.OwnStep(c.arena, s.shards[j].arena, t);
    assert Enabled(c, s, a);
    StepFrame(c, s, a, j);
    InvNext(c, s, a);
    StillPushing(c, Next(c, s, a), t, j);
  }

  lemma StillPushing<K(!new), V>(c: Config<K>, s: State<K, V>, t: Tid, j: nat)
    requires Inv(c, s) && s.At(t).Pushing? && j == c.ShardOf(s.At(t).op.key)
    ensures j < |s.shards| && !s.shards[j].arena.At(t).Underflowed?
  {
    hide Inv, ShardInv;
    var i := Mine(c, s, t);
  }

  lemma {:induction false} PushRun<K(!new), V>(c: Config<K>, s: State<K, V>, t: Tid) returns (run: seq<Action<K, V>>)
    requires Inv(c, s) && s.At(t).Pushing?
    requires var j := c.ShardOf(s.At(t).op.key);
             && j < |s.shards|
             && var pc := s.shards[j].arena.At(t);
                pc.Returned? || (pc.Active() && pc.index < c.arena.capacity)
    ensures var pc, j := s.At(t), c.ShardOf(s.At(t).op.key);
            && c.Valid() && s.shards[j].arena.At(t).index < 0x1_0000_0000
            && var r := Result(Some(I.Pack(j, s.shards[j].arena.At(t).index)), None);
               Ends(c, s, run, t, Done(pc.op, pc.n, r), s.log + [EventAt(t, pc, r)])
    decreases A.StepsLeft(s.shards[c.ShardOf(s.At(t).op.key)].arena.At(t))
  {
    hide Inv, ShardInv, CriticalInv, Ends, Next;
    var j := Mine(c, s, t);
    var pc, index := s.At(t), s.shards[j].arena.At(t).index;
    if s.shards[j].arena.At(t).Returned? {
      var a := PushReturn(t);
      ReturnedFits(c, j, s.shards[j], t);
      assert Enabled(c, s, a);
      StepFrame(c, s, a, j);
      InvNext(c, s, a);
      var rest := LinkRun(c, Next(c, s, a), t);
      var r := Result(Some(I.Pack(j, index)), None);
      EndsLater(c, s, a, rest, Done(pc.op, pc.n, r), s.log + [EventAt(t, pc, r)]);
      run := [a] + rest;
    } else {
      var a := PushStep(t, false);
      PushOn(c, s, t);
      InvNext(c, s, a);
      var rest := PushRun(c, Next(c, s, a), t);
      var r := Result(Some(I.Pack(j, index)), None);
      EndsLater(c, s, a, rest, Done(pc.op, pc.n, r), s.log + [EventAt(t, pc, r)]);
      run := [a] + rest;
    }
  }

  /** The first step of a push: the index it reserves is the number of pushes so far. */
  lemma PushStart<K(!new), V>(c: Config<K>, s: State<K, V>, t: Tid)
    requires Inv(c, s) && PanicInv(c, s, t) && s.At(t).Vacant?
    ensures var a, j, pc := Push(t), c.ShardOf(s.At(t).op.key), s.At(t);
            && c.Valid() && j < |s.shards| && Enabled(c, s, a)
            && var s' := Next(c, s, a);
               && s'.At(t) == Pushing(pc.op, pc.n) && s'.log == s.log && j < |s'.shards|
               && s'.shards[j].arena.At(t) == A.Reserved(s.shards[j].arena.len, (pc.op.key, pc.op.value))
  {
    InvOf(c, s, t);
    hide Inv;
    var j := Mine(c, s, t);
    var a := Push(t);
    Quiet(c, j, s.shards[j], t);
    hide ShardInv, CriticalInv;
    assert Enabled(c, s, a);
    StepFrame(c, s, a, j);
  }

  /** No push to the arena has underflowed. */
  lemma Quiet<K, V>(c: Config<K>, j: nat, sh: Shard<K, V>, t: Tid)
    requires ShardInv(c, j, sh)
    ensures !sh.arena.At(t).Underflowed?
  {}

  lemma VacantRun<K(!new), V>(c: Config<K>, s: State<K, V>, t: Tid) returns (run: seq<Action<K, V>>)
    requires Inv(c, s) && PanicInv(c, s, t) && s.At(t).Vacant?
    requires var j := c.ShardOf(s.At(t).op.key); j < |s.shards| && s.shards[j].arena.len < c.arena.capacity
    ensures var pc, j := s.At(t), c.ShardOf(s.At(t).op.key);
            && c.Valid() && s.shards[j].arena.len < 0x1_0000_0000
            && var r := Result(Some(I.Pack(j, s.shards[j].arena.len)), None);
               Ends(c, s, run, t, Done(pc.op, pc.n, r), s.log + [EventAt(t, pc, r)])
  {
    InvOf(c, s, t);
    hide Inv, PanicInv, Ends, Next, Enabled;
    PushStart(c, s, t);
    var a, pc, j := Push(t), s.At(t), c.ShardOf(s.At(t).op.key);
    InvNext(c, s, a);
    var rest := PushRun(c, Next(c, s, a), t);
    var r := Result(Some(I.Pack(j, s.shards[j].arena.len)), None);
    EndsLater(c, s, a, rest, Done(pc.op, pc.n, r), s.log + [EventAt(t, pc, r)]);
    run := [a] + rest;
  }

  /** A push past the capacity panics, and the operation unwinds. */
  lemma UnwindRun<K(!new), V>(c: Config<K>, s: State<K, V>, t: Tid) returns (run: seq<Action<K, V>>)
    requires Inv(c, s) && PanicInv(c, s, t) && s.At(t).Vacant?
    requires var j := c.ShardOf(s.At(t).op.key); j < |s.shards| && s.shards[j].arena.len >= c.arena.capacity
    ensures c.Valid() && Ends(c, s, run, t, Unwound(s.At(t).op, s.At(t).n), s.log)
  {
    InvOf(c, s, t);
    hide Inv, PanicInv, Ends, Next;
    PushStart(c, s, t);
    var a, pc, j := Push(t), s.At(t), c.ShardOf(s.At(t).op.key);
    InvNext(c, s, a);
    var rest := PanicSteps(c, Next(c, s, a), t, j);
    EndsLater(c, s, a, rest, Unwound(pc.op, pc.n), s.log);
    run := [a] + rest;
  }

  lemma UnwindStep<K(!new), V>(c: Config<K>, s: State<K, V>, t: Tid, j: nat) returns (run: seq<Action<K, V>>)
    requires Inv(c, s) && s.At(t).Pushing? && j == c.ShardOf(s.At(t).op.key) && j < |s.shards|
    requires s.shards[j].arena.At(t).Panicked?
    ensures c.Valid() && Ends(c, s, run, t, Unwound(s.At(t).op, s.At(t).n), s.log)
  {
    hide Inv, ShardInv, CriticalInv;
    ValidOf(c, s);
    var a := Unwind(t);
    assert Enabled(c, s, a);
    StepFrame(c, s, a, j);
    hide Next, Enabled;
    Prepend(c, s, a, []);
    run := [a] + [];
  }

  lemma PanicSteps<K(!new), V>(c: Config<K>, s: State<K, V>, t: Tid, j: nat) returns (run: seq<Action<K, V>>)
    requires Inv(c, s) && s.At(t).Pushing? && j == c.ShardOf(s.At(t).op.key) && j < |s.shards|
    requires s.shards[j].arena.At(t).Reserved? && s.shards[j].arena.At(t).index >= c.arena.capacity
    ensures c.Valid() && Ends(c, s, run, t, Unwound(s.At(t).op, s.At(t).n), s.log)
  {
    hide Inv, ShardInv, CriticalInv, Ends;
    ValidOf(c, s);
    var a := PushStep(t, false);
    assert Enabled(c, s, a);
    StepFrame(c, s, a, j);
    InvNext(c, s, a);
    var rest := UnwindStep(c, Next(c, s, a), t, j);
    hide Next, Enabled;
    EndsLater(c, s, a, rest, Unwound(s.At(t).op, s.At(t).n), s.log);
    run := [a] + rest;
  }

  lemma SwapRun<K(!new), V>(c: Config<K>, s: State<K, V>, t: Tid) returns (run: seq<Action<K, V>>)
    requires Inv(c, s) && s.At(t).Occupied?
    ensures var pc, j := s.At(t), c.ShardOf(s.At(t).op.key);
            && c.Valid() && j < |s.shards| && I.Local(pc.index) in s.shards[j].arena.slots
            && var r := Result(Some(pc.index), Some(s.shards[j].Current(I.Local(pc.index))));
               Ends(c, s, run, t, Done(pc.op, pc.n, r), s.log + [EventAt(t, pc, r)])
  {
    hide Inv;
    var j := Mine(c, s, t);
    var pc, a := s.At(t), Swap(t);
    LinkedSlot(c, j, s.shards[j], I.Local(pc.index));
    hide ShardInv;
    assert Enabled(c, s, a);
    StepFrame(c, s, a, j);
    run := EffectRun(c, s, a, Result(Some(pc.index), Some(s.shards[j].Current(I.Local(pc.index)))));
  }

  lemma LinkedSlot<K, V>(c: Config<K>, j: nat, sh: Shard<K, V>, i: u32)
    requires ShardInv(c, j, sh) && i in sh.table
    ensures i < sh.arena.len && i in sh.arena.slots && sh.arena.slots[i] == sh.arena.pushed[i]
  {}

  /** Some answer of the table's search agrees with the plain map. */
  lemma SomeAnswer<K(!new), V>(c: Config<K>, s: State<K, V>, t: Tid) returns (found: Option<u32>)
    requires Inv(c, s) && s.At(t).Searching?
    ensures var j, k := c.ShardOf(s.At(t).op.key), s.At(t).op.key;
            j < |s.shards| && s.shards[j].Finds(k, found) && (found.Some? <==> k in Replay(s.log))
  {
    var k := s.At(t).op.key;
    var j := Mine(c, s, t);
    LogOf(c, s, j);
    hide Inv, Replay;
    var m := Replay(s.log);
    if k in m {
      CellOf(c, s, k);
      var i := I.Local(m[k].index);
      LinkedSlot(c, j, s.shards[j], i);
      found := Some(i);
    } else {
      forall i | i in s.shards[j].table ensures !s.shards[j].HasKey(i, k) {
        LinkedSlot(c, j, s.shards[j], i);
        assert Stored(j, s.shards[j], i, m);
      }
      found := None;
    }
  }

  /**
   * How an operation of a thread at pc ends when the plain map is m and its shard has had len pushes: with one more
   * event, or with a panic.
   */
  ghost predicate Outcome<K(!new), V>(
      c: Config<K>, s: State<K, V>, t: Tid, op: Op<K, V>, n: nat, end: Pc<K, V>, log: seq<Event<K, V>>)
  {
    var j := c.ShardOf(op.key);
    && j < |s.shards|
    && var len, absent := s.shards[j].arena.len, op.key !in Replay(s.log) && !op.Find?;
       if absent && len >= c.arena.capacity then end == Unwound(op, n) && log == s.log
       else
         && end.Done? && end.op == op && end.n == n && log == s.log + [Event(t, n, op, end.result)]
         && (absent ==> len < 0x1_0000_0000 && end.result.index == Some(I.Pack(j, len)))
  }

  /** The outcome depends on the log and on the pushes to the shard only. */
  lemma OutcomeSame<K(!new), V>(
      c: Config<K>, s: State<K, V>, s': State<K, V>, t: Tid, op: Op<K, V>, n: nat, end: Pc<K, V>, log: seq<Event<K, V>>)
    requires Outcome(c, s', t, op, n, end, log) && s'.log == s.log && |s'.shards| == |s.shards|
    requires var j := c.ShardOf(op.key); j < |s.shards| ==> s'.shards[j].arena.len == s.shards[j].arena.len
    ensures Outcome(c, s, t, op, n, end, log)
  {
    hide Replay;
  }

  lemma SearchRun<K(!new), V>(c: Config<K>, s: State<K, V>, t: Tid)
    returns (run: seq<Action<K, V>>, end: Pc<K, V>, log: seq<Event<K, V>>)
    requires Inv(c, s) && PanicInv(c, s, t) && s.At(t).Searching?
    ensures c.Valid() && !end.Idle? && Ends(c, s, run, t, end, log)
    ensures Outcome(c, s, t, s.At(t).op, s.At(t).n, end, log)
  {
    InvOf(c, s, t);
    hide Inv, PanicInv, Ends, ShardInv, CriticalInv, Replay;
    var found := SomeAnswer(c, s, t);
    var j := Mine(c, s, t);
    var pc, a := s.At(t), Search(t, found);
    assert Enabled(c, s, a);
    StepFrame(c, s, a, j);
    InvNext(c, s, a);
    PanicNext(c, s, a, t);
    var s' := Next(c, s, a);
    hide Next;
    if s'.At(t).Unlocking? {
      run := EffectRun(c, s, a, s'.At(t).result);
      end, log := Done(pc.op, pc.n, s'.At(t).result), s.log + [EventAt(t, pc, s'.At(t).result)];
    } else {
      var rest;
      rest, end, log := AfterSearch(c, s', t);
      EndsLater(c, s, a, rest, end, log);
      run := [a] + rest;
    }
  }

  lemma AfterSearch<K(!new), V>(c: Config<K>, s: State<K, V>, t: Tid)
    returns (run: seq<Action<K, V>>, end: Pc<K, V>, log: seq<Event<K, V>>)
    requires Inv(c, s) && PanicInv(c, s, t)
    requires s.At(t).Vacant? || (s.At(t).Occupied? && s.At(t).op.key in Replay(s.log))
    ensures c.Valid() && !end.Idle? && Ends(c, s, run, t, end, log)
    ensures s.At(t).Vacant? ==> s.At(t).op.key !in Replay(s.log)
    ensures Outcome(c, s, t, s.At(t).op, s.At(t).n, end, log)
  {
    hide Inv, PanicInv, Ends, Replay, ShardInv, CriticalInv;
    var j := Mine(c, s, t);
    var pc := s.At(t);
    if pc.Vacant? {
      AbsentKey(c, s, t);
    }
    if pc.Occupied? {
      run := SwapRun(c, s, t);
      var r := Result(Some(pc.index), Some(s.shards[j].Current(I.Local(pc.index))));
      end, log := Done(pc.op, pc.n, r), s.log + [EventAt(t, pc, r)];
    } else if s.shards[j].arena.len < c.arena.capacity {
      run := VacantRun(c, s, t);
      var r := Result(Some(I.Pack(j, s.shards[j].arena.len)), None);
      end, log := Done(pc.op, pc.n, r), s.log + [EventAt(t, pc, r)];
    } else {
      run := UnwindRun(c, s, t);
      end, log := Unwound(pc.op, pc.n), s.log;
    }
  }

  lemma AbsentKey<K(!new), V>(c: Config<K>, s: State<K, V>, t: Tid)
    requires Inv(c, s) && s.At(t).Vacant?
    ensures s.At(t).op.key !in Replay(s.log) && !s.At(t).op.Find?
  {
    var j := Mine(c, s, t);
    if s.At(t).op.key in Replay(s.log) {
      CellOf(c, s, s.At(t).op.key);
      assert false;
    }
  }

  lemma WaitRun<K(!new), V>(c: Config<K>, s: State<K, V>, t: Tid)
    returns (run: seq<Action<K, V>>, end: Pc<K, V>, log: seq<Event<K, V>>)
    requires Inv(c, s) && PanicInv(c, s, t) && s.At(t).Waiting?
    requires var j := c.ShardOf(s.At(t).op.key); j < |s.shards| && s.shards[j].holder.None?
    ensures c.Valid() && !end.Idle? && Ends(c, s, run, t, end, log)
    ensures Outcome(c, s, t, s.At(t).op, s.At(t).n, end, log)
  {
    hide Inv, PanicInv, Ends, Replay, Outcome;
    ValidOf(c, s);
    var j, a := c.ShardOf(s.At(t).op.key), Lock(t);
    assert Enabled(c, s, a);
    StepFrame(c, s, a, j);
    InvNext(c, s, a);
    PanicNext(c, s, a, t);
    hide Next, Enabled;
    var rest;
    rest, end, log := SearchRun(c, Next(c, s, a), t);
    OutcomeSame(c, s, Next(c, s, a), t, s.At(t).op, s.At(t).n, end, log);
    EndsLater(c, s, a, rest, end, log);
    run := [a] + rest;
  }

  /** The number the next operation of a thread gets. */
  function NextNumber<K, V>(pc: Pc<K, V>): nat {
    if pc.Done? then pc.n + 1 else 0
  }

  lemma CallRun<K(!new), V>(c: Config<K>, s: State<K, V>, t: Tid, op: Op<K, V>)
    returns (run: seq<Action<K, V>>, end: Pc<K, V>, log: seq<Event<K, V>>)
    requires Inv(c, s) && PanicInv(c, s, t) && (s.At(t).Idle? || s.At(t).Done?)
    requires c.ShardOf(op.key) < |s.shards| && s.shards[c.ShardOf(op.key)].holder.None?
    ensures c.Valid() && !end.Idle? && Ends(c, s, run, t, end, log)
    ensures Outcome(c, s, t, op, NextNumber(s.At(t)), end, log)
  {
    hide Inv, PanicInv, Ends, Replay, Outcome;
    ValidOf(c, s);
    var a := Call(t, op);
    assert Enabled(c, s, a);
    CallFrame(c, s, a);
    InvNext(c, s, a);
    PanicNext(c, s, a, t);
    hide Next, Enabled;
    var rest;
    rest, end, log := WaitRun(c, Next(c, s, a), t);
    OutcomeSame(c, s, Next(c, s, a), t, op, NextNumber(s.At(t)), end, log);
    EndsLater(c, s, a, rest, end, log);
    run := [a] + rest;
  }

  lemma LastEvent<K(!new), V>(c: Config<K>, log: seq<Event<K, V>>, e: Event<K, V>)
    requires LegalLog(c, log + [e])
    ensures Legal(c, Replay(log), e) && Replay(log + [e]) == Apply(Replay(log), e)
  {
    assert (log + [e])[..|log|] == log;
  }

  lemma ReachedState<K(!new), V>(c: Config<K>, run: seq<Action<K, V>>, t: Tid)
    requires c.Valid() && Trace(c, Start(c), run)
    ensures Inv(c, After(c, Start(c), run)) && PanicInv(c, After(c, Start(c), run), t)
  {
    InvStart<K, V>(c);
    StartPanics<K, V>(c, t);
    hide Inv, Start, PanicInv;
    InvRun(c, Start(c), run);
    PanicRun(c, Start(c), run, t);
  }

  /**
   * The operation is over in s', with the answer the plain map of s gives: `taken` slots of its shard j, which has
   * `capacity`, are in use. The lock of the shard is free again.
   */
  ghost predicate Completed<K(!new), V>(
      s: State<K, V>, s': State<K, V>, t: Tid, op: Op<K, V>, j: nat, taken: nat, capacity: nat)
  {
    var k, m, m', pc, n := op.key, Replay(s.log), Replay(s'.log), s'.At(t), NextNumber(s.At(t));
    && j < |s'.shards| && s'.shards[j].holder.None?
    && if k in m then
         var index := Some(m[k].index);
         if op.Insert? then
           pc == Done(op, n, Result(index, Some(m[k].value))) && m' == m[k := Cell(m[k].index, op.value)]
         else pc == Done(op, n, Result(index, None)) && m' == m
       else if op.Find? then pc == Done(op, n, Result(None, None)) && m' == m
       else if taken < capacity then
         && taken < 0x1_0000_0000
         && pc == Done(op, n, Result(Some(I.Pack(j, taken)), None))
         && m' == m[k := Cell(I.Pack(j, taken), op.value)]
       else pc == Unwound(op, n) && m' == m
  }

  lemma OutcomeCompleted<K(!new), V>(
      c: Config<K>, s: State<K, V>, s': State<K, V>, t: Tid, op: Op<K, V>, j: nat, end: Pc<K, V>)
    requires Outcome(c, s, t, op, NextNumber(s.At(t)), end, s'.log) && LegalLog(c, s'.log)
    requires j == c.ShardOf(op.key) && s'.At(t) == end && j < |s'.shards| && s'.shards[j].holder.None?
    ensures Completed(s, s', t, op, j, s.shards[j].arena.len, c.arena.capacity)
  {
    if end.Done? {
      LastEvent(c, s.log, Event(t, end.n, op, end.result));
    }
    hide Replay, LegalLog;
  }

  lemma Completes<K(!new), V>(c: Config<K>, s: State<K, V>, t: Tid, op: Op<K, V>, j: nat)
    returns (run: seq<Action<K, V>>)
    requires Inv(c, s) && PanicInv(c, s, t) && (s.At(t).Idle? || s.At(t).Done?)
    requires j == c.ShardOf(op.key) && j < |s.shards| && s.shards[j].holder.None?
    ensures c.Valid() && OnlyBy(run, t) && Trace(c, s, run)
    ensures Completed(s, After(c, s, run), t, op, j, s.shards[j].arena.len, c.arena.capacity)
  {
    hide Inv, PanicInv, Completed, LegalLog, ThreadInv, LogInv;
    var end, log;
    run, end, log := CallRun(c, s, t, op);
    InvRun(c, s, run);
    InvOf(c, After(c, s, run), t);
    OutcomeCompleted(c, s, After(c, s, run), t, op, j, end);
  }

  /**
   * In every reached state, an operation called while its shard is unlocked runs to its end by the steps of its own
   * thread alone and leaves the lock free. A lookup answers what the plain map holds; an insertion over a present key
   * gives its index, and `insert` swaps the value; an absent key gets the slot numbered by the keys its shard holds
   * and joins the map, unless these are as many as the shard has slots: then, and only then, it panics.
   */
  lemma RunsToCompletion<K(!new), V>(c: Config<K>, before: seq<Action<K, V>>, t: Tid, op: Op<K, V>)
    returns (run: seq<Action<K, V>>)
    requires c.Valid() && Trace(c, Start(c), before)
    requires var s, j := After(c, Start(c), before), c.hash(op.key) % Pow2(c.bits);
             (s.At(t).Idle? || s.At(t).Done?) && (j < |s.shards| ==> s.shards[j].holder.None?)
    ensures var s, j := After(c, Start(c), before), c.hash(op.key) % Pow2(c.bits);
            && OnlyBy(run, t) && Trace(c, s, run)
            && Completed(s, After(c, s, run), t, op, j, |KeysOf(c, Replay(s.log), j)|, c.arena.capacity)
  {
    var s, j := After(c, Start(c), before), c.ShardOf(op.key);
    ReachedState(c, before, t);
    ShardOfInRange(c, op.key);
    Shards(c, s);
    KeysCounted(c, before, j);
    hide Inv, PanicInv, Start, Replay, KeysOf;
    run := Completes(c, s, t, op, j);
  }

  lemma Shards<K(!new), V>(c: Config<K>, s: State<K, V>)
    requires Inv(c, s)
    ensures |s.shards| == Pow2(c.bits)
  {}

  /** A push that has panicked or is about to. */
  lemma PanicRunOut<K(!new), V>(c: Config<K>, s: State<K, V>, t: Tid, j: nat) returns (run: seq<Action<K, V>>)
    requires Inv(c, s) && s.At(t).Pushing? && j == c.ShardOf(s.At(t).op.key) && j < |s.shards|
    requires var pc := s.shards[j].arena.At(t);
             pc.Panicked? || (pc.Active() && pc.index >= c.arena.capacity)
    ensures c.Valid() && Ends(c, s, run, t, Unwound(s.At(t).op, s.At(t).n), s.log)
  {
    InvOf(c, s, t);
    hide Inv, CriticalInv;
    var i := Mine(c, s, t);
    assert A.ThreadInv(c.arena, s.shards[j].arena, t);
    hide ShardInv;
    if s.shards[j].arena.At(t).Panicked? {
      run := UnwindStep(c, s, t, j);
    } else {
      run := PanicSteps(c, s, t, j);
    }
  }

  /** A thread inside its critical section can always leave it. */
  lemma Leaves<K(!new), V>(c: Config<K>, s: State<K, V>, t: Tid)
    returns (run: seq<Action<K, V>>, end: Pc<K, V>, log: seq<Event<K, V>>)
    requires Inv(c, s) && PanicInv(c, s, t) && s.At(t).Critical()
    ensures c.Valid() && (end.Done? || end.Unwound?) && end.op == s.At(t).op && Ends(c, s, run, t, end, log)
    ensures s.At(t).Vacant? || s.At(t).Searching? ==> Outcome(c, s, t, s.At(t).op, s.At(t).n, end, log)
    ensures s.At(t).Vacant? ==> s.At(t).op.key !in Replay(s.log) && !s.At(t).op.Find?
  {
    hide Inv, PanicInv, Ends, Replay, ShardInv;
    var pc := s.At(t);
    var j := Mine(c, s, t);
    if pc.Searching? {
      run, end, log := SearchRun(c, s, t);
    } else if pc.Vacant? {
      AbsentKey(c, s, t);
      run, end, log := AfterSearch(c, s, t);
    } else if pc.Occupied? {
      run := SwapRun(c, s, t);
      var r := Result(Some(pc.index), Some(s.shards[j].Current(I.Local(pc.index))));
      end, log := Done(pc.op, pc.n, r), s.log + [EventAt(t, pc, r)];
    } else if pc.Linking? {
      run := LinkRun(c, s, t);
      var r := Result(Some(I.Pack(j, pc.local)), None);
      end, log := Done(pc.op, pc.n, r), s.log + [EventAt(t, pc, r)];
    } else if pc.Unlocking? {
      run := UnlockRun(c, s, t);
      end, log := Done(pc.op, pc.n, pc.result), s.log;
    } else {
      run, end, log := PushLeaves(c, s, t, j);
    }
  }

  lemma PushLeaves<K(!new), V>(c: Config<K>, s: State<K, V>, t: Tid, j: nat)
    returns (run: seq<Action<K, V>>, end: Pc<K, V>, log: seq<Event<K, V>>)
    requires Inv(c, s) && s.At(t).Pushing? && j == c.ShardOf(s.At(t).op.key) && j < |s.shards|
    ensures c.Valid() && (end.Done? || end.Unwound?) && end.op == s.At(t).op && Ends(c, s, run, t, end, log)
  {
    hide Inv, Ends, ShardInv;
    var pc := s.At(t);
    var i := Mine(c, s, t);
    var push := s.shards[j].arena.At(t);
    if push.Panicked? || (push.Active() && push.index >= c.arena.capacity) {
      run := PanicRunOut(c, s, t, j);
      end, log := Unwound(pc.op, pc.n), s.log;
    } else {
      run := PushRun(c, s, t);
      var r := Result(Some(I.Pack(j, push.index)), None);
      end, log := Done(pc.op, pc.n, r), s.log + [EventAt(t, pc, r)];
    }
  }

  /** One more pushed key, in the slot numbered by the pushes before it. */
  ghost predicate Added<K(!new), V>(s: State<K, V>, s': State<K, V>, t: Tid, j: nat)
    requires j < |s.shards| && !s.At(t).Idle? && !s.At(t).op.Find?
  {
    var pc, m, len := s.At(t), Replay(s.log), s.shards[j].arena.len;
    && len < 0x1_0000_0000 && pc.op.key !in m
    && s'.At(t) == Done(pc.op, pc.n, Result(Some(I.Pack(j, len)), None))
    && Replay(s'.log) == m[pc.op.key := Cell(I.Pack(j, len), pc.op.value)]
  }

  lemma LeavesAdded<K(!new), V>(
      c: Config<K>, s: State<K, V>, s': State<K, V>, t: Tid, j: nat, end: Pc<K, V>)
    requires s.At(t).Vacant? && j == c.ShardOf(s.At(t).op.key) && j < |s.shards|
    requires s.shards[j].arena.len < c.arena.capacity && !s.At(t).op.Find? && s.At(t).op.key !in Replay(s.log)
    requires Outcome(c, s, t, s.At(t).op, s.At(t).n, end, s'.log) && s'.At(t) == end && LegalLog(c, s'.log)
    ensures Added(s, s', t, j)
  {
    hide Replay;
    LastEvent(c, s.log, Event(t, end.n, s.At(t).op, end.result));
  }

  /**
   * No lock is held for good: in every reached state, a thread inside its critical section finishes its operation by
   * its own steps alone and frees the lock. One that found its key absent adds it at the shard's next slot whenever
   * there is one.
   */
  lemma LockIsReleased<K(!new), V>(c: Config<K>, before: seq<Action<K, V>>, t: Tid) returns (run: seq<Action<K, V>>)
    requires c.Valid() && Trace(c, Start(c), before) && After(c, Start(c), before).At(t).Critical()
    ensures var s := After(c, Start(c), before);
            var j := c.hash(s.At(t).op.key) % Pow2(c.bits);
            && OnlyBy(run, t) && Trace(c, s, run)
            && var s' := After(c, s, run);
               && (s'.At(t).Done? || s'.At(t).Unwound?)
               && j < |s.shards| && j < |s'.shards| && s'.shards[j].holder.None?
               && (s.At(t).Vacant? ==> !s.At(t).op.Find?)
               && (s.At(t).Vacant? && s.shards[j].arena.len < c.arena.capacity ==> Added(s, s', t, j))
  {
    var s := After(c, Start(c), before);
    ReachedState(c, before, t);
    hide Inv, PanicInv, Start, Outcome, Added, LegalLog;
    ShardOfInRange(c, s.At(t).op.key);
    Shards(c, s);
    var end, log;
    run, end, log := Leaves(c, s, t);
    InvRun(c, s, run);
    var s', j := After(c, s, run), c.ShardOf(s.At(t).op.key);
    hide After, Trace;
    LegalOf(c, s');
    if s.At(t).Vacant? && s.shards[j].arena.len < c.arena.capacity {
      LeavesAdded(c, s, s', t, j, end);
    }
  }

  lemma LegalOf<K(!new), V>(c: Config<K>, s: State<K, V>)
    requires Inv(c, s)
    ensures LegalLog(c, s.log)
  {}
}
