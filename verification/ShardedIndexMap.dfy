/**
 * The sharded index map as a step machine: threads lock a shard, search its table, push to its arena one atomic
 * access at a time, link the new slot into the table and unlock. The arena steps are those of `VirtualDynArray`.
 *
 * Every operation is logged at the step where it takes effect; the log is proved to be a run of a plain map that
 * does each operation at once.
 */
module ShardedIndexMap {
  import opened Options
  import opened Power
  import opened Limbs
  import I = ShardIndex
  import A = VirtualDynArray

  type Tid = nat
  type u32 = I.u32

  // -----------------------------------------------------------------------------------------------
  // The map done one operation at a time
  // -----------------------------------------------------------------------------------------------

  datatype Op<K, V> =
    | Insert(key: K, value: V)      // `insert`: swaps the value of a present key
    | OrInsert(key: K, value: V)    // `entry().or_insert_with()`: keeps the value of a present key
    | Find(key: K)

  datatype Result<V> = Result(index: Option<u32>, prev: Option<V>)

  datatype Cell<V> = Cell(index: u32, value: V)

  /** Operation number n of thread t took effect with this result. */
  datatype Event<K, V> = Event(t: Tid, n: nat, op: Op<K, V>, result: Result<V>)

  /** What one operation does to the plain map. */
  function Apply<K, V>(m: map<K, Cell<V>>, e: Event<K, V>): map<K, Cell<V>> {
    match e.op
    case Find(_) => m
    case OrInsert(k, v) =>
      if k in m || e.result.index.None? then m else m[k := Cell(e.result.index.value, v)]
    case Insert(k, v) =>
      if k in m then m[k := Cell(m[k].index, v)]
      else if e.result.index.None? then m
      else m[k := Cell(e.result.index.value, v)]
  }

  /** The result the plain map gives. A new key may get any unused index of its shard. */
  ghost predicate Legal<K(!new), V>(c: Config<K>, m: map<K, Cell<V>>, e: Event<K, V>) {
    var k := e.op.key;
    if k in m then
      e.result == Result(Some(m[k].index), if e.op.Insert? then Some(m[k].value) else None)
    else if e.op.Find? then
      e.result == Result(None, None)
    else
      && e.result.prev.None? && e.result.index.Some?
      && I.Shard(e.result.index.value) == c.ShardOf(k)
      && forall other :: other in m ==> m[other].index != e.result.index.value
  }

  function Replay<K, V>(log: seq<Event<K, V>>): map<K, Cell<V>> {
    if log == [] then map[] else Apply(Replay(log[..|log| - 1]), log[|log| - 1])
  }

  ghost predicate LegalLog<K(!new), V>(c: Config<K>, log: seq<Event<K, V>>) {
    log == [] || (LegalLog(c, log[..|log| - 1]) && Legal(c, Replay(log[..|log| - 1]), log[|log| - 1]))
  }

  // -----------------------------------------------------------------------------------------------
  // The machine
  // -----------------------------------------------------------------------------------------------

  /** 2^bits shards; `hash` is any fixed function of the key. */
  datatype Config<!K> = Config(bits: nat, arena: A.Config, hash: K -> u64) {
    ghost predicate Valid() {
      bits <= 6 && arena.Valid() && arena.capacity <= I.LOCAL_MASK + 1
    }

    /** `(hash as usize) & (self.shards.len() - 1)` */
    function ShardOf(k: K): nat {
      And.Word(hash(k), Pow2(bits) - 1, 64)
    }
  }

  datatype Shard<K(==), V> = ShardState(
    holder: Option<Tid>,
    table: set<u32>,
    arena: A.State<(K, V)>,
    swapped: map<nat, V>)       // atomic values changed since the slot was written
  {
    predicate HasKey(i: nat, k: K) {
      i in arena.slots && arena.slots[i].0 == k
    }

    /** `table.find`: some linked slot with the key, or none when there is none. */
    predicate Finds(k: K, found: Option<u32>) {
      match found
      case Some(i) => i in table && HasKey(i, k)
      case None => forall i :: i in table ==> !HasKey(i, k)
    }

    function Current(i: nat): V
      requires i in arena.slots
    {
      if i in swapped then swapped[i] else arena.slots[i].1
    }
  }

  datatype Pc<K, V> =
    | Idle
    | Waiting(op: Op<K, V>, n: nat)                          // next: lock the shard
    | Searching(op: Op<K, V>, n: nat)                        // next: table.find
    | Occupied(op: Op<K, V>, n: nat, index: u32)             // next: swap the value
    | Vacant(op: Op<K, V>, n: nat)                           // next: the first step of push
    | Pushing(op: Op<K, V>, n: nat)                          // the other steps of push
    | Linking(op: Op<K, V>, n: nat, local: u32)              // next: insert_unique
    | Unlocking(op: Op<K, V>, n: nat, result: Result<V>)     // next: the guard is dropped
    | Done(op: Op<K, V>, n: nat, result: Result<V>)
    | Unwound(op: Op<K, V>, n: nat)                          // push panicked, the guard was dropped
  {
    predicate Critical() {
      Searching? || Occupied? || Vacant? || Pushing? || Linking? || Unlocking?
    }

    /** The operation has taken effect. */
    predicate Effective() {
      Unlocking? || Done?
    }
  }

  datatype State<K(==), V> = State(shards: seq<Shard<K, V>>, threads: map<Tid, Pc<K, V>>, log: seq<Event<K, V>>)
  {
    function At(t: Tid): Pc<K, V> {
      if t in threads then threads[t] else Idle
    }
  }

  datatype Action<K, V> =
    | Call(t: Tid, op: Op<K, V>)
    | Lock(t: Tid)
    | Search(t: Tid, found: Option<u32>)
    | Swap(t: Tid)
    | Push(t: Tid)
    | PushStep(t: Tid, spurious: bool)
    | PushReturn(t: Tid)
    | Link(t: Tid)
    | Unwind(t: Tid)
    | Unlock(t: Tid)

  function Start<K(==), V>(c: Config<K>): State<K, V>
    requires c.bits <= 6
  {
    State(seq(Pow2(c.bits), _ => ShardState(None, {}, A.Empty(), map[])), map[], [])
  }

  ghost predicate WellFormed<K, V>(c: Config<K>, s: State<K, V>) {
    |s.shards| == Pow2(c.bits)
  }

  lemma ShardOfInRange<K>(c: Config<K>, k: K)
    requires c.Valid()
    ensures c.ShardOf(k) < Pow2(c.bits) <= 64
    ensures c.ShardOf(k) == c.hash(k) % Pow2(c.bits)
  {
    I.AndMask(c.hash(k), c.bits, 64);
    Pow2Monotone(c.bits, 6);
    I.Pow2Fits();
  }

  /** An arena step of the thread; a weak compare-and-swap may fail for no reason. */
  function ArenaAction<T>(t: Tid, spurious: bool): A.Action<T> {
    if spurious then A.SpuriousFailure(t) else A.Advance(t)
  }

  /** Whether a thread at pc can take step a on shard sh. */
  ghost predicate ShardEnabled<K, V>(sh: Shard<K, V>, pc: Pc<K, V>, a: Action<K, V>) {
    match a
    case Call(_, _) => false
    case Lock(t) => pc.Waiting? && sh.holder.None?
    case Search(t, found) => pc.Searching? && sh.Finds(pc.op.key, found)
    case Swap(t) => pc.Occupied? && pc.op.Insert? && I.Local(pc.index) in sh.arena.slots
    case Push(t) => pc.Vacant? && !pc.op.Find? && A.Enabled(sh.arena, A.Reserve(t, (pc.op.key, pc.op.value)))
    case PushStep(t, spurious) => pc.Pushing? && A.Enabled(sh.arena, ArenaAction(t, spurious))
    case PushReturn(t) => pc.Pushing? && sh.arena.At(t).Returned? && sh.arena.At(t).index < 0x1_0000_0000
    case Link(t) => pc.Linking?
    case Unwind(t) => pc.Pushing? && (sh.arena.At(t).Panicked? || sh.arena.At(t).Underflowed?)
    case Unlock(t) => pc.Unlocking?
  }

  /** What the step does to the shard. */
  function NextShard<K(==), V>(c: Config<K>, sh: Shard<K, V>, pc: Pc<K, V>, a: Action<K, V>): Shard<K, V>
    requires c.Valid() && ShardEnabled(sh, pc, a)
  {
    match a
    case Lock(t) => sh.(holder := Some(t))
    case Search(t, found) => sh
    case Swap(t) => sh.(swapped := sh.swapped[I.Local(pc.index) := pc.op.value])
    case Push(t) => sh.(arena := A.Next(c.arena, sh.arena, A.Reserve(t, (pc.op.key, pc.op.value))))
    case PushStep(t, spurious) => sh.(arena := A.Next(c.arena, sh.arena, ArenaAction(t, spurious)))
    case PushReturn(t) => sh
    case Link(t) => sh.(table := sh.table + {pc.local})
    case Unwind(t) => sh.(holder := None)
    case Unlock(t) => sh.(holder := None)
  }

  /** Where the step leaves the thread; j is the number of its key's shard. */
  function NextPc<K(==), V>(j: nat, sh: Shard<K, V>, pc: Pc<K, V>, a: Action<K, V>): Pc<K, V>
    requires ShardEnabled(sh, pc, a)
  {
    match a
    case Lock(t) => Searching(pc.op, pc.n)
    case Search(t, Some(i)) =>
      if pc.op.Insert? then Occupied(pc.op, pc.n, I.Pack(j, i))
      else Unlocking(pc.op, pc.n, Result(Some(I.Pack(j, i)), None))
    case Search(t, None) =>
      if pc.op.Find? then Unlocking(pc.op, pc.n, Result(None, None)) else Vacant(pc.op, pc.n)
    case Swap(t) => Unlocking(pc.op, pc.n, Result(Some(pc.index), Some(sh.Current(I.Local(pc.index)))))
    case Push(t) => Pushing(pc.op, pc.n)
    case PushStep(t, spurious) => pc
    case PushReturn(t) => Linking(pc.op, pc.n, sh.arena.At(t).index)
    case Link(t) => Unlocking(pc.op, pc.n, Result(Some(I.Pack(j, pc.local)), None))
    case Unwind(t) => Unwound(pc.op, pc.n)
    case Unlock(t) => Done(pc.op, pc.n, pc.result)
  }

  /** The shard a step works on: that of the key, except that a swap decodes the index of its entry. */
  function Target<K(==), V>(c: Config<K>, s: State<K, V>, a: Action<K, V>): nat
    requires !s.At(a.t).Idle?
  {
    var pc := s.At(a.t);
    if a.Swap? && pc.Occupied? then I.Shard(pc.index) else c.ShardOf(pc.op.key)
  }

  ghost predicate Enabled<K, V>(c: Config<K>, s: State<K, V>, a: Action<K, V>) {
    var pc := s.At(a.t);
    if a.Call? then pc.Idle? || pc.Done?
    else !pc.Idle? && Target(c, s, a) < |s.shards| && ShardEnabled(s.shards[Target(c, s, a)], pc, a)
  }

  function NextLog<K, V>(log: seq<Event<K, V>>, t: Tid, pc: Pc<K, V>, pc': Pc<K, V>): seq<Event<K, V>>
  {
    if pc'.Unlocking? && !pc.Effective() then log + [Event(t, pc'.n, pc'.op, pc'.result)] else log
  }

  function Next<K(==), V>(c: Config<K>, s: State<K, V>, a: Action<K, V>): State<K, V>
    requires c.Valid() && Enabled(c, s, a)
  {
    var pc := s.At(a.t);
    if a.Call? then s.(threads := s.threads[a.t := Waiting(a.op, if pc.Done? then pc.n + 1 else 0)])
    else
      var j := Target(c, s, a);
      var pc' := NextPc(c.ShardOf(pc.op.key), s.shards[j], pc, a);
      State(
        s.shards[j := NextShard(c, s.shards[j], pc, a)],
        s.threads[a.t := pc'],
        NextLog(s.log, a.t, pc, pc'))
  }

  // -----------------------------------------------------------------------------------------------
  // Invariants
  // -----------------------------------------------------------------------------------------------

  /** Linked slots are initialised, belong to this shard by their key's hash, and no two hold the same key. */
  ghost predicate TableInv<K, V>(c: Config<K>, j: nat, sh: Shard<K, V>)
    requires A.Shape(sh.arena) && A.SlotsInv(sh.arena)
  {
    && (forall i :: i in sh.table ==> i < sh.arena.initialized && c.ShardOf(sh.arena.pushed[i].0) == j)
    && (forall i, l :: i in sh.table && l in sh.table && sh.arena.pushed[i].0 == sh.arena.pushed[l].0 ==> i == l)
    && (forall i :: i in sh.swapped ==> i in sh.table)
  }

  ghost predicate ShardInv<K, V>(c: Config<K>, j: nat, sh: Shard<K, V>)
  {
    && A.Inv(c.arena, sh.arena) && A.CommitInv(c.arena, sh.arena)
    && TableInv(c, j, sh)
  }

  ghost predicate NotLinked<K, V>(sh: Shard<K, V>, k: K)
    requires A.Shape(sh.arena)
  {
    forall i :: i in sh.table && i < sh.arena.len ==> sh.arena.pushed[i].0 != k
  }

  /** What a thread inside the critical section of shard j knows about it. */
  ghost predicate CriticalInv<K, V>(c: Config<K>, j: nat, sh: Shard<K, V>, t: Tid, pc: Pc<K, V>)
    requires pc.Critical() && A.Shape(sh.arena)
  {
    && sh.holder == Some(t)
    && (pc.Occupied? ==>
        && pc.op.Insert? && I.Shard(pc.index) == j && pc.index == I.Pack(j, I.Local(pc.index))
        && I.Local(pc.index) in sh.table && I.Local(pc.index) < sh.arena.len
        && sh.arena.pushed[I.Local(pc.index)].0 == pc.op.key)
    && (pc.Vacant? || pc.Pushing? || pc.Linking? ==> !pc.op.Find? && NotLinked(sh, pc.op.key))
    && (pc.Pushing? ==>
        var apc := sh.arena.At(t);
        && (apc.Active() || apc.Returned? || apc.Panicked?)
        && (apc.Active() || apc.Returned? ==> apc.value == (pc.op.key, pc.op.value)))
    && (pc.Linking? ==>
        && pc.local < sh.arena.initialized && pc.local < sh.arena.len
        && sh.arena.pushed[pc.local] == (pc.op.key, pc.op.value))
  }

  ghost predicate ThreadInv<K, V>(c: Config<K>, s: State<K, V>, t: Tid) {
    var pc := s.At(t);
    && (pc.Critical() ==>
        var j := c.ShardOf(pc.op.key);
        j < |s.shards| && A.Shape(s.shards[j].arena) && CriticalInv(c, j, s.shards[j], t, pc))
    && (forall j :: 0 <= j < |s.shards| && s.shards[j].arena.At(t).Active() ==>
          pc.Pushing? && c.ShardOf(pc.op.key) == j)
  }

  /** Which operations of thread t are in the log. */
  ghost predicate LogInv<K, V>(log: seq<Event<K, V>>, t: Tid, pc: Pc<K, V>) {
    && (pc.Idle? ==> forall e :: e in log ==> e.t != t)
    && (!pc.Idle? && !pc.Effective() ==> forall e :: e in log && e.t == t ==> e.n < pc.n)
    && (pc.Effective() ==>
        && Event(t, pc.n, pc.op, pc.result) in log
        && forall e :: e in log && e.t == t ==> e.n < pc.n || e == Event(t, pc.n, pc.op, pc.result))
  }

  /** Slot i of shard j is the cell of its key in the plain map. */
  ghost predicate Stored<K, V>(j: nat, sh: Shard<K, V>, i: u32, m: map<K, Cell<V>>) {
    && i < |sh.arena.pushed| && i in sh.arena.slots
    && var k := sh.arena.pushed[i].0; k in m && m[k] == Cell(I.Pack(j, i), sh.Current(i))
  }

  /** The cell of key k in the plain map is a linked slot of shard j. */
  ghost predicate Linked<K, V>(j: nat, sh: Shard<K, V>, k: K, index: u32) {
    var i := I.Local(index);
    && I.Shard(index) == j && index == I.Pack(j, i)
    && i in sh.table && i < |sh.arena.pushed| && sh.arena.pushed[i].0 == k
  }

  /** Shard j holds exactly the part of the plain map m whose keys hash to it. */
  ghost predicate Represents<K, V>(c: Config<K>, j: nat, sh: Shard<K, V>, m: map<K, Cell<V>>) {
    && (forall i :: i in sh.table ==> Stored(j, sh, i, m))
    && (forall k :: k in m && c.ShardOf(k) == j ==> Linked(j, sh, k, m[k].index))
  }

  ghost predicate Inv<K(!new), V>(c: Config<K>, s: State<K, V>) {
    && c.Valid() && WellFormed(c, s)
    && (forall j :: 0 <= j < |s.shards| ==> ShardInv(c, j, s.shards[j]))
    && (forall t :: ThreadInv(c, s, t))
    && (forall t :: LogInv(s.log, t, s.At(t)))
    && LegalLog(c, s.log)
    && (forall j :: 0 <= j < |s.shards| ==> Represents(c, j, s.shards[j], Replay(s.log)))
  }

  // -----------------------------------------------------------------------------------------------
  // One shard
  // -----------------------------------------------------------------------------------------------

  lemma ArenaStep<K, V>(c: Config<K>, j: nat, sh: Shard<K, V>, x: A.Action<(K, V)>)
    requires c.Valid() && ShardInv(c, j, sh) && A.Enabled(sh.arena, x) && A.Serial(sh.arena, x)
    ensures ShardInv(c, j, sh.(arena := A.Next(c.arena, sh.arena, x)))
    ensures A.Extends(sh.arena, A.Next(c.arena, sh.arena, x))
  {
    A.InvNext(c.arena, sh.arena, x);
    A.CommitInvNext(c.arena, sh.arena, x);
    A.ExtendsNext(c.arena, sh.arena, x);
  }

  /** A push keeps carrying its own value until it returns. */
  lemma PushCarries<T>(c: A.Config, s: A.State<T>, x: A.Action<T>, v: T)
    requires c.Valid() && A.Enabled(s, x) && A.CommitInv(c, A.Next(c, s, x))
    requires if x.Reserve? then x.value == v else s.At(x.t).Active() && s.At(x.t).value == v
    ensures var pc := A.Next(c, s, x).At(x.t);
            (pc.Active() || pc.Returned? || pc.Panicked?) && (pc.Active() || pc.Returned? ==> pc.value == v)
  {
    var s' := A.Next(c, s, x);
    assert x.t in s'.threads;
  }

  /** A linked or returned slot fits the packed index. */
  lemma SlotPacks<K, V>(c: Config<K>, j: nat, sh: Shard<K, V>, i: u32)
    requires c.Valid() && ShardInv(c, j, sh) && j < Pow2(c.bits) && i < sh.arena.initialized
    ensures I.Shard(I.Pack(j, i)) == j && I.Local(I.Pack(j, i)) == i
  {
    Pow2Monotone(c.bits, 6);
    I.Pow2Fits();
    I.PackFields(j, i);
  }

  /** The arena access of a step, if it has one. */
  ghost predicate Accesses<K, V>(pc: Pc<K, V>, a: Action<K, V>, x: A.Action<(K, V)>) {
    || (a.Push? && pc.Vacant? && !pc.op.Find? && x == A.Reserve(a.t, (pc.op.key, pc.op.value)))
    || (a.PushStep? && x == ArenaAction(a.t, a.spurious))
  }

  /** Everything a step of a thread inside its critical section keeps about the shard. */
  ghost predicate StepKeeps<K, V>(c: Config<K>, j: nat, sh: Shard<K, V>, pc: Pc<K, V>, a: Action<K, V>)
    requires c.Valid() && ShardEnabled(sh, pc, a)
  {
    var sh', pc' := NextShard(c, sh, pc, a), NextPc(j, sh, pc, a);
    && ShardInv(c, j, sh')
    && (pc'.Critical() ==> CriticalInv(c, j, sh', a.t, pc'))
  }

  /** Everything known when a thread steps on shard j. */
  ghost predicate StepReady<K, V>(c: Config<K>, j: nat, sh: Shard<K, V>, pc: Pc<K, V>, a: Action<K, V>) {
    && c.Valid() && j < Pow2(c.bits) && ShardEnabled(sh, pc, a) && ShardInv(c, j, sh)
    && !pc.Idle? && c.ShardOf(pc.op.key) == j
    && (pc.Critical() ==> CriticalInv(c, j, sh, a.t, pc))
  }

  lemma SearchKeeps<K, V>(c: Config<K>, j: nat, sh: Shard<K, V>, pc: Pc<K, V>, a: Action<K, V>)
    requires StepReady(c, j, sh, pc, a) && a.Search?
    ensures StepKeeps(c, j, sh, pc, a)
  {
    if a.found.Some? {
      SlotPacks(c, j, sh, a.found.value);
    }
  }

  lemma ArenaKeeps<K, V>(c: Config<K>, j: nat, sh: Shard<K, V>, pc: Pc<K, V>, a: Action<K, V>, x: A.Action<(K, V)>)
    requires StepReady(c, j, sh, pc, a) && Accesses(pc, a, x) && A.Serial(sh.arena, x)
    ensures StepKeeps(c, j, sh, pc, a)
  {
    ArenaStep(c, j, sh, x);
    PushCarries(c.arena, sh.arena, x, (pc.op.key, pc.op.value));
  }

  lemma PushReturnKeeps<K, V>(c: Config<K>, j: nat, sh: Shard<K, V>, pc: Pc<K, V>, a: Action<K, V>)
    requires StepReady(c, j, sh, pc, a) && a.PushReturn?
    ensures StepKeeps(c, j, sh, pc, a)
  {
    assert A.ThreadInv(c.arena, sh.arena, a.t);
  }

  lemma SwapKeeps<K, V>(c: Config<K>, j: nat, sh: Shard<K, V>, pc: Pc<K, V>, a: Action<K, V>)
    requires StepReady(c, j, sh, pc, a) && a.Swap?
    ensures StepKeeps(c, j, sh, pc, a)
  {
    hide A.CommitInv, A.Next, A.Enabled;
  }

  lemma LinkKeeps<K, V>(c: Config<K>, j: nat, sh: Shard<K, V>, pc: Pc<K, V>, a: Action<K, V>)
    requires StepReady(c, j, sh, pc, a) && a.Link?
    ensures StepKeeps(c, j, sh, pc, a)
  {
    hide A.CommitInv, A.Next, A.Enabled;
  }

  lemma LockKeeps<K, V>(c: Config<K>, j: nat, sh: Shard<K, V>, pc: Pc<K, V>, a: Action<K, V>)
    requires StepReady(c, j, sh, pc, a) && (a.Lock? || a.Unlock? || a.Unwind?)
    ensures StepKeeps(c, j, sh, pc, a)
  {
    hide A.CommitInv, A.Next, A.Enabled;
  }

  // -----------------------------------------------------------------------------------------------
  // The lock keeps threads apart
  // -----------------------------------------------------------------------------------------------

  lemma Ready<K(!new), V>(c: Config<K>, s: State<K, V>, a: Action<K, V>) returns (j: nat)
    requires Inv(c, s) && Enabled(c, s, a) && !a.Call?
    ensures j == Target(c, s, a) == c.ShardOf(s.At(a.t).op.key) && j < |s.shards|
    ensures StepReady(c, j, s.shards[j], s.At(a.t), a)
  {
    assert ThreadInv(c, s, a.t);
    j := Target(c, s, a);
    assert ShardInv(c, j, s.shards[j]);
  }

  lemma InvOf<K(!new), V>(c: Config<K>, s: State<K, V>, t: Tid)
    requires Inv(c, s)
    ensures c.Valid() && ThreadInv(c, s, t) && LogInv(s.log, t, s.At(t)) && LegalLog(c, s.log)
  {}

  /** So pushes to one arena are serialised. */
  lemma PushesSerial<K(!new), V>(c: Config<K>, s: State<K, V>, j: nat, t: Tid, x: A.Action<(K, V)>)
    requires Inv(c, s) && j < |s.shards| && s.shards[j].holder == Some(t) && x.t == t
    ensures A.Serial(s.shards[j].arena, x)
  {
    var arena := s.shards[j].arena;
    forall u | u in arena.threads && u != t ensures !arena.threads[u].Active() {
      assert ThreadInv(c, s, u);
      assert arena.At(u) == arena.threads[u];
    }
  }

  lemma OwnKeeps<K(!new), V>(c: Config<K>, s: State<K, V>, a: Action<K, V>) returns (j: nat)
    requires Inv(c, s) && Enabled(c, s, a) && !a.Call?
    ensures j == Target(c, s, a) == c.ShardOf(s.At(a.t).op.key) && j < |s.shards|
    ensures StepReady(c, j, s.shards[j], s.At(a.t), a)
    ensures StepKeeps(c, j, s.shards[j], s.At(a.t), a)
  {
    j := Ready(c, s, a);
    var sh, pc := s.shards[j], s.At(a.t);
    if a.Search? {
      SearchKeeps(c, j, sh, pc, a);
    } else if a.Push? || a.PushStep? {
      var x := if a.Push? then A.Reserve(a.t, (pc.op.key, pc.op.value)) else ArenaAction(a.t, a.spurious);
      PushesSerial(c, s, j, a.t, x);
      ArenaKeeps(c, j, sh, pc, a, x);
    } else if a.PushReturn? {
      PushReturnKeeps(c, j, sh, pc, a);
    } else if a.Swap? {
      SwapKeeps(c, j, sh, pc, a);
    } else if a.Link? {
      LinkKeeps(c, j, sh, pc, a);
    } else {
      LockKeeps(c, j, sh, pc, a);
    }
  }

  /** A step leaves the arena's view of the other threads alone. */
  lemma ArenaThreads<K, V>(c: Config<K>, sh: Shard<K, V>, pc: Pc<K, V>, a: Action<K, V>, u: Tid)
    requires c.Valid() && ShardEnabled(sh, pc, a)
    ensures u != a.t ==> NextShard(c, sh, pc, a).arena.At(u) == sh.arena.At(u)
  {}

  /** A thread's facts after shard j changed and perhaps the thread itself moved. */
  lemma ThreadAfter<K, V>(c: Config<K>, s: State<K, V>, s': State<K, V>, j: nat, t: Tid)
    requires ThreadInv(c, s, t) && j < |s.shards| == |s'.shards|
    requires forall x :: 0 <= x < |s.shards| && x != j ==> s'.shards[x] == s.shards[x]
    requires s'.At(t) == s.At(t) || (!s.At(t).Idle? && !s'.At(t).Idle? &&
               c.ShardOf(s.At(t).op.key) == j && s'.At(t).op == s.At(t).op)
    requires s'.At(t).Critical() && c.ShardOf(s'.At(t).op.key) == j ==>
               A.Shape(s'.shards[j].arena) && CriticalInv(c, j, s'.shards[j], t, s'.At(t))
    requires s'.shards[j].arena.At(t).Active() ==> s'.At(t).Pushing? && c.ShardOf(s'.At(t).op.key) == j
    ensures ThreadInv(c, s', t)
  {}

  /** A step replaces one shard and the stepping thread, and may log one event. */
  lemma StepFrame<K, V>(c: Config<K>, s: State<K, V>, a: Action<K, V>, j: nat)
    requires c.Valid() && Enabled(c, s, a) && !a.Call? && j == Target(c, s, a) == c.ShardOf(s.At(a.t).op.key)
    ensures var s', pc := Next(c, s, a), s.At(a.t);
            && s'.shards == s.shards[j := NextShard(c, s.shards[j], pc, a)]
            && s'.At(a.t) == NextPc(j, s.shards[j], pc, a)
            && (forall u :: u != a.t ==> s'.At(u) == s.At(u))
            && s'.log == NextLog(s.log, a.t, pc, s'.At(a.t))
  {
    hide NextShard, NextPc, ShardEnabled, NextLog, Target;
  }

  lemma CallFrame<K, V>(c: Config<K>, s: State<K, V>, a: Action<K, V>)
    requires c.Valid() && Enabled(c, s, a) && a.Call?
    ensures var s', pc := Next(c, s, a), s.At(a.t);
            && s'.shards == s.shards && s'.log == s.log && (pc.Idle? || pc.Done?)
            && s'.At(a.t) == Waiting(a.op, if pc.Done? then pc.n + 1 else 0)
            && forall u :: u != a.t ==> s'.At(u) == s.At(u)
  {
    hide NextShard, NextPc, ShardEnabled, NextLog, Target;
  }

  lemma CallNext<K(!new), V>(c: Config<K>, s: State<K, V>, a: Action<K, V>, u: Tid)
    requires Inv(c, s) && Enabled(c, s, a) && a.Call?
    ensures ThreadInv(c, Next(c, s, a), u) && LogInv(Next(c, s, a).log, u, Next(c, s, a).At(u))
  {
    hide Inv, CriticalInv, Enabled, Next;
    InvOf(c, s, u);
    CallFrame(c, s, a);
  }

  lemma OwnThreadNext<K(!new), V>(c: Config<K>, s: State<K, V>, a: Action<K, V>)
    requires Inv(c, s) && Enabled(c, s, a) && !a.Call?
    ensures ThreadInv(c, Next(c, s, a), a.t)
  {
    hide Inv, Enabled, Next, Target, NextShard, NextPc, ShardEnabled, CriticalInv, TableInv;
    InvOf(c, s, a.t);
    var j := OwnKeeps(c, s, a);
    StepFrame(c, s, a, j);
    PushingOnly(c, j, s.shards[j], s.At(a.t), a);
    PcShape(j, s.shards[j], s.At(a.t), a);
    ThreadAfter(c, s, Next(c, s, a), j, a.t);
  }

  /** A thread leaves the pushing phase only when its arena push is over. */
  lemma PushingOnly<K, V>(c: Config<K>, j: nat, sh: Shard<K, V>, pc: Pc<K, V>, a: Action<K, V>)
    requires StepReady(c, j, sh, pc, a) && (sh.arena.At(a.t).Active() ==> pc.Pushing?)
    ensures NextShard(c, sh, pc, a).arena.At(a.t).Active() ==> NextPc(j, sh, pc, a).Pushing?
  {}

  lemma OtherThreadNext<K(!new), V>(c: Config<K>, s: State<K, V>, a: Action<K, V>, u: Tid)
    requires Inv(c, s) && Enabled(c, s, a) && !a.Call? && u != a.t
    ensures ThreadInv(c, Next(c, s, a), u)
  {
    hide Inv, Enabled, Next, Target, NextShard, NextPc, ShardEnabled, CriticalInv, TableInv;
    InvOf(c, s, u);
    var j := Ready(c, s, a);
    StepFrame(c, s, a, j);
    ArenaThreads(c, s.shards[j], s.At(a.t), a, u);
    var pc := s.At(u);
    if pc.Critical() && c.ShardOf(pc.op.key) == j {
      StepAlone(c, j, s.shards[j], s.At(a.t), a, u, pc);
    }
    ThreadAfter(c, s, Next(c, s, a), j, u);
  }

  /** A step never finds another thread inside the critical section of its shard. */
  lemma StepAlone<K, V>(c: Config<K>, j: nat, sh: Shard<K, V>, pc: Pc<K, V>, a: Action<K, V>, u: Tid, upc: Pc<K, V>)
    requires StepReady(c, j, sh, pc, a) && u != a.t && upc.Critical() && A.Shape(sh.arena)
    ensures !CriticalInv(c, j, sh, u, upc)
  {}

  // -----------------------------------------------------------------------------------------------
  // The log
  // -----------------------------------------------------------------------------------------------

  lemma LogGrows<K, V>(log: seq<Event<K, V>>, e: Event<K, V>, u: Tid, pc: Pc<K, V>)
    requires LogInv(log, u, pc) && e.t != u
    ensures LogInv(log + [e], u, pc)
  {}

  lemma LogOwn<K, V>(log: seq<Event<K, V>>, e: Event<K, V>, pc: Pc<K, V>, pc': Pc<K, V>)
    requires !pc.Idle? && !pc.Effective() && LogInv(log, e.t, pc)
    requires pc'.Unlocking? && e == Event(e.t, pc'.n, pc'.op, pc'.result) && pc'.n == pc.n
    ensures LogInv(log + [e], e.t, pc')
  {
    assert (log + [e])[|log|] == e;
  }

  /** A step keeps the operation it works on; it takes effect at most once. */
  lemma PcShape<K, V>(j: nat, sh: Shard<K, V>, pc: Pc<K, V>, a: Action<K, V>)
    requires ShardEnabled(sh, pc, a)
    ensures var pc' := NextPc(j, sh, pc, a);
            && !pc.Idle? && !pc'.Idle? && pc'.n == pc.n && pc'.op == pc.op
            && (pc.Effective() ==> pc'.Effective() && pc'.result == pc.result)
            && (pc'.Effective() && !pc.Effective() ==> pc'.Unlocking?)
  {}

  lemma LogNext<K(!new), V>(c: Config<K>, s: State<K, V>, a: Action<K, V>, u: Tid)
    requires Inv(c, s) && Enabled(c, s, a) && !a.Call?
    ensures LogInv(Next(c, s, a).log, u, Next(c, s, a).At(u))
  {
    hide Inv, Enabled, Next, Target, NextShard, NextPc, LogInv, CriticalInv, TableInv, ShardInv;
    InvOf(c, s, u);
    InvOf(c, s, a.t);
    var j := Ready(c, s, a);
    StepFrame(c, s, a, j);
    PcShape(j, s.shards[j], s.At(a.t), a);
    var pc, pc' := s.At(a.t), Next(c, s, a).At(a.t);
    if pc'.Unlocking? && !pc.Effective() {
      LogStep(s.log, Event(a.t, pc'.n, pc'.op, pc'.result), pc, pc', u, s.At(u));
    } else {
      LogStays(s.log, a.t, pc, pc', u, s.At(u));
    }
  }

  lemma LogStays<K, V>(log: seq<Event<K, V>>, t: Tid, pc: Pc<K, V>, pc': Pc<K, V>, u: Tid, upc: Pc<K, V>)
    requires LogInv(log, u, upc) && (u == t ==> upc == pc)
    requires !pc.Idle? && !pc'.Idle? && pc'.n == pc.n && pc'.op == pc.op && (pc.Effective() <==> pc'.Effective())
    requires pc.Effective() ==> pc'.result == pc.result
    ensures LogInv(log, u, if u == t then pc' else upc)
  {}

  lemma LogStep<K, V>(
      log: seq<Event<K, V>>, e: Event<K, V>, pc: Pc<K, V>, pc': Pc<K, V>, u: Tid, upc: Pc<K, V>)
    requires LogInv(log, u, upc) && (u == e.t ==> upc == pc)
    requires !pc.Idle? && !pc.Effective() && LogInv(log, e.t, pc)
    requires pc'.Unlocking? && e == Event(e.t, pc'.n, pc'.op, pc'.result) && pc'.n == pc.n
    ensures LogInv(log + [e], u, if u == e.t then pc' else upc)
  {
    hide LogInv;
    if u == e.t {
      LogOwn(log, e, pc, pc');
    } else {
      LogGrows(log, e, u, upc);
    }
  }

  // -----------------------------------------------------------------------------------------------
  // Refinement of the map done one operation at a time
  // -----------------------------------------------------------------------------------------------

  lemma ArenaKeepsSlots<K, V>(c: Config<K>, j: nat, sh: Shard<K, V>, x: A.Action<(K, V)>, m: map<K, Cell<V>>)
    requires c.Valid() && ShardInv(c, j, sh) && A.Enabled(sh.arena, x) && Represents(c, j, sh, m)
    ensures Represents(c, j, sh.(arena := A.Next(c.arena, sh.arena, x)), m)
  {
    A.ExtendsNext(c.arena, sh.arena, x);
    var sh' := sh.(arena := A.Next(c.arena, sh.arena, x));
    forall i | i in sh'.table ensures Stored(j, sh', i, m) {
      assert Stored(j, sh, i, m);
    }
    forall k | k in m && c.ShardOf(k) == j ensures Linked(j, sh', k, m[k].index) {
      assert Linked(j, sh, k, m[k].index);
    }
  }

  lemma SilentKeeps<K, V>(c: Config<K>, j: nat, sh: Shard<K, V>, pc: Pc<K, V>, a: Action<K, V>, m: map<K, Cell<V>>)
    requires StepReady(c, j, sh, pc, a) && Represents(c, j, sh, m) && !a.Swap? && !a.Link?
    ensures Represents(c, j, NextShard(c, sh, pc, a), m)
  {
    if a.Push? {
      ArenaKeepsSlots(c, j, sh, A.Reserve(a.t, (pc.op.key, pc.op.value)), m);
    } else if a.PushStep? {
      ArenaKeepsSlots(c, j, sh, ArenaAction(a.t, a.spurious), m);
    } else {
      HolderKeepsSlots(c, j, sh, NextShard(c, sh, pc, a), m);
    }
  }

  lemma HolderKeepsSlots<K, V>(c: Config<K>, j: nat, sh: Shard<K, V>, sh': Shard<K, V>, m: map<K, Cell<V>>)
    requires Represents(c, j, sh, m) && sh' == sh.(holder := sh'.holder)
    ensures Represents(c, j, sh', m)
  {
    forall i | i in sh'.table ensures Stored(j, sh', i, m) {
      assert Stored(j, sh, i, m);
    }
  }

  /** A finished search answers what the plain map answers. */
  lemma SearchAnswers<K(!new), V>(
      c: Config<K>, j: nat, sh: Shard<K, V>, pc: Pc<K, V>, a: Action<K, V>, m: map<K, Cell<V>>)
    requires StepReady(c, j, sh, pc, a) && Represents(c, j, sh, m) && a.Search?
    ensures a.found.Some? <==> pc.op.key in m
    ensures a.found.Some? ==> m[pc.op.key].index == I.Pack(j, a.found.value)
    ensures var pc' := NextPc(j, sh, pc, a);
            pc'.Unlocking? ==>
              var e := Event(a.t, pc'.n, pc'.op, pc'.result);
              Legal(c, m, e) && Apply(m, e) == m
  {
    var k := pc.op.key;
    forall index: u32 | Linked(j, sh, k, index) ensures sh.HasKey(I.Local(index), k) {}
    if a.found.Some? {
      assert Stored(j, sh, a.found.value, m);
    }
  }

  lemma SwapRefines<K(!new), V>(
      c: Config<K>, j: nat, sh: Shard<K, V>, pc: Pc<K, V>, a: Action<K, V>, m: map<K, Cell<V>>)
    requires StepReady(c, j, sh, pc, a) && Represents(c, j, sh, m) && a.Swap?
    ensures var e := Event(a.t, pc.n, pc.op, NextPc(j, sh, pc, a).result);
            Legal(c, m, e) && Represents(c, j, NextShard(c, sh, pc, a), Apply(m, e))
  {
    var i := I.Local(pc.index);
    var e := Event(a.t, pc.n, pc.op, NextPc(j, sh, pc, a).result);
    var sh', m' := NextShard(c, sh, pc, a), Apply(m, e);
    assert Stored(j, sh, i, m);
    forall l | l in sh'.table ensures Stored(j, sh', l, m') {
      assert Stored(j, sh, l, m);
    }
    forall k | k in m' && c.ShardOf(k) == j ensures Linked(j, sh', k, m'[k].index) {
      assert Linked(j, sh, k, m[k].index);
    }
  }

  lemma LinkRefines<K(!new), V>(
      c: Config<K>, j: nat, sh: Shard<K, V>, pc: Pc<K, V>, a: Action<K, V>, m: map<K, Cell<V>>)
    requires StepReady(c, j, sh, pc, a) && Represents(c, j, sh, m) && a.Link?
    ensures pc.op.key !in m
    ensures var e := Event(a.t, pc.n, pc.op, NextPc(j, sh, pc, a).result);
            Represents(c, j, NextShard(c, sh, pc, a), Apply(m, e))
  {
    var k0 := pc.op.key;
    var e := Event(a.t, pc.n, pc.op, NextPc(j, sh, pc, a).result);
    var sh', m' := NextShard(c, sh, pc, a), Apply(m, e);
    assert k0 in m ==> Linked(j, sh, k0, m[k0].index);
    SlotPacks(c, j, sh, pc.local);
    forall l | l in sh'.table ensures Stored(j, sh', l, m') {
      if l in sh.table {
        assert Stored(j, sh, l, m);
      }
    }
    forall k | k in m' && c.ShardOf(k) == j ensures Linked(j, sh', k, m'[k].index) {
      assert k != k0 ==> Linked(j, sh, k, m[k].index);
    }
  }

  /** The index of a slot that is not linked yet is unused. */
  lemma FreshIndex<K(!new), V>(c: Config<K>, s: State<K, V>, j: nat, i: u32, m: map<K, Cell<V>>, other: K)
    requires c.Valid() && WellFormed(c, s) && j < |s.shards| && ShardInv(c, j, s.shards[j])
    requires i < s.shards[j].arena.initialized && i !in s.shards[j].table && other in m
    requires forall x :: 0 <= x < |s.shards| ==> Represents(c, x, s.shards[x], m)
    ensures m[other].index != I.Pack(j, i)
  {
    SlotPacks(c, j, s.shards[j], i);
    var x := c.ShardOf(other);
    ShardOfInRange(c, other);
    assert Represents(c, x, s.shards[x], m);
    assert Linked(x, s.shards[x], other, m[other].index);
  }

  /** The other shards hold their part of the plain map whatever is done to a key of shard j. */
  lemma OtherShardKeeps<K(!new), V>(
      c: Config<K>, x: nat, sh: Shard<K, V>, m: map<K, Cell<V>>, m': map<K, Cell<V>>, k0: K)
    requires ShardInv(c, x, sh) && Represents(c, x, sh, m) && c.ShardOf(k0) != x
    requires AgreeElsewhere(m, m', k0)
    ensures Represents(c, x, sh, m')
  {
    forall i | i in sh.table ensures Stored(x, sh, i, m') {
      assert Stored(x, sh, i, m);
    }
    forall k | k in m' && c.ShardOf(k) == x ensures Linked(x, sh, k, m'[k].index) {
      assert Linked(x, sh, k, m[k].index);
    }
  }

  lemma LegalNext<K(!new), V>(c: Config<K>, log: seq<Event<K, V>>, e: Event<K, V>)
    requires LegalLog(c, log) && Legal(c, Replay(log), e)
    ensures LegalLog(c, log + [e]) && Replay(log + [e]) == Apply(Replay(log), e)
  {
    assert (log + [e])[..|log|] == log;
  }

  /** A link is legal: its index is of the right shard and nobody else's. */
  lemma LinkLegal<K(!new), V>(c: Config<K>, s: State<K, V>, a: Action<K, V>, j: nat)
    requires Inv(c, s) && Enabled(c, s, a) && a.Link?
    requires j == Target(c, s, a) < |s.shards| && StepReady(c, j, s.shards[j], s.At(a.t), a)
    ensures var pc := s.At(a.t);
            Legal(c, Replay(s.log), Event(a.t, pc.n, pc.op, NextPc(j, s.shards[j], pc, a).result))
  {
    var pc, sh, m := s.At(a.t), s.shards[j], Replay(s.log);
    LinkRefines(c, j, sh, pc, a, m);
    SlotPacks(c, j, sh, pc.local);
    forall other | other in m ensures m[other].index != I.Pack(j, pc.local) {
      FreshIndex(c, s, j, pc.local, m, other);
    }
  }

  /** The two plain maps agree on every key but k0. */
  ghost predicate AgreeElsewhere<K(!new), V>(m: map<K, Cell<V>>, m': map<K, Cell<V>>, k0: K) {
    forall k :: k != k0 && (k in m' || k in m) ==> k in m' && k in m && m'[k] == m[k]
  }

  lemma EffectNext<K(!new), V>(c: Config<K>, s: State<K, V>, a: Action<K, V>, j: nat, e: Event<K, V>)
    requires Inv(c, s) && Enabled(c, s, a) && !a.Call?
    requires j == Target(c, s, a) < |s.shards| && StepReady(c, j, s.shards[j], s.At(a.t), a)
    requires var pc' := NextPc(j, s.shards[j], s.At(a.t), a);
             pc'.Unlocking? && !s.At(a.t).Effective() && e == Event(a.t, pc'.n, pc'.op, pc'.result)
    ensures Legal(c, Replay(s.log), e)
    ensures Represents(c, j, NextShard(c, s.shards[j], s.At(a.t), a), Apply(Replay(s.log), e))
  {
    var pc, sh, m := s.At(a.t), s.shards[j], Replay(s.log);
    assert Represents(c, j, sh, m);
    if a.Search? {
      SearchAnswers(c, j, sh, pc, a, m);
    } else if a.Swap? {
      SwapRefines(c, j, sh, pc, a, m);
    } else {
      LinkRefines(c, j, sh, pc, a, m);
      LinkLegal(c, s, a, j);
    }
  }

  /** What the log stands for after a step, given what the step makes of it. */
  lemma EventNext<K(!new), V>(c: Config<K>, s: State<K, V>, a: Action<K, V>, j: nat)
    requires Inv(c, s) && Enabled(c, s, a) && !a.Call?
    requires j == Target(c, s, a) == c.ShardOf(s.At(a.t).op.key) && j < |s.shards|
    requires StepReady(c, j, s.shards[j], s.At(a.t), a)
    ensures LegalLog(c, Next(c, s, a).log) && s.log <= Next(c, s, a).log
    ensures Represents(c, j, NextShard(c, s.shards[j], s.At(a.t), a), Replay(Next(c, s, a).log))
    ensures AgreeElsewhere(Replay(s.log), Replay(Next(c, s, a).log), s.At(a.t).op.key)
  {
    LogOf(c, s, j);
    hide Inv, Enabled, Next, NextShard, NextPc, Legal, LegalLog, Replay, Represents, CriticalInv, ShardInv;
    hide Apply, AgreeElsewhere;
    StepFrame(c, s, a, j);
    PcShape(j, s.shards[j], s.At(a.t), a);
    var pc, pc' := s.At(a.t), Next(c, s, a).At(a.t);
    if pc'.Unlocking? && !pc.Effective() {
      var e := Event(a.t, pc'.n, pc'.op, pc'.result);
      EffectNext(c, s, a, j, e);
      LegalNext(c, s.log, e);
      ApplyAgrees(Replay(s.log), e);
    } else {
      NoEffect(c, s, a, j);
      SameAgrees(Replay(s.log), pc.op.key);
    }
  }

  lemma ApplyAgrees<K(!new), V>(m: map<K, Cell<V>>, e: Event<K, V>)
    ensures AgreeElsewhere(m, Apply(m, e), e.op.key)
  {}

  lemma SameAgrees<K(!new), V>(m: map<K, Cell<V>>, k: K)
    ensures AgreeElsewhere(m, m, k)
  {}

  lemma LogOf<K(!new), V>(c: Config<K>, s: State<K, V>, j: nat)
    requires Inv(c, s) && j < |s.shards|
    ensures LegalLog(c, s.log) && Represents(c, j, s.shards[j], Replay(s.log))
  {}

  lemma NoEffect<K(!new), V>(c: Config<K>, s: State<K, V>, a: Action<K, V>, j: nat)
    requires Inv(c, s) && Enabled(c, s, a) && !a.Call?
    requires j == Target(c, s, a) < |s.shards| && StepReady(c, j, s.shards[j], s.At(a.t), a)
    requires var pc' := NextPc(j, s.shards[j], s.At(a.t), a); !(pc'.Unlocking? && !s.At(a.t).Effective())
    ensures Represents(c, j, NextShard(c, s.shards[j], s.At(a.t), a), Replay(s.log))
  {
    LogOf(c, s, j);
    hide Inv, NextShard, Replay, Represents, ShardInv, TableInv;
    SilentKeeps(c, j, s.shards[j], s.At(a.t), a, Replay(s.log));
  }

  lemma InvNext<K(!new), V>(c: Config<K>, s: State<K, V>, a: Action<K, V>)
    requires Inv(c, s) && Enabled(c, s, a)
    ensures Inv(c, Next(c, s, a)) && s.log <= Next(c, s, a).log
  {
    hide Enabled, Next, ThreadInv, LogInv, ShardInv, LegalLog, Represents, WellFormed;
    var s' := Next(c, s, a);
    forall u ensures ThreadInv(c, s', u) && LogInv(s'.log, u, s'.At(u)) {
      if a.Call? {
        CallNext(c, s, a, u);
      } else {
        LogNext(c, s, a, u);
        if u == a.t { OwnThreadNext(c, s, a); } else { OtherThreadNext(c, s, a, u); }
      }
    }
    ShardsNext(c, s, a);
  }

  lemma ShardsNext<K(!new), V>(c: Config<K>, s: State<K, V>, a: Action<K, V>)
    requires Inv(c, s) && Enabled(c, s, a)
    ensures var s' := Next(c, s, a);
            && WellFormed(c, s') && LegalLog(c, s'.log) && s.log <= s'.log
            && forall x :: 0 <= x < |s'.shards| ==>
                 ShardInv(c, x, s'.shards[x]) && Represents(c, x, s'.shards[x], Replay(s'.log))
  {
    if !a.Call? {
      var s' := Next(c, s, a);
      var j := OwnKeeps(c, s, a);
      EventNext(c, s, a, j);
      forall x | 0 <= x < |s'.shards|
        ensures ShardInv(c, x, s'.shards[x]) && Represents(c, x, s'.shards[x], Replay(s'.log))
      {
        if x != j {
          OtherShardKeeps(c, x, s.shards[x], Replay(s.log), Replay(s'.log), s.At(a.t).op.key);
        }
      }
    }
  }

  lemma InvStart<K(!new), V>(c: Config<K>)
    requires c.Valid()
    ensures Inv(c, Start<K, V>(c))
  {
    A.InvInit<(K, V)>(c.arena);
  }

  ghost predicate Trace<K, V>(c: Config<K>, s: State<K, V>, run: seq<Action<K, V>>)
    requires c.Valid()
    decreases |run|
  {
    run == [] || (Enabled(c, s, run[0]) && Trace(c, Next(c, s, run[0]), run[1..]))
  }

  ghost function After<K, V>(c: Config<K>, s: State<K, V>, run: seq<Action<K, V>>): State<K, V>
    requires c.Valid() && Trace(c, s, run)
    decreases |run|
  {
    if run == [] then s else After(c, Next(c, s, run[0]), run[1..])
  }

  lemma {:induction false} InvRun<K(!new), V>(c: Config<K>, s: State<K, V>, run: seq<Action<K, V>>)
    requires Inv(c, s) && Trace(c, s, run)
    ensures Inv(c, After(c, s, run)) && s.log <= After(c, s, run).log
    decreases |run|
  {
    if run != [] {
      InvNext(c, s, run[0]);
      InvRun(c, Next(c, s, run[0]), run[1..]);
    }
  }

  // -----------------------------------------------------------------------------------------------
  // What callers see, in every run
  // -----------------------------------------------------------------------------------------------

  /** How many operations of a thread at pc have taken effect: those numbered below. */
  function Effects<K, V>(pc: Pc<K, V>): nat {
    if pc.Idle? then 0 else if pc.Effective() then pc.n + 1 else pc.n
  }

  predicate IsEventOf<K, V>(e: Event<K, V>, t: Tid, n: nat) {
    e.t == t && e.n == n
  }

  ghost predicate Logged<K, V>(log: seq<Event<K, V>>, t: Tid, n: nat) {
    exists i :: 0 <= i < |log| && IsEventOf(log[i], t, n)
  }

  /** No operation is logged twice. */
  ghost predicate Once<K, V>(log: seq<Event<K, V>>) {
    forall i, j :: 0 <= i < j < |log| ==> log[i].t != log[j].t || log[i].n != log[j].n
  }

  /** The log holds exactly the operations of the thread that have taken effect. */
  ghost predicate Exactly<K, V>(log: seq<Event<K, V>>, t: Tid, pc: Pc<K, V>) {
    forall n: nat :: Logged(log, t, n) <==> n < Effects(pc)
  }

  ghost predicate History<K, V>(s: State<K, V>) {
    Once(s.log) && forall t :: Exactly(s.log, t, s.At(t))
  }

  lemma OnceNext<K, V>(log: seq<Event<K, V>>, e: Event<K, V>)
    requires Once(log) && !Logged(log, e.t, e.n)
    ensures Once(log + [e])
  {
    forall i | 0 <= i < |log| ensures log[i].t != e.t || log[i].n != e.n {
      assert !IsEventOf(log[i], e.t, e.n);
    }
  }

  lemma LoggedNext<K, V>(log: seq<Event<K, V>>, e: Event<K, V>, t: Tid, n: nat)
    ensures Logged(log + [e], t, n) <==> Logged(log, t, n) || IsEventOf(e, t, n)
  {
    var after := log + [e];
    if Logged(log, t, n) {
      var i :| 0 <= i < |log| && IsEventOf(log[i], t, n);
      assert IsEventOf(after[i], t, n);
    }
    assert after[|log|] == e;
    if IsEventOf(e, t, n) {
      assert IsEventOf(after[|log|], t, n);
    }
  }

  lemma ExactlyNext<K, V>(log: seq<Event<K, V>>, e: Event<K, V>, t: Tid, pc: Pc<K, V>, pc': Pc<K, V>)
    requires Exactly(log, t, pc)
    requires if e.t == t then e.n == Effects(pc) && Effects(pc') == Effects(pc) + 1 else Effects(pc') == Effects(pc)
    ensures Exactly(log + [e], t, pc')
  {
    hide Logged;
    forall n: nat ensures Logged(log + [e], t, n) <==> n < Effects(pc') {
      LoggedNext(log, e, t, n);
    }
  }

  /** What a step adds to the log and to the count of the thread's effects. */
  lemma EffectsNext<K(!new), V>(c: Config<K>, s: State<K, V>, a: Action<K, V>)
    requires c.Valid() && Enabled(c, s, a)
    ensures forall u :: u != a.t ==> Next(c, s, a).At(u) == s.At(u)
    ensures var s', k := Next(c, s, a), Effects(s.At(a.t));
            || (s'.log == s.log && Effects(s'.At(a.t)) == k)
            || (|s'.log| == |s.log| + 1 && s'.log == s.log + [s'.log[|s.log|]]
                && s'.log[|s.log|].t == a.t && s'.log[|s.log|].n == k && Effects(s'.At(a.t)) == k + 1)
  {
    if !a.Call? {
      PcShape(c.ShardOf(s.At(a.t).op.key), s.shards[Target(c, s, a)], s.At(a.t), a);
      hide NextPc, NextShard, ShardEnabled;
    }
  }

  lemma HistoryNext<K(!new), V>(c: Config<K>, s: State<K, V>, a: Action<K, V>)
    requires c.Valid() && Enabled(c, s, a) && History(s)
    ensures History(Next(c, s, a)) && s.log <= Next(c, s, a).log
  {
    EffectsNext(c, s, a);
    var s' := Next(c, s, a);
    hide Next, Enabled, Exactly, Once, Logged, Effects;
    assert Exactly(s.log, a.t, s.At(a.t));
    if s'.log != s.log {
      var e := s'.log[|s.log|];
      assert !Logged(s.log, e.t, e.n) by { NotYet(s.log, e.t, e.n, s.At(a.t)); }
      OnceNext(s.log, e);
      forall u ensures Exactly(s'.log, u, s'.At(u)) {
        ExactlyNext(s.log, e, u, s.At(u), s'.At(u));
      }
    } else {
      forall u ensures Exactly(s'.log, u, s'.At(u)) {
        SameEffects(s.log, u, s.At(u), s'.At(u));
      }
    }
  }

  lemma NotYet<K, V>(log: seq<Event<K, V>>, t: Tid, n: nat, pc: Pc<K, V>)
    requires Exactly(log, t, pc) && n >= Effects(pc)
    ensures !Logged(log, t, n)
  {}

  lemma SameEffects<K, V>(log: seq<Event<K, V>>, t: Tid, pc: Pc<K, V>, pc': Pc<K, V>)
    requires Exactly(log, t, pc) && Effects(pc') == Effects(pc)
    ensures Exactly(log, t, pc')
  {}

  lemma {:induction false} HistoryRun<K(!new), V>(c: Config<K>, s: State<K, V>, run: seq<Action<K, V>>)
    requires c.Valid() && Trace(c, s, run) && History(s)
    ensures History(After(c, s, run)) && s.log <= After(c, s, run).log
    decreases |run|
  {
    hide History, Next, Enabled;
    if run != [] {
      HistoryNext(c, s, run[0]);
      HistoryRun(c, Next(c, s, run[0]), run[1..]);
    }
  }

  /** Operation n of thread t is op, wherever it shows. */
  ghost predicate Names<K, V>(s: State<K, V>, t: Tid, n: nat, op: Op<K, V>) {
    var pc := s.At(t);
    && !pc.Idle? && n <= pc.n && (pc.n == n ==> pc.op == op)
    && forall i :: 0 <= i < |s.log| && IsEventOf(s.log[i], t, n) ==> s.log[i].op == op
  }

  lemma NamesNext<K(!new), V>(c: Config<K>, s: State<K, V>, a: Action<K, V>, t: Tid, n: nat, op: Op<K, V>)
    requires c.Valid() && Enabled(c, s, a) && Names(s, t, n, op)
    ensures Names(Next(c, s, a), t, n, op)
  {
    if !a.Call? {
      PcShape(c.ShardOf(s.At(a.t).op.key), s.shards[Target(c, s, a)], s.At(a.t), a);
      hide NextPc, NextShard, ShardEnabled;
      var s' := Next(c, s, a);
      forall i | 0 <= i < |s'.log| && IsEventOf(s'.log[i], t, n) ensures s'.log[i].op == op {
        if i < |s.log| {
          assert s'.log[i] == s.log[i];
        }
      }
    }
  }

  lemma {:induction false} NamesRun<K(!new), V>(
      c: Config<K>, s: State<K, V>, run: seq<Action<K, V>>, t: Tid, n: nat, op: Op<K, V>)
    requires c.Valid() && Trace(c, s, run) && Names(s, t, n, op)
    ensures Names(After(c, s, run), t, n, op)
    decreases |run|
  {
    hide Names, Next, Enabled;
    if run != [] {
      NamesNext(c, s, run[0], t, n, op);
      NamesRun(c, Next(c, s, run[0]), run[1..], t, n, op);
    }
  }

  /**
   * The log is a linearization of every run: it is a legal history of the plain map; it holds each operation that has
   * taken effect exactly once and no other; a finished operation is in it with its own result; an operation under
   * way enters it as the operation that was called.
   */
  lemma Linearizable<K(!new), V>(c: Config<K>, before: seq<Action<K, V>>, after: seq<Action<K, V>>, t: Tid)
    requires c.Valid() && Trace(c, Start(c), before) && Trace(c, After(c, Start(c), before), after)
    ensures var s := After(c, Start(c), before);
            var s', pc := After(c, s, after), s.At(t);
            && LegalLog(c, s'.log) && s.log <= s'.log && Once(s'.log)
            && (forall n: nat :: Logged(s.log, t, n) <==> n < Effects(pc))
            && (pc.Done? ==> Event(t, pc.n, pc.op, pc.result) in s.log)
            && (!pc.Idle? ==> forall i :: 0 <= i < |s'.log| && IsEventOf(s'.log[i], t, pc.n) ==> s'.log[i].op == pc.op)
  {
    var s := After(c, Start(c), before);
    RunsKeep(c, before, after);
    assert Exactly(s.log, t, s.At(t)) && LogInv(s.log, t, s.At(t));
    if !s.At(t).Idle? {
      NamesNow(s.log, t, s.At(t));
      NamesRun(c, s, after, t, s.At(t).n, s.At(t).op);
    }
  }

  lemma RunsKeep<K(!new), V>(c: Config<K>, before: seq<Action<K, V>>, after: seq<Action<K, V>>)
    requires c.Valid() && Trace(c, Start(c), before) && Trace(c, After(c, Start(c), before), after)
    ensures var s := After(c, Start(c), before);
            var s' := After(c, s, after);
            Inv(c, s) && Inv(c, s') && History(s) && History(s') && s.log <= s'.log
  {
    InvStart<K, V>(c);
    StartHistory<K, V>(c);
    hide Inv, History, Start;
    InvRun(c, Start(c), before);
    HistoryRun(c, Start(c), before);
    InvRun(c, After(c, Start(c), before), after);
    HistoryRun(c, After(c, Start(c), before), after);
  }

  lemma StartHistory<K(!new), V>(c: Config<K>)
    requires c.Valid()
    ensures History(Start<K, V>(c))
  {}

  lemma NamesNow<K, V>(log: seq<Event<K, V>>, t: Tid, pc: Pc<K, V>)
    requires LogInv(log, t, pc) && !pc.Idle?
    ensures forall i :: 0 <= i < |log| && IsEventOf(log[i], t, pc.n) ==> log[i].op == pc.op
  {
    forall i | 0 <= i < |log| && IsEventOf(log[i], t, pc.n) ensures log[i].op == pc.op {
      assert log[i] in log;
    }
  }

  /**
   * Real-time order: the operations that have taken effect by the end of `before` are exactly those of the first part
   * of the later log. So one that has finished precedes every one that is called afterwards.
   */
  lemma RealTimeOrder<K(!new), V>(c: Config<K>, before: seq<Action<K, V>>, after: seq<Action<K, V>>, i: nat)
    requires c.Valid() && Trace(c, Start(c), before) && Trace(c, After(c, Start(c), before), after)
    requires i < |After(c, After(c, Start(c), before), after).log|
    ensures var s := After(c, Start(c), before);
            var e := After(c, s, after).log[i];
            i < |s.log| <==> e.n < Effects(s.At(e.t))
  {
    var s := After(c, Start(c), before);
    var s' := After(c, s, after);
    RunsKeep(c, before, after);
    var e := s'.log[i];
    hide Inv, After, Trace, Start;
    assert Exactly(s.log, e.t, s.At(e.t));
    LogPart(s.log, s'.log, i);
  }

  lemma LogPart<K, V>(log: seq<Event<K, V>>, log': seq<Event<K, V>>, i: nat)
    requires log <= log' && Once(log') && i < |log'|
    ensures i < |log| <==> Logged(log, log'[i].t, log'[i].n)
  {
    var e := log'[i];
    if i < |log| {
      assert IsEventOf(log[i], e.t, e.n);
    }
    if Logged(log, e.t, e.n) {
      var j :| 0 <= j < |log| && IsEventOf(log[j], e.t, e.n);
      assert log'[j] == log[j];
    }
  }

  /** Two keys never share an index, and an index carries its key's shard. */
  ghost predicate Injective<K(!new), V>(c: Config<K>, m: map<K, Cell<V>>) {
    && (forall k, l :: k in m && l in m && m[k].index == m[l].index ==> k == l)
    && forall k :: k in m ==> I.Shard(m[k].index) == c.ShardOf(k)
  }

  lemma ApplyStable<K(!new), V>(c: Config<K>, m: map<K, Cell<V>>, e: Event<K, V>)
    requires Injective(c, m) && Legal(c, m, e)
    ensures Injective(c, Apply(m, e))
    ensures forall k :: k in m ==> k in Apply(m, e) && Apply(m, e)[k].index == m[k].index
    ensures e.result.index.Some? ==>
              e.op.key in Apply(m, e) && Apply(m, e)[e.op.key].index == e.result.index.value
  {}

  /** In the plain map a key keeps the index of its first insertion. */
  lemma {:induction false} ReplayStable<K(!new), V>(c: Config<K>, log: seq<Event<K, V>>)
    requires LegalLog(c, log)
    ensures Injective(c, Replay(log))
    ensures forall e :: e in log && e.result.index.Some? ==>
              e.op.key in Replay(log) && Replay(log)[e.op.key].index == e.result.index.value
  {
    hide Legal, Apply;
    if log != [] {
      var n := |log| - 1;
      ReplayStable(c, log[..n]);
      ApplyStable(c, Replay(log[..n]), log[n]);
      assert log == log[..n] + [log[n]];
    }
  }

  /** Equal keys get equal indices, distinct keys distinct ones, and an index carries the shard of its key's hash. */
  lemma IndicesMatchKeys<K(!new), V>(c: Config<K>, run: seq<Action<K, V>>, e: Event<K, V>, f: Event<K, V>)
    requires c.Valid() && Trace(c, Start(c), run)
    requires e in After(c, Start(c), run).log && f in After(c, Start(c), run).log
    requires e.result.index.Some? && f.result.index.Some?
    ensures e.result.index == f.result.index <==> e.op.key == f.op.key
    ensures I.Shard(e.result.index.value) == c.hash(e.op.key) % Pow2(c.bits)
  {
    InvStart<K, V>(c);
    InvRun(c, Start(c), run);
    ReplayStable(c, After(c, Start(c), run).log);
    ShardOfInRange(c, e.op.key);
  }

  /** `key(index)` and the load of `kv(index).1`, without taking a lock; None where the bounds check panics. */
  function Read<K(==), V>(s: State<K, V>, index: u32): Option<(K, V)> {
    var j, i := I.Shard(index), I.Local(index);
    if j < |s.shards| && i < s.shards[j].arena.initialized && i in s.shards[j].arena.slots
    then Some((s.shards[j].arena.slots[i].0, s.shards[j].Current(i)))
    else None
  }

  /** Where the cell of a key of the plain map is stored. */
  lemma CellOf<K(!new), V>(c: Config<K>, s: State<K, V>, k: K)
    requires Inv(c, s) && k in Replay(s.log)
    ensures var j, index := c.ShardOf(k), Replay(s.log)[k].index;
            && j < |s.shards| && ShardInv(c, j, s.shards[j])
            && Linked(j, s.shards[j], k, index) && Stored(j, s.shards[j], I.Local(index), Replay(s.log))
  {
    ShardOfInRange(c, k);
    LogOf(c, s, c.ShardOf(k));
    assert ShardInv(c, c.ShardOf(k), s.shards[c.ShardOf(k)]);
  }

  /** Every index the log has issued is its key's index in the plain map, in every later state too. */
  lemma IssuedCell<K(!new), V>(c: Config<K>, before: seq<Action<K, V>>, after: seq<Action<K, V>>, e: Event<K, V>)
    requires c.Valid() && Trace(c, Start(c), before) && Trace(c, After(c, Start(c), before), after)
    requires e in After(c, Start(c), before).log && e.result.index.Some?
    ensures var s := After(c, After(c, Start(c), before), after);
            Inv(c, s) && e.op.key in Replay(s.log) && Replay(s.log)[e.op.key].index == e.result.index.value
  {
    hide Inv, Replay;
    InvStart<K, V>(c);
    InvRun(c, Start(c), before);
    InvRun(c, After(c, Start(c), before), after);
    var s := After(c, After(c, Start(c), before), after);
    assert e in s.log;
    InvOf(c, s, 0);
    ReplayStable(c, s.log);
  }

  /** Once an operation has issued an index, a lock-free read of it finds its key and current value from then on. */
  lemma IssuedIndexReadable<K(!new), V>(
      c: Config<K>, before: seq<Action<K, V>>, after: seq<Action<K, V>>, e: Event<K, V>)
    requires c.Valid() && Trace(c, Start(c), before) && Trace(c, After(c, Start(c), before), after)
    requires e in After(c, Start(c), before).log && e.result.index.Some?
    ensures var s := After(c, After(c, Start(c), before), after);
            && e.op.key in Replay(s.log)
            && Read(s, e.result.index.value) == Some((e.op.key, Replay(s.log)[e.op.key].value))
  {
    hide Inv, Replay, Trace, After;
    IssuedCell(c, before, after, e);
    CellOf(c, After(c, After(c, Start(c), before), after), e.op.key);
  }

  /** An issued index is never the sentinel, unless the last of 64 shards can be filled to the last 26-bit slot. */
  lemma IssuedIndexNotNone<K(!new), V>(c: Config<K>, run: seq<Action<K, V>>, e: Event<K, V>)
    requires c.Valid() && Trace(c, Start(c), run)
    requires e in After(c, Start(c), run).log && e.result.index.Some?
    requires Pow2(c.bits) < 64 || c.arena.capacity <= I.LOCAL_MASK
    ensures e.result.index.value != I.NONE
  {
    hide Inv, Replay, Start;
    IssuedCell(c, run, [], e);
    var s := After(c, Start(c), run);
    CellOf(c, s, e.op.key);
    ShardOfInRange(c, e.op.key);
    I.PackFields(c.ShardOf(e.op.key), I.Local(Replay(s.log)[e.op.key].index));
  }

  /** The shard lock serialises the pushes, so no commit underflows and every slot is written in committed memory. */
  lemma PushesStayCommitted<K(!new), V>(c: Config<K>, run: seq<Action<K, V>>, j: nat, t: Tid)
    requires c.Valid() && Trace(c, Start(c), run) && j < |After(c, Start(c), run).shards|
    ensures var arena := After(c, Start(c), run).shards[j].arena;
            && !arena.At(t).Underflowed?
            && (arena.At(t).Writing? ==> arena.At(t).index in arena.pages && arena.At(t).index < c.arena.capacity)
  {
    InvStart<K, V>(c);
    InvRun(c, Start(c), run);
    var sh := After(c, Start(c), run).shards[j];
    assert ShardInv(c, j, sh);
    assert t in sh.arena.threads ==> A.ThreadInv(c.arena, sh.arena, t);
  }
}
