/** The packed 32-bit index of the sharded map: 6 bits of shard, 26 bits of position inside the shard. */
module ShardIndex {
  import opened Power
  import opened Limbs

  type u32 = x: int | 0 <= x < 0x1_0000_0000

  const LOCAL_MASK: nat := 0x3FF_FFFF
  const NONE: u32 := 0xFFFF_FFFF

  lemma Pow2Fits()
    ensures Pow2(6) == 64 && Pow2(26) == 0x400_0000 && Pow2(32) == 0x1_0000_0000
  {
    Pow2Add(3, 3);
    Pow2Add(6, 4);
    Pow2Add(10, 10);
    Pow2Add(20, 6);
    Pow2Add(26, 6);
  }

  /** `((shard as u32) << 26) | local`, with the truncating cast and the bits the shift drops. */
  function Pack(shard: nat, local: u32): (index: u32) {
    Pow2Fits();
    Or.Word(shard % 0x1_0000_0000 * 0x400_0000 % 0x1_0000_0000, local, 32)
  }

  function Shard(index: u32): nat {
    index / 0x400_0000
  }

  function Local(index: u32): u32 {
    Pow2Fits();
    And.Word(index, LOCAL_MASK, 32)
  }

  lemma {:induction false} AndZero(x: nat, n: nat)
    ensures And.Word(x, 0, n) == 0
    decreases n
  {
    if n > 0 {
      AndZero(x / 2, n - 1);
    }
  }

  /** AND with 2^p - 1 is the remainder by 2^p. */
  lemma {:induction false} AndMask(x: nat, p: nat, n: nat)
    requires p <= n
    ensures And.Word(x, Pow2(p) - 1, n) == x % Pow2(p)
    decreases n
  {
    hide BitOp.Word;
    if p == 0 {
      AndZero(x, n);
    } else {
      var m := Pow2(p - 1);
      assert Pow2(p) == 2 * m;
      AndMask(x / 2, p - 1, n - 1);
      AndMaskStep(x, m, n);
      ModDouble(x, m);
    }
  }

  lemma AndMaskStep(x: nat, m: int, n: nat)
    requires n > 0 && m > 0
    ensures And.Word(x, 2 * m - 1, n) == x % 2 + 2 * And.Word(x / 2, m - 1, n - 1)
  {
    assert (2 * m - 1) / 2 == m - 1 && (2 * m - 1) % 2 == 1;
  }

  lemma ModDouble(x: nat, m: int)
    requires m > 0
    ensures x % (2 * m) == x % 2 + 2 * (x / 2 % m)
  {
    var q := x / 2 / m;
    DivModFact(x / 2, m);
    assert 2 * m * q == 2 * (q * m);
    DivModUnique(x, 2 * m, q, x % 2 + 2 * (x / 2 % m));
  }

  lemma LocalIsRemainder(index: u32)
    ensures Local(index) == index % 0x400_0000
  {
    Pow2Fits();
    AndMask(index, 26, 32);
  }

  lemma PackSum(shard: nat, local: u32)
    requires shard < 64 && local <= LOCAL_MASK
    ensures Pack(shard, local) == shard * 0x400_0000 + local
  {
    Pow2Fits();
    DivSmall(shard, 0x1_0000_0000);
    DivSmall(shard * 0x400_0000, 0x1_0000_0000);
    OrDisjoint(shard * 0x400_0000, shard, local, 26, 32);
  }

  /** Packing a shard below 64 with a local index of 26 bits is unambiguous. */
  lemma PackFields(shard: nat, local: u32)
    requires shard < 64 && local <= LOCAL_MASK
    ensures Pack(shard, local) == shard * 0x400_0000 + local
    ensures Shard(Pack(shard, local)) == shard && Local(Pack(shard, local)) == local
    ensures Pack(shard, local) == NONE <==> shard == 63 && local == LOCAL_MASK
  {
    PackSum(shard, local);
    var index := Pack(shard, local);
    LocalIsRemainder(index);
    DivModUnique(index, 0x400_0000, shard, local);
  }

  lemma PackWraps(local: u32)
    requires local <= LOCAL_MASK
    ensures Pack(64, local) == local && Pack(0, local) == local
  {
    PackFields(0, local);
  }

  lemma PackSpills()
    ensures Pack(0, 0x400_0000) == 0x400_0000
  {
    Pow2Fits();
    OrCommutes(0, 0x400_0000, 32);
    OrZero(0x400_0000, 32);
  }

  /** Every slot of a map with this many shards and this capacity can be read back from its index. */
  ghost predicate RoundTrips(shards: nat, capacity: nat) {
    forall s: nat, l: u32 :: s < shards && l < capacity ==> Shard(Pack(s, l)) == s && Local(Pack(s, l)) == l
  }

  ghost predicate NeverNone(shards: nat, capacity: nat) {
    forall s: nat, l: u32 :: s < shards && l < capacity ==> Pack(s, l) != NONE
  }

  /**
   * The two debug assertions of `Index::new` are exactly what the encoding needs: beyond 64 shards, or beyond
   * 2^26 slots in a shard, some index decodes to another slot.
   */
  lemma RoundTripsIff(shards: nat, capacity: nat)
    requires 0 < shards && 0 < capacity <= 0x1_0000_0000
    ensures RoundTrips(shards, capacity) <==> shards <= 64 && capacity <= 0x400_0000
  {
    if shards <= 64 && capacity <= LOCAL_MASK + 1 {
      forall s: nat, l: u32 | s < shards && l < capacity ensures Shard(Pack(s, l)) == s && Local(Pack(s, l)) == l {
        PackFields(s, l);
      }
    } else if shards > 64 {
      PackWraps(0);
      assert Shard(Pack(64, 0)) != 64;
    } else {
      PackSpills();
      assert Shard(Pack(0, 0x400_0000)) != 0;
    }
  }

  /** Within those limits the sentinel is issued only by the last slot of a full last shard. */
  lemma NeverNoneIff(shards: nat, capacity: nat)
    requires 0 < shards <= 64 && 0 < capacity <= 0x400_0000
    ensures NeverNone(shards, capacity) <==> shards < 64 || capacity < 0x400_0000
  {
    forall s: nat, l: u32 | s < shards && l < capacity ensures Pack(s, l) == NONE <==> s == 63 && l == LOCAL_MASK {
      PackFields(s, l);
    }
    if shards == 64 && capacity == LOCAL_MASK + 1 {
      PackFields(63, LOCAL_MASK);
      assert Pack(63, LOCAL_MASK) == NONE;
    }
  }
}
