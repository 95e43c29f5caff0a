/** Arbitrary-precision integers: a sign and little-endian 64-bit limbs. */
module Int {
  import opened Power
  import opened Limbs
  import opened LimbLoops
  import opened Decimal
  import opened Options

  datatype Ordering = Less | Equal | Greater

  function Compare(a: int, b: int): Ordering {
    if a < b then Less else if a == b then Equal else Greater
  }

  function Signed(negative: bool, limbs: seq<u64>): int {
    if negative then -Value(limbs) else Value(limbs)
  }

  /** The canonical form that makes structural equality and hashing right. */
  predicate Canonical(negative: bool, limbs: seq<u64>) {
    Trimmed(limbs) && (limbs == [] ==> !negative)
  }

  /** Lexicographic comparison of equally long limb lists, most significant limb first. */
  function CompareFromTop(l: seq<u64>, m: seq<u64>): Ordering
    requires |l| == |m|
  {
    if l == [] then Equal
    else
      var i := |l| - 1;
      if l[i] != m[i] then Compare(l[i], m[i]) else CompareFromTop(l[..i], m[..i])
  }

  lemma {:induction false} CompareFromTopOrders(l: seq<u64>, m: seq<u64>)
    requires |l| == |m|
    ensures CompareFromTop(l, m) == Compare(Value(l), Value(m))
  {
    if l != [] {
      var i := |l| - 1;
      if l[i] < m[i] {
        ValueTopBounds(l, 0, m[i]);
        ValueTopBounds(m, m[i], B);
      } else if l[i] > m[i] {
        ValueTopBounds(m, 0, l[i]);
        ValueTopBounds(l, l[i], B);
      } else {
        ValueTake(l, i);
        ValueTake(m, i);
        assert l[..i + 1] == l && m[..i + 1] == m;
        CompareFromTopOrders(l[..i], m[..i]);
      }
    }
  }

  lemma BitCountFits(v: nat, n: nat, bits: nat)
    requires v < Pow2(n) && (n > 0 ==> Pow2(n - 1) <= v)
    ensures n <= bits <==> v < Pow2(bits)
  {
    if n <= bits {
      Pow2Monotone(n, bits);
    } else {
      Pow2Monotone(bits, n - 1);
    }
  }

  /** Canonical values are equal as numbers exactly when they are equal field by field. */
  lemma StructuralEquality(n1: bool, l1: seq<u64>, n2: bool, l2: seq<u64>)
    requires Canonical(n1, l1) && Canonical(n2, l2)
    ensures Signed(n1, l1) == Signed(n2, l2) <==> n1 == n2 && l1 == l2
  {
    if Signed(n1, l1) == Signed(n2, l2) {
      if l1 != [] { ValueTop(l1); }
      if l2 != [] { ValueTop(l2); }
      assert n1 == n2;
      TrimmedUnique(l1, l2);
    }
  }

  // -----------------------------------------------------------------------------------------------
  // Truncating division
  // -----------------------------------------------------------------------------------------------

  function AbsInt(x: int): nat {
    if x < 0 then -x else x
  }

  /** The quotient of magnitudes with the product of the signs. */
  function TruncDiv(a: int, b: int): int
    requires b != 0
  {
    var q := AbsInt(a) / AbsInt(b);
    if (a < 0) != (b < 0) then -q else q
  }

  /** The remainder of magnitudes with the sign of the dividend. */
  function TruncRem(a: int, b: int): int
    requires b != 0
  {
    var r := AbsInt(a) % AbsInt(b);
    if a < 0 then -r else r
  }

  /** The laws of truncating division. */
  lemma TruncLaws(a: int, b: int)
    requires b != 0
    ensures a == TruncDiv(a, b) * b + TruncRem(a, b)
    ensures AbsInt(TruncRem(a, b)) < AbsInt(b)
    ensures TruncRem(a, b) != 0 ==> (TruncRem(a, b) < 0 <==> a < 0)
  {
    SignRules(AbsInt(a) / AbsInt(b), AbsInt(b));
  }

  lemma SignRules(a: int, b: int)
    ensures (-a) * b == -(a * b) && a * (-b) == -(a * b) && (-a) * (-b) == a * b
  {}

  lemma TruncUnique(n1: bool, a: int, n2: bool, b: int, q: int, r: int)
    requires b > 0 && a >= 0 && a == q * b + r && 0 <= r < b && (a == 0 ==> !n1)
    ensures var x, y := if n1 then -a else a, if n2 then -b else b;
            TruncDiv(x, y) == (if n1 != n2 then -q else q) && TruncRem(x, y) == if n1 then -r else r
  {
    DivModUnique(a, b, q, r);
  }

  class Anyint {
    var negative: bool
    var limbs: seq<u64>

    /** The integer this object stands for. */
    ghost function Val(): int
      reads this
    {
      Signed(negative, limbs)
    }

    ghost function Abs(): int
      reads this
    {
      Value(limbs)
    }

    ghost predicate Valid()
      reads this
    {
      Canonical(negative, limbs)
    }

    constructor (negative: bool, limbs: seq<u64>)
      ensures this.negative == negative && this.limbs == limbs
    {
      this.negative := negative;
      this.limbs := limbs;
    }

    constructor Zero()
      ensures Valid() && Val() == 0 && limbs == [] && !negative
    {
      negative := false;
      limbs := [];
    }

    constructor FromU64(value: u64)
      ensures Valid() && Val() == Abs() == value && !negative
    {
      negative := false;
      limbs := [value];
      new;
      ValueOne(value);
      Normalize();
    }

    method Clone() returns (res: Anyint)
      ensures fresh(res) && res.negative == negative && res.limbs == limbs
    {
      res := new Anyint(negative, limbs);
    }

    predicate IsZero()
      reads this
    {
      limbs == []
    }

    lemma ZeroIsZero()
      requires Trimmed(limbs)
      ensures IsZero() <==> Abs() == 0
    {
      if limbs != [] { ValueTop(limbs); }
    }

    lemma SignOfVal()
      requires Valid()
      ensures negative <==> Val() < 0
    {
      ZeroIsZero();
    }

    function ToU64(): (r: (bool, u64))
      requires Valid()
      reads this
      ensures r.0 <==> 0 <= Val() < B
      ensures r.0 ==> r.1 == Val()
    {
      if |limbs| > 1 then ValueTop(limbs); BaseMonotone(1, |limbs| - 1); assert Base(1) == B; (false, 0)
      else if negative then ValueTop(limbs); (false, 0)
      else if limbs == [] then (true, 0) else ValueOne(limbs[0]); assert limbs == [limbs[0]]; (true, limbs[0])
    }

    method Normalize()
      modifies this
      ensures Valid() && Val() == old(Val()) && Abs() == old(Abs())
      ensures negative == (old(negative) && Abs() != 0)
    {
      while limbs != [] && limbs[|limbs| - 1] == 0
        invariant Abs() == old(Abs()) && negative == old(negative)
        decreases |limbs|
      {
        assert limbs == limbs[..|limbs| - 1] + [0];
        ValueSnoc(limbs[..|limbs| - 1], 0);
        limbs := limbs[..|limbs| - 1];
      }
      ZeroIsZero();
      if limbs == [] {
        negative := false;
      }
    }

    function AbsCmp(other: Anyint): (o: Ordering)
      requires Trimmed(limbs) && Trimmed(other.limbs)
      reads this, other
      ensures o == Compare(Abs(), other.Abs())
    {
      if |limbs| < |other.limbs| then ShorterIsSmaller(limbs, other.limbs); Less
      else if |limbs| > |other.limbs| then ShorterIsSmaller(other.limbs, limbs); Greater
      else CompareFromTopOrders(limbs, other.limbs); CompareFromTop(limbs, other.limbs)
    }

    /** Compares the magnitude with 2^bit. */
    function AbsCmpPow2(bit: nat): (o: Ordering)
      requires Trimmed(limbs)
      reads this
      ensures o == Compare(Abs(), Pow2(bit))
    {
      var limb := bit / 64;
      var needed := limb + 1;
      BitWeight(bit);
      WordOne(bit % 64);
      AbsCmpPow2Correct(bit);
      if |limbs| < needed then Less
      else if |limbs| > needed then Greater
      else
        var top := WordShl(1, bit % 64);
        if limbs[limb] != top then Compare(limbs[limb], top)
        else if exists i :: 0 <= i < limb && limbs[i] != 0 then Greater else Equal
    }

    lemma AbsCmpPow2Correct(bit: nat)
      requires Trimmed(limbs)
      ensures |limbs| < bit / 64 + 1 ==> Abs() < Pow2(bit)
      ensures |limbs| > bit / 64 + 1 ==> Abs() > Pow2(bit)
      ensures |limbs| == bit / 64 + 1 ==>
        Compare(Abs(), Pow2(bit)) ==
          if limbs[bit / 64] != Pow2(bit % 64) then Compare(limbs[bit / 64], Pow2(bit % 64))
          else if exists i :: 0 <= i < bit / 64 && limbs[i] != 0 then Greater else Equal
    {
      var limb, top, w := bit / 64, Pow2(bit % 64), Base(bit / 64);
      BitWeight(bit);
      WordOne(bit % 64);
      if |limbs| < limb + 1 {
        ValueBound(limbs);
        BaseMonotone(|limbs|, limb);
        MulMonotone(1, top, w);
      } else if |limbs| > limb + 1 {
        ValueTop(limbs);
        BaseMonotone(limb + 1, |limbs| - 1);
        MulStrict(top, B, w);
      } else if limbs[limb] < top {
        ValueTopBounds(limbs, 0, top);
      } else if limbs[limb] > top {
        ValueTopBounds(limbs, top + 1, B);
        MulStrict(top, top + 1, w);
      } else {
        EqualTop(limb);
      }
    }

    lemma EqualTop(limb: nat)
      requires |limbs| == limb + 1
      ensures Compare(Abs(), limbs[limb] * Base(limb)) ==
              if exists i :: 0 <= i < limb && limbs[i] != 0 then Greater else Equal
    {
      var low := limbs[..limb];
      ValueTake(limbs, limb);
      assert limbs[..limb + 1] == limbs;
      if exists i :: 0 <= i < limb && limbs[i] != 0 {
        var i :| 0 <= i < limb && limbs[i] != 0;
        ValueNonZero(low, i);
      } else {
        ValueZeros(low);
      }
    }

    /** Bit length of the magnitude. */
    function SignificantBits(): (n: nat)
      requires Trimmed(limbs)
      reads this
      ensures Abs() < Pow2(n)
      ensures n > 0 ==> Pow2(n - 1) <= Abs()
      ensures n == 0 <==> Abs() == 0
    {
      if limbs == [] then 0
      else
        var last := limbs[|limbs| - 1];
        SignificantBitsCorrect();
        (|limbs| - 1) * 64 + (64 - LeadingZeros(last))
    }

    lemma SignificantBitsCorrect()
      requires limbs != [] && Trimmed(limbs)
      ensures var n := (|limbs| - 1) * 64 + (64 - LeadingZeros(limbs[|limbs| - 1]));
              0 < n && Pow2(n - 1) <= Abs() < Pow2(n)
    {
      var i := |limbs| - 1;
      var last := limbs[i];
      var b := BitLength(last);
      BitLengthWord(last);
      ValueTopBounds(limbs, Pow2(b - 1), Pow2(b));
      LimbsAndBits(i, b);
      LimbsAndBits(i, b - 1);
    }

    predicate FitsUnsignedBits(bits: nat)
      requires Valid()
      reads this
      ensures FitsUnsignedBits(bits) <==> 0 <= Val() < Pow2(bits)
    {
      ZeroIsZero();
      BitCountFits(Abs(), SignificantBits(), bits);
      !negative && SignificantBits() <= bits
    }

    predicate FitsSignedBits(bits: nat)
      requires Valid() && bits > 0
      reads this
      ensures FitsSignedBits(bits) <==> -Pow2(bits - 1) <= Val() < Pow2(bits - 1)
    {
      BitCountFits(Abs(), SignificantBits(), bits - 1);
      if negative then AbsCmpPow2(bits - 1) != Greater else SignificantBits() < bits
    }

    /** Equality of the two fields, which on canonical values is equality of the numbers. */
    predicate Eq(other: Anyint)
      requires Valid() && other.Valid()
      reads this, other
      ensures Eq(other) <==> Val() == other.Val()
    {
      StructuralEquality(negative, limbs, other.negative, other.limbs);
      negative == other.negative && limbs == other.limbs
    }

    function Cmp(other: Anyint): (o: Ordering)
      requires Valid() && other.Valid()
      reads this, other
      ensures o == Compare(Val(), other.Val())
    {
      ZeroIsZero();
      other.ZeroIsZero();
      match (negative, other.negative)
      case (true, false) => Less
      case (false, true) => Greater
      case (false, false) => AbsCmp(other)
      case (true, true) => other.AbsCmp(this)
    }

    // -------------------------------------------------------------------------------------------
    // In-place updates
    // -------------------------------------------------------------------------------------------

    method AddSmallAssign(rhs: u64)
      modifies this
      ensures Abs() == old(Abs()) + rhs && negative == old(negative)
      ensures old(Trimmed(limbs)) ==> Trimmed(limbs)
    {
      hide AddedTo, Value;
      if rhs == 0 {
        return;
      }
      var carry: u128 := rhs;
      var i: nat := 0;
      ghost var total := Abs() + rhs;
      AddedStart(limbs, rhs);
      while carry != 0
        invariant i <= |limbs| && carry < B && negative == old(negative) && AddedTo(limbs, i, total, carry)
        invariant old(Trimmed(limbs)) && (i < |limbs| || carry == 0) ==> Trimmed(limbs)
        decreases |limbs| - i, carry
      {
        if i == |limbs| {
          AddedLimb(limbs, total, carry);
          limbs := limbs + [0];
        }
        var sum: u128 := limbs[i] + carry;
        AddedWord(limbs, i, total, sum);
        limbs := limbs[i := sum % B];
        carry := sum / B;
        i := i + 1;
      }
      AddedTotal(limbs, i, total);
    }

    /** The limbs below i are those of the total; the ones above still await the carry. */
    static ghost predicate AddedTo(l: seq<u64>, i: nat, total: int, carry: int) {
      i <= |l| && l[..i] == Words(total, i) && Rest(total, i) == Suffix(l, i) + carry
    }

    static lemma AddedStart(l: seq<u64>, rhs: u64)
      ensures AddedTo(l, 0, Value(l) + rhs, rhs)
    {
      SuffixStep(l, 0);
    }

    static lemma AddedLimb(l: seq<u64>, total: int, carry: int)
      requires AddedTo(l, |l|, total, carry)
      ensures AddedTo(l + [0], |l|, total, carry)
    {
      SuffixStep(l, |l|);
      ValueOne(0);
      assert (l + [0])[|l|..] == [0] && (l + [0])[..|l|] == l[..|l|];
    }

    static lemma AddedWord(l: seq<u64>, i: nat, total: int, sum: int)
      requires i < |l| && AddedTo(l, i, total, sum - l[i])
      ensures AddedTo(l[i := sum % B], i + 1, total, sum / B)
    {
      SuffixStep(l, i);
      InPlaceWord(l, i, total, sum, Suffix(l, i + 1));
    }

    static lemma AddedTotal(l: seq<u64>, i: nat, total: int)
      requires AddedTo(l, i, total, 0)
      ensures Value(l) == total
    {
      SuffixStep(l, i);
      assert l[0..] == l && l[0..i] == l[..i];
      RowTotal(l, 0, i, total);
    }

    method MulSmallAssign(rhs: u64)
      modifies this
      ensures Abs() == old(Abs()) * rhs
      ensures negative == (old(negative) && rhs != 0 && old(limbs) != [])
      ensures old(Trimmed(limbs)) ==> Trimmed(limbs)
    {
      if rhs == 0 || IsZero() {
        negative, limbs := false, [];
        return;
      }
      hide ScaledTo, Value;
      ghost var was := limbs;
      ghost var total := Value(was) * rhs;
      var carry: u128 := 0;
      ScaledStart(was, rhs);
      for i := 0 to |limbs|
        invariant |limbs| == |was| && negative == old(negative) && carry < B
        invariant ScaledTo(limbs, was, i, total, rhs, carry)
        invariant i > 0 && was[i - 1] != 0 && carry == 0 ==> limbs[i - 1] != 0
      {
        RowSum(0, limbs[i], rhs, carry);
        var prod: u128 := limbs[i] * rhs + carry;
        ScaledLimb(limbs, was, i, total, rhs, carry, prod);
        limbs := limbs[i := prod % B];
        carry := prod / B;
      }
      ScaledTotal(limbs, was, total, rhs, carry);
      if carry != 0 {
        ValueSnoc(limbs, carry);
        limbs := limbs + [carry];
      }
    }

    /** The limbs below i are those of the total; the ones above are still the old ones. */
    static ghost predicate ScaledTo(l: seq<u64>, was: seq<u64>, i: nat, total: int, rhs: u64, carry: int) {
      && i <= |l| == |was| && (forall k :: i <= k < |was| ==> l[k] == was[k])
      && l[..i] == Words(total, i) && Rest(total, i) == Suffix(was, i) * rhs + carry
    }

    static lemma ScaledStart(was: seq<u64>, rhs: u64)
      ensures ScaledTo(was, was, 0, Value(was) * rhs, rhs, 0)
    {
      SuffixStep(was, 0);
    }

    static lemma ScaledLimb(l: seq<u64>, was: seq<u64>, i: nat, total: int, rhs: u64, carry: int, prod: int)
      requires i < |l| && rhs > 0 && 0 <= carry < B && prod == l[i] * rhs + carry
      requires ScaledTo(l, was, i, total, rhs, carry)
      ensures ScaledTo(l[i := prod % B], was, i + 1, total, rhs, prod / B)
      ensures 0 <= prod / B < B && (was[i] != 0 && prod / B == 0 ==> prod % B != 0)
    {
      ScaledBound(l[i], rhs, carry, prod);
      SuffixStep(was, i);
      ScaledWord(Suffix(was, i), was[i], Suffix(was, i + 1), rhs);
      InPlaceWord(l, i, total, prod, Suffix(was, i + 1) * rhs);
    }

    static lemma ScaledBound(x: u64, rhs: u64, carry: int, prod: int)
      requires rhs > 0 && 0 <= carry < B && prod == x * rhs + carry
      ensures 0 <= prod / B < B && (x != 0 ==> prod > 0)
    {
      RowSum(0, x, rhs, carry);
      if x != 0 { MulLower(rhs, x); }
    }

    static lemma ScaledTotal(l: seq<u64>, was: seq<u64>, total: int, rhs: u64, carry: int)
      requires |l| == |was| && ScaledTo(l, was, |was|, total, rhs, carry)
      ensures total == Value(l) + carry * Base(|l|)
    {
      NothingLeft(was, rhs);
      LastCarry(total, |was|, carry);
      assert l[..|l|] == l;
    }

    static lemma InPlaceWord(l: seq<u64>, i: nat, total: int, low: int, high: int)
      requires i < |l| && l[..i] == Words(total, i) && Rest(total, i) == low + B * high
      ensures l[i := low % B][..i + 1] == Words(total, i + 1) && Rest(total, i + 1) == low / B + high
      ensures Suffix(l[i := low % B], i + 1) == Suffix(l, i + 1)
    {
      Emit(total, i, low, high);
      var m := l[i := low % B];
      assert m[..i + 1] == l[..i] + [low % B];
      assert i + 1 < |l| ==> m[i + 1..] == l[i + 1..];
    }

    method DivRemSmall(rhs: u64) returns (q: Anyint, r: u64)
      requires rhs != 0
      ensures fresh(q) && q.Valid() && !q.negative
      ensures Abs() == q.Abs() * rhs + r && r < rhs
    {
      var out;
      out, r := DivRemWord(limbs, rhs);
      q := new Anyint(false, out);
      q.Normalize();
    }

    method SetBit(bit: nat)
      modifies this
      ensures Abs() == old(Abs()) + (if Bit(old(Abs()), bit) == 0 then Pow2(bit) else 0)
      ensures negative == old(negative)
      ensures old(Trimmed(limbs)) ==> Trimmed(limbs)
    {
      var limb := bit / 64;
      if |limbs| <= limb {
        ValueAppendZeros(limbs, limb + 1 - |limbs|);
        limbs := limbs + Zeros(limb + 1 - |limbs|);
      }
      OrBitWord(limbs, bit);
      limbs := OrAt(limbs, limb, WordShl(1, bit % 64));
    }

    static lemma OrBitWord(l: seq<u64>, bit: nat)
      requires bit / 64 < |l|
      ensures var m := OrAt(l, bit / 64, WordShl(1, bit % 64));
              m[bit / 64] != 0 && Value(m) == Value(l) + (if Bit(Value(l), bit) == 0 then Pow2(bit) else 0)
    {
      var i, k := bit / 64, bit % 64;
      WordOne(k);
      ValueBit(l, bit);
      BitWeight(bit);
      OrBit(l[i], k);
      var w := Or.Word64(l[i], WordShl(1, k));
      ValueUpdate(l, i, w);
      AddedWeight(w - l[i], if Bit(l[i], k) == 0 then Pow2(k) else 0, Base(i));
    }

    static lemma OrBit(x: u64, k: nat)
      requires k < 64
      ensures Or.Word64(x, WordShl(1, k)) == (if Bit(x, k) == 0 then x + Pow2(k) else x) != 0
    {
      WordOne(k);
      Pow2Word();
      OrSetBit(x, k, 64);
      if x == 0 { BitSign(0, 0, k); }
    }

    static lemma AddedWeight(d: int, p: int, w: int)
      requires d == p
      ensures d * w == p * w
    {}

    // -------------------------------------------------------------------------------------------
    // Shifts of the magnitude
    // -------------------------------------------------------------------------------------------

    /** Shifts the magnitude left and keeps the sign: multiplication by 2^shift. */
    method AbsShl(shift: nat) returns (res: Anyint)
      requires Valid()
      ensures fresh(res) && res.Valid() && res.negative == negative
      ensures res.Val() == Val() * Pow2(shift) && res.Abs() == Abs() * Pow2(shift)
    {
      if IsZero() {
        res := new Anyint.Zero();
        return;
      }
      var out := ShlLimbs(limbs, shift);
      ValueTop(limbs);
      MulLower(Pow2(shift), Value(limbs));
      NegatedProduct(Value(limbs), Pow2(shift), Value(out));
      res := new Anyint(negative, out);
      res.Normalize();
    }

    static lemma NegatedProduct(v: int, p: int, w: int)
      requires w == v * p
      ensures -w == -v * p
    {}

    /** Shifts the magnitude right: floor division of the magnitude by 2^shift. */
    method AbsShr(shift: nat) returns (res: Anyint)
      requires Valid()
      ensures fresh(res) && res.Valid() && !res.negative
      ensures res.Abs() == Shifted(Abs(), shift)
    {
      if shift / 64 >= |limbs| {
        ShiftedOut(limbs, shift);
        res := new Anyint.Zero();
        return;
      }
      var out := ShrLimbs(limbs, shift);
      res := new Anyint(false, out);
      res.Normalize();
    }

    static lemma ShiftedOut(l: seq<u64>, shift: nat)
      requires |l| <= shift / 64
      ensures Shifted(Value(l), shift) == 0
    {
      ValueBound(l);
      BasePow2(|l|);
      Pow2Monotone(64 * |l|, shift);
      ShiftedPast(Value(l), shift);
    }

    // -------------------------------------------------------------------------------------------
    // Arithmetic operators
    // -------------------------------------------------------------------------------------------

    method Neg() returns (res: Anyint)
      requires Valid()
      ensures fresh(res) && res.Valid() && res.Val() == -Val() && res.Abs() == Abs()
      ensures res.negative == (limbs != [] && !negative)
    {
      res := Clone();
      if !res.IsZero() {
        res.negative := !res.negative;
      }
    }

    method Add(rhs: Anyint) returns (res: Anyint)
      requires Valid() && rhs.Valid()
      ensures fresh(res) && res.Valid() && res.Val() == Val() + rhs.Val()
    {
      if negative == rhs.negative {
        var sum := AddAbs(limbs, rhs.limbs);
        res := new Anyint(negative, sum);
      } else {
        match AbsCmp(rhs)
        case Greater | Equal =>
          NotShorter(limbs, rhs.limbs);
          var diff := SubAbs(limbs, rhs.limbs);
          res := new Anyint(negative, diff);
        case Less =>
          NotShorter(rhs.limbs, limbs);
          var diff := SubAbs(rhs.limbs, limbs);
          res := new Anyint(rhs.negative, diff);
      }
      res.Normalize();
    }

    static lemma NotShorter(l: seq<u64>, m: seq<u64>)
      requires Trimmed(m) && Value(m) <= Value(l)
      ensures |m| <= |l|
    {
      if |l| < |m| { ShorterIsSmaller(l, m); }
    }

    method Sub(rhs: Anyint) returns (res: Anyint)
      requires Valid() && rhs.Valid()
      ensures fresh(res) && res.Valid() && res.Val() == Val() - rhs.Val()
    {
      var minus := rhs.Neg();
      res := Add(minus);
    }

    method Mul(rhs: Anyint) returns (res: Anyint)
      requires Valid() && rhs.Valid()
      ensures fresh(res) && res.Valid() && res.Val() == Val() * rhs.Val()
    {
      if IsZero() || rhs.IsZero() {
        res := new Anyint.Zero();
        return;
      }
      var out := MulLimbs(limbs, rhs.limbs);
      SignRules(Abs(), rhs.Abs());
      res := new Anyint(negative != rhs.negative, out);
      res.Normalize();
    }

    static method DivRemAbs(lhs: Anyint, rhs: Anyint) returns (quotient: Anyint, remainder: Anyint)
      requires lhs.Valid() && rhs.Valid() && !lhs.negative && !rhs.negative && !rhs.IsZero()
      ensures fresh(quotient) && fresh(remainder) && quotient != remainder
      ensures quotient.Valid() && remainder.Valid() && !quotient.negative && !remainder.negative
      ensures lhs.Abs() == quotient.Abs() * rhs.Abs() + remainder.Abs()
      ensures remainder.Abs() < rhs.Abs()
    {
      rhs.ZeroIsZero();
      if lhs.AbsCmp(rhs) == Less {
        quotient := new Anyint.Zero();
        remainder := lhs.Clone();
        return;
      }
      if |rhs.limbs| == 1 {
        var r;
        quotient, r := lhs.DivRemSmall(rhs.limbs[0]);
        remainder := new Anyint.FromU64(r);
        ValueOne(rhs.limbs[0]);
        assert rhs.limbs == [rhs.limbs[0]];
        return;
      }
      quotient := new Anyint.Zero();
      remainder := new Anyint.Zero();
      var bit: nat := lhs.SignificantBits();
      LongDivisionStart(lhs.Abs(), rhs.Abs(), bit);
      while bit > 0
        invariant fresh(quotient) && fresh(remainder) && quotient != remainder
        invariant quotient.Valid() && remainder.Valid() && !quotient.negative && !remainder.negative
        invariant bit <= lhs.SignificantBits()
        invariant LongDivision(lhs.Abs(), rhs.Abs(), bit, quotient.Abs(), remainder.Abs())
      {
        bit := bit - 1;
        remainder := DivideBit(lhs, rhs, bit, quotient, remainder);
      }
      LongDivisionEnd(lhs.Abs(), rhs.Abs(), quotient.Abs(), remainder.Abs());
    }

    /** One iteration of the long-division loop. */
    static method DivideBit(lhs: Anyint, rhs: Anyint, bit: nat, quotient: Anyint, remainder: Anyint)
      returns (next: Anyint)
      requires lhs.Valid() && rhs.Valid() && !rhs.negative && bit < lhs.SignificantBits()
      requires quotient.Valid() && remainder.Valid() && !quotient.negative && !remainder.negative
      requires quotient != lhs && quotient != rhs && quotient != remainder
      requires LongDivision(lhs.Abs(), rhs.Abs(), bit + 1, quotient.Abs(), remainder.Abs())
      modifies quotient
      ensures fresh(next) && next.Valid() && !next.negative && quotient.Valid() && !quotient.negative
      ensures LongDivision(lhs.Abs(), rhs.Abs(), bit, quotient.Abs(), next.Abs())
    {
      hide LongDivision, Pow2, Value, Shifted;
      TestedBit(lhs, bit);
      next := remainder.AbsShl(1);
      Doubled(remainder.Abs(), next.Abs());
      if Bit(lhs.limbs[bit / 64], bit % 64) != 0 {
        next.AddSmallAssign(1);
      }
      if next.AbsCmp(rhs) != Less {
        next := next.Sub(rhs);
        next.SignOfVal();
        quotient.SetBit(bit);
      }
      LongDivisionStep(lhs.Abs(), rhs.Abs(), bit, old(quotient.Abs()), remainder.Abs(), quotient.Abs(), next.Abs());
    }

    static lemma Doubled(r: int, x: int)
      requires x == r * Pow2(1)
      ensures x == 2 * r
    {
      assert Pow2(1) == 2;
    }

    /** The bits of v from `bit` up have been divided by d; the quotient has no bits below `bit` yet. */
    static ghost predicate LongDivision(v: int, d: int, bit: nat, quotient: int, remainder: int) {
      var q := Shifted(quotient, bit);
      quotient == q * Pow2(bit) && Shifted(v, bit) == q * d + remainder && 0 <= remainder < d
    }

    static lemma LongDivisionStart(v: int, d: int, bits: nat)
      requires 0 <= v < Pow2(bits) && d > 0
      ensures LongDivision(v, d, bits, 0, 0)
    {
      ShiftedPast(v, bits);
      ShiftedZero(bits);
    }

    static lemma LongDivisionEnd(v: int, d: int, quotient: int, remainder: int)
      requires LongDivision(v, d, 0, quotient, remainder)
      ensures v == quotient * d + remainder
    {}

    static lemma LongDivisionStep(
        v: int, d: int, bit: nat, quotient: int, remainder: int, quotient': int, remainder': int)
      requires LongDivision(v, d, bit + 1, quotient, remainder)
      requires var r := 2 * remainder + Bit(v, bit);
               if r < d then quotient' == quotient && remainder' == r
               else quotient' == quotient + (if Bit(quotient, bit) == 0 then Pow2(bit) else 0) && remainder' == r - d
      ensures LongDivision(v, d, bit, quotient', remainder')
    {
      var q := Shifted(quotient, bit + 1);
      var b: bit := if 2 * remainder + Bit(v, bit) < d then 0 else 1;
      PrefixStep(v, bit);
      QuotientBit(q, bit, quotient, b);
      LongDivisionArith(q, d, remainder, Shifted(v, bit + 1));
    }

    static lemma LongDivisionArith(q: int, d: int, r: int, prefix: int)
      requires prefix == q * d + r
      ensures 2 * prefix == 2 * q * d + 2 * r && (2 * q + 1) * d == 2 * q * d + d
    {}

    /** Deciding bit `bit` of a quotient that has no bits below bit + 1. */
    static lemma QuotientBit(q: int, bit: nat, quotient: int, b: bit)
      requires quotient == q * Pow2(bit + 1)
      ensures Bit(quotient, bit) == 0
      ensures quotient + b * Pow2(bit) == (2 * q + b) * Pow2(bit)
      ensures Shifted(quotient + b * Pow2(bit), bit) == 2 * q + b
    {
      BitPeriodic(0, q, bit + 1, bit);
      BitSign(0, 0, bit);
      QuotientArith(q, Pow2(bit), b);
      ShiftedSum(0, 2 * q + b, bit);
      ShiftedZero(bit);
    }

    static lemma QuotientArith(q: int, p: int, b: int)
      ensures q * (2 * p) + b * p == (2 * q + b) * p
    {}

    static lemma TestedBit(x: Anyint, bit: nat)
      requires x.Valid() && bit < x.SignificantBits()
      ensures bit / 64 < |x.limbs|
      ensures Bit(x.limbs[bit / 64], bit % 64) == Bit(x.Abs(), bit)
    {
      ValueBit(x.limbs, bit);
    }

    /** Rust's integer division: truncation toward zero. */
    method Div(rhs: Anyint) returns (q: Anyint)
      requires Valid() && rhs.Valid() && rhs.Val() != 0
      ensures fresh(q) && q.Valid() && q.Val() == TruncDiv(Val(), rhs.Val())
    {
      ZeroIsZero();
      rhs.ZeroIsZero();
      var lhsAbs := Clone();
      lhsAbs.negative := false;
      var rhsAbs := rhs.Clone();
      rhsAbs.negative := false;
      var r;
      q, r := DivRemAbs(lhsAbs, rhsAbs);
      q.ZeroIsZero();
      TruncUnique(negative, Abs(), rhs.negative, rhs.Abs(), q.Abs(), r.Abs());
      q.negative := !q.IsZero() && negative != rhs.negative;
    }

    method Rem(rhs: Anyint) returns (r: Anyint)
      requires Valid() && rhs.Valid() && rhs.Val() != 0
      ensures fresh(r) && r.Valid() && r.Val() == TruncRem(Val(), rhs.Val())
    {
      ZeroIsZero();
      rhs.ZeroIsZero();
      var lhsAbs := Clone();
      lhsAbs.negative := false;
      var rhsAbs := rhs.Clone();
      rhsAbs.negative := false;
      var q;
      q, r := DivRemAbs(lhsAbs, rhsAbs);
      r.ZeroIsZero();
      TruncUnique(negative, Abs(), rhs.negative, rhs.Abs(), q.Abs(), r.Abs());
      r.negative := !r.IsZero() && negative;
    }

    // -------------------------------------------------------------------------------------------
    // Bitwise operators through two's complement
    // -------------------------------------------------------------------------------------------

    /** The len lowest words of the number in two's complement. */
    method TwosComplementLimbs(len: nat) returns (out: seq<u64>)
      ensures out == Words(Val(), len)
    {
      out := Zeros(len);
      var n := if |limbs| < len then |limbs| else len;
      for i := 0 to n
        invariant |out| == len
        invariant forall k :: 0 <= k < len ==> out[k] == if k < i then limbs[k] else 0
      {
        out := out[i := limbs[i]];
      }
      assert out == limbs[..n] + Zeros(len - n);
      LowWords(limbs, n, len);
      if negative {
        ghost var was := out;
        out := NegateWords(out);
        NegatedWords(Abs(), len);
      }
    }

    static lemma {:induction false} WordsOfZero(n: nat)
      ensures Words(0, n) == Zeros(n)
    {
      if n > 0 {
        WordsOfZero(n - 1);
        assert Zeros(n) == [0] + Zeros(n - 1);
      }
    }

    static lemma LowWords(l: seq<u64>, n: nat, len: nat)
      requires n <= |l| && n <= len && (n == |l| || n == len)
      ensures Words(Value(l), len) == l[..n] + Zeros(len - n)
    {
      WordsOfValue(l);
      if n == |l| {
        WordsSplit(Value(l), n, len - n);
        ValueBound(l);
        RestZero(Value(l), n);
        WordsOfZero(len - n);
        assert l[..n] == l;
      } else {
        WordsSplit(Value(l), n, |l| - n);
        assert l[..n] == Words(Value(l), n);
        assert l[..n] + Zeros(0) == l[..n];
      }
    }

    /** Negating the words of v gives the words of -v. */
    static lemma {:induction false} NegatedWords(v: int, len: nat)
      ensures Words(-Value(Words(v, len)), len) == Words(-v, len)
      decreases len
    {
      ValueWords(v, len);
      WordsShift(-v, len, Rest(v, len));
      MulRearrange(1, Base(len), Rest(v, len));
    }

    /** Adding a multiple of the weight above the words does not show in them. */
    static lemma {:induction false} WordsShift(x: int, n: nat, c: int)
      ensures Words(x + Base(n) * c, n) == Words(x, n)
      decreases n
    {
      if n > 0 {
        var t := Base(n - 1) * c;
        MulRearrange(B, Base(n - 1), c);
        Peel(x, t);
        WordsShift(x / B, n - 1, c);
      }
    }

    static method FromTwosComplementLimbs(l: seq<u64>) returns (res: Anyint)
      ensures fresh(res) && res.Valid() && res.Val() == SignedValue(l)
    {
      var neg := l != [] && WordShr(l[|l| - 1], 63) != 0;
      var words := l;
      if neg {
        words := NegateWords(l);
        SignBit(l);
        ValueBound(l);
        WordsPeriodic(Base(|l|) - Value(l), |l|);
        WordsFit(Base(|l|) - Value(l), |l|);
      }
      res := new Anyint(neg, words);
      res.Normalize();
    }

    lemma InWindow(bits: nat, l: seq<u64>)
      requires Valid() && SignificantBits() + 2 <= bits <= 64 * |l| && l != []
      requires l == Words(Val(), |l|)
      ensures Window(Val(), l)
    {
      WindowFits(Val(), SignificantBits(), bits, l);
    }

    static lemma WindowFits(x: int, n: nat, bits: nat, l: seq<u64>)
      requires -Pow2(n) < x < Pow2(n) && n + 2 <= bits <= 64 * |l| && l != [] && l == Words(x, |l|)
      ensures Window(x, l)
    {
      hide Words, Pow2;
      Pow2Monotone(n, 64 * |l| - 1);
    }

    /**
     * The bits name one number: only z has the bits of the operator applied to x and y, where bit k is the parity of
     * the floor of the number over 2^k.
     */
    static lemma BitwiseUnique(op: BitOp, x: int, y: int, z: int, other: int)
      requires forall k: nat :: Bit(z, k) == op.Apply(Bit(x, k), Bit(y, k))
      requires forall k: nat :: other / Pow2(k) % 2 == op.Apply(Bit(x, k), Bit(y, k))
      ensures other == z
    {
      forall k: nat ensures Bit(other, k) == Bit(z, k) {
        BitFormula(other, k);
        assert other / Pow2(k) % 2 == op.Apply(Bit(x, k), Bit(y, k));
      }
      BitsDetermineNumber(other, z);
    }

    static method Bitwise(lhs: Anyint, rhs: Anyint, op: BitOp) returns (res: Anyint)
      requires lhs.Valid() && rhs.Valid()
      ensures fresh(res) && res.Valid()
      ensures forall k: nat :: Bit(res.Val(), k) == op.Apply(Bit(lhs.Val(), k), Bit(rhs.Val(), k))
    {
      var sl, sr := lhs.SignificantBits(), rhs.SignificantBits();
      var bits := (if sl > sr then sl else sr) + 2;
      var words := (bits + 63) / 64;
      var len: nat := if words > 1 then words else 1;
      var l := lhs.TwosComplementLimbs(len);
      lhs.InWindow(bits, l);
      var r := rhs.TwosComplementLimbs(len);
      rhs.InWindow(bits, r);
      var out := ZipWords(op, l, r);
      res := FromTwosComplementLimbs(out);
      BitwiseBits(op, lhs.Val(), rhs.Val(), l, r, out);
    }

    method BitAnd(rhs: Anyint) returns (res: Anyint)
      requires Valid() && rhs.Valid()
      ensures fresh(res) && res.Valid()
      ensures forall k: nat :: Bit(res.Val(), k) == if Bit(Val(), k) == 1 && Bit(rhs.Val(), k) == 1 then 1 else 0
    {
      res := Bitwise(this, rhs, And);
    }

    method BitOr(rhs: Anyint) returns (res: Anyint)
      requires Valid() && rhs.Valid()
      ensures fresh(res) && res.Valid()
      ensures forall k: nat :: Bit(res.Val(), k) == if Bit(Val(), k) == 1 || Bit(rhs.Val(), k) == 1 then 1 else 0
    {
      res := Bitwise(this, rhs, Or);
    }

    method BitXor(rhs: Anyint) returns (res: Anyint)
      requires Valid() && rhs.Valid()
      ensures fresh(res) && res.Valid()
      ensures forall k: nat :: Bit(res.Val(), k) == if Bit(Val(), k) != Bit(rhs.Val(), k) then 1 else 0
    {
      res := Bitwise(this, rhs, Xor);
    }

    /** Flips every bit of the infinite two's-complement representation. */
    method Not() returns (res: Anyint)
      requires Valid()
      ensures fresh(res) && res.Valid() && res.Val() == -Val() - 1
      ensures forall k: nat :: Bit(res.Val(), k) == 1 - Bit(Val(), k)
    {
      var one := new Anyint.FromU64(1);
      var next := Add(one);
      res := next.Neg();
      ghost var x := Val();
      forall k: nat ensures Bit(res.Val(), k) == 1 - Bit(x, k) {
        FlippedBit(x, k);
      }
    }

    static lemma {:induction false} FlippedBit(x: int, k: nat)
      ensures Bit(-x - 1, k) == 1 - Bit(x, k)
      decreases k
    {
      if k > 0 {
        assert (-x - 1) / 2 == -(x / 2) - 1;
        FlippedBit(x / 2, k - 1);
      }
    }

    // -------------------------------------------------------------------------------------------
    // Shifts
    // -------------------------------------------------------------------------------------------

    method Shl(rhs: nat) returns (res: Anyint)
      requires Valid()
      ensures fresh(res) && res.Valid() && res.Val() == Val() * Pow2(rhs)
    {
      res := AbsShl(rhs);
    }

    /** Arithmetic right shift: division by 2^rhs rounded toward negative infinity. */
    method Shr(rhs: nat) returns (res: Anyint)
      requires Valid()
      ensures fresh(res) && res.Valid() && res.Val() == Val() / Pow2(rhs)
      decreases negative
    {
      if !negative {
        res := AbsShr(rhs);
        ShiftedFormula(Abs(), rhs);
        return;
      }
      ZeroIsZero();
      var abs := Neg();
      if rhs > 0 {
        var one := new Anyint.FromU64(1);
        var power := one.Shl(rhs);
        var mask := power.Sub(one);
        abs := abs.Add(mask);
      }
      FloorOfNegative(Abs(), Pow2(rhs));
      assert abs.Val() == Abs() + Pow2(rhs) - 1 by { assert Pow2(0) == 1; }
      abs.SignOfVal();
      var shifted := abs.Shr(rhs);
      res := shifted.Neg();
    }

    static lemma FloorOfNegative(a: int, p: int)
      requires p > 0
      ensures (-a) / p == -((a + p - 1) / p)
    {
      var q, r := (a + p - 1) / p, (a + p - 1) % p;
      assert a + p - 1 == p * q + r;
      assert p * (-q) == -(p * q);
      DivModUnique(-a, p, -q, p - 1 - r);
    }

    // -------------------------------------------------------------------------------------------
    // Text
    // -------------------------------------------------------------------------------------------

    method Display() returns (text: string)
      requires Valid()
      ensures text == (if Val() < 0 then "-" + Numerals(-Val()) else Numerals(Val()))
    {
      hide Value, Numerals, Above, Reversed;
      ZeroIsZero();
      if IsZero() {
        OneDigit(0);
        return "0";
      }
      var n := Clone();
      n.negative := false;
      var digits: seq<char> := [];
      PrintStart(n.Abs());
      while !n.IsZero()
        invariant fresh(n) && n.Valid() && !n.negative
        invariant Above(n.Abs(), digits) == Numerals(Abs())
        decreases n.Abs()
      {
        n.ZeroIsZero();
        var q, r := n.DivRemSmall(10);
        PrintStep(n.Abs(), q.Abs(), r, digits);
        digits := digits + [DigitChar(r)];
        n := q;
      }
      n.ZeroIsZero();
      PrintEnd(digits);
      text := WriteReversed(if negative then "-" else "", digits);
    }

    static method WriteReversed(sign: string, digits: seq<char>) returns (text: string)
      ensures text == sign + Reversed(digits)
    {
      text := sign;
      var j := |digits|;
      while j > 0
        invariant 0 <= j <= |digits|
        invariant text == sign + Reversed(digits[j..])
      {
        j := j - 1;
        assert digits[j..][1..] == digits[j + 1..];
        text := text + [digits[j]];
      }
      assert digits[0..] == digits;
    }

    /** None (null here) on the first character that is neither an underscore nor a digit of the radix. */
    static method ParseRadix(radix: nat, digits: string) returns (res: Anyint?)
      requires 2 <= radix <= 36
      ensures res != null <==> AllDigits(radix, digits)
      ensures res != null ==> fresh(res) && res.Valid() && res.Val() == Positional(radix, digits)
    {
      var acc := new Anyint.Zero();
      assert digits[..0] == "";
      for i := 0 to |digits|
        invariant fresh(acc) && acc.Valid() && !acc.negative
        invariant AllDigits(radix, digits[..i]) && acc.Abs() == Positional(radix, digits[..i])
      {
        PositionalStep(radix, digits, i);
        if digits[i] == '_' {
          continue;
        }
        match DigitOf(digits[i])
        case None => return null;
        case Some(digit) =>
          if digit >= radix {
            return null;
          }
          acc.MulSmallAssign(radix);
          acc.AddSmallAssign(digit);
      }
      assert digits[..|digits|] == digits;
      res := acc;
    }
  }
}
