/** 64-bit limbs: their positional value, bitwise operators on words, and the facts every limb loop uses. */
module Limbs {
  import opened Power

  const B: int := 0x1_0000_0000_0000_0000

  type u64 = x: int | 0 <= x < 0x1_0000_0000_0000_0000
  /** Every 128-bit intermediate of the limb loops is declared with this type, so it provably never overflows. */
  type u128 = x: int | 0 <= x < 0x1_0000_0000_0000_0000_0000_0000_0000_0000

  function Base(i: nat): (b: int)
    ensures b > 0
  {
    if i == 0 then 1 else B * Base(i - 1)
  }

  /** Value of little-endian limbs. */
  function Value(l: seq<u64>): (v: int)
    ensures v >= 0
  {
    if l == [] then 0 else l[0] + B * Value(l[1..])
  }

  /** No zero limb on top. */
  predicate Trimmed(l: seq<u64>) {
    l == [] || l[|l| - 1] != 0
  }

  lemma {:induction false} BaseAdd(m: nat, n: nat)
    ensures Base(m + n) == Base(m) * Base(n)
  {
    if m > 0 {
      BaseAdd(m - 1, n);
    }
  }

  lemma Pow2Word()
    ensures Pow2(64) == B
  {
    Pow2Add(4, 4);
    Pow2Add(8, 8);
    Pow2Add(16, 16);
    Pow2Add(32, 32);
  }

  lemma {:induction false} BasePow2(i: nat)
    ensures Base(i) == Pow2(64 * i)
  {
    if i > 0 {
      BasePow2(i - 1);
      Pow2Add(64, 64 * (i - 1));
      Pow2Word();
    }
  }

  lemma {:induction false} ValueSplit(l: seq<u64>, i: nat)
    requires i <= |l|
    ensures Value(l) == Value(l[..i]) + Base(i) * Value(l[i..])
  {
    if i == 0 {
      assert l[0..] == l;
    } else {
      ValueSplit(l[1..], i - 1);
      assert l[..i][1..] == l[1..][..i - 1];
      assert l[1..][i - 1..] == l[i..];
      MulRearrange(B, Base(i - 1), Value(l[i..]));
    }
  }

  lemma ValueOne(x: u64)
    ensures Value([x]) == x
  {
    assert [x][1..] == [];
  }

  lemma {:induction false} ValueSnoc(l: seq<u64>, x: u64)
    ensures Value(l + [x]) == Value(l) + x * Base(|l|)
  {
    if l == [] {
      ValueOne(x);
      assert l + [x] == [x];
    } else {
      assert (l + [x])[1..] == l[1..] + [x];
      ValueSnoc(l[1..], x);
      MulRearrange(B, x, Base(|l| - 1));
    }
  }

  lemma ValueTake(l: seq<u64>, i: nat)
    requires i < |l|
    ensures Value(l[..i + 1]) == Value(l[..i]) + l[i] * Base(i)
  {
    assert l[..i + 1] == l[..i] + [l[i]];
    ValueSnoc(l[..i], l[i]);
  }

  lemma ValueDrop(l: seq<u64>, i: nat)
    requires i < |l|
    ensures Value(l[i..]) == l[i] + B * Value(l[i + 1..])
  {
    assert l[i..][1..] == l[i + 1..];
  }

  /** Writing one limb changes the value by exactly the difference at that position. */
  lemma ValueUpdate(l: seq<u64>, i: nat, x: u64)
    requires i < |l|
    ensures Value(l[i := x]) == Value(l) + (x - l[i]) * Base(i)
  {
    var m := l[i := x];
    ValueSplit(l, i);
    ValueSplit(m, i);
    assert m[..i] == l[..i];
    ValueDrop(l, i);
    ValueDrop(m, i);
    assert m[i + 1..] == l[i + 1..];
    var t := Value(l[i + 1..]);
    assert Base(i) * (x + B * t) - Base(i) * (l[i] + B * t) == (x - l[i]) * Base(i);
  }

  lemma {:induction false} ValueBound(l: seq<u64>)
    ensures Value(l) < Base(|l|)
  {
    if l != [] {
      ValueBound(l[1..]);
    }
  }

  lemma {:induction false} ValueZeros(l: seq<u64>)
    requires forall i :: 0 <= i < |l| ==> l[i] == 0
    ensures Value(l) == 0
  {
    if l != [] {
      ValueZeros(l[1..]);
    }
  }

  lemma {:induction false} ValueNonZero(l: seq<u64>, i: nat)
    requires i < |l| && l[i] != 0
    ensures Value(l) > 0
  {
    if i > 0 {
      ValueNonZero(l[1..], i - 1);
    }
  }

  lemma ValueTopSplit(l: seq<u64>)
    requires l != []
    ensures var i := |l| - 1; Value(l) == Value(l[..i]) + l[i] * Base(i) && Value(l[..i]) < Base(i)
  {
    ValueTake(l, |l| - 1);
    assert l[..|l| - 1 + 1] == l;
    ValueBound(l[..|l| - 1]);
  }

  /** Bounds on the top limb are bounds on the value. */
  lemma ValueTopBounds(l: seq<u64>, lo: int, hi: int)
    requires l != [] && 0 <= lo <= l[|l| - 1] < hi
    ensures lo * Base(|l| - 1) <= Value(l) < hi * Base(|l| - 1)
  {
    ValueTopSplit(l);
    TopBounds(Value(l[..|l| - 1]), l[|l| - 1], Base(|l| - 1), lo, hi);
  }

  lemma TopBounds(low: nat, top: int, w: int, lo: int, hi: int)
    requires low < w && lo <= top < hi
    ensures lo * w <= low + top * w < hi * w
  {
    MulMonotone(lo, top, w);
    MulMonotone(top + 1, hi, w);
    assert (top + 1) * w == top * w + w;
  }

  /** A limb list whose top limb is non-zero is at least the weight of that limb. */
  lemma ValueTop(l: seq<u64>)
    requires l != [] && Trimmed(l)
    ensures 1 <= Base(|l| - 1) <= Value(l)
  {
    ValueTopBounds(l, 1, B);
  }

  lemma {:induction false} BaseMonotone(m: nat, n: nat)
    requires m <= n
    ensures Base(m) <= Base(n)
  {
    if m < n {
      BaseMonotone(m, n - 1);
    }
  }

  /** Fewer limbs, smaller value, provided the longer list has no zero limb on top. */
  lemma ShorterIsSmaller(l: seq<u64>, m: seq<u64>)
    requires |l| < |m| && Trimmed(m)
    ensures Value(l) < Value(m)
  {
    ValueBound(l);
    BaseMonotone(|l|, |m| - 1);
    ValueTop(m);
  }

  /** On trimmed limbs the representation of a value is unique. */
  lemma {:induction false} TrimmedUnique(l: seq<u64>, m: seq<u64>)
    requires Trimmed(l) && Trimmed(m) && Value(l) == Value(m)
    ensures l == m
  {
    if l == [] || m == [] {
      if l != [] { ValueTop(l); }
      if m != [] { ValueTop(m); }
    } else {
      assert l[0] == m[0] && Value(l[1..]) == Value(m[1..]);
      TrimmedUnique(l[1..], m[1..]);
      assert l == [l[0]] + l[1..] && m == [m[0]] + m[1..];
    }
  }

  // ---------------------------------------------------------------------------------------------
  // The words of an integer
  // ---------------------------------------------------------------------------------------------

  /** The n lowest words of x in infinite two's complement. */
  function Words(x: int, n: nat): (w: seq<u64>)
    ensures |w| == n
    decreases n
  {
    if n == 0 then [] else [x % B] + Words(x / B, n - 1)
  }

  /** What is left of x above its n lowest words. */
  function Rest(x: int, n: nat): int
    decreases n
  {
    if n == 0 then x else Rest(x / B, n - 1)
  }

  lemma {:induction false} WordsSnoc(x: int, n: nat)
    ensures Words(x, n + 1) == Words(x, n) + [Rest(x, n) % B]
    ensures Rest(x, n + 1) == Rest(x, n) / B
    decreases n
  {
    if n > 0 {
      WordsSnoc(x / B, n - 1);
      assert Words(x, n + 1) == [x % B] + (Words(x / B, n - 1) + [Rest(x / B, n - 1) % B]);
    }
  }

  lemma Peel(low: int, high: int)
    ensures (low + B * high) % B == low % B && (low + B * high) / B == low / B + high
  {}

  /** Emitting one word: what was held as low + B * high becomes the word low % B and the rest low / B + high. */
  lemma Emit(x: int, n: nat, low: int, high: int)
    requires Rest(x, n) == low + B * high
    ensures Words(x, n + 1) == Words(x, n) + [low % B]
    ensures Rest(x, n + 1) == low / B + high
  {
    WordsSnoc(x, n);
    Peel(low, high);
  }

  lemma {:induction false} ValueWords(x: int, n: nat)
    ensures x == Value(Words(x, n)) + Base(n) * Rest(x, n)
    decreases n
  {
    if n > 0 {
      ValueWords(x / B, n - 1);
      assert Words(x, n)[1..] == Words(x / B, n - 1);
      MulRearrange(B, Base(n - 1), Rest(x, n));
    }
  }

  lemma {:induction false} RestZero(x: int, n: nat)
    requires 0 <= x < Base(n)
    ensures Rest(x, n) == 0
    decreases n
  {
    if n > 0 {
      RestZero(x / B, n - 1);
    }
  }

  lemma {:induction false} RestBound(x: int, m: nat, n: nat)
    requires 0 <= x < Base(m + n)
    ensures 0 <= Rest(x, m) < Base(n)
    decreases m
  {
    if m > 0 {
      RestBound(x / B, m - 1, n);
    }
  }

  /** A natural number that fits in n words is the value of its words. */
  lemma WordsFit(x: int, n: nat)
    requires 0 <= x < Base(n)
    ensures Value(Words(x, n)) == x
  {
    ValueWords(x, n);
    RestZero(x, n);
  }

  lemma {:induction false} WordsOfValue(l: seq<u64>)
    ensures Words(Value(l), |l|) == l
  {
    if l != [] {
      var v := Value(l);
      assert v % B == l[0] && v / B == Value(l[1..]);
      WordsOfValue(l[1..]);
      assert l == [l[0]] + l[1..];
    }
  }

  lemma {:induction false} WordsPeriodic(x: int, n: nat)
    ensures Words(x - Base(n), n) == Words(x, n)
    decreases n
  {
    if n > 0 {
      WordsPeriodic(x / B, n - 1);
      assert (x - B * Base(n - 1)) / B == x / B - Base(n - 1);
    }
  }

  /** Bit k of x sits in word k / 64. */
  lemma {:induction false} WordsBit(x: int, n: nat, k: nat)
    requires k < 64 * n
    ensures Bit(x, k) == Bit(Words(x, n)[k / 64], k % 64)
    decreases n
  {
    Pow2Word();
    if k < 64 {
      assert x == x % B + (x / B) * B;
      BitPeriodic(x % B, x / B, 64, k);
    } else {
      BitShift(x, 64, k - 64);
      ShiftedFormula(x, 64);
      WordsBit(x / B, n - 1, k - 64);
      assert (k - 64) / 64 == k / 64 - 1 && (k - 64) % 64 == k % 64;
    }
  }

  /** Value of the limbs from i up, zero past the end. */
  function Suffix(l: seq<u64>, i: nat): int {
    if i < |l| then Value(l[i..]) else 0
  }

  function LimbAt(l: seq<u64>, i: nat): u64 {
    if i < |l| then l[i] else 0
  }

  lemma SuffixStep(l: seq<u64>, i: nat)
    ensures Suffix(l, i) == LimbAt(l, i) + B * Suffix(l, i + 1)
    ensures Suffix(l, 0) == Value(l) && Suffix(l, i) >= 0 && Suffix(l, |l|) == 0
  {
    assert l[0..] == l;
    if i < |l| {
      ValueDrop(l, i);
      assert l[|l|..] == [];
    }
  }

  // ---------------------------------------------------------------------------------------------
  // Bitwise operators on words
  // ---------------------------------------------------------------------------------------------

  datatype BitOp = And | Or | Xor {
    function Apply(a: bit, b: bit): bit {
      match this
      case And => if a == 1 && b == 1 then 1 else 0
      case Or => if a == 1 || b == 1 then 1 else 0
      case Xor => if a != b then 1 else 0
    }

    /** The operator on the low n bits of two words. */
    function Word(a: nat, b: nat, n: nat): (w: nat)
      ensures w < Pow2(n)
    {
      if n == 0 then 0 else Apply(a % 2, b % 2) + 2 * Word(a / 2, b / 2, n - 1)
    }

    lemma {:induction false} WordBit(a: nat, b: nat, n: nat, k: nat)
      requires k < n
      ensures Bit(Word(a, b, n), k) == Apply(Bit(a, k), Bit(b, k))
      decreases n
    {
      if k == 0 {
      } else {
        WordBit(a / 2, b / 2, n - 1, k - 1);
        assert Word(a, b, n) / 2 == Word(a / 2, b / 2, n - 1);
      }
    }

    function Word64(a: u64, b: u64): (w: u64) {
      WordFits(a, b);
      Word(a, b, 64)
    }

    lemma WordFits(a: u64, b: u64)
      ensures Word(a, b, 64) < B
    {
      Pow2Word();
    }

    lemma Word64Bit(a: u64, b: u64, k: nat)
      requires k < 64
      ensures Bit(Word64(a, b), k) == Apply(Bit(a, k), Bit(b, k))
    {
      WordBit(a, b, 64, k);
    }
  }

  lemma {:induction false} OrZero(a: nat, n: nat)
    requires a < Pow2(n)
    ensures Or.Word(a, 0, n) == a
    decreases n
  {
    if n > 0 {
      OrZero(a / 2, n - 1);
    }
  }

  /** OR-ing a multiple of 2^s with a number below 2^s is adding them. */
  lemma {:induction false} OrDisjoint(a: nat, c: int, b: nat, s: nat, n: nat)
    requires s <= n && b < Pow2(s) && a == c * Pow2(s) && a < Pow2(n)
    ensures Or.Word(a, b, n) == a + b
    decreases n
  {
    if s == 0 {
      OrZero(a, n);
    } else {
      assert a == 2 * (c * Pow2(s - 1));
      OrDisjoint(a / 2, c, b / 2, s - 1, n - 1);
    }
  }

  lemma {:induction false} OrCommutes(a: nat, b: nat, n: nat)
    ensures Or.Word(a, b, n) == Or.Word(b, a, n)
    decreases n
  {
    if n > 0 {
      OrCommutes(a / 2, b / 2, n - 1);
    }
  }

  /** Setting a bit with OR adds its weight if the bit was clear, and changes nothing otherwise. */
  lemma {:induction false} OrSetBit(a: nat, k: nat, n: nat)
    requires k < n && a < Pow2(n)
    ensures Or.Word(a, Pow2(k), n) == if Bit(a, k) == 0 then a + Pow2(k) else a
    decreases n
  {
    if k == 0 {
      OrZero(a / 2, n - 1);
    } else {
      OrSetBit(a / 2, k - 1, n - 1);
    }
  }

  // ---------------------------------------------------------------------------------------------
  // Lengths in bits
  // ---------------------------------------------------------------------------------------------

  /** 64 minus the number of leading zeros of a word. */
  function BitLength(x: nat): (n: nat)
    ensures x == 0 <==> n == 0
    ensures x > 0 ==> Pow2(n - 1) <= x
    ensures x < Pow2(n)
  {
    if x == 0 then 0 else 1 + BitLength(x / 2)
  }

  lemma BitLengthWord(x: u64)
    ensures BitLength(x) <= 64
  {
    if BitLength(x) > 64 {
      Pow2Word();
      Pow2Monotone(64, BitLength(x) - 1);
    }
  }

  function LeadingZeros(x: u64): (z: nat)
    ensures z <= 64
  {
    BitLengthWord(x);
    64 - BitLength(x)
  }

  /** Bit k of a value is bit k % 64 of limb k / 64. */
  lemma ValueBit(l: seq<u64>, k: nat)
    requires k / 64 < |l|
    ensures Bit(Value(l), k) == Bit(l[k / 64], k % 64)
  {
    WordsOfValue(l);
    WordsBit(Value(l), |l|, k);
  }
}
