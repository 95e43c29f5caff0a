/**
 * The loops over limbs, each proved against the integers.
 *
 * A loop that emits words from the bottom keeps one fact: the words already written are the lowest words of the
 * exact result, and what it still holds (unread limbs and carry) is the rest of that result above them.
 */
module LimbLoops {
  import opened Power
  import opened Limbs

  function Zeros(n: nat): (z: seq<u64>)
    ensures |z| == n && forall i :: 0 <= i < n ==> z[i] == 0
  {
    seq(n, _ => 0)
  }

  lemma ValueAppendZeros(l: seq<u64>, n: nat)
    ensures Value(l + Zeros(n)) == Value(l)
  {
    ValueSplit(l + Zeros(n), |l|);
    assert (l + Zeros(n))[..|l|] == l && (l + Zeros(n))[|l|..] == Zeros(n);
    ValueZeros(Zeros(n));
  }

  // ---------------------------------------------------------------------------------------------
  // Addition and subtraction of magnitudes
  // ---------------------------------------------------------------------------------------------

  method AddAbs(lhs: seq<u64>, rhs: seq<u64>) returns (out: seq<u64>)
    ensures Value(out) == Value(lhs) + Value(rhs)
  {
    var len := if |lhs| > |rhs| then |lhs| else |rhs|;
    out := [];
    var carry: u128 := 0;
    ghost var total := Value(lhs) + Value(rhs);
    SuffixStep(lhs, 0);
    SuffixStep(rhs, 0);
    for i := 0 to len
      invariant out == Words(total, i) && carry <= 1
      invariant Rest(total, i) == Suffix(lhs, i) + Suffix(rhs, i) + carry
    {
      var a, b := LimbAt(lhs, i), LimbAt(rhs, i);
      var sum: u128 := a + b + carry;
      SuffixStep(lhs, i);
      SuffixStep(rhs, i);
      Emit(total, i, sum, Suffix(lhs, i + 1) + Suffix(rhs, i + 1));
      out := out + [sum % B];
      carry := sum / B;
    }
    LastCarry(total, len, carry);
    if carry != 0 {
      ValueSnoc(out, carry);
      out := out + [carry];
    }
  }

  lemma LastCarry(total: int, n: nat, carry: int)
    requires Rest(total, n) == carry
    ensures total == Value(Words(total, n)) + carry * Base(n)
  {
    ValueWords(total, n);
  }

  method SubAbs(lhs: seq<u64>, rhs: seq<u64>) returns (out: seq<u64>)
    requires |rhs| <= |lhs| && Value(rhs) <= Value(lhs)
    ensures Value(out) == Value(lhs) - Value(rhs)
  {
    out := [];
    var borrow: u128 := 0;
    ghost var total := Value(lhs) - Value(rhs);
    SuffixStep(lhs, 0);
    SuffixStep(rhs, 0);
    assert out == Words(total, 0) && Rest(total, 0) == Suffix(lhs, 0) - Suffix(rhs, 0) - borrow;
    SuffixPast(lhs, rhs);
    hide Value, Suffix, Words, Rest;
    for i := 0 to |lhs|
      invariant out == Words(total, i) && borrow <= 1
      invariant Rest(total, i) == Suffix(lhs, i) - Suffix(rhs, i) - borrow
    {
      var a: u128 := lhs[i];
      var b: u128 := LimbAt(rhs, i);
      var sub: u128 := b + borrow;
      SuffixStep(lhs, i);
      SuffixStep(rhs, i);
      EmitDifference(total, i, a - sub, Suffix(lhs, i + 1) - Suffix(rhs, i + 1));
      if a >= sub {
        out := out + [a - sub];
        borrow := 0;
      } else {
        out := out + [B + a - sub];
        borrow := 1;
      }
    }
    ValueBound(lhs);
    WordsFit(total, |lhs|);
  }

  /** A difference of words emitted with its borrow. */
  lemma EmitDifference(total: int, i: nat, d: int, high: int)
    requires -B <= d < B && Rest(total, i) == d + B * high
    ensures Words(total, i + 1) == Words(total, i) + [if d >= 0 then d else B + d]
    ensures Rest(total, i + 1) == if d >= 0 then high else high - 1
  {
    Emit(total, i, d, high);
  }

  lemma SuffixPast(l: seq<u64>, r: seq<u64>)
    requires |r| <= |l|
    ensures Suffix(l, |l|) == 0 && Suffix(r, |l|) == 0
  {}

  // ---------------------------------------------------------------------------------------------
  // Schoolbook multiplication
  // ---------------------------------------------------------------------------------------------

  lemma ProductBound(a: u64, b: u64)
    ensures 0 <= a * b <= (B - 1) * (B - 1)
  {
    MulNonNegative(a, b);
    MulMonotone(a, B - 1, b);
    MulMonotone(b, B - 1, B - 1);
  }

  /** The words below position i are final; the words above still await the rows from i on. */
  ghost predicate RowsDone(i: nat, out: seq<u64>, total: int, owed: int) {
    i <= |out| && out[..i] == Words(total, i) && Rest(total, i) == Value(out[i..]) + owed
  }

  method MulLimbs(l: seq<u64>, r: seq<u64>) returns (out: seq<u64>)
    ensures |out| == |l| + |r| && Value(out) == Value(l) * Value(r)
  {
    out := Zeros(|l| + |r|);
    ValueZeros(out);
    SuffixStep(l, 0);
    assert out[0..] == out;
    ghost var total := Value(l) * Value(r);
    ProductFits(l, r);
    for i := 0 to |l|
      invariant |out| == |l| + |r| && RowsDone(i, out, total, Suffix(l, i) * Value(r))
    {
      SuffixStep(l, i);
      SuffixStep(l, i + 1);
      ScaledWord(Suffix(l, i), l[i], Suffix(l, i + 1), Value(r));
      MulNonNegative(Suffix(l, i + 1), Value(r));
      RestBound(total, i, |out| - i);
      ghost var was := out;
      out := MulRow(l[i], r, i, out);
      RowAdded(i, was, out, total, l[i] * Value(r), Suffix(l, i + 1) * Value(r));
    }
    NothingLeft(l, Value(r));
    assert out[0..] == out && out[0..|l|] == out[..|l|];
    RowTotal(out, 0, |l|, total);
  }

  lemma ProductFits(l: seq<u64>, r: seq<u64>)
    ensures 0 <= Value(l) * Value(r) < Base(|l| + |r|)
  {
    ValueBound(l);
    ValueBound(r);
    BaseAdd(|l|, |r|);
    MulNonNegative(Value(l), Value(r));
    MulMonotone(Value(l), Base(|l|), Value(r));
    MulStrict(Value(r), Base(|r|), Base(|l|));
  }

  lemma RowAdded(i: nat, was: seq<u64>, out: seq<u64>, total: int, row: int, owed: int)
    requires i < |was| == |out| && RowsDone(i, was, total, row + B * owed)
    requires out[..i] == was[..i] && Value(out[i..]) == Value(was[i..]) + row
    ensures RowsDone(i + 1, out, total, owed)
  {
    ValueDrop(out, i);
    Emit(total, i, out[i], Value(out[i + 1..]) + owed);
    assert out[..i + 1] == out[..i] + [out[i]];
  }

  lemma NothingLeft(l: seq<u64>, p: int)
    ensures Suffix(l, |l|) * p == 0
  {}

  /** The words i to idx of out are final for this row; the row still owes a * (r from j) and the carry. */
  ghost predicate RowDone(acc: seq<u64>, i: nat, idx: nat, out: seq<u64>, total: int, owed: int) {
    && |out| == |acc| && i <= idx <= |out| && out[..i] == acc[..i]
    && out[i..idx] == Words(total, idx - i)
    && Rest(total, idx - i) == Value(out[idx..]) + owed
  }

  /** The same with what the row owes after the words of r below j. */
  ghost predicate RowAt(acc: seq<u64>, i: nat, j: nat, out: seq<u64>, total: int, a: u64, r: seq<u64>, carry: int) {
    RowDone(acc, i, i + j, out, total, Suffix(r, j) * a + carry)
  }

  /** One row: adds a * r at position i of out. */
  method MulRow(a: u64, r: seq<u64>, i: nat, acc: seq<u64>) returns (out: seq<u64>)
    requires i + |r| <= |acc| && Value(acc[i..]) + a * Value(r) < Base(|acc| - i)
    ensures |out| == |acc| && out[..i] == acc[..i] && Value(out[i..]) == Value(acc[i..]) + a * Value(r)
  {
    hide RowAt, RowDone, Value, Suffix, Base;
    out := acc;
    ghost var total := Value(acc[i..]) + a * Value(r);
    var carry: u128 := 0;
    RowStart(acc, i, a, r);
    MulNonNegative(a, Value(r));
    for j := 0 to |r|
      invariant |out| == |acc| && carry < B && RowAt(acc, i, j, out, total, a, r, carry)
    {
      var idx := i + j;
      RowSum(out[idx], a, r[j], carry);
      var cur: u128 := out[idx] + a * r[j] + carry;
      RowStep(acc, i, j, out, total, cur, a, r, carry);
      out := out[idx := cur % B];
      carry := cur / B;
    }
    RowOver(acc, i, out, total, a, r, carry);
    out := PropagateCarry(acc, i, i + |r|, out, carry, total);
  }

  lemma RowSum(x: u64, a: u64, b: u64, carry: int)
    requires 0 <= carry < B
    ensures 0 <= x + a * b + carry < B * B
  {
    ProductBound(a, b);
  }

  lemma RowStart(acc: seq<u64>, i: nat, a: u64, r: seq<u64>)
    requires i <= |acc|
    ensures RowAt(acc, i, 0, acc, Value(acc[i..]) + a * Value(r), a, r, 0)
  {
    assert r[0..] == r;
  }

  lemma RowOver(acc: seq<u64>, i: nat, out: seq<u64>, total: int, a: u64, r: seq<u64>, carry: int)
    requires RowAt(acc, i, |r|, out, total, a, r, carry)
    ensures RowDone(acc, i, i + |r|, out, total, carry)
  {
    NothingLeft(r, a);
  }

  /** The trailing carry loop of a row; it never runs past the end of out. */
  method PropagateCarry(acc: seq<u64>, i: nat, start: nat, row: seq<u64>, first: u64, ghost total: int)
    returns (out: seq<u64>)
    requires RowDone(acc, i, start, row, total, first) && 0 <= total < Base(|acc| - i)
    ensures |out| == |acc| && out[..i] == acc[..i] && Value(out[i..]) == total
  {
    hide RowDone, Words, Rest, Value, Base;
    RowInside(acc, i, start, row, total, first);
    out := row;
    var carry: u128 := first;
    var idx: nat := start;
    while carry != 0
      invariant carry < B && RowDone(acc, i, idx, out, total, carry)
      decreases |out| - idx
    {
      RowInside(acc, i, idx, out, total, carry);
      var cur: u128 := out[idx] + carry;
      RowWord(acc, i, idx, out, total, cur, 0);
      out := out[idx := cur % B];
      carry := cur / B;
      idx := idx + 1;
    }
    RowEnds(acc, i, idx, out, total);
  }

  /** While a carry is left, the row has a word left for it. */
  lemma RowInside(acc: seq<u64>, i: nat, idx: nat, out: seq<u64>, total: int, carry: int)
    requires RowDone(acc, i, idx, out, total, carry) && 0 <= total < Base(|acc| - i)
    ensures |out| == |acc| && i <= idx <= |out| && (carry != 0 ==> idx < |out|)
  {
    if idx == |out| {
      RestZero(total, idx - i);
    }
  }

  lemma RowEnds(acc: seq<u64>, i: nat, idx: nat, out: seq<u64>, total: int)
    requires RowDone(acc, i, idx, out, total, 0)
    ensures |out| == |acc| && i <= |out| && out[..i] == acc[..i] && Value(out[i..]) == total
  {
    RowTotal(out, i, idx, total);
  }

  lemma RowStep(
      acc: seq<u64>, i: nat, j: nat, out: seq<u64>, total: int, cur: u128, a: u64, r: seq<u64>, carry: int)
    requires j < |r| && i + j < |out| && cur == out[i + j] + a * r[j] + carry
    requires RowAt(acc, i, j, out, total, a, r, carry)
    ensures cur / B < B
    ensures RowAt(acc, i, j + 1, out[i + j := cur % B], total, a, r, cur / B)
  {
    hide RowDone, Suffix;
    SuffixStep(r, j);
    ScaledWord(Suffix(r, j), r[j], Suffix(r, j + 1), a);
    RowWord(acc, i, i + j, out, total, cur, Suffix(r, j + 1) * a);
  }

  lemma RowWord(acc: seq<u64>, i: nat, idx: nat, out: seq<u64>, total: int, cur: int, owed: int)
    requires idx < |out| && 0 <= cur && RowDone(acc, i, idx, out, total, cur - out[idx] + B * owed)
    ensures RowDone(acc, i, idx + 1, out[idx := cur % B], total, cur / B + owed)
  {
    ValueDrop(out, idx);
    Emit(total, idx - i, cur, Value(out[idx + 1..]) + owed);
    SetWord(out, i, idx, cur % B);
  }

  lemma ScaledWord(n: int, x: int, t: int, a: int)
    requires n == x + B * t
    ensures n * a == x * a + B * (t * a)
  {}

  lemma SetWord(l: seq<u64>, i: nat, idx: nat, x: u64)
    requires i <= idx < |l|
    ensures var m := l[idx := x];
            m[..i] == l[..i] && m[i..idx + 1] == l[i..idx] + [x] && m[idx + 1..] == l[idx + 1..]
  {}

  lemma RowTotal(out: seq<u64>, i: nat, idx: nat, total: int)
    requires i <= idx <= |out| && out[i..idx] == Words(total, idx - i)
    requires Rest(total, idx - i) == Value(out[idx..])
    ensures Value(out[i..]) == total
  {
    ValueWords(total, idx - i);
    ValueSplit(out[i..], idx - i);
    assert out[i..][..idx - i] == out[i..idx] && out[i..][idx - i..] == out[idx..];
  }

  // ---------------------------------------------------------------------------------------------
  // Division by one word
  // ---------------------------------------------------------------------------------------------

  method DivRemWord(l: seq<u64>, rhs: u64) returns (out: seq<u64>, r: u64)
    requires rhs != 0
    ensures Value(l) == Value(out) * rhs + r && r < rhs
  {
    out := Zeros(|l|);
    var rem: u128 := 0;
    var i := |l|;
    while i > 0
      invariant 0 <= i <= |l| == |out| && rem < rhs
      invariant Value(l[i..]) == Value(out[i..]) * rhs + rem
    {
      i := i - 1;
      OrWords(rem, l[i]);
      var cur: u128 := Or.Word(rem * B, l[i], 128);
      QuotientWord(cur, rem, rhs);
      DivStep(l, out, i, rem, rhs, cur / rhs, cur % rhs);
      out, rem := out[i := cur / rhs], cur % rhs;
    }
    assert l[0..] == l && out[0..] == out;
    r := rem;
  }

  /** A word shifted up by 64 OR-ed with another word. */
  lemma OrWords(high: u64, low: u64)
    ensures Or.Word(high * B, low, 128) == high * B + low
  {
    Pow2Word();
    Pow2Add(64, 64);
    OrDisjoint(high * B, high, low, 64, 128);
  }

  lemma DivStep(l: seq<u64>, out: seq<u64>, i: nat, rem: int, rhs: int, q: u64, r: int)
    requires i < |l| == |out| && rem * B + l[i] == q * rhs + r
    requires Value(l[i + 1..]) == Value(out[i + 1..]) * rhs + rem
    ensures Value(l[i..]) == Value(out[i := q][i..]) * rhs + r
  {
    ValueDrop(l, i);
    ValueDrop(out[i := q], i);
    assert out[i := q][i + 1..] == out[i + 1..];
    ScaledWord(Value(out[i := q][i..]), q, Value(out[i + 1..]), rhs);
  }

  lemma QuotientWord(cur: int, rem: int, rhs: int)
    requires 0 < rhs < B && 0 <= rem < rhs && rem * B <= cur < rem * B + B
    ensures 0 <= cur / rhs < B && 0 <= cur % rhs < rhs && cur == cur / rhs * rhs + cur % rhs
  {
    MulMonotone(rem + 1, rhs, B);
    var k := cur / rhs;
    if k >= B {
      MulMonotone(B, k, rhs);
    }
    if k < 0 {
      MulMonotone(k, -1, rhs);
    }
  }

  // ---------------------------------------------------------------------------------------------
  // Shifts
  // ---------------------------------------------------------------------------------------------

  /** x << s within a word: the bits pushed out at the top are lost. */
  function WordShl(x: u64, s: nat): u64
    decreases s
  {
    if s == 0 then x else 2 * WordShl(x, s - 1) % B
  }

  function WordShr(x: u64, s: nat): (y: u64)
    ensures y == Shifted(x, s)
    decreases s
  {
    if s == 0 then x else WordShr(x / 2, s - 1)
  }

  lemma {:induction false} WordShlFormula(x: u64, s: nat)
    ensures WordShl(x, s) == x * Pow2(s) % B
    decreases s
  {
    if s > 0 {
      WordShlFormula(x, s - 1);
      DoubleMod(x * Pow2(s - 1), x * Pow2(s));
    }
  }

  lemma DoubleMod(a: int, b: int)
    requires b == 2 * a
    ensures 2 * (a % B) % B == b % B
  {
    assert b == 2 * (a % B) + B * (2 * (a / B));
    Peel(2 * (a % B), 2 * (a / B));
  }

  lemma WordOne(k: nat)
    requires k < 64
    ensures WordShl(1, k) == Pow2(k)
  {
    hide WordShl, Pow2;
    WordShlFormula(1, k);
    Pow2Word();
    Pow2Strict(k, 64);
  }

  /** A word times 2^s, split at the word boundary into the two halves that the shift loops OR in. */
  lemma SplitShift(x: u64, s: nat) returns (c: int)
    requires s <= 64
    ensures x * Pow2(s) == WordShl(x, s) + B * Shifted(x, 64 - s)
    ensures 0 <= Shifted(x, 64 - s) < Pow2(s)
    ensures WordShl(x, s) == c * Pow2(s)
  {
    WordShlFormula(x, s);
    Pow2Word();
    ShiftedFormula(x * Pow2(s), 64);
    ShiftedAgain(x * Pow2(s), s, 64 - s);
    ShiftedSum(0, x, s);
    ShiftedZero(s);
    ShiftedBound(x, 64 - s, s);
    Pow2Add(64 - s, s);
    c := x - Pow2(64 - s) * Shifted(x, 64 - s);
    CommonFactor(x, Pow2(s), Pow2(64 - s), Shifted(x, 64 - s));
  }

  lemma CommonFactor(x: int, p: int, h: int, q: int)
    ensures x * p - h * p * q == (x - h * q) * p
  {}

  lemma {:induction false} ShiftedZero(k: nat)
    ensures Shifted(0, k) == 0
  {
    if k > 0 {
      ShiftedZero(k - 1);
    }
  }

  /** out[i] |= x */
  function OrAt(out: seq<u64>, i: nat, x: u64): (r: seq<u64>)
    requires i < |out|
    ensures |r| == |out|
  {
    out[i := Or.Word64(out[i], x)]
  }

  lemma OrInto(high: u64, c: int, low: u64, s: nat)
    requires s <= 64 && low < Pow2(s) && high == c * Pow2(s)
    ensures Or.Word64(low, high) == Or.Word64(high, low) == high + low
  {
    Pow2Word();
    OrDisjoint(high, c, low, s, 64);
    OrCommutes(low, high, 64);
  }

  /** The words below idx are final; word idx holds the bits spilled from the limb below, which are fewer than s. */
  ghost predicate ShlDone(limbShift: nat, s: nat, i: nat, out: seq<u64>, total: int, owed: int) {
    var idx := limbShift + i;
    && idx < |out|
    && out[..idx] == Zeros(limbShift) + Words(total, i)
    && Rest(total, i) == owed + out[idx]
    && out[idx] < Pow2(s)
    && forall j :: idx < j < |out| ==> out[j] == 0
  }

  method ShlLimbs(l: seq<u64>, shift: nat) returns (out: seq<u64>)
    ensures Value(out) == Value(l) * Pow2(shift)
  {
    hide ShlDone, Value, Suffix, Words, Rest, Base, Pow2, WordShl, WordShr, OrAt;
    var limbShift := shift / 64;
    var bitShift := shift % 64;
    out := Zeros(limbShift + |l| + 1);
    ghost var p := Pow2(bitShift);
    ghost var total := Value(l) * p;
    ShlStart(l, limbShift, bitShift);
    for i := 0 to |l|
      invariant |out| == limbShift + |l| + 1
      invariant ShlDone(limbShift, bitShift, i, out, total, Suffix(l, i) * p)
    {
      var idx := i + limbShift;
      ghost var was := out;
      out := OrAt(out, idx, WordShl(l[i], bitShift));
      if bitShift != 0 {
        out := OrAt(out, idx + 1, WordShr(l[i], 64 - bitShift));
      }
      ShlStep(l, limbShift, bitShift, i, was, out, total);
    }
    NothingLeft(l, p);
    ShlTotal(limbShift, bitShift, |l|, out, total);
    BitWeight(shift);
    ShlTotalArith(Base(limbShift), Value(l), p, total, Pow2(shift), Value(out));
  }

  lemma ShlTotalArith(w: int, v: int, p: int, total: int, pw: int, result: int)
    requires total == v * p && pw == p * w && result == w * total
    ensures result == v * pw
  {
    MulRearrange(w, v, p);
    MulRearrange(v, p, w);
  }

  lemma ShlStep(l: seq<u64>, limbShift: nat, s: nat, i: nat, was: seq<u64>, out: seq<u64>, total: int)
    requires i < |l| && s < 64 && limbShift + i + 1 < |was|
    requires ShlDone(limbShift, s, i, was, total, Suffix(l, i) * Pow2(s))
    requires var idx := limbShift + i;
             var low := OrAt(was, idx, WordShl(l[i], s));
             out == if s != 0 then OrAt(low, idx + 1, WordShr(l[i], 64 - s)) else low
    ensures ShlDone(limbShift, s, i + 1, out, total, Suffix(l, i + 1) * Pow2(s))
  {
    hide ShlDone, Suffix, Pow2, WordShl, WordShr, Shifted, BitOp.Word64;
    var idx := limbShift + i;
    ShlSpill(limbShift, s, i, was, total, Suffix(l, i) * Pow2(s));
    SuffixStep(l, i);
    ScaledWord(Suffix(l, i), l[i], Suffix(l, i + 1), Pow2(s));
    ShlHalves(l[i], was[idx], s);
    ShlWords(limbShift, s, i, was, out, total, WordShl(l[i], s), Shifted(l[i], 64 - s), Suffix(l, i + 1) * Pow2(s));
  }

  lemma ShlSpill(limbShift: nat, s: nat, i: nat, out: seq<u64>, total: int, owed: int)
    requires ShlDone(limbShift, s, i, out, total, owed) && limbShift + i + 1 < |out|
    ensures out[limbShift + i] < Pow2(s) && out[limbShift + i + 1] == 0
  {}

  lemma ShlWords(
      limbShift: nat, s: nat, i: nat, was: seq<u64>, out: seq<u64>, total: int, low: u64, high: u64, owed: int)
    requires limbShift + i + 1 < |was| && high < Pow2(s)
    requires ShlDone(limbShift, s, i, was, total, low + B * high + B * owed)
    requires var idx := limbShift + i;
             low + was[idx] < B && out == was[idx := low + was[idx]][idx + 1 := high]
    ensures ShlDone(limbShift, s, i + 1, out, total, owed)
  {
    var idx := limbShift + i;
    Emit(total, i, out[idx], owed + high);
    assert out[..idx + 1] == was[..idx] + [out[idx]];
  }

  lemma ShlHalves(x: u64, spill: u64, s: nat)
    requires s < 64 && spill < Pow2(s)
    ensures Or.Word64(spill, WordShl(x, s)) == WordShl(x, s) + spill < B
    ensures x * Pow2(s) == WordShl(x, s) + B * Shifted(x, 64 - s)
    ensures 0 <= Shifted(x, 64 - s) < Pow2(s)
    ensures if s == 0 then Shifted(x, 64 - s) == 0 else Or.Word64(0, WordShr(x, 64 - s)) == Shifted(x, 64 - s)
  {
    var c := SplitShift(x, s);
    OrInto(WordShl(x, s), c, spill, s);
    if s != 0 {
      OrFresh(WordShr(x, 64 - s));
    }
  }

  lemma OrFresh(x: u64)
    ensures Or.Word64(0, x) == x
  {
    Pow2Word();
    OrInto(0, 0, x, 64);
  }

  lemma ShlStart(l: seq<u64>, limbShift: nat, s: nat)
    ensures ShlDone(limbShift, s, 0, Zeros(limbShift + |l| + 1), Value(l) * Pow2(s), Suffix(l, 0) * Pow2(s))
  {
    SuffixStep(l, 0);
    assert Zeros(limbShift + |l| + 1)[..limbShift] == Zeros(limbShift) + Words(Value(l) * Pow2(s), 0);
  }

  lemma ShlTotal(limbShift: nat, s: nat, n: nat, out: seq<u64>, total: int)
    requires |out| == limbShift + n + 1 && ShlDone(limbShift, s, n, out, total, 0)
    ensures Value(out) == Base(limbShift) * total
  {
    hide Base, Value, Words, Rest;
    var spill := out[limbShift + n];
    var words := Words(total, n) + [spill];
    LastCarry(total, n, spill);
    ValueSnoc(Words(total, n), spill);
    assert Value(words) == total;
    assert out == out[..limbShift + n] + [spill] == Zeros(limbShift) + words;
    ValueShifted(words, limbShift);
  }

  /** Zero limbs below multiply by their weight. */
  lemma ValueShifted(l: seq<u64>, n: nat)
    ensures Value(Zeros(n) + l) == Base(n) * Value(l)
  {
    var m := Zeros(n) + l;
    ValueSplit(m, n);
    assert m[..n] == Zeros(n) && m[n..] == l;
    ValueZeros(Zeros(n));
  }

  /** The weight of bit k, seen from inside limb k / 64. */
  lemma BitWeight(k: nat)
    ensures Pow2(k) == Pow2(k % 64) * Base(k / 64)
  {
    LimbsAndBits(k / 64, k % 64);
  }

  lemma LimbsAndBits(i: nat, b: nat)
    ensures Pow2(i * 64 + b) == Pow2(b) * Base(i)
  {
    BasePow2(i);
    Pow2Add(64 * i, b);
  }

  method ShrLimbs(l: seq<u64>, shift: nat) returns (out: seq<u64>)
    requires shift / 64 < |l|
    ensures Value(out) == Shifted(Value(l), shift)
  {
    var limbShift := shift / 64;
    var bitShift := shift % 64;
    out := Zeros(|l| - limbShift);
    ghost var total := Shifted(Value(l), shift);
    ShrStart(l, shift);
    hide ShrDone, Value, Suffix, Shifted, Words, Rest, WordShl, WordShr, OrAt;
    for i := limbShift to |l|
      invariant |out| == |l| - limbShift
      invariant ShrDone(i - limbShift, out, total, Shifted(Suffix(l, i), bitShift))
    {
      var dst := i - limbShift;
      ghost var was := out;
      out := OrAt(out, dst, WordShr(l[i], bitShift));
      if bitShift != 0 && i + 1 < |l| {
        out := OrAt(out, dst, WordShl(l[i + 1], 64 - bitShift));
      }
      ShrStep(l, i, bitShift, dst, was, out, total);
    }
    SuffixStep(l, |l|);
    ShiftedZero(bitShift);
    ShrTotal(out, total);
  }

  lemma ShrTotal(out: seq<u64>, total: int)
    requires ShrDone(|out|, out, total, 0)
    ensures Value(out) == total
  {
    LastCarry(total, |out|, 0);
    assert out[..|out|] == out;
  }

  ghost predicate ShrDone(d: nat, out: seq<u64>, total: int, owed: int) {
    d <= |out| && out[..d] == Words(total, d) && Rest(total, d) == owed
    && forall k :: d <= k < |out| ==> out[k] == 0
  }

  lemma ShrStep(l: seq<u64>, i: nat, s: nat, d: nat, was: seq<u64>, out: seq<u64>, total: int)
    requires i < |l| && s < 64 && d < |was| && ShrDone(d, was, total, Shifted(Suffix(l, i), s))
    requires var low := OrAt(was, d, WordShr(l[i], s));
             out == if s != 0 && i + 1 < |l| then OrAt(low, d, WordShl(l[i + 1], 64 - s)) else low
    ensures ShrDone(d + 1, out, total, Shifted(Suffix(l, i + 1), s))
  {
    hide Shifted, Suffix, WordShl, WordShr, BitOp.Word64, Words, Rest;
    ShrWord(l, i, s);
    WordsSnoc(total, d);
    assert out[..d + 1] == was[..d] + [out[d]];
  }

  /** A product, kept out of sight of the arithmetic solver where only its name matters. */
  function Times(a: int, b: int): int {
    a * b
  }

  lemma ShrStart(l: seq<u64>, shift: nat)
    requires shift / 64 < |l|
    ensures Shifted(Value(l), shift) == Shifted(Suffix(l, shift / 64), shift % 64)
  {
    hide Value, Shifted, Suffix;
    ShrStartAt(l, shift / 64, shift % 64);
  }

  lemma ShrStartAt(l: seq<u64>, i: nat, bits: nat)
    requires i < |l|
    ensures Shifted(Value(l), 64 * i + bits) == Shifted(Suffix(l, i), bits)
  {
    hide Value, Base, Shifted, Pow2, Times;
    SplitTimes(l, i);
    BasePow2(i);
    DropBits(Value(l), Value(l[..i]), Value(l[i..]), 64 * i, bits, Base(i));
  }

  lemma SplitTimes(l: seq<u64>, i: nat)
    requires i <= |l|
    ensures Value(l) == Value(l[..i]) + Times(Base(i), Value(l[i..])) && 0 <= Value(l[..i]) < Base(i)
  {
    hide Value, Base;
    ValueBound(l[..i]);
    ValueSplit(l, i);
  }

  lemma DropBits(x: int, low: int, high: int, m: nat, n: nat, w: int)
    requires w == Pow2(m) && x == low + Times(w, high) && 0 <= low < w
    ensures Shifted(x, m + n) == Shifted(high, n)
  {
    assert Times(w, high) == high * Pow2(m);
    ShiftedSum(low, high, m);
    ShiftedPast(low, m);
    ShiftedAgain(x, m, n);
  }

  /** The lowest word of the limbs from i up shifted right, and the shifted limbs above it. */
  lemma ShrWord(l: seq<u64>, i: nat, s: nat)
    requires i < |l| && s < 64
    ensures var low := Or.Word64(0, WordShr(l[i], s));
            var word := if s != 0 && i + 1 < |l| then Or.Word64(low, WordShl(l[i + 1], 64 - s)) else low;
            word == Shifted(Suffix(l, i), s) % B
    ensures Shifted(Suffix(l, i + 1), s) == Shifted(Suffix(l, i), s) / B
  {
    hide Shifted, Pow2, Suffix, WordShl, WordShr, BitOp.Word64;
    var x, y, t := l[i], LimbAt(l, i + 1), Suffix(l, i + 1);
    SuffixStep(l, i);
    SuffixStep(l, i + 1);
    ShiftedAtWord(x, t, s);
    ShiftedAboveWord(x, t, s);
    var k := SpillOver(t, y, Suffix(l, i + 2), s);
    ShrHalves(x, y, s, i + 1 < |l|);
    LowestWord(Shifted(Suffix(l, i), s), Shifted(x, s) + WordShl(y, 64 - s), k);
  }

  lemma LowestWord(n: int, low: u64, k: int)
    requires n == low + B * k
    ensures n % B == low
  {}

  lemma ShrHalves(x: u64, y: u64, s: nat, more: bool)
    requires s < 64 && (more || y == 0)
    ensures var low := Or.Word64(0, WordShr(x, s));
            var word := if s != 0 && more then Or.Word64(low, WordShl(y, 64 - s)) else low;
            word == Shifted(x, s) + WordShl(y, 64 - s) < B
  {
    OrFresh(WordShr(x, s));
    Pow2Word();
    ShiftedBound(x, s, 64 - s);
    if s != 0 && more {
      var c := SplitShift(y, 64 - s);
      OrInto(WordShl(y, 64 - s), c, Shifted(x, s), 64 - s);
    } else {
      NoSpill(y, s);
    }
  }

  lemma NoSpill(y: u64, s: nat)
    requires s <= 64 && (s == 0 || y == 0)
    ensures WordShl(y, 64 - s) == 0
  {
    WordShlFormula(y, 64 - s);
    Pow2Word();
    MultipleOfWord(y, Pow2(64 - s));
  }

  lemma MultipleOfWord(y: int, p: int)
    requires p == B || y == 0
    ensures y * p % B == 0
  {
    if p == B {
      assert y * p == y * B;
    }
  }

  /** What the limbs t above a word contribute to it when shifted right: the low bits of the next limb y. */
  lemma SpillOver(t: int, y: u64, u: int, s: nat) returns (k: int)
    requires s <= 64 && t == y + B * u
    ensures Pow2(64 - s) * t == WordShl(y, 64 - s) + B * k
  {
    var c := SplitShift(y, 64 - s);
    k := SpillArith(t, y, u, Pow2(64 - s), WordShl(y, 64 - s), Shifted(y, 64 - (64 - s)));
  }

  lemma SpillArith(t: int, y: int, u: int, p: int, w: int, q: int) returns (k: int)
    requires t == y + B * u && y * p == w + B * q
    ensures p * t == w + B * k
  {
    k := q + u * p;
    ScaledWord(t, y, u, p);
  }

  /** Shifting x + B t right by s puts t above the word of x. */
  lemma ShiftedAtWord(x: u64, t: int, s: nat)
    requires s <= 64
    ensures Shifted(x + B * t, s) == Shifted(x, s) + Pow2(64 - s) * t
  {
    Pow2Word();
    Pow2Add(64 - s, s);
    MulRearrange(t, Pow2(64 - s), Pow2(s));
    ShiftedSum(x, Pow2(64 - s) * t, s);
  }

  /** And it moves the limbs t down by s bits. */
  lemma ShiftedAboveWord(x: u64, t: int, s: nat)
    requires s <= 64
    ensures Shifted(x + B * t, s) / B == Shifted(t, s)
  {
    hide Shifted;
    Pow2Word();
    ShiftedAgain(x + B * t, s, 64);
    ShiftedAgain(x + B * t, 64, s);
    ShiftedFormula(Shifted(x + B * t, s), 64);
    ShiftedSum(x, t, 64);
    ShiftedPast(x, 64);
  }

  // ---------------------------------------------------------------------------------------------
  // Two's complement
  // ---------------------------------------------------------------------------------------------

  /** Complements every word and adds one, dropping the last carry. */
  method NegateWords(l: seq<u64>) returns (out: seq<u64>)
    ensures out == Words(-Value(l), |l|)
  {
    out := l;
    for i := 0 to |l|
      invariant |out| == |l|
      invariant forall k :: 0 <= k < |l| ==> out[k] == if k < i then B - 1 - l[k] else l[k]
    {
      out := out[i := B - 1 - out[i]];
    }
    Complement(l, out);
    out := Increment(out, -Value(l) - 1);
  }

  /** The add-one half of negation: stops as soon as the carry is absorbed. */
  method Increment(l: seq<u64>, ghost x: int) returns (out: seq<u64>)
    requires l == Words(x, |l|)
    ensures out == Words(x + 1, |l|)
  {
    out := l;
    var carry: u128 := 1;
    var i := 0;
    while i < |out| && carry != 0
      invariant i <= |out| == |l| && carry <= 1
      invariant out[..i] == Words(x + 1, i) && out[i..] == Words(Rest(x, i), |l| - i)
      invariant Rest(x + 1, i) == Rest(x, i) + carry
    {
      var sum: u128 := out[i] + carry;
      IncrementStep(x, i, out, carry);
      out := out[i := sum % B];
      carry := sum / B;
      i := i + 1;
    }
    IncrementEnd(x, i, out);
  }

  lemma IncrementEnd(x: int, i: nat, out: seq<u64>)
    requires i <= |out| && out[..i] == Words(x + 1, i) && out[i..] == Words(Rest(x + 1, i), |out| - i)
    ensures out == Words(x + 1, |out|)
  {
    WordsSplit(x + 1, i, |out| - i);
    assert out == out[..i] + out[i..];
  }

  lemma IncrementStep(x: int, i: nat, out: seq<u64>, carry: int)
    requires i < |out| && out[..i] == Words(x + 1, i) && out[i..] == Words(Rest(x, i), |out| - i)
    requires Rest(x + 1, i) == Rest(x, i) + carry
    ensures var sum := out[i] + carry;
            var next := out[i := sum % B];
            && next[..i + 1] == Words(x + 1, i + 1) && next[i + 1..] == Words(Rest(x, i + 1), |out| - i - 1)
            && Rest(x + 1, i + 1) == Rest(x, i + 1) + sum / B
  {
    var rest := Rest(x, i);
    WordsTail(rest, |out| - i);
    assert out[i] == out[i..][0] && out[i + 1..] == out[i..][1..];
    WordsSnoc(x, i);
    Emit(x + 1, i, out[i] + carry, rest / B);
    SetWord(out, 0, i, (out[i] + carry) % B);
  }

  lemma WordsTail(x: int, n: nat)
    requires n > 0
    ensures Words(x, n)[0] == x % B && Words(x, n)[1..] == Words(x / B, n - 1)
  {}

  lemma {:induction false} WordsSplit(x: int, m: nat, n: nat)
    ensures Words(x, m + n) == Words(x, m) + Words(Rest(x, m), n)
    decreases m
  {
    if m > 0 {
      WordsSplit(x / B, m - 1, n);
      assert Words(x, m + n) == [x % B] + (Words(x / B, m - 1) + Words(Rest(x, m), n));
    }
  }

  lemma {:induction false} Complement(l: seq<u64>, m: seq<u64>)
    requires |l| == |m| && forall k :: 0 <= k < |l| ==> m[k] == B - 1 - l[k]
    ensures m == Words(-Value(l) - 1, |l|)
  {
    if l != [] {
      Complement(l[1..], m[1..]);
      var t := Value(l[1..]);
      assert -Value(l) - 1 == (B - 1 - l[0]) + B * (-t - 1);
      Peel(B - 1 - l[0], -t - 1);
      assert m == [m[0]] + m[1..];
    }
  }

  /** Words read as a two's-complement number. */
  ghost function SignedValue(l: seq<u64>): int {
    if l != [] && WordShr(l[|l| - 1], 63) != 0 then Value(l) - Base(|l|) else Value(l)
  }

  /** The top bit says in which half the value lies. */
  lemma SignBit(l: seq<u64>)
    requires l != []
    ensures Base(|l|) == 2 * Pow2(64 * |l| - 1)
    ensures WordShr(l[|l| - 1], 63) != 0 <==> Pow2(64 * |l| - 1) <= Value(l)
  {
    var i := |l| - 1;
    var top := l[i];
    BasePow2(|l|);
    LimbsAndBits(i, 63);
    Pow2Word();
    assert Pow2(64) == 2 * Pow2(63);
    ShiftedFormula(top, 63);
    if top < Pow2(63) {
      DivSmall(top, Pow2(63));
      ValueTopBounds(l, 0, Pow2(63));
    } else {
      ValueTopBounds(l, Pow2(63), B);
      DivModUnique(top, Pow2(63), 1, top - Pow2(63));
    }
  }

  /** The words hold x, and are wide enough that its sign shows in the top bit. */
  ghost predicate Window(x: int, l: seq<u64>) {
    l != [] && l == Words(x, |l|) && -Pow2(64 * |l| - 1) <= x < Pow2(64 * |l| - 1)
  }

  lemma SignedValueWindow(l: seq<u64>)
    requires l != []
    ensures Window(SignedValue(l), l)
  {
    SignBit(l);
    ValueBound(l);
    WordsOfValue(l);
    WordsPeriodic(Value(l), |l|);
  }

  /** The position inside n words that carries bit k: past the top, the sign bit. */
  function Carrier(n: nat, k: nat): (j: nat)
    requires n > 0
    ensures j / 64 < n
  {
    if k < 64 * n then k else 64 * n - 1
  }

  lemma WindowBit(x: int, l: seq<u64>, k: nat, w: nat, b: nat)
    requires Window(x, l) && w == Carrier(|l|, k) / 64 && b == Carrier(|l|, k) % 64
    ensures Bit(x, k) == Bit(l[w], b)
  {
    var top := 64 * |l| - 1;
    if k > top {
      BitSign(x, top, k);
      BitSign(x, top, top);
    }
    WordsBit(x, |l|, Carrier(|l|, k));
  }

  lemma BitwiseBits(op: BitOp, x: int, y: int, l: seq<u64>, r: seq<u64>, out: seq<u64>)
    requires |l| == |r| == |out| && Window(x, l) && Window(y, r)
    requires forall i :: 0 <= i < |l| ==> out[i] == op.Word64(l[i], r[i])
    ensures forall k: nat :: Bit(SignedValue(out), k) == op.Apply(Bit(x, k), Bit(y, k))
  {
    SignedValueWindow(out);
    forall k: nat ensures Bit(SignedValue(out), k) == op.Apply(Bit(x, k), Bit(y, k)) {
      BitwiseBit(op, x, y, SignedValue(out), l, r, out, k);
    }
  }

  lemma BitwiseBit(op: BitOp, x: int, y: int, z: int, l: seq<u64>, r: seq<u64>, out: seq<u64>, k: nat)
    requires |l| == |r| == |out| && Window(x, l) && Window(y, r) && Window(z, out)
    requires forall i :: 0 <= i < |l| ==> out[i] == op.Word64(l[i], r[i])
    ensures Bit(z, k) == op.Apply(Bit(x, k), Bit(y, k))
  {
    var w, b := Carrier(|l|, k) / 64, Carrier(|l|, k) % 64;
    WindowBit(x, l, k, w, b);
    WindowBit(y, r, k, w, b);
    WindowBit(z, out, k, w, b);
    op.Word64Bit(l[w], r[w], b);
  }

  method ZipWords(op: BitOp, l: seq<u64>, r: seq<u64>) returns (out: seq<u64>)
    requires |l| == |r|
    ensures |out| == |l| && forall i :: 0 <= i < |l| ==> out[i] == op.Word64(l[i], r[i])
  {
    out := [];
    for i := 0 to |l|
      invariant |out| == i
      invariant forall k :: 0 <= k < i ==> out[k] == op.Word64(l[k], r[k])
    {
      out := out + [op.Word64(l[i], r[i])];
    }
  }
}
