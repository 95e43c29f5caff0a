/** Powers of two, floor division by them, and single bits of (possibly negative) integers. */
module Power {

  function Pow2(n: nat): (p: int)
    ensures p > 0
  {
    if n == 0 then 1 else 2 * Pow2(n - 1)
  }

  type bit = b: int | 0 <= b <= 1

  /** Bit k of x in infinite two's complement: halving rounds toward negative infinity. */
  function Bit(x: int, k: nat): bit
    decreases k
  {
    if k == 0 then x % 2 else Bit(x / 2, k - 1)
  }

  /** Arithmetic right shift, one bit at a time: floor(x / 2^k). */
  function Shifted(x: int, k: nat): int
    decreases k
  {
    if k == 0 then x else Shifted(x / 2, k - 1)
  }

  lemma DivModUnique(a: int, d: int, q: int, r: int)
    requires d > 0 && 0 <= r < d && a == d * q + r
    ensures a / d == q && a % d == r
  {
    var q', r' := a / d, a % d;
    assert a == d * q' + r';
    assert d * (q - q') == r' - r;
    if q > q' {
      MulLower(d, q - q');
    } else if q < q' {
      MulLower(d, q' - q);
    }
  }

  lemma DivModFact(x: int, d: int)
    requires d > 0
    ensures x == x / d * d + x % d && 0 <= x % d < d
  {}

  /** The only multiple of m strictly between -m and m is zero. */
  lemma NoMultipleWithin(k: int, m: int)
    requires m > 0 && -m < k * m < m
    ensures k == 0
  {
    if k >= 1 {
      MulMonotone(1, k, m);
    } else if k <= -1 {
      MulMonotone(k, -1, m);
    }
  }

  lemma MulLower(d: int, k: int)
    requires d > 0 && k >= 1
    ensures d * k >= d
  {
    assert d * k == d + d * (k - 1);
    MulNonNegative(d, k - 1);
  }

  lemma MulNonNegative(a: int, b: int)
    requires a >= 0 && b >= 0
    ensures a * b >= 0
  {}

  lemma MulMonotone(a: int, b: int, c: int)
    requires a <= b && c >= 0
    ensures a * c <= b * c
  {
    MulNonNegative(b - a, c);
  }

  lemma MulStrict(a: int, b: int, c: int)
    requires a < b && c > 0
    ensures a * c < b * c
  {
    MulLower(c, b - a);
    assert (b - a) * c == b * c - a * c;
  }

  lemma {:induction false} Pow2Add(m: nat, n: nat)
    ensures Pow2(m + n) == Pow2(m) * Pow2(n)
  {
    if m > 0 {
      Pow2Add(m - 1, n);
    }
  }

  lemma {:induction false} Pow2Monotone(m: nat, n: nat)
    requires m <= n
    ensures Pow2(m) <= Pow2(n)
  {
    if m < n {
      Pow2Monotone(m, n - 1);
    }
  }

  lemma Pow2Strict(m: nat, n: nat)
    requires m < n
    ensures 2 * Pow2(m) <= Pow2(n)
  {
    Pow2Monotone(m + 1, n);
  }

  lemma {:induction false} Pow2Exceeds(n: nat)
    ensures n < Pow2(n)
  {
    if n > 0 {
      Pow2Exceeds(n - 1);
    }
  }

  /** Dividing twice is dividing by the product. */
  lemma DivDiv(x: int, c: int, d: int)
    requires c > 0 && d > 0
    ensures c * d > 0
    ensures x / (c * d) == x / c / d
  {
    MulLower(c, d);
    var q, r := x / c, x % c;
    var q', r' := q / d, q % d;
    assert c * (q - d * q') == c * r';
    assert x == (c * d) * q' + (c * r' + r);
    MulMonotone(r', d - 1, c);
    assert c * r' + r < c * d by {
      assert r' * c <= (d - 1) * c;
    }
    MulNonNegative(c, r');
    DivModUnique(x, c * d, q', c * r' + r);
  }

  lemma {:induction false} ShiftedFormula(x: int, k: nat)
    ensures Shifted(x, k) == x / Pow2(k)
    decreases k
  {
    if k > 0 {
      ShiftedFormula(x / 2, k - 1);
      DivDiv(x, 2, Pow2(k - 1));
    }
  }

  lemma {:induction false} ShiftedBit(x: int, k: nat)
    ensures Bit(x, k) == Shifted(x, k) % 2
    decreases k
  {
    if k > 0 {
      ShiftedBit(x / 2, k - 1);
    }
  }

  /** The same bit by division: floor(x / 2^k) mod 2. */
  lemma BitFormula(x: int, k: nat)
    ensures Bit(x, k) == x / Pow2(k) % 2
  {
    ShiftedBit(x, k);
    ShiftedFormula(x, k);
  }

  lemma {:induction false} ShiftedAgain(x: int, m: nat, n: nat)
    ensures Shifted(x, m + n) == Shifted(Shifted(x, m), n)
    decreases m
  {
    if m > 0 {
      ShiftedAgain(x / 2, m - 1, n);
    }
  }

  lemma {:induction false} ShiftedPast(x: int, n: nat)
    requires 0 <= x < Pow2(n)
    ensures Shifted(x, n) == 0
    decreases n
  {
    if n > 0 {
      ShiftedPast(x / 2, n - 1);
    }
  }

  lemma {:induction false} ShiftedBound(x: int, m: nat, n: nat)
    requires 0 <= x < Pow2(m + n)
    ensures 0 <= Shifted(x, m) < Pow2(n)
    decreases m
  {
    if m > 0 {
      ShiftedBound(x / 2, m - 1, n);
    }
  }

  /** A multiple of 2^k on top of x comes through the shift undisturbed. */
  lemma {:induction false} ShiftedSum(x: int, t: int, k: nat)
    ensures Shifted(x + t * Pow2(k), k) == Shifted(x, k) + t
    decreases k
  {
    if k > 0 {
      var h := t * Pow2(k - 1);
      assert t * Pow2(k) == 2 * h;
      assert (x + 2 * h) / 2 == x / 2 + h;
      ShiftedSum(x / 2, t, k - 1);
    }
  }

  lemma {:induction false} BitShift(x: int, m: nat, k: nat)
    ensures Bit(x, m + k) == Bit(Shifted(x, m), k)
    decreases m
  {
    if m > 0 {
      BitShift(x / 2, m - 1, k);
    }
  }

  /** One more bit of a prefix. */
  lemma {:induction false} PrefixStep(x: int, k: nat)
    ensures Shifted(x, k) == 2 * Shifted(x, k + 1) + Bit(x, k)
    decreases k
  {
    if k > 0 {
      PrefixStep(x / 2, k - 1);
    }
  }

  lemma DivSmall(x: int, d: int)
    requires 0 <= x < d
    ensures x / d == 0 && x % d == x
  {
    DivModUnique(x, d, 0, x);
  }

  /** Adding a multiple of 2^n leaves the bits below n alone. */
  lemma {:induction false} BitPeriodic(x: int, c: int, n: nat, k: nat)
    requires k < n
    ensures Bit(x + c * Pow2(n), k) == Bit(x, k)
    decreases k
  {
    var h := c * Pow2(n - 1);
    assert c * Pow2(n) == 2 * h;
    if k > 0 {
      BitPeriodic(x / 2, c, n - 1, k - 1);
    }
  }

  lemma MulRearrange(a: int, b: int, c: int)
    ensures a * (b * c) == b * (a * c) == (a * b) * c
  {}

  /** Bits n and up of a number in [-2^n, 2^n) all repeat its sign. */
  lemma {:induction false} BitSign(x: int, n: nat, k: nat)
    requires n <= k && -Pow2(n) <= x < Pow2(n)
    ensures Bit(x, k) == if x < 0 then 1 else 0
    decreases k
  {
    if n > 0 {
      BitSign(x / 2, n - 1, k - 1);
    } else if k > 0 {
      BitSign(x / 2, 0, k - 1);
    }
  }

  lemma {:induction false} BitsDetermine(x: int, y: int, n: nat)
    requires -Pow2(n) <= x < Pow2(n) && -Pow2(n) <= y < Pow2(n)
    requires forall k: nat :: Bit(x, k) == Bit(y, k)
    ensures x == y
    decreases n
  {
    assert Bit(x, 0) == Bit(y, 0);
    if n == 0 {
      assert Pow2(0) == 1;
    } else {
      forall k: nat ensures Bit(x / 2, k) == Bit(y / 2, k) {
        assert Bit(x, k + 1) == Bit(y, k + 1);
      }
      BitsDetermine(x / 2, y / 2, n - 1);
    }
  }

  /** Two integers with the same bits everywhere are the same integer. */
  lemma BitsDetermineNumber(x: int, y: int)
    requires forall k: nat :: Bit(x, k) == Bit(y, k)
    ensures x == y
  {
    var n: nat := if x < 0 then -x else x;
    var m: nat := if y < 0 then -y else y;
    Pow2Exceeds(n);
    Pow2Exceeds(m);
    Pow2Monotone(n, n + m);
    Pow2Monotone(m, n + m);
    BitsDetermine(x, y, n + m);
  }
}
