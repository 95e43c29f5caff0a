/** Digits, positional notation and decimal numerals. */
module Decimal {
  import opened Options

  function DigitOf(c: char): (d: Option<nat>)
    ensures d.Some? ==> d.value < 36
  {
    if '0' <= c <= '9' then Some(c as int - '0' as int)
    else if 'a' <= c <= 'z' then Some(c as int - 'a' as int + 10)
    else if 'A' <= c <= 'Z' then Some(c as int - 'A' as int + 10)
    else None
  }

  const LOWER: string := "0123456789abcdefghijklmnopqrstuvwxyz"
  const UPPER: string := "0123456789ABCDEFGHIJKLMNOPQRSTUVWXYZ"

  /** Position k of an alphabet holds its k-th digit: ten numerals, then letters from `first`. */
  predicate Alphabet(s: string, first: char) {
    && |s| == 36 && first as int + 25 <= 'z' as int
    && forall k :: 0 <= k < 36 ==>
         s[k] as int == if k < 10 then '0' as int + k else first as int + (k - 10)
  }

  lemma Alphabets()
    ensures Alphabet(LOWER, 'a') && Alphabet(UPPER, 'A')
  {}

  /** A byte is the digit d exactly when it stands at position d of the lower-case or the upper-case alphabet. */
  lemma DigitAlphabet(c: char, d: nat)
    requires d < 36
    ensures |LOWER| == |UPPER| == 36 && (DigitOf(c) == Some(d) <==> c == LOWER[d] || c == UPPER[d])
  {
    Alphabets();
  }

  predicate DigitBelow(radix: nat, c: char) {
    DigitOf(c).Some? && DigitOf(c).value < radix
  }

  /** Underscores and digits of the radix only. */
  predicate AllDigits(radix: nat, s: string) {
    forall i :: 0 <= i < |s| ==> s[i] == '_' || DigitBelow(radix, s[i])
  }

  /** Positional value, most significant digit first, underscores skipped. */
  function Positional(radix: nat, s: string): nat
    requires AllDigits(radix, s)
  {
    if s == "" then 0
    else
      var n := |s| - 1;
      var high := Positional(radix, s[..n]);
      if s[n] == '_' then high else high * radix + DigitOf(s[n]).value
  }

  lemma PositionalStep(radix: nat, s: string, i: nat)
    requires i < |s| && AllDigits(radix, s[..i])
    ensures AllDigits(radix, s[..i + 1]) <==> s[i] == '_' || DigitBelow(radix, s[i])
    ensures !(s[i] == '_' || DigitBelow(radix, s[i])) ==> !AllDigits(radix, s)
    ensures AllDigits(radix, s[..i + 1]) ==>
      Positional(radix, s[..i + 1]) ==
        if s[i] == '_' then Positional(radix, s[..i])
        else Positional(radix, s[..i]) * radix + DigitOf(s[i]).value
  {
    assert s[..i + 1][..i] == s[..i] && s[..i + 1][i] == s[i];
    assert forall k :: 0 <= k < i ==> s[..i + 1][k] == s[..i][k];
  }

  function DigitChar(d: nat): (c: char)
    requires d < 10
    ensures DigitOf(c) == Some(d)
  {
    ('0' as int + d) as char
  }

  function Numerals(n: nat): string {
    if n < 10 then [DigitChar(n)] else Numerals(n / 10) + [DigitChar(n % 10)]
  }

  function Reversed(s: string): string {
    if s == "" then "" else Reversed(s[1..]) + [s[0]]
  }

  lemma {:induction false} ReversedSnoc(s: string, c: char)
    ensures Reversed(s + [c]) == [c] + Reversed(s)
  {
    if s == "" {
      assert s + [c] == [c];
    } else {
      assert (s + [c])[1..] == s[1..] + [c];
      ReversedSnoc(s[1..], c);
    }
  }

  /** The numeral of n written above digits already produced least significant first. */
  function Above(n: nat, digits: string): string {
    (if n == 0 then "" else Numerals(n)) + Reversed(digits)
  }

  lemma PrintStep(n: nat, q: nat, r: nat, digits: string)
    requires n > 0 && n == q * 10 + r && r < 10
    ensures q < n && Above(q, digits + [DigitChar(r)]) == Above(n, digits)
  {
    hide Reversed;
    ReversedSnoc(digits, DigitChar(r));
    NumeralsStep(n, q, r);
  }

  lemma NumeralsStep(n: nat, q: nat, r: nat)
    requires n > 0 && n == q * 10 + r && r < 10
    ensures q < n && Numerals(n) == (if q == 0 then "" else Numerals(q)) + [DigitChar(r)]
  {
    assert n / 10 == q && n % 10 == r;
  }

  lemma PrintStart(n: nat)
    ensures n > 0 ==> Above(n, "") == Numerals(n)
  {}

  lemma PrintEnd(digits: string)
    ensures Above(0, digits) == Reversed(digits)
  {}

  /** Parsing what was printed gives the number back. */
  lemma {:induction false} ParsePrinted(n: nat)
    ensures AllDigits(10, Numerals(n)) && Positional(10, Numerals(n)) == n && Numeral(Numerals(n))
    ensures Numerals(n)[0] == '0' <==> n == 0
  {
    var s := Numerals(n);
    if n >= 10 {
      ParsePrinted(n / 10);
      assert s[..|s| - 1] == Numerals(n / 10);
    } else {
      assert s[..0] == "";
    }
  }

  /** A canonical numeral: decimal digits only, and no leading zero except for zero itself. */
  predicate Numeral(s: string) {
    s != "" && (forall i :: 0 <= i < |s| ==> '0' <= s[i] <= '9') && (s[0] == '0' ==> |s| == 1)
  }

  lemma NumeralDigits(s: string)
    requires forall i :: 0 <= i < |s| ==> '0' <= s[i] <= '9'
    ensures AllDigits(10, s)
  {}

  lemma OneDigit(d: nat)
    requires d < 10
    ensures Numerals(d) == [DigitChar(d)]
  {}

  lemma NextDigit(high: nat, d: nat)
    requires d < 10 && high > 0
    ensures Numerals(high * 10 + d) == Numerals(high) + [DigitChar(d)]
  {
    assert (high * 10 + d) / 10 == high && (high * 10 + d) % 10 == d;
  }

  /** Printing what was parsed gives the numeral back. */
  lemma {:induction false} PrintParsed(s: string)
    requires Numeral(s)
    ensures AllDigits(10, s) && Numerals(Positional(10, s)) == s
    ensures s[0] != '0' ==> Positional(10, s) > 0
  {
    hide Numerals;
    NumeralDigits(s);
    var n := |s| - 1;
    var d := DigitOf(s[n]).value;
    assert [DigitChar(d)] == [s[n]];
    if n == 0 {
      OneDigit(d);
      assert s[..0] == "";
      assert s == [s[0]];
    } else {
      PrintParsed(s[..n]);
      var high := Positional(10, s[..n]);
      assert s == s[..n] + [s[n]];
      NextDigit(high, d);
    }
  }

  // -----------------------------------------------------------------------------------------------
  // Positional notation as a sum of powers
  // -----------------------------------------------------------------------------------------------

  function PowerOf(radix: nat, n: nat): nat {
    if n == 0 then 1 else radix * PowerOf(radix, n - 1)
  }

  /** The digits without the underscores. */
  function Digits(radix: nat, s: string): (d: seq<nat>)
    requires AllDigits(radix, s)
    ensures forall i :: 0 <= i < |d| ==> d[i] < radix
  {
    if s == "" then []
    else (if s[0] == '_' then [] else [DigitOf(s[0]).value]) + Digits(radix, s[1..])
  }

  /** Each digit times the power of the radix that the digits after it leave it. */
  function Weighted(radix: nat, d: seq<nat>): nat {
    if d == [] then 0 else d[0] * PowerOf(radix, |d| - 1) + Weighted(radix, d[1..])
  }

  lemma {:induction false} WeightedSnoc(radix: nat, d: seq<nat>, x: nat)
    ensures Weighted(radix, d + [x]) == Weighted(radix, d) * radix + x
  {
    if d == [] {
      assert d + [x] == [x];
    } else {
      assert (d + [x])[1..] == d[1..] + [x];
      WeightedSnoc(radix, d[1..], x);
      HornerStep(radix, d[0], PowerOf(radix, |d| - 1), Weighted(radix, d[1..]));
    }
  }

  lemma HornerStep(radix: int, x: int, p: int, w: int)
    ensures x * (radix * p) + w * radix == (x * p + w) * radix
  {}

  lemma {:induction false} DigitsSnoc(radix: nat, s: string)
    requires s != "" && AllDigits(radix, s)
    ensures AllDigits(radix, s[..|s| - 1])
    ensures Digits(radix, s) ==
            Digits(radix, s[..|s| - 1]) + if s[|s| - 1] == '_' then [] else [DigitOf(s[|s| - 1]).value]
  {
    hide DigitOf;
    var n := |s| - 1;
    if n > 0 {
      DigitsSnoc(radix, s[1..]);
      assert s[1..][..n - 1] == s[..n][1..] && s[1..][n - 1] == s[n] && s[..n][0] == s[0];
    }
  }

  /** The value of a numeral is the sum of its digits, each times its power of the radix. */
  lemma {:induction false} PositionalSum(radix: nat, s: string)
    requires AllDigits(radix, s)
    ensures Positional(radix, s) == Weighted(radix, Digits(radix, s))
  {
    if s != "" {
      DigitsSnoc(radix, s);
      PositionalSum(radix, s[..|s| - 1]);
      PositionalSumStep(radix, s);
    }
  }

  lemma PositionalSumStep(radix: nat, s: string)
    requires s != "" && AllDigits(radix, s) && AllDigits(radix, s[..|s| - 1])
    requires Positional(radix, s[..|s| - 1]) == Weighted(radix, Digits(radix, s[..|s| - 1]))
    ensures Positional(radix, s) == Weighted(radix, Digits(radix, s))
  {
    hide DigitOf, Digits, Weighted;
    var n := |s| - 1;
    DigitsSnoc(radix, s);
    if s[n] != '_' {
      WeightedSnoc(radix, Digits(radix, s[..n]), DigitOf(s[n]).value);
    } else {
      assert Digits(radix, s) == Digits(radix, s[..n]);
    }
  }
}
