/** Folding of comptime Add, Sub and Mul: arbitrary-precision arithmetic followed by a wrap to the type's width. */
module ConstantFolding {
  import opened Power
  import opened Int

  /** The types `wrap_int_value` tells apart; every other type behaves like Anyint. */
  datatype Type = Fixed(signed: bool, bits: nat) | Isize | Usize | Unbounded {
    /** The lexer rejects a zero width. */
    predicate Valid() {
      Fixed? ==> bits > 0
    }
  }

  datatype Shape = NoWrap | Width(signed: bool, bits: nat)

  function ShapeOf(ty: Type, pointerWidth: nat): Shape {
    match ty
    case Fixed(signed, bits) => Width(signed, bits)
    case Isize => Width(true, pointerWidth)
    case Usize => Width(false, pointerWidth)
    case Unbounded => NoWrap
  }

  /** The range of an n-bit machine integer. */
  predicate InRange(signed: bool, bits: nat, x: int)
    requires bits > 0
  {
    if signed then -Pow2(bits - 1) <= x < Pow2(bits - 1) else 0 <= x < Pow2(bits)
  }

  ghost predicate Congruent(x: int, y: int, m: int) {
    exists k: int :: x == y + k * m
  }

  function Wrap(signed: bool, bits: nat, x: int): int
    requires bits > 0
  {
    var w := x % Pow2(bits);
    if signed && w >= Pow2(bits - 1) then w - Pow2(bits) else w
  }

  function WrapShape(s: Shape, x: int): int
    requires s.Width? ==> s.bits > 0
  {
    if s.Width? then Wrap(s.signed, s.bits, x) else x
  }

  /** Wrapping yields a congruent number inside the range. */
  lemma WrapInRange(signed: bool, bits: nat, x: int)
    requires bits > 0
    ensures InRange(signed, bits, Wrap(signed, bits, x))
    ensures Congruent(x, Wrap(signed, bits, x), Pow2(bits))
  {
    var m := Pow2(bits);
    DivModFact(x, m);
    var w := Wrap(signed, bits, x);
    Residue(x, w, x / m, x % m, m);
  }

  lemma Residue(x: int, w: int, q: int, r: int, m: int)
    requires x == q * m + r && (w == r || w == r - m)
    ensures Congruent(x, w, m)
  {
    if w == r {
      assert x == w + q * m;
    } else {
      assert x == w + (q + 1) * m;
    }
  }

  /** Two numbers in the range that are congruent are the same number. */
  lemma RangeUnique(signed: bool, bits: nat, x: int, y: int)
    requires bits > 0 && InRange(signed, bits, x) && InRange(signed, bits, y)
    requires Congruent(x, y, Pow2(bits))
    ensures x == y
  {
    var m := Pow2(bits);
    var k :| x == y + k * m;
    assert m == 2 * Pow2(bits - 1);
    NoMultipleWithin(k, m);
  }

  /** Wrap is characterised by: in range, and congruent modulo 2^bits. */
  lemma WrapCharacterised(signed: bool, bits: nat, x: int, y: int)
    requires bits > 0
    ensures y == Wrap(signed, bits, x) <==> InRange(signed, bits, y) && Congruent(x, y, Pow2(bits))
  {
    WrapInRange(signed, bits, x);
    if InRange(signed, bits, y) && Congruent(x, y, Pow2(bits)) {
      var w, m := Wrap(signed, bits, x), Pow2(bits);
      var k1 :| x == y + k1 * m;
      var k2 :| x == w + k2 * m;
      assert w == y + (k1 - k2) * m;
      RangeUnique(signed, bits, w, y);
    }
  }

  /** What a type's arithmetic makes of an exact result: the congruent number in the type's range, type by type. */
  ghost predicate MachineValue(ty: Type, pointerWidth: nat, exact: int, v: int)
    requires ty.Valid() && pointerWidth > 0
  {
    match ty
    case Isize =>
      -Pow2(pointerWidth - 1) <= v < Pow2(pointerWidth - 1) && Congruent(exact, v, Pow2(pointerWidth))
    case Usize => 0 <= v < Pow2(pointerWidth) && Congruent(exact, v, Pow2(pointerWidth))
    case Fixed(signed, bits) =>
      && (signed ==> -Pow2(bits - 1) <= v < Pow2(bits - 1))
      && (!signed ==> 0 <= v < Pow2(bits))
      && Congruent(exact, v, Pow2(bits))
    case Unbounded => v == exact
  }

  lemma WrapIsMachineValue(ty: Type, pointerWidth: nat, exact: int)
    requires ty.Valid() && pointerWidth > 0
    ensures MachineValue(ty, pointerWidth, exact, WrapShape(ShapeOf(ty, pointerWidth), exact))
  {
    hide Wrap, Congruent;
    var s := ShapeOf(ty, pointerWidth);
    if s.Width? {
      WrapInRange(s.signed, s.bits, exact);
    }
  }

  /** An exact result has one machine value. */
  lemma MachineValueUnique(ty: Type, pointerWidth: nat, exact: int, v: int, w: int)
    requires ty.Valid() && pointerWidth > 0
    requires MachineValue(ty, pointerWidth, exact, v) && MachineValue(ty, pointerWidth, exact, w)
    ensures v == w
  {
    hide Congruent, Wrap;
    var s := ShapeOf(ty, pointerWidth);
    if s.Width? {
      WrapCharacterised(s.signed, s.bits, exact, v);
      WrapCharacterised(s.signed, s.bits, exact, w);
    }
  }

  method WrapIntValue(ty: Type, pointerWidth: nat, value: Anyint) returns (wrapped: Anyint)
    requires ty.Valid() && pointerWidth > 0 && value.Valid()
    ensures wrapped.Valid() && wrapped.Val() == WrapShape(ShapeOf(ty, pointerWidth), value.Val())
    ensures MachineValue(ty, pointerWidth, value.Val(), wrapped.Val())
    ensures ShapeOf(ty, pointerWidth).Width? ==>
      var Width(signed, bits) := ShapeOf(ty, pointerWidth);
      if signed then wrapped.FitsSignedBits(bits) else wrapped.FitsUnsignedBits(bits)
  {
    WrapIsMachineValue(ty, pointerWidth, value.Val());
    match ShapeOf(ty, pointerWidth) {
      case NoWrap => return value;
      case Width(signed, bits) =>
        wrapped := WrapToWidth(signed, bits, value);
        WrapInRange(signed, bits, value.Val());
    }
  }

  method WrapToWidth(signed: bool, bits: nat, value: Anyint) returns (wrapped: Anyint)
    requires bits > 0 && value.Valid()
    ensures wrapped.Valid() && wrapped.Val() == Wrap(signed, bits, value.Val())
  {
    var one := new Anyint.FromU64(1);
    var modulus := one.Shl(bits);
    assert modulus.Val() == Pow2(bits);
    wrapped := value.Rem(modulus);
    wrapped.SignOfVal();
    RemainderModulo(value.Val(), Pow2(bits));
    if wrapped.negative {
      wrapped := wrapped.Add(modulus);
    }
    ghost var w := value.Val() % Pow2(bits);
    assert wrapped.Val() == w;
    if signed {
      var signBit := one.Shl(bits - 1);
      assert signBit.Val() == Pow2(bits - 1);
      if wrapped.Cmp(signBit) != Less {
        wrapped := wrapped.Sub(modulus);
      }
    }
  }

  /** A truncating remainder, moved up by the modulus when negative, is the residue in [0, m). */
  lemma RemainderModulo(x: int, m: int)
    requires m > 0
    ensures var r := TruncRem(x, m); (if r < 0 then r + m else r) == x % m
  {
    var r := TruncRem(x, m);
    var q := TruncDiv(x, m);
    TruncLaws(x, m);
    if r < 0 {
      assert m * (q - 1) == q * m - m;
      DivModUnique(x, m, q - 1, r + m);
    } else {
      DivModUnique(x, m, q, r);
    }
  }

  // -----------------------------------------------------------------------------------------------
  // Nests of folded operations
  // -----------------------------------------------------------------------------------------------

  datatype Op = Add | Sub | Mul {
    function Apply(x: int, y: int): int {
      match this
      case Add => x + y
      case Sub => x - y
      case Mul => x * y
    }
  }

  method FoldArithmetic(ty: Type, pointerWidth: nat, op: Op, lhs: Anyint, rhs: Anyint) returns (res: Anyint)
    requires ty.Valid() && pointerWidth > 0 && lhs.Valid() && rhs.Valid()
    ensures res.Valid() && res.Val() == WrapShape(ShapeOf(ty, pointerWidth), op.Apply(lhs.Val(), rhs.Val()))
    ensures op.Add? ==> MachineValue(ty, pointerWidth, lhs.Val() + rhs.Val(), res.Val())
    ensures op.Sub? ==> MachineValue(ty, pointerWidth, lhs.Val() - rhs.Val(), res.Val())
    ensures op.Mul? ==> MachineValue(ty, pointerWidth, lhs.Val() * rhs.Val(), res.Val())
  {
    hide MachineValue, WrapShape;
    var exact;
    match op {
      case Add => exact := lhs.Add(rhs);
      case Sub => exact := lhs.Sub(rhs);
      case Mul => exact := lhs.Mul(rhs);
    }
    res := WrapIntValue(ty, pointerWidth, exact);
  }

  datatype Expr = Leaf(value: int) | Node(op: Op, lhs: Expr, rhs: Expr)

  /** The value of the nest over the integers, with no wrapping anywhere. */
  function Exact(e: Expr): int {
    match e
    case Leaf(v) => v
    case Node(op, l, r) => op.Apply(Exact(l), Exact(r))
  }

  /** What folding computes: a wrap at every node. */
  function Folded(s: Shape, e: Expr): int
    requires s.Width? ==> s.bits > 0
  {
    match e
    case Leaf(v) => v
    case Node(op, l, r) => WrapShape(s, op.Apply(Folded(s, l), Folded(s, r)))
  }

  lemma CongruentApply(op: Op, x: int, x': int, y: int, y': int, m: int)
    requires Congruent(x, x', m) && Congruent(y, y', m)
    ensures Congruent(op.Apply(x, y), op.Apply(x', y'), m)
  {
    var j :| x == x' + j * m;
    var k :| y == y' + k * m;
    match op
    case Add => assert x + y == x' + y' + (j + k) * m;
    case Sub => assert x - y == x' - y' + (j - k) * m;
    case Mul =>
      var c := x' * k + j * y' + j * k * m;
      assert x * y == x' * y' + c * m by {
        MulOut(x', j, y', k, m);
      }
  }

  lemma MulOut(x: int, j: int, y: int, k: int, m: int)
    ensures (x + j * m) * (y + k * m) == x * y + (x * k + j * y + j * k * m) * m
  {}

  lemma CongruentTransitive(x: int, y: int, z: int, m: int)
    requires Congruent(x, y, m) && Congruent(y, z, m)
    ensures Congruent(x, z, m) && Congruent(y, x, m)
  {
    var j :| x == y + j * m;
    var k :| y == z + k * m;
    assert x == z + (j + k) * m;
    assert y == x + (-j) * m;
  }

  lemma {:induction false} FoldedCongruent(s: Shape, e: Expr)
    requires s.Width? && s.bits > 0
    ensures Congruent(Exact(e), Folded(s, e), Pow2(s.bits))
  {
    var m := Pow2(s.bits);
    match e
    case Leaf(v) => assert v == v + 0 * m;
    case Node(op, l, r) =>
      FoldedCongruent(s, l);
      FoldedCongruent(s, r);
      var exact, folded := op.Apply(Exact(l), Exact(r)), op.Apply(Folded(s, l), Folded(s, r));
      CongruentApply(op, Exact(l), Folded(s, l), Exact(r), Folded(s, r), m);
      WrapInRange(s.signed, s.bits, folded);
      CongruentTransitive(exact, folded, Folded(s, e), m);
  }

  /** Wrapping at every node is wrapping once at the end: n-bit machine arithmetic. */
  lemma FoldingIsMachineArithmetic(s: Shape, e: Expr)
    requires s.Width? ==> s.bits > 0
    requires e.Leaf? && s.Width? ==> InRange(s.signed, s.bits, e.value)
    ensures Folded(s, e) == WrapShape(s, Exact(e))
  {
    if s.Width? {
      FoldedCongruent(s, e);
      if e.Node? {
        WrapInRange(s.signed, s.bits, e.op.Apply(Folded(s, e.lhs), Folded(s, e.rhs)));
      }
      WrapCharacterised(s.signed, s.bits, Exact(e), Folded(s, e));
    } else {
      FoldedUnbounded(e);
    }
  }

  /** So folding a nest gives the machine value of what the nest is worth over the integers. */
  lemma NestIsMachineValue(ty: Type, pointerWidth: nat, e: Expr)
    requires ty.Valid() && pointerWidth > 0 && e.Node?
    ensures MachineValue(ty, pointerWidth, Exact(e), Folded(ShapeOf(ty, pointerWidth), e))
  {
    FoldingIsMachineArithmetic(ShapeOf(ty, pointerWidth), e);
    WrapIsMachineValue(ty, pointerWidth, Exact(e));
  }

  lemma {:induction false} FoldedUnbounded(e: Expr)
    ensures Folded(NoWrap, e) == Exact(e)
  {
    if e.Node? {
      FoldedUnbounded(e.lhs);
      FoldedUnbounded(e.rhs);
    }
  }
}
