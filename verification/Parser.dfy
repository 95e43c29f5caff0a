/**
 * The Pratt expression parser: binding powers, prefix-operator layers and groups. A primary expression other than a
 * group is one `Atom` token.
 */
module Parser {
  import opened Options

  // -----------------------------------------------------------------------------------------------
  // Tokens, trees and operators
  // -----------------------------------------------------------------------------------------------

  datatype Token =
    | Atom(id: nat)
    | Plus | PlusPipe | Minus | MinusPipe
    | Star | StarPipe | Slash | Percent
    | LtLt | LtLtPipe | LtLtPercent | GtGt | GtGtPipe | GtGtPercent
    | Lt | LtEq | Gt | GtEq
    | Amp | EqEq | BangEq | Caret | Pipe | KwAnd | KwOr
    | Bang | Tilde | KwTry
    | Eq | LParen | RParen
    | Other(id: nat)
    | Eof

  datatype InfixKind =
    | Add | AddSat | Sub | SubSat | Mul | MulSat | Div | Rem
    | Shl | ShlSat | ShlWrap | Shr | ShrSat | ShrWrap
    | BitAnd | BitOr | BitXor | Less | Lte | Greater | Gte | BoolAnd | BoolOr | Equal | Neq

  datatype PrefixKind = Neg | Pos | Not | BitNot | AddressOf | Try

  datatype Expr =
    | Leaf(id: nat)
    | Un(op: PrefixKind, arg: Expr)
    | Bin(kind: InfixKind, lhs: Expr, rhs: Expr)
    | Group(inner: Expr)

  datatype InfixOp = InfixOp(lbp: nat, rbp: nat, kind: InfixKind)

  function Left(lbp: nat, kind: InfixKind): InfixOp {
    InfixOp(lbp, lbp + 1, kind)
  }

  /** The operator an infix token stands for. */
  function KindOf(t: Token): Option<InfixKind> {
    match t
    case Plus => Some(Add)
    case PlusPipe => Some(AddSat)
    case Minus => Some(Sub)
    case MinusPipe => Some(SubSat)
    case Star => Some(Mul)
    case StarPipe => Some(MulSat)
    case Slash => Some(Div)
    case Percent => Some(Rem)
    case Amp => Some(BitAnd)
    case Pipe => Some(BitOr)
    case Caret => Some(BitXor)
    case Lt => Some(Less)
    case LtEq => Some(Lte)
    case Gt => Some(Greater)
    case GtEq => Some(Gte)
    case KwAnd => Some(BoolAnd)
    case KwOr => Some(BoolOr)
    case EqEq => Some(Equal)
    case BangEq => Some(Neq)
    case LtLt => Some(Shl)
    case LtLtPipe => Some(ShlSat)
    case LtLtPercent => Some(ShlWrap)
    case GtGt => Some(Shr)
    case GtGtPipe => Some(ShrSat)
    case GtGtPercent => Some(ShrWrap)
    case _ => None
  }

  /** Left binding power of an operator. */
  function Bp(k: InfixKind): nat {
    match k
    case Add => 50 case AddSat => 50 case Sub => 50 case SubSat => 50
    case Mul => 60 case MulSat => 60 case Div => 60 case Rem => 60
    case Shl => 40 case ShlSat => 40 case ShlWrap => 40 case Shr => 40 case ShrSat => 40 case ShrWrap => 40
    case Less => 35 case Lte => 35 case Greater => 35 case Gte => 35
    case BitAnd => 30 case Equal => 30 case Neq => 30
    case BitXor => 25 case BitOr => 20 case BoolAnd => 15 case BoolOr => 10
  }

  /** `infix_op`: every operator is left-associative, with right binding power one above the left one. */
  function Infix(t: Token): Option<InfixOp> {
    match KindOf(t)
    case Some(k) => Some(Left(Bp(k), k))
    case None => None
  }

  function Prefix(t: Token): Option<PrefixKind> {
    match t
    case Minus => Some(Neg)
    case Plus => Some(Pos)
    case Bang => Some(Not)
    case Tilde => Some(BitNot)
    case Amp => Some(AddressOf)
    case KwTry => Some(Try)
    case _ => None
  }

  function InfixToken(k: InfixKind): Token {
    match k
    case Add => Plus case AddSat => PlusPipe case Sub => Minus case SubSat => MinusPipe
    case Mul => Star case MulSat => StarPipe case Div => Slash case Rem => Percent
    case Shl => LtLt case ShlSat => LtLtPipe case ShlWrap => LtLtPercent
    case Shr => GtGt case ShrSat => GtGtPipe case ShrWrap => GtGtPercent
    case BitAnd => Amp case BitOr => Pipe case BitXor => Caret
    case Less => Lt case Lte => LtEq case Greater => Gt case Gte => GtEq
    case BoolAnd => KwAnd case BoolOr => KwOr case Equal => EqEq case Neq => BangEq
  }

  function PrefixToken(k: PrefixKind): Token {
    match k
    case Neg => Minus case Pos => Plus case Not => Bang case BitNot => Tilde case AddressOf => Amp case Try => KwTry
  }

  lemma BpBound(k: InfixKind)
    ensures 0 < Bp(k) <= 60
  {}

  lemma KindRoundTrip(k: InfixKind)
    ensures KindOf(InfixToken(k)) == Some(k)
  {}

  /** Every operator kind has its own token, which is neither `=` nor one that can begin an operand's group. */
  lemma KindToken(k: InfixKind)
    ensures Infix(InfixToken(k)) == Some(Left(Bp(k), k)) && Bp(k) <= 60
    ensures !InfixToken(k).Eof? && !InfixToken(k).Eq? && !InfixToken(k).LParen? && !InfixToken(k).Atom?
  {
    hide Bp;
    BpBound(k);
    KindRoundTrip(k);
  }

  lemma KindsToken(t: Token, k: InfixKind)
    requires KindOf(t) == Some(k)
    ensures t == InfixToken(k)
  {}

  lemma TokenKind(t: Token)
    requires Infix(t).Some?
    ensures var op := Infix(t).value; t == InfixToken(op.kind) && op == Left(Bp(op.kind), op.kind)
  {
    hide Bp, KindOf, InfixToken;
    KindsToken(t, Infix(t).value.kind);
  }

  lemma PrefixTokens(k: PrefixKind, t: Token)
    ensures Prefix(PrefixToken(k)) == Some(k)
    ensures Prefix(t).Some? ==> t == PrefixToken(Prefix(t).value)
  {}

  // -----------------------------------------------------------------------------------------------
  // What the parser computes, as a function of the tokens and the offset
  // -----------------------------------------------------------------------------------------------

  /** `Ok(Some(expr))` with the new offset, `Ok(None)`, or an error. */
  datatype Outcome = Parsed(expr: Expr, next: nat) | Nothing | Failed

  predicate Stream(toks: seq<Token>) {
    |toks| > 0 && toks[|toks| - 1].Eof?
  }

  /** The operator at i takes part in an expression of this least binding power. */
  predicate Continues(toks: seq<Token>, i: nat, minBp: nat)
    requires Stream(toks) && i < |toks|
  {
    Infix(toks[i]).Some? && Infix(toks[i]).value.lbp >= minBp && !toks[i + 1].Eq?
  }

  function Precedence(toks: seq<Token>, i: nat, minBp: nat): (r: Outcome)
    requires Stream(toks) && i < |toks|
    ensures r.Parsed? ==> i < r.next < |toks|
    decreases |toks| - i, 3, 0
  {
    match PrefixExpr(toks, i)
    case Parsed(lhs, j) => Operators(toks, lhs, j, minBp)
    case other => other
  }

  /** The rest of the binding-power loop with this left operand. */
  function Operators(toks: seq<Token>, lhs: Expr, i: nat, minBp: nat): (r: Outcome)
    requires Stream(toks) && i < |toks|
    ensures r.Parsed? ==> i <= r.next < |toks|
    ensures !r.Nothing?
    decreases |toks| - i, 0, 0
  {
    if Continues(toks, i, minBp) then
      var op := Infix(toks[i]).value;
      match Precedence(toks, i + 1, op.rbp)
      case Parsed(rhs, j) => Operators(toks, Bin(op.kind, lhs, rhs), j, minBp)
      case _ => Failed
    else Parsed(lhs, i)
  }

  function PrefixExpr(toks: seq<Token>, i: nat): (r: Outcome)
    requires Stream(toks) && i < |toks|
    ensures r.Parsed? ==> i < r.next < |toks|
    decreases |toks| - i, 2, 0
  {
    match Prefix(toks[i])
    case Some(op) =>
      (match PrefixExpr(toks, i + 1)
       case Parsed(e, j) => Parsed(Un(op, e), j)
       case _ => Failed)
    case None => Primary(toks, i)
  }

  function Primary(toks: seq<Token>, i: nat): (r: Outcome)
    requires Stream(toks) && i < |toks|
    ensures r.Parsed? ==> i < r.next < |toks|
    decreases |toks| - i, 1, 0
  {
    match toks[i]
    case Atom(id) => Parsed(Leaf(id), i + 1)
    case LParen =>
      var depth := Opened(toks, i);
      (match Precedence(toks, i + depth, 0)
       case Parsed(e, j) => Closed(toks, j, e, depth)
       case _ => Failed)
    case _ => Nothing
  }

  /** How many `(` stand in a row. */
  function Opened(toks: seq<Token>, i: nat): (n: nat)
    requires Stream(toks) && i < |toks|
    ensures i + n < |toks| && !toks[i + n].LParen?
    ensures forall k :: i <= k < i + n ==> toks[k].LParen?
    ensures toks[i].LParen? ==> n > 0
    decreases |toks| - i
  {
    if toks[i].LParen? then 1 + Opened(toks, i + 1) else 0
  }

  /** One `)` for each of the n opened groups. */
  function Closed(toks: seq<Token>, i: nat, e: Expr, n: nat): (r: Outcome)
    requires Stream(toks) && i < |toks|
    ensures r.Parsed? ==> i <= r.next < |toks|
    ensures !r.Nothing?
    decreases n
  {
    if n == 0 then Parsed(e, i)
    else if toks[i].RParen? then Closed(toks, i + 1, Group(e), n - 1)
    else Failed
  }

  // -----------------------------------------------------------------------------------------------
  // Which token sequences are which trees
  // -----------------------------------------------------------------------------------------------

  /** The tokens of a tree, in order. */
  function Yield(e: Expr): (s: seq<Token>)
    ensures |s| == Len(e)
  {
    match e
    case Leaf(id) => [Atom(id)]
    case Un(op, arg) => [PrefixToken(op)] + Yield(arg)
    case Bin(k, l, r) => Yield(l) + ([InfixToken(k)] + Yield(r))
    case Group(inner) => [LParen] + (Yield(inner) + [RParen])
  }

  function Len(e: Expr): (n: nat)
    ensures n > 0
  {
    match e
    case Leaf(_) => 1
    case Un(_, arg) => 1 + Len(arg)
    case Bin(_, l, r) => Len(l) + 1 + Len(r)
    case Group(inner) => Len(inner) + 2
  }

  /** Binding power at the top of a tree; a tree without an infix operator on top binds tighter than any operator. */
  function TopBp(e: Expr): nat {
    if e.Bin? then Bp(e.kind) else 61
  }

  /** Least binding power with which the right operand at the top was parsed. */
  function RightBp(e: Expr): nat {
    if e.Bin? then Bp(e.kind) + 1 else 61
  }

  predicate StartsWithParen(e: Expr) {
    match e
    case Leaf(_) => false
    case Un(_, _) => false
    case Bin(_, l, _) => StartsWithParen(l)
    case Group(_) => true
  }

  /**
   * The trees the grammar allows: operators nest by binding power and to the left, a prefix operator takes no infix
   * expression, and the content of a group may begin with `(` only when it is itself a group.
   */
  predicate WellFormed(e: Expr) {
    match e
    case Leaf(_) => true
    case Un(_, arg) => WellFormed(arg) && !arg.Bin?
    case Bin(k, l, r) => WellFormed(l) && WellFormed(r) && TopBp(l) >= Bp(k) && TopBp(r) > Bp(k)
    case Group(inner) => WellFormed(inner) && (StartsWithParen(inner) ==> inner.Group?)
  }

  /** The tree's tokens stand at i, stated by recursion on the tree. */
  predicate Spells(toks: seq<Token>, i: nat, e: Expr)
    decreases e
  {
    match e
    case Leaf(id) => i < |toks| && toks[i] == Atom(id)
    case Un(op, arg) => i < |toks| && toks[i] == PrefixToken(op) && Spells(toks, i + 1, arg)
    case Bin(k, l, r) =>
      var m := i + Len(l);
      Spells(toks, i, l) && m < |toks| && toks[m] == InfixToken(k) && Spells(toks, m + 1, r)
    case Group(inner) =>
      var m := i + 1 + Len(inner);
      i < |toks| && toks[i].LParen? && Spells(toks, i + 1, inner) && m < |toks| && toks[m].RParen?
  }

  /** The tokens from i to j are those of this well-formed tree. */
  predicate Reads(toks: seq<Token>, i: nat, e: Expr, j: nat) {
    WellFormed(e) && Spells(toks, i, e) && j == i + Len(e)
  }

  /** s stands in the tokens at i. */
  predicate Stands(toks: seq<Token>, i: nat, s: seq<Token>) {
    i + |s| <= |toks| && toks[i..i + |s|] == s
  }

  lemma StandsConcat(toks: seq<Token>, i: nat, a: seq<Token>, b: seq<Token>)
    ensures Stands(toks, i, a + b) <==> Stands(toks, i, a) && Stands(toks, i + |a|, b)
  {
    if i + |a| + |b| <= |toks| {
      var x, y, both := toks[i..i + |a|], toks[i + |a|..i + |a| + |b|], toks[i..i + |a + b|];
      assert both == x + y;
      assert both[..|a|] == x && both[|a|..] == y && (a + b)[..|a|] == a && (a + b)[|a|..] == b;
    }
  }

  lemma StandsOne(toks: seq<Token>, i: nat, t: Token)
    ensures Stands(toks, i, [t]) <==> i < |toks| && toks[i] == t
  {
    if i < |toks| {
      assert toks[i..i + 1] == [toks[i]];
    }
  }

  lemma StandsCons(toks: seq<Token>, i: nat, t: Token, b: seq<Token>)
    ensures Stands(toks, i, [t] + b) <==> i < |toks| && toks[i] == t && Stands(toks, i + 1, b)
  {
    StandsConcat(toks, i, [t], b);
    StandsOne(toks, i, t);
  }

  lemma SpellsBin(toks: seq<Token>, i: nat, k: InfixKind, l: Expr, r: Expr)
    requires Spells(toks, i, l) <==> Stands(toks, i, Yield(l))
    requires Spells(toks, i + Len(l) + 1, r) <==> Stands(toks, i + Len(l) + 1, Yield(r))
    ensures Spells(toks, i, Bin(k, l, r)) <==> Stands(toks, i, Yield(Bin(k, l, r)))
  {
    hide Infix, KindOf, InfixToken, Stands;
    StandsCons(toks, i + Len(l), InfixToken(k), Yield(r));
    StandsConcat(toks, i, Yield(l), [InfixToken(k)] + Yield(r));
  }

  lemma SpellsGroup(toks: seq<Token>, i: nat, inner: Expr)
    requires Spells(toks, i + 1, inner) <==> Stands(toks, i + 1, Yield(inner))
    ensures Spells(toks, i, Group(inner)) <==> Stands(toks, i, Yield(Group(inner)))
  {
    hide Infix, KindOf, InfixToken, Stands;
    StandsOne(toks, i + 1 + Len(inner), RParen);
    StandsConcat(toks, i + 1, Yield(inner), [RParen]);
    StandsCons(toks, i, LParen, Yield(inner) + [RParen]);
  }

  lemma {:induction false} SpellsYield(toks: seq<Token>, i: nat, e: Expr)
    ensures Spells(toks, i, e) <==> Stands(toks, i, Yield(e))
    decreases e
  {
    hide Infix, KindOf, InfixToken, PrefixToken, Bp, Stands, Len;
    match e
    case Leaf(id) =>
      StandsOne(toks, i, Atom(id));
    case Un(op, arg) =>
      SpellsYield(toks, i + 1, arg);
      StandsCons(toks, i, PrefixToken(op), Yield(arg));
    case Bin(k, l, r) =>
      SpellsYield(toks, i, l);
      SpellsYield(toks, i + Len(l) + 1, r);
      SpellsBin(toks, i, k, l, r);
    case Group(inner) =>
      SpellsYield(toks, i + 1, inner);
      SpellsGroup(toks, i, inner);
  }

  lemma {:induction false} SpellsFits(toks: seq<Token>, i: nat, e: Expr)
    requires Spells(toks, i, e)
    ensures i + Len(e) <= |toks|
    ensures !toks[i].Eq? && (toks[i].LParen? <==> StartsWithParen(e))
    decreases e
  {
    match e
    case Leaf(_) =>
    case Un(op, arg) => SpellsFits(toks, i + 1, arg);
    case Bin(_, l, r) =>
      SpellsFits(toks, i, l);
      SpellsFits(toks, i + Len(l) + 1, r);
    case Group(inner) => SpellsFits(toks, i + 1, inner);
  }

  // -----------------------------------------------------------------------------------------------
  // Every successful parse is well formed and consumes exactly its yield
  // -----------------------------------------------------------------------------------------------

  lemma {:induction false} PrecedenceSound(toks: seq<Token>, i: nat, minBp: nat)
    requires Stream(toks) && i < |toks| && minBp <= 61 && Precedence(toks, i, minBp).Parsed?
    ensures var r := Precedence(toks, i, minBp);
            && Reads(toks, i, r.expr, r.next) && TopBp(r.expr) >= minBp
            && !Continues(toks, r.next, minBp) && !Continues(toks, r.next, RightBp(r.expr))
    decreases |toks| - i, 3, 0
  {
    PrefixSound(toks, i);
    var lhs := PrefixExpr(toks, i);
    NoInfixPast(toks, lhs.next);
    OperatorsSound(toks, i, lhs.expr, lhs.next, minBp);
  }

  lemma NoInfixPast(toks: seq<Token>, i: nat)
    requires Stream(toks) && i < |toks|
    ensures !Continues(toks, i, 61)
  {
    if Infix(toks[i]).Some? {
      TokenKind(toks[i]);
      KindToken(Infix(toks[i]).value.kind);
    }
  }

  lemma {:induction false} OperatorsSound(toks: seq<Token>, start: nat, lhs: Expr, i: nat, minBp: nat)
    requires Stream(toks) && start < i < |toks| && minBp <= 61 && Operators(toks, lhs, i, minBp).Parsed?
    requires Reads(toks, start, lhs, i) && TopBp(lhs) >= minBp && !Continues(toks, i, RightBp(lhs))
    ensures var r := Operators(toks, lhs, i, minBp);
            && Reads(toks, start, r.expr, r.next) && TopBp(r.expr) >= minBp
            && !Continues(toks, r.next, minBp) && !Continues(toks, r.next, RightBp(r.expr))
    decreases |toks| - i, 0, 0
  {
    hide KindOf, InfixToken, Bp;
    if Continues(toks, i, minBp) {
      var op := Infix(toks[i]).value;
      TokenKind(toks[i]);
      KindToken(op.kind);
      PrecedenceSound(toks, i + 1, op.rbp);
      var rhs := Precedence(toks, i + 1, op.rbp);
      JoinReads(toks, start, lhs, i, op.kind, rhs.expr, rhs.next);
      OperatorsSound(toks, start, Bin(op.kind, lhs, rhs.expr), rhs.next, minBp);
    }
  }

  lemma JoinReads(toks: seq<Token>, start: nat, l: Expr, i: nat, k: InfixKind, r: Expr, j: nat)
    requires Reads(toks, start, l, i) && i < |toks| && toks[i] == InfixToken(k) && Reads(toks, i + 1, r, j)
    requires TopBp(l) >= Bp(k) && TopBp(r) > Bp(k)
    ensures Reads(toks, start, Bin(k, l, r), j)
  {
    hide Infix, KindOf, InfixToken, Bp;
  }

  lemma {:induction false} PrefixSound(toks: seq<Token>, i: nat)
    requires Stream(toks) && i < |toks| && PrefixExpr(toks, i).Parsed?
    ensures var r := PrefixExpr(toks, i); Reads(toks, i, r.expr, r.next) && !r.expr.Bin?
    decreases |toks| - i, 2, 0
  {
    if Prefix(toks[i]).Some? {
      PrefixTokens(Neg, toks[i]);
      PrefixSound(toks, i + 1);
    } else {
      PrimarySound(toks, i);
    }
  }

  lemma {:induction false} PrimarySound(toks: seq<Token>, i: nat)
    requires Stream(toks) && i < |toks| && Primary(toks, i).Parsed?
    ensures var r := Primary(toks, i); Reads(toks, i, r.expr, r.next) && !r.expr.Bin?
    decreases |toks| - i, 1, 0
  {
    if toks[i].LParen? {
      var n := Opened(toks, i);
      PrecedenceSound(toks, i + n, 0);
      var r := Precedence(toks, i + n, 0);
      SpellsFits(toks, i + n, r.expr);
      ClosedSound(toks, i, r.expr, r.next, n);
    }
  }

  /** After n opened groups, the content e stands before j and the parser closes the groups one by one. */
  lemma {:induction false} ClosedSound(toks: seq<Token>, i: nat, e: Expr, j: nat, n: nat)
    requires Stream(toks) && i + n < |toks| && j < |toks| && Reads(toks, i + n, e, j)
    requires forall k :: i <= k < i + n ==> toks[k].LParen?
    requires StartsWithParen(e) ==> e.Group?
    requires Closed(toks, j, e, n).Parsed?
    ensures var r := Closed(toks, j, e, n); Reads(toks, i, r.expr, r.next) && (n > 0 ==> r.expr.Group?)
    decreases n
  {
    if n > 0 {
      ClosedSound(toks, i, Group(e), j + 1, n - 1);
    }
  }

  // -----------------------------------------------------------------------------------------------
  // Every well-formed tree is parsed back
  // -----------------------------------------------------------------------------------------------

  /** Parsing a tree's tokens brings the loop to the point after it, unless an operator follows that binds into it. */
  lemma {:induction false} PrecedenceReads(toks: seq<Token>, i: nat, e: Expr, j: nat, minBp: nat)
    requires Stream(toks) && Reads(toks, i, e, j) && j < |toks|
    requires TopBp(e) >= minBp && !Continues(toks, j, RightBp(e))
    ensures Precedence(toks, i, minBp) == Operators(toks, e, j, minBp)
    decreases Len(e), 2
  {
    hide Precedence, Operators, PrefixExpr, KindOf, Infix;
    if e.Bin? {
      var m := i + Len(e.lhs);
      StopsAtToken(toks, m, e.kind, RightBp(e.lhs));
      PrecedenceReads(toks, i, e.lhs, m, minBp);
      SpellsFits(toks, m + 1, e.rhs);
      StopsLater(toks, j, RightBp(e), RightBp(e.rhs));
      PrecedenceReads(toks, m + 1, e.rhs, j, Bp(e.kind) + 1);
      OperatorsStep(toks, e.lhs, m, minBp, e.kind, e.rhs, j);
    } else {
      PrefixReads(toks, i, e, j);
      PrecedenceStart(toks, i, e, j, minBp);
    }
  }

  lemma PrecedenceStart(toks: seq<Token>, i: nat, e: Expr, j: nat, minBp: nat)
    requires Stream(toks) && i < |toks| && j < |toks| && PrefixExpr(toks, i) == Parsed(e, j)
    ensures Precedence(toks, i, minBp) == Operators(toks, e, j, minBp)
  {}

  lemma StopsLater(toks: seq<Token>, i: nat, low: nat, high: nat)
    requires Stream(toks) && i < |toks| && !Continues(toks, i, low) && low <= high
    ensures !Continues(toks, i, high)
  {}

  lemma StopsAtToken(toks: seq<Token>, i: nat, k: InfixKind, minBp: nat)
    requires Stream(toks) && i < |toks| && toks[i] == InfixToken(k) && Bp(k) < minBp
    ensures !Continues(toks, i, minBp)
  {
    KindToken(k);
  }

  lemma OperatorsStep(toks: seq<Token>, l: Expr, i: nat, minBp: nat, k: InfixKind, r: Expr, j: nat)
    requires Stream(toks) && i + 1 < |toks| && toks[i] == InfixToken(k) && Bp(k) >= minBp && !toks[i + 1].Eq?
    requires j < |toks| && Precedence(toks, i + 1, Bp(k) + 1) == Operators(toks, r, j, Bp(k) + 1)
    requires !Continues(toks, j, Bp(k) + 1)
    ensures Operators(toks, l, i, minBp) == Operators(toks, Bin(k, l, r), j, minBp)
  {
    KindToken(k);
  }

  lemma {:induction false} PrefixReads(toks: seq<Token>, i: nat, e: Expr, j: nat)
    requires Stream(toks) && Reads(toks, i, e, j) && j < |toks| && !e.Bin?
    ensures PrefixExpr(toks, i) == Parsed(e, j)
    decreases Len(e), 1
  {
    match e
    case Leaf(id) =>
    case Un(op, arg) =>
      PrefixTokens(op, toks[i]);
      PrefixReads(toks, i + 1, arg, j);
    case Group(inner) =>
      GroupReads(toks, i, e, j);
  }

  /** The content below all the groups a tree begins with, and their number. */
  function Core(e: Expr): (c: Expr)
    ensures !c.Group? && Len(c) + 2 * Depth(e) == Len(e)
  {
    if e.Group? then Core(e.inner) else e
  }

  function Depth(e: Expr): nat {
    if e.Group? then 1 + Depth(e.inner) else 0
  }

  /** n groups around a content. */
  function Wrap(c: Expr, n: nat): Expr
    decreases n
  {
    if n == 0 then c else Wrap(Group(c), n - 1)
  }

  lemma {:induction false} WrapOuter(c: Expr, n: nat)
    ensures Wrap(Group(c), n) == Group(Wrap(c, n))
    decreases n
  {
    if n > 0 {
      WrapOuter(Group(c), n - 1);
    }
  }

  lemma {:induction false} WrapCore(e: Expr)
    ensures Wrap(Core(e), Depth(e)) == e
  {
    if e.Group? {
      WrapCore(e.inner);
      WrapOuter(Core(e), Depth(e.inner));
    }
  }

  /** A tree in n groups: the parentheses around its core. */
  lemma {:induction false} UnwrapReads(toks: seq<Token>, i: nat, e: Expr, j: nat)
    requires Reads(toks, i, e, j)
    ensures Depth(e) <= j <= |toks| && Reads(toks, i + Depth(e), Core(e), j - Depth(e))
    ensures forall k :: i <= k < i + Depth(e) ==> toks[k].LParen?
    ensures forall k :: j - Depth(e) <= k < j ==> toks[k].RParen?
    ensures e.Group? ==> !StartsWithParen(Core(e))
    decreases e
  {
    hide KindOf, Bp, InfixToken, Yield;
    SpellsFits(toks, i, e);
    if e.Group? {
      UnwrapReads(toks, i + 1, e.inner, j - 1);
    }
  }

  lemma {:induction false} OpenedCount(toks: seq<Token>, i: nat, n: nat)
    requires Stream(toks) && i + n < |toks| && !toks[i + n].LParen?
    requires forall k :: i <= k < i + n ==> toks[k].LParen?
    ensures Opened(toks, i) == n
    decreases n
  {
    if n > 0 {
      OpenedCount(toks, i + 1, n - 1);
    }
  }

  lemma {:induction false} ClosedWraps(toks: seq<Token>, i: nat, c: Expr, n: nat)
    requires Stream(toks) && i + n < |toks|
    requires forall k :: i <= k < i + n ==> toks[k].RParen?
    ensures Closed(toks, i, c, n) == Parsed(Wrap(c, n), i + n)
    decreases n
  {
    if n > 0 {
      ClosedWraps(toks, i + 1, Group(c), n - 1);
    }
  }

  lemma {:induction false} GroupReads(toks: seq<Token>, i: nat, e: Expr, j: nat)
    requires Stream(toks) && Reads(toks, i, e, j) && j < |toks| && e.Group?
    ensures PrefixExpr(toks, i) == Parsed(e, j)
    decreases Len(e), 0
  {
    hide KindOf, Bp, InfixToken, Yield, Precedence, Operators, PrefixExpr, Opened, Closed;
    var c, n := Core(e), Depth(e);
    UnwrapReads(toks, i, e, j);
    SpellsFits(toks, i + n, c);
    OpenedCount(toks, i, n);
    EndStops(toks, j - n, RightBp(c));
    PrecedenceReads(toks, i + n, c, j - n, 0);
    ClosedWraps(toks, j - n, c, n);
    WrapCore(e);
    GroupStep(toks, i, n, c, j - n, e, j);
  }

  lemma EndStops(toks: seq<Token>, i: nat, minBp: nat)
    requires Stream(toks) && i < |toks| && (toks[i].RParen? || toks[i].Eof?)
    ensures !Continues(toks, i, minBp)
  {}

  lemma GroupStep(toks: seq<Token>, i: nat, n: nat, c: Expr, m: nat, e: Expr, j: nat)
    requires Stream(toks) && i < |toks| && toks[i].LParen? && Opened(toks, i) == n
    requires m < |toks| && Precedence(toks, i + n, 0) == Operators(toks, c, m, 0)
    requires (n > 0 ==> toks[m].RParen?) && Closed(toks, m, c, n) == Parsed(e, j)
    ensures PrefixExpr(toks, i) == Parsed(e, j)
  {
    assert Operators(toks, c, m, 0) == Parsed(c, m);
    assert Primary(toks, i) == Parsed(e, j);
  }

  /**
   * The parser's meaning: it returns tree e and stops at j exactly when the tokens up to j are those of a well-formed
   * tree e that binds tightly enough, and no operator follows that would be taken into e or joined to it.
   */
  lemma ParsesIff(toks: seq<Token>, i: nat, minBp: nat, e: Expr, j: nat)
    requires Stream(toks) && i < |toks| && minBp <= 61
    ensures Precedence(toks, i, minBp) == Parsed(e, j) <==>
              && i <= j < |toks| && toks[i..j] == Yield(e) && WellFormed(e) && TopBp(e) >= minBp
              && !Continues(toks, j, minBp) && !Continues(toks, j, RightBp(e))
  {
    SpellsYield(toks, i, e);
    if Precedence(toks, i, minBp) == Parsed(e, j) {
      PrecedenceSound(toks, i, minBp);
    }
    if i <= j < |toks| && toks[i..j] == Yield(e) && WellFormed(e) && TopBp(e) >= minBp
       && !Continues(toks, j, minBp) && !Continues(toks, j, RightBp(e)) {
      assert j == i + Len(e);
      PrecedenceReads(toks, i, e, j, minBp);
    }
  }

  // -----------------------------------------------------------------------------------------------
  // Flat sequences of operands and operators
  // -----------------------------------------------------------------------------------------------

  predicate Flat(items: seq<Expr>, ops: seq<InfixKind>) {
    |items| == |ops| + 1 && forall n :: 0 <= n < |items| ==> WellFormed(items[n]) && !items[n].Bin?
  }

  /** The tokens of operands lo to hi with the operators between them. */
  function FlatTokens(items: seq<Expr>, ops: seq<InfixKind>, lo: nat, hi: nat): seq<Token>
    requires lo <= hi <= |ops| && |items| == |ops| + 1
    decreases hi - lo
  {
    if lo == hi then Yield(items[lo])
    else Yield(items[lo]) + ([InfixToken(ops[lo])] + FlatTokens(items, ops, lo + 1, hi))
  }

  /** The operators of the language with their tokens, by level, the weakest first. */
  function OperatorsAt(level: nat): seq<(Token, InfixKind)> {
    match level
    case 0 => [(KwOr, BoolOr)]
    case 1 => [(KwAnd, BoolAnd)]
    case 2 => [(Pipe, BitOr)]
    case 3 => [(Caret, BitXor)]
    case 4 => [(Amp, BitAnd), (EqEq, Equal), (BangEq, Neq)]
    case 5 => [(Lt, Less), (LtEq, Lte), (Gt, Greater), (GtEq, Gte)]
    case 6 => [(LtLt, Shl), (LtLtPipe, ShlSat), (LtLtPercent, ShlWrap),
               (GtGt, Shr), (GtGtPipe, ShrSat), (GtGtPercent, ShrWrap)]
    case 7 => [(Plus, Add), (PlusPipe, AddSat), (Minus, Sub), (MinusPipe, SubSat)]
    case 8 => [(Star, Mul), (StarPipe, MulSat), (Slash, Div), (Percent, Rem)]
    case _ => []
  }

  /** The binding power all operators of a level share; it grows with the level. */
  function LevelBp(level: nat): nat {
    match level
    case 0 => 10 case 1 => 15 case 2 => 20 case 3 => 25 case 4 => 30
    case 5 => 35 case 6 => 40 case 7 => 50 case _ => 60
  }

  lemma LevelBpGrows(p: nat, q: nat)
    requires p < 9 && q < 9
    ensures p < q <==> LevelBp(p) < LevelBp(q)
  {}

  lemma ListedKind(level: nat, x: nat)
    requires x < |OperatorsAt(level)|
    ensures level < 9 && KindOf(OperatorsAt(level)[x].0) == Some(OperatorsAt(level)[x].1)
  {}

  lemma ListedBp(level: nat, x: nat)
    requires x < |OperatorsAt(level)|
    ensures Bp(OperatorsAt(level)[x].1) == LevelBp(level)
  {}

  lemma LevelOperator(level: nat, t: Token, k: InfixKind)
    requires (t, k) in OperatorsAt(level)
    ensures level < 9 && KindOf(t) == Some(k) && InfixToken(k) == t && Bp(k) == LevelBp(level)
  {
    hide OperatorsAt, KindOf, InfixToken, Bp, LevelBp;
    var x :| 0 <= x < |OperatorsAt(level)| && OperatorsAt(level)[x] == (t, k);
    ListedKind(level, x);
    ListedBp(level, x);
    KindsToken(t, k);
  }

  ghost predicate OperatorToken(t: Token, k: InfixKind, level: nat) {
    (t, k) in OperatorsAt(level)
  }

  lemma FindLevel(k: InfixKind) returns (level: nat)
    ensures OperatorToken(InfixToken(k), k, level)
  {
    match k
    case BoolOr => level := 0; assert OperatorsAt(0)[0] == (KwOr, k);
    case BoolAnd => level := 1; assert OperatorsAt(1)[0] == (KwAnd, k);
    case BitOr => level := 2; assert OperatorsAt(2)[0] == (Pipe, k);
    case BitXor => level := 3; assert OperatorsAt(3)[0] == (Caret, k);
    case BitAnd => level := 4; assert OperatorsAt(4)[0] == (Amp, k);
    case Equal => level := 4; assert OperatorsAt(4)[1] == (EqEq, k);
    case Neq => level := 4; assert OperatorsAt(4)[2] == (BangEq, k);
    case Less => level := 5; assert OperatorsAt(5)[0] == (Lt, k);
    case Lte => level := 5; assert OperatorsAt(5)[1] == (LtEq, k);
    case Greater => level := 5; assert OperatorsAt(5)[2] == (Gt, k);
    case Gte => level := 5; assert OperatorsAt(5)[3] == (GtEq, k);
    case Shl => level := 6; assert OperatorsAt(6)[0] == (LtLt, k);
    case ShlSat => level := 6; assert OperatorsAt(6)[1] == (LtLtPipe, k);
    case ShlWrap => level := 6; assert OperatorsAt(6)[2] == (LtLtPercent, k);
    case Shr => level := 6; assert OperatorsAt(6)[3] == (GtGt, k);
    case ShrSat => level := 6; assert OperatorsAt(6)[4] == (GtGtPipe, k);
    case ShrWrap => level := 6; assert OperatorsAt(6)[5] == (GtGtPercent, k);
    case Add => level := 7; assert OperatorsAt(7)[0] == (Plus, k);
    case AddSat => level := 7; assert OperatorsAt(7)[1] == (PlusPipe, k);
    case Sub => level := 7; assert OperatorsAt(7)[2] == (Minus, k);
    case SubSat => level := 7; assert OperatorsAt(7)[3] == (MinusPipe, k);
    case Mul => level := 8; assert OperatorsAt(8)[0] == (Star, k);
    case MulSat => level := 8; assert OperatorsAt(8)[1] == (StarPipe, k);
    case Div => level := 8; assert OperatorsAt(8)[2] == (Slash, k);
    case Rem => level := 8; assert OperatorsAt(8)[3] == (Percent, k);
  }

  lemma HasLevel(k: InfixKind)
    ensures exists level: nat :: OperatorToken(InfixToken(k), k, level)
  {
    var level := FindLevel(k);
  }

  /** The level an operator is listed at. */
  ghost function Level(k: InfixKind): nat {
    HasLevel(k);
    var p: nat :| OperatorToken(InfixToken(k), k, p);
    p
  }

  lemma LevelListed(k: InfixKind)
    ensures OperatorToken(InfixToken(k), k, Level(k))
  {
    HasLevel(k);
  }

  /** The levels order the operators as their binding powers do. */
  lemma LevelOrder(k: InfixKind, l: InfixKind)
    ensures Level(k) < Level(l) <==> Bp(k) < Bp(l)
  {
    hide OperatorsAt, Bp, LevelBp, Level, InfixToken;
    LevelListed(k);
    LevelListed(l);
    LevelOperator(Level(k), InfixToken(k), k);
    LevelOperator(Level(l), InfixToken(l), l);
    LevelBpGrows(Level(k), Level(l));
  }

  /** The rightmost operator of the weakest level. */
  ghost function Weakest(ops: seq<InfixKind>, lo: nat, hi: nat): (k: nat)
    requires lo < hi <= |ops|
    ensures lo <= k < hi
    ensures forall n :: lo <= n < k ==> Level(ops[k]) <= Level(ops[n])
    ensures forall n :: k < n < hi ==> Level(ops[k]) < Level(ops[n])
    decreases hi - lo
  {
    if lo + 1 == hi then lo
    else
      var rest := Weakest(ops, lo + 1, hi);
      if Level(ops[lo]) < Level(ops[rest]) then lo else rest
  }

  /** The reference reading of operands lo to hi: split at the rightmost operator of the weakest level. */
  ghost function Reference(items: seq<Expr>, ops: seq<InfixKind>, lo: nat, hi: nat): Expr
    requires lo <= hi <= |ops| && |items| == |ops| + 1
    decreases hi - lo
  {
    if lo == hi then items[lo]
    else
      var k := Weakest(ops, lo, hi);
      Bin(ops[k], Reference(items, ops, lo, k), Reference(items, ops, k + 1, hi))
  }

  lemma {:induction false} FlatSplit(items: seq<Expr>, ops: seq<InfixKind>, lo: nat, hi: nat, k: nat)
    requires |items| == |ops| + 1 && lo <= k < hi <= |ops|
    ensures FlatTokens(items, ops, lo, hi) ==
            FlatTokens(items, ops, lo, k) + ([InfixToken(ops[k])] + FlatTokens(items, ops, k + 1, hi))
    decreases k - lo
  {
    hide Infix, KindOf, InfixToken, Bp, Yield;
    if lo < k {
      FlatSplit(items, ops, lo + 1, hi, k);
    }
  }

  lemma ReferenceJoin(items: seq<Expr>, ops: seq<InfixKind>, lo: nat, hi: nat, k: nat, l: Expr, r: Expr)
    requires |items| == |ops| + 1 && lo <= k < hi <= |ops| && WellFormed(l) && WellFormed(r)
    requires Yield(l) == FlatTokens(items, ops, lo, k) && Yield(r) == FlatTokens(items, ops, k + 1, hi)
    requires TopBp(l) >= Bp(ops[k]) && TopBp(r) > Bp(ops[k])
    ensures var e := Bin(ops[k], l, r);
            WellFormed(e) && Yield(e) == FlatTokens(items, ops, lo, hi) && TopBp(e) == Bp(ops[k])
  {
    hide Infix, KindOf, InfixToken, Bp, FlatTokens;
    FlatSplit(items, ops, lo, hi, k);
  }

  lemma FlatOne(items: seq<Expr>, ops: seq<InfixKind>, lo: nat)
    requires |items| == |ops| + 1 && lo <= |ops|
    ensures FlatTokens(items, ops, lo, lo) == Yield(items[lo])
  {}

  lemma WeakestBinds(ops: seq<InfixKind>, lo: nat, hi: nat)
    requires lo < hi <= |ops|
    ensures var k := Weakest(ops, lo, hi);
            && (forall n :: lo <= n < k ==> Bp(ops[k]) <= Bp(ops[n]))
            && forall n :: k < n < hi ==> Bp(ops[k]) < Bp(ops[n])
  {
    hide Bp, Level, Weakest;
    var k := Weakest(ops, lo, hi);
    forall n | lo <= n < hi ensures n < k ==> Bp(ops[k]) <= Bp(ops[n]) {
      LevelOrder(ops[n], ops[k]);
    }
    forall n | lo <= n < hi ensures k < n ==> Bp(ops[k]) < Bp(ops[n]) {
      LevelOrder(ops[k], ops[n]);
    }
  }

  lemma {:induction false} ReferenceReads(items: seq<Expr>, ops: seq<InfixKind>, lo: nat, hi: nat)
    requires Flat(items, ops) && lo <= hi <= |ops|
    ensures var e := Reference(items, ops, lo, hi);
            && WellFormed(e) && Yield(e) == FlatTokens(items, ops, lo, hi)
            && TopBp(e) == (if lo == hi then 61 else Bp(ops[Weakest(ops, lo, hi)]))
    decreases hi - lo
  {
    hide Infix, KindOf, InfixToken, Bp, Level, Weakest, Yield, WellFormed, FlatTokens;
    FlatOne(items, ops, lo);
    if lo < hi {
      var k := Weakest(ops, lo, hi);
      WeakestBinds(ops, lo, hi);
      ReferenceReads(items, ops, lo, k);
      ReferenceReads(items, ops, k + 1, hi);
      BpBound(ops[k]);
      ReferenceJoin(items, ops, lo, hi, k, Reference(items, ops, lo, k), Reference(items, ops, k + 1, hi));
    }
  }

  /** The binding-power loop reads every flat sequence in full and returns the reference tree. */
  lemma FlatParses(toks: seq<Token>, i: nat, items: seq<Expr>, ops: seq<InfixKind>, j: nat)
    requires Stream(toks) && Flat(items, ops) && i <= j < |toks| && toks[i..j] == FlatTokens(items, ops, 0, |ops|)
    requires !Continues(toks, j, 0)
    ensures Precedence(toks, i, 0) == Parsed(Reference(items, ops, 0, |ops|), j)
  {
    ReferenceReads(items, ops, 0, |ops|);
    StopsLater(toks, j, 0, RightBp(Reference(items, ops, 0, |ops|)));
    ParsesIff(toks, i, 0, Reference(items, ops, 0, |ops|), j);
  }

  /** Exactly the listed tokens are infix operators, each of the kind it is listed with. */
  lemma OperatorsListed(t: Token, k: InfixKind)
    ensures KindOf(t) == Some(k) <==> exists level: nat :: (t, k) in OperatorsAt(level)
  {
    if KindOf(t) == Some(k) {
      var level := FindLevel(k);
      KindsToken(t, k);
      assert (t, k) in OperatorsAt(level);
    }
    forall level: nat | (t, k) in OperatorsAt(level) ensures KindOf(t) == Some(k) {
      LevelOperator(level, t, k);
    }
  }

  lemma YieldBin(k: InfixKind, l: Expr, r: Expr)
    ensures Yield(Bin(k, l, r)) == Yield(l) + [InfixToken(k)] + Yield(r)
  {}

  /**
   * Two operators between three operands group to the left exactly when the first is listed at the level of the second
   * or at a stronger one.
   */
  lemma LevelsGroup(a: nat, b: nat, c: nat, p: nat, q: nat, x: nat, y: nat)
    requires x < |OperatorsAt(p)| && y < |OperatorsAt(q)|
    ensures var ((t1, k1), (t2, k2)) := (OperatorsAt(p)[x], OperatorsAt(q)[y]);
            Precedence([Atom(a), t1, Atom(b), t2, Atom(c), Eof], 0, 0) ==
              Parsed(
                if p >= q then Bin(k2, Bin(k1, Leaf(a), Leaf(b)), Leaf(c))
                else Bin(k1, Leaf(a), Bin(k2, Leaf(b), Leaf(c))),
                5)
  {
    var ((t1, k1), (t2, k2)) := (OperatorsAt(p)[x], OperatorsAt(q)[y]);
    hide OperatorsAt, LevelBp, Bp, Precedence, InfixToken, KindOf, Yield, Infix;
    LevelOperator(p, t1, k1);
    LevelOperator(q, t2, k2);
    LevelBpGrows(p, q);
    LevelBpGrows(q, p);
    BpBound(k1);
    BpBound(k2);
    YieldLeaf(a);
    YieldLeaf(b);
    YieldLeaf(c);
    var toks := [Atom(a), t1, Atom(b), t2, Atom(c), Eof];
    if p >= q {
      var e := Bin(k1, Leaf(a), Leaf(b));
      assert WellFormed(e) && WellFormed(Bin(k2, e, Leaf(c)));
      YieldBin(k1, Leaf(a), Leaf(b));
      YieldBin(k2, e, Leaf(c));
      assert toks[0..5] == Yield(Bin(k2, e, Leaf(c)));
      WholeParses(toks, Bin(k2, e, Leaf(c)));
    } else {
      var e := Bin(k2, Leaf(b), Leaf(c));
      assert WellFormed(e) && WellFormed(Bin(k1, Leaf(a), e));
      YieldBin(k2, Leaf(b), Leaf(c));
      YieldBin(k1, Leaf(a), e);
      assert toks[0..5] == Yield(Bin(k1, Leaf(a), e));
      WholeParses(toks, Bin(k1, Leaf(a), e));
    }
  }

  lemma YieldLeaf(a: nat)
    ensures Yield(Leaf(a)) == [Atom(a)]
  {}

  /** The prefix operators with their tokens. */
  const PREFIXES: seq<(Token, PrefixKind)> :=
    [(Minus, Neg), (Plus, Pos), (Bang, Not), (Tilde, BitNot), (Amp, AddressOf), (KwTry, Try)]

  lemma PrefixedTree(u: Token, f: PrefixKind, a: nat)
    requires u == PrefixToken(f)
    ensures WellFormed(Un(f, Leaf(a))) && Yield(Un(f, Leaf(a))) == [u, Atom(a)]
  {}

  /** A prefix operator binds tighter than any infix one, on either side of it. */
  lemma PrefixesBindTightest(a: nat, b: nat, x: nat, y: nat, p: nat, z: nat)
    requires x < |PREFIXES| && y < |PREFIXES| && z < |OperatorsAt(p)|
    ensures var ((u, f), (v, g), (t, k)) := (PREFIXES[x], PREFIXES[y], OperatorsAt(p)[z]);
            Precedence([u, Atom(a), t, v, Atom(b), Eof], 0, 0) ==
              Parsed(Bin(k, Un(f, Leaf(a)), Un(g, Leaf(b))), 5)
  {
    var ((u, f), (v, g), (t, k)) := (PREFIXES[x], PREFIXES[y], OperatorsAt(p)[z]);
    hide OperatorsAt, LevelBp, Bp, Precedence, InfixToken, KindOf, PrefixToken, Yield, Infix, Prefix;
    PrefixListedAt(x);
    PrefixListedAt(y);
    LevelOperator(p, t, k);
    BpBound(k);
    PrefixedTree(u, f, a);
    PrefixedTree(v, g, b);
    var toks, e := [u, Atom(a), t, v, Atom(b), Eof], Bin(k, Un(f, Leaf(a)), Un(g, Leaf(b)));
    assert WellFormed(e);
    YieldBin(k, Un(f, Leaf(a)), Un(g, Leaf(b)));
    assert toks[0..5] == Yield(e);
    WholeParses(toks, e);
  }

  lemma PrefixListedAt(x: nat)
    requires x < |PREFIXES|
    ensures PREFIXES[x].0 == PrefixToken(PREFIXES[x].1)
  {}

  /** A well-formed tree followed by the end of the tokens is parsed. */
  lemma WholeParses(toks: seq<Token>, e: Expr)
    requires |toks| == 6 && toks[5].Eof? && toks[0..5] == Yield(e) && WellFormed(e)
    ensures Precedence(toks, 0, 0) == Parsed(e, 5)
  {
    hide Precedence, Yield, WellFormed, Infix;
    EndStops(toks, 5, 0);
    EndStops(toks, 5, RightBp(e));
    ParsesIff(toks, 0, 0, e, 5);
  }

  /** There is no expression at i exactly when its token begins none; any other failure is an error. */
  lemma NothingIff(toks: seq<Token>, i: nat, minBp: nat)
    requires Stream(toks) && i < |toks|
    ensures Precedence(toks, i, minBp).Nothing? <==>
              !toks[i].Atom? && !toks[i].LParen? && forall x :: 0 <= x < |PREFIXES| ==> toks[i] != PREFIXES[x].0
  {
    hide Operators, Prefix;
    PrefixListed(toks[i]);
    match Prefix(toks[i])
    case Some(_) => assert !PrefixExpr(toks, i).Nothing?;
    case None => assert PrefixExpr(toks, i) == Primary(toks, i);
  }

  lemma PrefixListed(t: Token)
    ensures Prefix(t).None? <==> forall x :: 0 <= x < |PREFIXES| ==> t != PREFIXES[x].0
    ensures t.Atom? || t.LParen? ==> Prefix(t).None?
  {
    assert PREFIXES[0].0 == Minus && PREFIXES[1].0 == Plus && PREFIXES[2].0 == Bang;
    assert PREFIXES[3].0 == Tilde && PREFIXES[4].0 == Amp && PREFIXES[5].0 == KwTry;
  }

  /** An operator followed by `=` is left to the assignment that begins there. */
  lemma AssignmentStops(a: nat, b: nat, p: nat, x: nat)
    requires x < |OperatorsAt(p)|
    ensures Precedence([Atom(a), OperatorsAt(p)[x].0, Eq, Atom(b), Eof], 0, 0) == Parsed(Leaf(a), 1)
  {
    var toks := [Atom(a), OperatorsAt(p)[x].0, Eq, Atom(b), Eof];
    hide OperatorsAt, Precedence;
    assert toks[..1] == Yield(Leaf(a));
    ParsesIff(toks, 0, 0, Leaf(a), 1);
  }

  // -----------------------------------------------------------------------------------------------
  // Printing a tree and parsing it back
  // -----------------------------------------------------------------------------------------------

  /** The tree without its groups. */
  function Strip(e: Expr): (b: Expr)
    ensures !b.Group?
  {
    match e
    case Leaf(_) => e
    case Un(op, arg) => Un(op, Strip(arg))
    case Bin(k, l, r) => Bin(k, Strip(l), Strip(r))
    case Group(inner) => Strip(inner)
  }

  predicate NoGroups(e: Expr) {
    match e
    case Leaf(_) => true
    case Un(_, arg) => NoGroups(arg)
    case Bin(_, l, r) => NoGroups(l) && NoGroups(r)
    case Group(_) => false
  }

  predicate NeedsGroup(e: Expr, minBp: nat) {
    e.Bin? && Bp(e.kind) < minBp
  }

  /** Groups exactly where precedence demands them. */
  function Print(e: Expr, minBp: nat): Expr
    decreases e, 1
  {
    if NeedsGroup(e, minBp) then Group(PrintBody(e)) else PrintBody(e)
  }

  function PrintBody(e: Expr): Expr
    decreases e, 0
  {
    match e
    case Leaf(_) => e
    case Un(op, arg) => Un(op, Print(arg, 61))
    case Bin(k, l, r) => Bin(k, Print(l, Bp(k)), Print(r, Bp(k) + 1))
    case Group(_) => e
  }

  /** Written without a group around it, the tree still begins with `(`. */
  predicate OpensWithGroup(e: Expr) {
    e.Bin? && (NeedsGroup(e.lhs, Bp(e.kind)) || OpensWithGroup(e.lhs))
  }

  /**
   * Whether the tree can be written where this binding power is demanded: nothing that needs a group begins with
   * another group.
   */
  predicate Printable(e: Expr, minBp: nat) {
    && (NeedsGroup(e, minBp) ==> !OpensWithGroup(e))
    && match e
       case Leaf(_) => true
       case Un(_, arg) => Printable(arg, 61)
       case Bin(k, l, r) => Printable(l, Bp(k)) && Printable(r, Bp(k) + 1)
       case Group(_) => true
  }

  lemma {:induction false} PrintReads(e: Expr, minBp: nat)
    requires NoGroups(e) && Printable(e, minBp) && minBp <= 61
    ensures var p := Print(e, minBp);
            WellFormed(p) && TopBp(p) >= minBp && Strip(p) == e && p.Group? == NeedsGroup(e, minBp)
    ensures StartsWithParen(PrintBody(e)) <==> OpensWithGroup(e)
  {
    hide Infix, KindOf, InfixToken, Bp;
    match e
    case Leaf(_) =>
    case Un(op, arg) =>
      if arg.Bin? {
        BpBound(arg.kind);
      }
      PrintReads(arg, 61);
    case Bin(k, l, r) =>
      BpBound(k);
      PrintReads(l, Bp(k));
      PrintReads(r, Bp(k) + 1);
  }

  /** If the bare tree begins with a group, so does every grouped form of it. */
  lemma {:induction false} OpensForced(c: Expr)
    requires WellFormed(c) && !c.Group? && OpensWithGroup(Strip(c))
    ensures StartsWithParen(c)
  {
    hide Infix, KindOf, InfixToken, Bp;
    if !c.lhs.Group? && !NeedsGroup(Strip(c.lhs), Bp(c.kind)) {
      OpensForced(c.lhs);
    }
  }

  lemma {:induction false} CoreStrip(p: Expr)
    requires WellFormed(p)
    ensures Strip(Core(p)) == Strip(p) && WellFormed(Core(p)) && (p.Group? ==> !StartsWithParen(Core(p)))
    ensures !p.Group? ==> Core(p) == p
  {
    if p.Group? {
      CoreStrip(p.inner);
    }
  }

  /** Whatever groups are added, a tree that the grammar can write at all satisfies the condition. */
  lemma {:induction false} WrittenIsPrintable(p: Expr, minBp: nat)
    requires WellFormed(p) && TopBp(p) >= minBp && minBp <= 61
    ensures Printable(Strip(p), minBp) && NoGroups(Strip(p))
    decreases Len(p)
  {
    hide Infix, KindOf, InfixToken, Bp;
    CoreStrip(p);
    var c := Core(p);
    if NeedsGroup(Strip(p), minBp) && OpensWithGroup(Strip(p)) {
      OpensForced(c);
    }
    match c
    case Leaf(_) =>
    case Un(_, arg) => WrittenIsPrintable(arg, 61);
    case Bin(k, l, r) =>
      BpBound(k);
      WrittenIsPrintable(l, Bp(k));
      WrittenIsPrintable(r, Bp(k) + 1);
  }

  /** A tree printed with the groups precedence demands is parsed back, group by group, exactly when it is printable. */
  lemma PrintParses(e: Expr)
    requires NoGroups(e)
    ensures var toks := Yield(Print(e, 0)) + [Eof];
            Printable(e, 0) <==> Precedence(toks, 0, 0) == Parsed(Print(e, 0), |toks| - 1) && Strip(Print(e, 0)) == e
  {
    hide KindOf, Bp, InfixToken, Precedence;
    var p := Print(e, 0);
    var toks := Yield(p) + [Eof];
    assert toks[0..|toks| - 1] == Yield(p);
    EndStops(toks, |toks| - 1, 0);
    EndStops(toks, |toks| - 1, RightBp(p));
    ParsesIff(toks, 0, 0, p, |toks| - 1);
    if Printable(e, 0) {
      PrintReads(e, 0);
    }
    if WellFormed(p) && Strip(p) == e {
      WrittenIsPrintable(p, 0);
    }
  }

  /** No other way of writing helps: some tokens parse to the tree, groups aside, exactly when it is printable. */
  lemma ExpressibleIff(e: Expr)
    requires NoGroups(e)
    ensures Printable(e, 0) <==>
            exists toks: seq<Token>, i: nat ::
              Stream(toks) && i < |toks| && Precedence(toks, i, 0).Parsed? && Strip(Precedence(toks, i, 0).expr) == e
  {
    if Printable(e, 0) {
      PrintParses(e);
      assert Precedence(Yield(Print(e, 0)) + [Eof], 0, 0).Parsed?;
    }
    forall toks: seq<Token>, i: nat
      | Stream(toks) && i < |toks| && Precedence(toks, i, 0).Parsed? && Strip(Precedence(toks, i, 0).expr) == e
      ensures Printable(e, 0)
    {
      PrecedenceSound(toks, i, 0);
      WrittenIsPrintable(Precedence(toks, i, 0).expr, 0);
    }
  }

  /** `d * ((a + b) * c)` has no accepted spelling: its right operand needs a group that would begin with another. */
  lemma NestedOperandUnprintable()
    ensures !Printable(Bin(Mul, Leaf(3), Bin(Mul, Bin(Add, Leaf(0), Leaf(1)), Leaf(2))), 0)
  {
    var e := Bin(Mul, Bin(Add, Leaf(0), Leaf(1)), Leaf(2));
    assert NeedsGroup(e, 61) && OpensWithGroup(e);
  }

  /** `((a) + b)` is an error. */
  lemma DoubleParenRejected()
    ensures Precedence([LParen, LParen, Atom(0), RParen, Plus, Atom(1), RParen, Eof], 0, 0) == Failed
  {
    var toks := [LParen, LParen, Atom(0), RParen, Plus, Atom(1), RParen, Eof];
    hide KindOf, Bp, Infix, Precedence, PrefixExpr;
    assert Opened(toks, 0) == 2 by { OpenedCount(toks, 0, 2); }
    EndStops(toks, 3, 0);
    EndStops(toks, 3, 61);
    PrecedenceReads(toks, 2, Leaf(0), 3, 0);
    assert Operators(toks, Leaf(0), 3, 0) == Parsed(Leaf(0), 3);
    assert Closed(toks, 3, Leaf(0), 2) == Closed(toks, 4, Group(Leaf(0)), 1) == Failed;
    assert Primary(toks, 0) == Failed;
    BeginsWithParen(toks);
  }

  lemma BeginsWithParen(toks: seq<Token>)
    requires Stream(toks) && toks[0].LParen? && Primary(toks, 0) == Failed
    ensures Precedence(toks, 0, 0) == Failed
  {}

  // -----------------------------------------------------------------------------------------------
  // The parser itself
  // -----------------------------------------------------------------------------------------------

  /** `Result<Option<Expr>, Diagnostic>` */
  datatype Answer = Ok(expr: Option<Expr>) | Err

  class ExprParser {
    const tokens: seq<Token>
    var offset: nat

    ghost predicate Valid()
      reads this
    {
      Stream(tokens) && offset < |tokens|
    }

    constructor (tokens: seq<Token>)
      requires Stream(tokens)
      ensures Valid() && this.tokens == tokens && offset == 0
    {
      this.tokens := tokens;
      offset := 0;
    }

    /** The answer and the new offset are those of an outcome of a parse begun at `start`. */
    ghost predicate Gives(answer: Answer, start: nat, o: Outcome)
      reads this
    {
      match o
      case Parsed(e, next) => answer == Ok(Some(e)) && offset == next
      case Nothing => answer == Ok(None) && offset == start
      case Failed => answer == Err
    }

    function Peek(): Token
      requires Valid()
      reads this
    {
      tokens[offset]
    }

    /** Consumes an infix operator, if the current token is one. */
    method InfixOperator() returns (op: Option<InfixOp>)
      requires Valid()
      modifies `offset
      ensures Valid() && op == Infix(tokens[old(offset)])
      ensures offset == old(offset) + if op.Some? then 1 else 0
    {
      op := Infix(Peek());
      if op.Some? {
        offset := offset + 1;
      }
    }

    /** Consumes the current token, except that the end of the stream is never passed. */
    method EatExpectRParen() returns (ok: bool)
      requires Valid()
      modifies `offset
      ensures Valid() && ok == tokens[old(offset)].RParen?
      ensures ok ==> offset == old(offset) + 1
    {
      var token := Peek();
      if !token.Eof? {
        offset := offset + 1;
      }
      ok := token.RParen?;
    }

    method ParseExprPrecedence(minBp: nat) returns (r: Answer)
      requires Valid()
      modifies `offset
      ensures Valid() && Gives(r, old(offset), Precedence(tokens, old(offset), minBp))
      decreases |tokens| - offset, 3
    {
      ghost var begin := offset;
      r := ParsePrefixExpr();
      if r.Err? || r.expr.None? {
        return;
      }
      var lhs := r.expr.value;
      while true
        invariant Valid() && begin < offset
        invariant Precedence(tokens, begin, minBp) == Operators(tokens, lhs, offset, minBp)
        decreases |tokens| - offset
      {
        var start := offset;
        var op := InfixOperator();
        if op.None? {
          offset := start;
          break;
        }
        if op.value.lbp < minBp || Peek().Eq? {
          offset := start;
          break;
        }
        var rhs := ParseExprPrecedence(op.value.rbp);
        if rhs.Err? || rhs.expr.None? {
          return Err;
        }
        lhs := Bin(op.value.kind, lhs, rhs.expr.value);
      }
      r := Ok(Some(lhs));
    }

    method ParsePrefixExpr() returns (r: Answer)
      requires Valid()
      modifies `offset
      ensures Valid() && Gives(r, old(offset), PrefixExpr(tokens, old(offset)))
      decreases |tokens| - offset, 2
    {
      ghost var begin := offset;
      var layers: seq<PrefixKind> := [];
      while Prefix(Peek()).Some?
        invariant Valid() && begin <= offset && (layers == [] <==> offset == begin)
        invariant PrefixExpr(tokens, begin) == Layered(layers, PrefixExpr(tokens, offset))
        decreases |tokens| - offset
      {
        LayeredSnoc(layers, Prefix(Peek()).value, PrefixExpr(tokens, offset + 1));
        layers := layers + [Prefix(Peek()).value];
        offset := offset + 1;
      }
      ghost var inner := offset;
      r := ParsePrimaryExpr();
      if layers == [] {
        return;
      }
      if r.Err? || r.expr.None? {
        LayeredFails(layers, Primary(tokens, inner));
        return Err;
      }
      var expr := r.expr.value;
      while layers != []
        invariant PrefixExpr(tokens, begin) == Layered(layers, Parsed(expr, offset))
        decreases |layers|
      {
        var op := layers[|layers| - 1];
        assert layers == layers[..|layers| - 1] + [op];
        layers := layers[..|layers| - 1];
        LayeredPop(layers, op, expr, offset);
        expr := Un(op, expr);
      }
      r := Ok(Some(expr));
    }

    method ParsePrimaryExpr() returns (r: Answer)
      requires Valid()
      modifies `offset
      ensures Valid() && Gives(r, old(offset), Primary(tokens, old(offset)))
      decreases |tokens| - offset, 1
    {
      match Peek()
      case LParen => r := ParseGroupExpr();
      case Atom(id) =>
        offset := offset + 1;
        r := Ok(Some(Leaf(id)));
      case _ => r := Ok(None);
    }

    method ParseGroupExpr() returns (r: Answer)
      requires Valid() && tokens[offset].LParen?
      modifies `offset
      ensures Valid() && Gives(r, old(offset), Primary(tokens, old(offset)))
      decreases |tokens| - offset, 0
    {
      ghost var begin := offset;
      var starts := 0;
      while Peek().LParen?
        invariant Valid() && offset == begin + starts
        invariant Opened(tokens, begin) == starts + Opened(tokens, offset)
        decreases |tokens| - offset
      {
        starts := starts + 1;
        offset := offset + 1;
      }
      var content := ParseExprPrecedence(0);
      if content.Err? || content.expr.None? {
        return Err;
      }
      var expr := content.expr.value;
      while starts > 0
        invariant Valid()
        invariant Primary(tokens, begin) == Closed(tokens, offset, expr, starts)
        decreases starts
      {
        starts := starts - 1;
        var ok := EatExpectRParen();
        if !ok {
          return Err;
        }
        expr := Group(expr);
      }
      r := Ok(Some(expr));
    }
  }

  /** One more prefix operator in front of an outcome. */
  function Layer(op: PrefixKind, o: Outcome): Outcome {
    match o
    case Parsed(e, j) => Parsed(Un(op, e), j)
    case _ => Failed
  }

  /** The outcome after the prefix operators of these layers, the last one innermost. */
  function Layered(layers: seq<PrefixKind>, o: Outcome): Outcome {
    if layers == [] then o else Layer(layers[0], Layered(layers[1..], o))
  }

  lemma {:induction false} LayeredSnoc(layers: seq<PrefixKind>, op: PrefixKind, o: Outcome)
    ensures Layered(layers + [op], o) == Layered(layers, Layer(op, o))
  {
    if layers == [] {
      assert [op][1..] == [] && layers + [op] == [op];
    } else {
      LayeredSnoc(layers[1..], op, o);
      assert (layers + [op])[1..] == layers[1..] + [op];
    }
  }

  lemma LayeredPop(layers: seq<PrefixKind>, op: PrefixKind, e: Expr, j: nat)
    ensures Layered(layers + [op], Parsed(e, j)) == Layered(layers, Parsed(Un(op, e), j))
  {
    LayeredSnoc(layers, op, Parsed(e, j));
  }

  lemma {:induction false} LayeredFails(layers: seq<PrefixKind>, o: Outcome)
    requires layers != [] && !o.Parsed?
    ensures Layered(layers, o) == Failed
  {
    if |layers| > 1 {
      LayeredFails(layers[1..], o);
    }
  }
}
