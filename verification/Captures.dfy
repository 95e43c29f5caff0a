/**
 * Captures: a symbol of an outer function used inside nested namespaces is tunnelled through every namespace in
 * between, and a second pass that sees only capture lists and indices finds the original instruction again.
 */
module Captures {
  import opened Options
  import opened IndexMap

  type ScopeId = nat
  type InstId = nat
  type Symbol = string

  datatype InstRef = Instruction(id: InstId) | Constant(value: nat)

  datatype Capture = Id(inst: InstId) | FromParent(index: nat)

  /** A `CaptureGet` in a namespace's body, with the instruction it was emitted for. */
  datatype Get = Get(index: nat, inst: InstId)

  /** What lowering leaves of a namespace: its capture list and what stands in its body. */
  datatype Decl = Decl(captures: seq<Capture>, gets: seq<Get>, children: seq<Decl>)

  datatype Scope =
    | Namespace(
        parent: Option<ScopeId>,
        decls: set<Symbol>,
        captures: seq<Capture>,
        gets: seq<Get>,
        children: seq<Decl>)
    | Local(parent: Option<ScopeId>, name: Symbol, inst: InstRef)
    | Inner(parent: Option<ScopeId>)      // a block or a defer

  /** A scope's parent was pushed before it. */
  predicate Tree(scopes: seq<Scope>) {
    && (forall i :: 0 <= i < |scopes| && scopes[i].parent.Some? ==> scopes[i].parent.value < i)
    && (forall i :: 0 <= i < |scopes| && scopes[i].Local? ==> scopes[i].parent.Some?)
  }

  /** The namespaces strictly above a scope, nearest first. */
  function Above(scopes: seq<Scope>, i: ScopeId): (r: seq<ScopeId>)
    requires Tree(scopes) && i < |scopes|
    ensures forall k :: 0 <= k < |r| ==> r[k] < i && scopes[r[k]].Namespace?
  {
    match scopes[i].parent
    case None => []
    case Some(p) => (if scopes[p].Namespace? then [p] else []) + Above(scopes, p)
  }

  lemma {:induction false} AboveNested(scopes: seq<Scope>, i: ScopeId, k: nat)
    requires Tree(scopes) && i < |scopes| && k < |Above(scopes, i)|
    ensures Above(scopes, Above(scopes, i)[k]) == Above(scopes, i)[k + 1..]
    decreases i
  {
    var p := scopes[i].parent.value;
    if scopes[p].Namespace? {
      assert Above(scopes, i)[1..] == Above(scopes, p);
      if k > 0 {
        AboveNested(scopes, p, k - 1);
        assert Above(scopes, i)[k + 1..] == Above(scopes, p)[k..];
      }
    } else {
      assert Above(scopes, i) == Above(scopes, p);
      AboveNested(scopes, p, k);
    }
  }

  // -----------------------------------------------------------------------------------------------
  // Resolving a symbol
  // -----------------------------------------------------------------------------------------------

  datatype Resolution =
    | IsDecl
    | IsLocal(inst: InstRef)
    | IsCapture(inst: InstRef, count: nat)     // with the number of namespaces traversed
    | NotFound

  const SELF: Symbol := "Self"

  /** `resolve_symbol` from scope i, after `count` namespaces. */
  function Lookup(scopes: seq<Scope>, i: ScopeId, symbol: Symbol, count: nat): Resolution
    requires Tree(scopes) && i < |scopes|
    decreases i, 1
  {
    match scopes[i]
    case Local(_, name, inst) =>
      if name == symbol then (if count > 0 then IsCapture(inst, count) else IsLocal(inst))
      else LookupParent(scopes, i, symbol, count)
    case Namespace(_, decls, _, _, _) =>
      if symbol == SELF || symbol in decls then IsDecl else LookupParent(scopes, i, symbol, count + 1)
    case Inner(_) => LookupParent(scopes, i, symbol, count)
  }

  function LookupParent(scopes: seq<Scope>, i: ScopeId, symbol: Symbol, count: nat): Resolution
    requires Tree(scopes) && i < |scopes|
    decreases i, 0
  {
    match scopes[i].parent
    case Some(p) => Lookup(scopes, p, symbol, count)
    case None => NotFound
  }

  /** The scopes from i up to the root. */
  function Lineage(scopes: seq<Scope>, i: ScopeId): (path: seq<ScopeId>)
    requires Tree(scopes) && i < |scopes|
    ensures |path| > 0 && path[0] == i && forall k :: 0 <= k < |path| ==> path[k] < |scopes|
  {
    [i] + (match scopes[i].parent case Some(p) => Lineage(scopes, p) case None => [])
  }

  /** The scope settles what the symbol means: a value of that name, or a namespace that declares it. */
  predicate Settles(scope: Scope, symbol: Symbol) {
    || (scope.Local? && scope.name == symbol)
    || (scope.Namespace? && (symbol == "Self" || symbol in scope.decls))
  }

  /** The namespaces on a path. */
  function Crossed(scopes: seq<Scope>, path: seq<ScopeId>): nat
    requires forall k :: 0 <= k < |path| ==> path[k] < |scopes|
  {
    if path == [] then 0 else (if scopes[path[0]].Namespace? then 1 else 0) + Crossed(scopes, path[1..])
  }

  /** Scope number k on the way up is the nearest that settles the symbol. */
  predicate Nearest(scopes: seq<Scope>, path: seq<ScopeId>, k: nat, symbol: Symbol)
    requires forall l :: 0 <= l < |path| ==> path[l] < |scopes|
  {
    && k < |path| && Settles(scopes[path[k]], symbol)
    && forall l :: 0 <= l < k ==> !Settles(scopes[path[l]], symbol)
  }

  /**
   * What a symbol used in scope i means: the nearest scope that settles it decides. A value is captured exactly when
   * namespaces lie in between, and their number is told; nothing is found exactly when no scope settles it.
   */
  ghost predicate Means(scopes: seq<Scope>, i: ScopeId, symbol: Symbol, before: nat, r: Resolution)
    requires Tree(scopes) && i < |scopes|
  {
    var path := Lineage(scopes, i);
    && (r.NotFound? <==> forall k :: 0 <= k < |path| ==> !Settles(scopes[path[k]], symbol))
    && forall k: nat :: MeansAt(scopes, path, symbol, before, r, k)
  }

  /** If scope number k on the way up is the nearest that settles the symbol, it gives the answer. */
  ghost predicate MeansAt(
      scopes: seq<Scope>, path: seq<ScopeId>, symbol: Symbol, before: nat, r: Resolution, k: nat)
    requires forall l :: 0 <= l < |path| ==> path[l] < |scopes|
  {
    Nearest(scopes, path, k, symbol) ==>
      var scope, n := scopes[path[k]], before + Crossed(scopes, path[..k]);
      r == if scope.Namespace? then IsDecl else if n > 0 then IsCapture(scope.inst, n) else IsLocal(scope.inst)
  }

  /** The nearest scope to settle the symbol holds this instruction as its value, and namespaces lie in between. */
  predicate CapturesFrom(scopes: seq<Scope>, i: ScopeId, k: nat, symbol: Symbol, inst: InstId)
    requires Tree(scopes) && i < |scopes|
  {
    var path := Lineage(scopes, i);
    && Nearest(scopes, path, k, symbol)
    && scopes[path[k]].Local? && scopes[path[k]].inst == Instruction(inst)
    && exists l :: 0 <= l < k && scopes[path[l]].Namespace?
  }

  lemma CaptureMeans(scopes: seq<Scope>, i: ScopeId, k: nat, symbol: Symbol, inst: InstId, r: Resolution)
    requires Tree(scopes) && i < |scopes| && CapturesFrom(scopes, i, k, symbol, inst)
    requires Means(scopes, i, symbol, 0, r)
    ensures r.IsCapture? && r.inst == Instruction(inst)
  {
    var path := Lineage(scopes, i);
    assert MeansAt(scopes, path, symbol, 0, r, k);
    var l :| 0 <= l < k && scopes[path[l]].Namespace?;
    CrossedSome(scopes, path[..k], l);
  }

  lemma {:induction false} CrossedSome(scopes: seq<Scope>, path: seq<ScopeId>, l: nat)
    requires forall k :: 0 <= k < |path| ==> path[k] < |scopes|
    requires l < |path| && scopes[path[l]].Namespace?
    ensures Crossed(scopes, path) > 0
  {
    if l > 0 {
      CrossedSome(scopes, path[1..], l - 1);
    }
  }

  lemma SettledMeans(scopes: seq<Scope>, i: ScopeId, symbol: Symbol, before: nat)
    requires Tree(scopes) && i < |scopes| && Settles(scopes[i], symbol)
    ensures Means(scopes, i, symbol, before, Lookup(scopes, i, symbol, before))
  {
    var path := Lineage(scopes, i);
    assert path[0] == i && Settles(scopes[path[0]], symbol) && path[..0] == [];
    hide Lineage, LookupParent;
  }

  lemma LookupUp(scopes: seq<Scope>, i: ScopeId, symbol: Symbol, before: nat)
    requires Tree(scopes) && i < |scopes| && !Settles(scopes[i], symbol) && scopes[i].parent.Some?
    ensures Lookup(scopes, i, symbol, before) ==
            Lookup(scopes, scopes[i].parent.value, symbol, before + (if scopes[i].Namespace? then 1 else 0))
  {}

  lemma {:induction false} LookupMeans(scopes: seq<Scope>, i: ScopeId, symbol: Symbol, before: nat)
    requires Tree(scopes) && i < |scopes|
    ensures Means(scopes, i, symbol, before, Lookup(scopes, i, symbol, before))
    decreases i
  {
    hide Means, Lineage;
    if Settles(scopes[i], symbol) {
      SettledMeans(scopes, i, symbol, before);
    } else if scopes[i].parent.Some? {
      LookupUp(scopes, i, symbol, before);
      LookupMeans(scopes, scopes[i].parent.value, symbol, before + (if scopes[i].Namespace? then 1 else 0));
      LineageMeans(scopes, i, symbol, before, Lookup(scopes, i, symbol, before));
    } else {
      RootMeans(scopes, i, symbol, before);
    }
  }

  lemma RootMeans(scopes: seq<Scope>, i: ScopeId, symbol: Symbol, before: nat)
    requires Tree(scopes) && i < |scopes| && scopes[i].parent.None? && !Settles(scopes[i], symbol)
    ensures Means(scopes, i, symbol, before, NotFound)
  {
    assert Lineage(scopes, i) == [i];
    hide Lineage, Settles;
  }

  /** A scope that settles nothing leaves the answer to its parent. */
  lemma LineageMeans(scopes: seq<Scope>, i: ScopeId, symbol: Symbol, before: nat, r: Resolution)
    requires Tree(scopes) && i < |scopes| && scopes[i].parent.Some? && !Settles(scopes[i], symbol)
    requires Means(scopes, scopes[i].parent.value, symbol, before + (if scopes[i].Namespace? then 1 else 0), r)
    ensures Means(scopes, i, symbol, before, r)
  {
    var path, up := Lineage(scopes, i), Lineage(scopes, scopes[i].parent.value);
    assert path == [i] + up;
    hide Settles, MeansAt, Lineage;
    forall k: nat ensures MeansAt(scopes, path, symbol, before, r, k) {
      MeansAbove(scopes, i, up, symbol, before, r, k);
    }
    NothingAbove(scopes, i, up, symbol);
  }

  lemma MeansAbove(
      scopes: seq<Scope>, i: ScopeId, up: seq<ScopeId>, symbol: Symbol, before: nat, r: Resolution, k: nat)
    requires i < |scopes| && (forall l :: 0 <= l < |up| ==> up[l] < |scopes|) && !Settles(scopes[i], symbol)
    requires k > 0 ==> MeansAt(scopes, up, symbol, before + (if scopes[i].Namespace? then 1 else 0), r, k - 1)
    ensures MeansAt(scopes, [i] + up, symbol, before, r, k)
  {
    hide Settles, Crossed, Nearest;
    if Nearest(scopes, [i] + up, k, symbol) {
      NearestAbove(scopes, i, up, k, symbol);
      assert ([i] + up)[k] == up[k - 1];
    }
  }

  lemma NearestAbove(scopes: seq<Scope>, i: ScopeId, up: seq<ScopeId>, k: nat, symbol: Symbol)
    requires i < |scopes| && forall l :: 0 <= l < |up| ==> up[l] < |scopes|
    requires !Settles(scopes[i], symbol) && Nearest(scopes, [i] + up, k, symbol)
    ensures 0 < k <= |up| && k < |[i] + up| && Nearest(scopes, up, k - 1, symbol)
    ensures Crossed(scopes, ([i] + up)[..k]) ==
              (if scopes[i].Namespace? then 1 else 0) + Crossed(scopes, up[..k - 1])
  {
    hide Settles;
    var path := [i] + up;
    assert path[0] == i && k > 0;
    forall l | 0 <= l < k - 1 ensures !Settles(scopes[up[l]], symbol) {
      assert path[l + 1] == up[l];
    }
    assert path[..k] == [i] + up[..k - 1];
    assert path[..k][1..] == up[..k - 1];
  }

  lemma NothingAbove(scopes: seq<Scope>, i: ScopeId, up: seq<ScopeId>, symbol: Symbol)
    requires i < |scopes| && forall l :: 0 <= l < |up| ==> up[l] < |scopes|
    requires !Settles(scopes[i], symbol)
    ensures var path := [i] + up;
            (forall k :: 0 <= k < |path| ==> !Settles(scopes[path[k]], symbol)) <==>
              forall k :: 0 <= k < |up| ==> !Settles(scopes[up[k]], symbol)
  {
    hide Settles;
    var path := [i] + up;
    assert path[0] == i && forall k :: 0 <= k < |up| ==> up[k] == path[k + 1];
  }

  /** Some scope is the nearest to settle a symbol, unless none settles it. */
  lemma NearestExists(scopes: seq<Scope>, path: seq<ScopeId>, symbol: Symbol) returns (k: nat)
    requires forall l :: 0 <= l < |path| ==> path[l] < |scopes|
    ensures Nearest(scopes, path, k, symbol)
            || forall l :: 0 <= l < |path| ==> !Settles(scopes[path[l]], symbol)
  {
    k := 0;
    while k < |path| && !Settles(scopes[path[k]], symbol)
      invariant k <= |path| && forall l :: 0 <= l < k ==> !Settles(scopes[path[l]], symbol)
    {
      k := k + 1;
    }
  }

  /** A symbol has one meaning in a scope. */
  lemma MeaningUnique(scopes: seq<Scope>, i: ScopeId, symbol: Symbol, before: nat, r: Resolution, other: Resolution)
    requires Tree(scopes) && i < |scopes| && Means(scopes, i, symbol, before, r)
    requires Means(scopes, i, symbol, before, other)
    ensures r == other
  {
    var path := Lineage(scopes, i);
    var k := NearestExists(scopes, path, symbol);
    assert MeansAt(scopes, path, symbol, before, r, k) && MeansAt(scopes, path, symbol, before, other, k);
  }

  /** Scope l declares the symbol, and is reached from i with no nearer declaration of it. */
  predicate Declares(scopes: seq<Scope>, i: ScopeId, l: ScopeId, symbol: Symbol)
    requires Tree(scopes) && i < |scopes|
    decreases i
  {
    if scopes[i].Local? && scopes[i].name == symbol then l == i
    else if scopes[i].Namespace? && (symbol == SELF || symbol in scopes[i].decls) then false
    else scopes[i].parent.Some? && Declares(scopes, scopes[i].parent.value, l, symbol)
  }

  /** The namespaces from scope i up, i included. */
  function FromHere(scopes: seq<Scope>, i: ScopeId): seq<ScopeId>
    requires Tree(scopes) && i < |scopes|
  {
    (if scopes[i].Namespace? then [i] else []) + Above(scopes, i)
  }

  lemma HereStep(scopes: seq<Scope>, i: ScopeId)
    requires Tree(scopes) && i < |scopes|
    ensures FromHere(scopes, i) == (if scopes[i].Namespace? then [i] else []) + Above(scopes, i)
    ensures scopes[i].parent.Some? ==> Above(scopes, i) == FromHere(scopes, scopes[i].parent.value)
  {}

  lemma {:induction false} LookupCrosses(scopes: seq<Scope>, i: ScopeId, symbol: Symbol, start: nat)
    returns (l: ScopeId)
    requires Tree(scopes) && i < |scopes| && Lookup(scopes, i, symbol, start).IsCapture?
    ensures l <= i && scopes[l].Local? && Declares(scopes, i, l, symbol)
    ensures var r := Lookup(scopes, i, symbol, start);
            && scopes[l].inst == r.inst && start <= r.count && r.count - start <= |FromHere(scopes, i)|
            && Above(scopes, l) == FromHere(scopes, i)[r.count - start..]
            && forall k :: 0 <= k < r.count - start ==> FromHere(scopes, i)[k] > l
    decreases i
  {
    hide Above, FromHere;
    if scopes[i].Local? && scopes[i].name == symbol {
      HereStep(scopes, i);
      l := i;
    } else {
      var p := scopes[i].parent.value;
      var next := if scopes[i].Namespace? then start + 1 else start;
      l := LookupCrosses(scopes, p, symbol, next);
      HereStep(scopes, i);
    }
  }

  /** The namespace `capture_outer_scope_inst` starts in; None is its panic when there are not enough of them. */
  function RootOf(scopes: seq<Scope>, i: ScopeId, count: nat): Option<ScopeId>
    requires Tree(scopes) && i < |scopes|
  {
    if 0 < count <= |Above(scopes, i)| then Some(Above(scopes, i)[count - 1]) else None
  }

  /**
   * A captured symbol is the nearest visible declaration, and the namespace its capture starts in is the outermost
   * one between the two: the instruction belongs to the body the root namespace stands in.
   */
  lemma CaptureRoot(scopes: seq<Scope>, i: ScopeId, symbol: Symbol) returns (l: ScopeId)
    requires Tree(scopes) && i < |scopes| && !scopes[i].Namespace? && Lookup(scopes, i, symbol, 0).IsCapture?
    ensures l < i && scopes[l].Local? && Declares(scopes, i, l, symbol)
    ensures var r := Lookup(scopes, i, symbol, 0);
            && r.inst == scopes[l].inst && 0 < r.count <= |Above(scopes, i)|
            && var root := RootOf(scopes, i, r.count).value;
               l < root < i && Above(scopes, root) == Above(scopes, l)
  {
    hide Above, Lookup, LookupParent, Declares;
    l := LookupCrosses(scopes, i, symbol, 0);
    var r := Lookup(scopes, i, symbol, 0);
    LookupCounts(scopes, i, symbol, 0);
    AboveNested(scopes, i, r.count - 1);
    assert FromHere(scopes, i)[r.count - 1] > l;
  }

  lemma {:induction false} LookupCounts(scopes: seq<Scope>, i: ScopeId, symbol: Symbol, start: nat)
    requires Tree(scopes) && i < |scopes| && Lookup(scopes, i, symbol, start).IsCapture?
    ensures Lookup(scopes, i, symbol, start).count > 0
    decreases i
  {
    if scopes[i].Local? && scopes[i].name == symbol {
    } else {
      LookupCounts(scopes, scopes[i].parent.value, symbol, if scopes[i].Namespace? then start + 1 else start);
    }
  }

  /**
   * Asked from a namespace scope itself, the count includes that namespace, but the capture starts counting above it:
   * it would start in the namespace the declaration itself stands in, outside of it, or panic when there is none. The
   * lowering only asks from block scopes.
   */
  lemma NamespaceScopeOvershoots(scopes: seq<Scope>, i: ScopeId, symbol: Symbol) returns (l: ScopeId)
    requires Tree(scopes) && i < |scopes| && scopes[i].Namespace? && Lookup(scopes, i, symbol, 0).IsCapture?
    ensures l < i && scopes[l].Local? && Declares(scopes, i, l, symbol)
    ensures var root, above := RootOf(scopes, i, Lookup(scopes, i, symbol, 0).count), Above(scopes, l);
            if above == [] then root.None? else root == Some(above[0]) && root.value < l
  {
    l := LookupCrosses(scopes, i, symbol, 0);
    var n := Lookup(scopes, i, symbol, 0).count;
    LookupCounts(scopes, i, symbol, 0);
    assert FromHere(scopes, i)[n..] == Above(scopes, i)[n - 1..];
  }

  // -----------------------------------------------------------------------------------------------
  // The second pass
  // -----------------------------------------------------------------------------------------------

  /** `resolve_vuir_captures`: the captures of a namespace, given the resolved ones of the enclosing namespace. */
  function Resolve(captures: seq<Capture>, up: seq<Option<InstId>>): (r: seq<Option<InstId>>)
    ensures |r| == |captures|
  {
    seq(|captures|, k requires 0 <= k < |captures| =>
      match captures[k]
      case Id(inst) => Some(inst)
      case FromParent(p) => if p < |up| then up[p] else None)
  }

  predicate AllKnown(r: seq<Option<InstId>>) {
    forall k :: 0 <= k < |r| ==> r[k].Some?
  }

  predicate GetsHold(gets: seq<Get>, r: seq<Option<InstId>>) {
    forall g :: g in gets ==> g.index < |r| && r[g.index] == Some(g.inst)
  }

  /** The second pass, begun with `up`, finds the original instruction of every `CaptureGet` at every depth. */
  ghost predicate Passes(d: Decl, up: seq<Option<InstId>>)
    decreases d
  {
    var me := Resolve(d.captures, up);
    && AllKnown(me) && Unique(d.captures) && GetsHold(d.gets, me)
    && forall k :: 0 <= k < |d.children| ==> Passes(d.children[k], me)
  }

  lemma ResolveExtends(captures: seq<Capture>, up: seq<Option<InstId>>, up': seq<Option<InstId>>)
    requires up <= up' && AllKnown(Resolve(captures, up))
    ensures Resolve(captures, up') == Resolve(captures, up)
  {
    forall k | 0 <= k < |captures| ensures Resolve(captures, up')[k] == Resolve(captures, up)[k] {
      assert Resolve(captures, up)[k].Some?;
    }
  }

  /** A nested namespace, named by the positions of its ancestors. */
  predicate ValidPath(d: Decl, path: seq<nat>)
    decreases |path|
  {
    path == [] || (path[0] < |d.children| && ValidPath(d.children[path[0]], path[1..]))
  }

  function Nested(d: Decl, path: seq<nat>): Decl
    requires ValidPath(d, path)
    decreases |path|
  {
    if path == [] then d else Nested(d.children[path[0]], path[1..])
  }

  /** What the second pass resolves the captures of the nested namespace to, going down from d. */
  function Pass(d: Decl, up: seq<Option<InstId>>, path: seq<nat>): seq<Option<InstId>>
    requires ValidPath(d, path)
    decreases |path|
  {
    if path == [] then Resolve(d.captures, up)
    else Pass(d.children[path[0]], Resolve(d.captures, up), path[1..])
  }

  lemma {:induction false} PassFindsOriginal(d: Decl, up: seq<Option<InstId>>, path: seq<nat>, g: Get)
    requires Passes(d, up) && ValidPath(d, path) && g in Nested(d, path).gets
    ensures g.index < |Pass(d, up, path)| && Pass(d, up, path)[g.index] == Some(g.inst)
    ensures Unique(Nested(d, path).captures)
    decreases |path|
  {
    if path != [] {
      PassFindsOriginal(d.children[path[0]], Resolve(d.captures, up), path[1..], g);
    }
  }

  // -----------------------------------------------------------------------------------------------
  // Scopes while lowering
  // -----------------------------------------------------------------------------------------------

  /** What the second pass would find now in namespace n. */
  function Origins(scopes: seq<Scope>, n: ScopeId): (r: seq<Option<InstId>>)
    requires Tree(scopes) && n < |scopes| && scopes[n].Namespace?
    ensures |r| == |scopes[n].captures|
    decreases n, 1
  {
    Resolve(scopes[n].captures, UpOrigins(scopes, n))
  }

  function UpOrigins(scopes: seq<Scope>, n: ScopeId): seq<Option<InstId>>
    requires Tree(scopes) && n < |scopes|
    decreases n, 0
  {
    var above := Above(scopes, n);
    if above == [] then [] else Origins(scopes, above[0])
  }

  ghost predicate NamespaceInv(scopes: seq<Scope>, n: ScopeId)
    requires Tree(scopes) && n < |scopes| && scopes[n].Namespace?
  {
    var ns, me := scopes[n], Origins(scopes, n);
    && AllKnown(me) && Unique(ns.captures) && GetsHold(ns.gets, me)
    && forall k :: 0 <= k < |ns.children| ==> Passes(ns.children[k], me)
  }

  ghost predicate Inv(scopes: seq<Scope>) {
    && Tree(scopes)
    && forall n: ScopeId :: n < |scopes| && scopes[n].Namespace? ==> NamespaceInv(scopes, n)
  }

  /** Only captures grew, at their end; the rest of each scope is as before. */
  ghost predicate Grows(scopes: seq<Scope>, scopes': seq<Scope>) {
    && |scopes'| == |scopes|
    && forall i :: 0 <= i < |scopes| ==>
         if scopes[i].Namespace? then
           && scopes'[i].Namespace? && scopes[i].captures <= scopes'[i].captures
           && scopes'[i] == scopes[i].(captures := scopes'[i].captures)
         else scopes'[i] == scopes[i]
  }

  lemma GrowsFurther(a: seq<Scope>, b: seq<Scope>, c: seq<Scope>)
    requires Grows(a, b) && Grows(b, c)
    ensures Grows(a, c)
  {}

  lemma {:induction false} AboveGrows(scopes: seq<Scope>, scopes': seq<Scope>, i: ScopeId)
    requires Tree(scopes) && Tree(scopes') && Grows(scopes, scopes') && i < |scopes|
    ensures Above(scopes', i) == Above(scopes, i)
    decreases i
  {
    if scopes[i].parent.Some? {
      AboveGrows(scopes, scopes', scopes[i].parent.value);
    }
  }

  /** Issued indices stay valid: the resolved captures of every namespace keep their old part. */
  lemma {:induction false} OriginsGrow(scopes: seq<Scope>, scopes': seq<Scope>, n: ScopeId)
    requires Inv(scopes) && Tree(scopes') && Grows(scopes, scopes') && n < |scopes| && scopes[n].Namespace?
    ensures Origins(scopes, n) <= Origins(scopes', n)
    decreases n
  {
    AboveGrows(scopes, scopes', n);
    var above := Above(scopes, n);
    if above != [] {
      OriginsGrow(scopes, scopes', above[0]);
    }
    var up, up' := UpOrigins(scopes, n), UpOrigins(scopes', n);
    var c, c' := scopes[n].captures, scopes'[n].captures;
    assert NamespaceInv(scopes, n);
    ResolveExtends(c, up, up');
    assert forall k :: 0 <= k < |c| ==> Resolve(c', up')[k] == Resolve(c, up')[k];
  }

  /** Adding captures that resolve keeps everything. */
  lemma GrowsKeeps(scopes: seq<Scope>, scopes': seq<Scope>, n: ScopeId)
    requires Inv(scopes) && Tree(scopes') && Grows(scopes, scopes') && n < |scopes| && scopes[n].Namespace?
    requires AllKnown(Origins(scopes', n)) && Unique(scopes'[n].captures)
    ensures NamespaceInv(scopes', n)
  {
    OriginsGrow(scopes, scopes', n);
    assert NamespaceInv(scopes, n);
    var me, me' := Origins(scopes, n), Origins(scopes', n);
    forall k | 0 <= k < |scopes[n].children| ensures Passes(scopes[n].children[k], me') {
      var child := scopes[n].children[k];
      assert Passes(child, me);
      ResolveExtends(child.captures, me, me');
    }
  }

  function SetCaptures(scopes: seq<Scope>, n: ScopeId, captures: seq<Capture>): seq<Scope>
    requires n < |scopes| && scopes[n].Namespace?
  {
    scopes[n := scopes[n].(captures := captures)]
  }

  /** The instruction a capture stands for in namespace n. */
  function KeyOrigin(scopes: seq<Scope>, n: ScopeId, key: Capture): Option<InstId>
    requires Tree(scopes) && n < |scopes|
  {
    Resolve([key], UpOrigins(scopes, n))[0]
  }

  /** `captures.entry(key).or_insert_with(..)` on one namespace. */
  lemma InternKeeps(scopes: seq<Scope>, n: ScopeId, key: Capture, inst: InstId)
    requires Inv(scopes) && n < |scopes| && scopes[n].Namespace? && KeyOrigin(scopes, n, key) == Some(inst)
    ensures var scopes' := SetCaptures(scopes, n, Interned(scopes[n].captures, key));
            && Inv(scopes') && Grows(scopes, scopes')
            && Origins(scopes', n)[IndexOf(scopes[n].captures, key)] == Some(inst)
  {
    var c := scopes[n].captures;
    var scopes' := SetCaptures(scopes, n, Interned(c, key));
    assert Tree(scopes') && Grows(scopes, scopes');
    InternedOnce(c, key, key);
    InternOrigins(scopes, scopes', n, key, inst);
    forall m: ScopeId | m < |scopes'| && scopes'[m].Namespace? ensures NamespaceInv(scopes', m) {
      OriginsGrow(scopes, scopes', m);
      assert NamespaceInv(scopes, m);
      GrowsKeeps(scopes, scopes', m);
    }
  }

  lemma ResolveAt(captures: seq<Capture>, up: seq<Option<InstId>>, k: nat)
    requires k < |captures|
    ensures Resolve(captures, up)[k] == Resolve([captures[k]], up)[0]
  {}

  lemma UpOriginsGrow(scopes: seq<Scope>, scopes': seq<Scope>, n: ScopeId)
    requires Inv(scopes) && Tree(scopes') && Grows(scopes, scopes') && n < |scopes|
    ensures UpOrigins(scopes, n) <= UpOrigins(scopes', n)
  {
    AboveGrows(scopes, scopes', n);
    if Above(scopes, n) != [] {
      OriginsGrow(scopes, scopes', Above(scopes, n)[0]);
    }
  }

  lemma InternOrigins(scopes: seq<Scope>, scopes': seq<Scope>, n: ScopeId, key: Capture, inst: InstId)
    requires Inv(scopes) && n < |scopes| && scopes[n].Namespace? && KeyOrigin(scopes, n, key) == Some(inst)
    requires Tree(scopes') && Grows(scopes, scopes') && scopes'[n].captures == Interned(scopes[n].captures, key)
    ensures AllKnown(Origins(scopes', n))
    ensures Origins(scopes', n)[IndexOf(scopes[n].captures, key)] == Some(inst)
  {
    var c, c' := scopes[n].captures, scopes'[n].captures;
    var up' := UpOrigins(scopes', n);
    UpOriginsGrow(scopes, scopes', n);
    ResolveExtends([key], UpOrigins(scopes, n), up');
    OriginsGrow(scopes, scopes', n);
    assert NamespaceInv(scopes, n);
    hide UpOrigins, Resolve, Above, Inv, NamespaceInv, Grows;
    ResolveAt(c', up', IndexOf(c, key));
    forall k | 0 <= k < |c'| ensures Origins(scopes', n)[k].Some? {
      if k < |c| {
        assert Origins(scopes', n)[k] == Origins(scopes, n)[k];
      } else {
        assert k == IndexOf(c, key);
      }
    }
  }

  // -----------------------------------------------------------------------------------------------
  // Tunnelling a capture through nested namespaces
  // -----------------------------------------------------------------------------------------------

  lemma AbovePeel(scopes: seq<Scope>, i: ScopeId)
    requires Inv(scopes) && i < |scopes|
    ensures Tree(scopes)
    ensures scopes[i].parent.Some? ==>
              scopes[i].parent.value < i && Above(scopes, i) == FromHere(scopes, scopes[i].parent.value)
    ensures scopes[i].parent.None? ==> Above(scopes, i) == []
  {}

  /** One step up while namespaces are still missing: the one passed, if any, joins those taken. */
  lemma TakeStep(scopes: seq<Scope>, scope: ScopeId, taken: seq<ScopeId>, above: seq<ScopeId>, count: nat)
    requires Inv(scopes) && scope < |scopes| && above == taken + FromHere(scopes, scope)
    requires |taken| < count <= |above| && (scopes[scope].Namespace? ==> |taken| < count - 1)
    ensures scopes[scope].parent.Some? && scopes[scope].parent.value < scope
    ensures var next := if scopes[scope].Namespace? then taken + [scope] else taken;
            |next| < count && above == next + FromHere(scopes, scopes[scope].parent.value)
  {
    AbovePeel(scopes, scope);
    hide Inv, Above;
  }

  /** Each namespace of the path is the one right above the one before it. */
  predicate Nesting(scopes: seq<Scope>, path: seq<ScopeId>)
    requires Tree(scopes)
  {
    && (forall k :: 0 <= k < |path| ==> path[k] < |scopes| && scopes[path[k]].Namespace?)
    && forall k :: 0 <= k < |path| - 1 ==> Above(scopes, path[k]) != [] && Above(scopes, path[k])[0] == path[k + 1]
  }

  lemma AboveNesting(scopes: seq<Scope>, i: ScopeId, count: nat)
    requires Tree(scopes) && i < |scopes| && count <= |Above(scopes, i)|
    ensures Nesting(scopes, Above(scopes, i)[..count])
  {
    var path := Above(scopes, i)[..count];
    forall k | 0 <= k < |path| - 1 ensures Above(scopes, path[k]) != [] && Above(scopes, path[k])[0] == path[k + 1] {
      AboveNested(scopes, i, k);
    }
  }

  /** The path, nearest namespace first, taken apart: the outermost, and the rest turned round. */
  predicate TopToBottom(path: seq<ScopeId>, root: ScopeId, intermediate: seq<ScopeId>) {
    && |path| == |intermediate| + 1 && root == path[|path| - 1]
    && forall k :: 0 <= k < |intermediate| ==> intermediate[k] == path[|path| - 2 - k]
  }

  lemma TopToBottomAt(path: seq<ScopeId>, root: ScopeId, intermediate: seq<ScopeId>, k: nat)
    requires TopToBottom(path, root, intermediate)
    ensures |path| == |intermediate| + 1 && root == path[|path| - 1]
    ensures k < |intermediate| ==> intermediate[k] == path[|path| - 2 - k]
  {}

  /** In namespace n the index stands for the instruction. */
  predicate Finds(scopes: seq<Scope>, n: ScopeId, index: nat, inst: InstId) {
    && Tree(scopes) && n < |scopes| && scopes[n].Namespace?
    && index < |Origins(scopes, n)| && Origins(scopes, n)[index] == Some(inst)
  }

  /** What an index stands for in a namespace, `FromParent` of it stands for in the one below. */
  lemma ForwardFinds(before: seq<Scope>, scopes: seq<Scope>, path: seq<ScopeId>, k: nat, index: nat, inst: InstId)
    requires Tree(before) && Nesting(before, path) && 0 < k < |path| && Inv(scopes) && Grows(before, scopes)
    requires Finds(scopes, path[k], index, inst)
    ensures path[k - 1] < |scopes| && scopes[path[k - 1]].Namespace?
    ensures KeyOrigin(scopes, path[k - 1], FromParent(index)) == Some(inst)
  {
    assert Above(before, path[k - 1])[0] == path[k - 1 + 1];
    AboveGrows(before, scopes, path[k - 1]);
  }

  // -----------------------------------------------------------------------------------------------
  // Pushing and popping
  // -----------------------------------------------------------------------------------------------

  predicate SameCaptures(a: Scope, b: Scope) {
    && a.parent == b.parent && (a.Namespace? <==> b.Namespace?) && (a.Local? <==> b.Local?)
    && (a.Namespace? ==> a.captures == b.captures)
  }

  /** The first n scopes capture the same. */
  predicate SameBelow(scopes: seq<Scope>, scopes': seq<Scope>, n: nat) {
    n <= |scopes| && n <= |scopes'| && forall i :: 0 <= i < n ==> SameCaptures(scopes[i], scopes'[i])
  }

  lemma {:induction false} AboveSame(scopes: seq<Scope>, scopes': seq<Scope>, n: nat, i: ScopeId)
    requires Tree(scopes) && Tree(scopes') && SameBelow(scopes, scopes', n) && i < n
    ensures Above(scopes', i) == Above(scopes, i)
    decreases i
  {
    assert SameCaptures(scopes[i], scopes'[i]);
    if scopes[i].parent.Some? {
      assert SameCaptures(scopes[scopes[i].parent.value], scopes'[scopes[i].parent.value]);
      AboveSame(scopes, scopes', n, scopes[i].parent.value);
    }
  }

  lemma {:induction false} OriginsSame(scopes: seq<Scope>, scopes': seq<Scope>, n: nat, i: ScopeId)
    requires Tree(scopes) && Tree(scopes') && SameBelow(scopes, scopes', n) && i < n && scopes[i].Namespace?
    ensures scopes'[i].Namespace? && Origins(scopes', i) == Origins(scopes, i)
    decreases i
  {
    assert SameCaptures(scopes[i], scopes'[i]);
    AboveSame(scopes, scopes', n, i);
    if Above(scopes, i) != [] {
      OriginsSame(scopes, scopes', n, Above(scopes, i)[0]);
    }
  }

  /** A namespace whose own entries did not change stands as before. */
  lemma NamespaceSame(scopes: seq<Scope>, scopes': seq<Scope>, n: nat, i: ScopeId)
    requires Inv(scopes) && Tree(scopes') && SameBelow(scopes, scopes', n) && i < n
    requires scopes[i].Namespace? && scopes'[i] == scopes[i]
    ensures NamespaceInv(scopes', i)
  {
    OriginsSame(scopes, scopes', n, i);
    assert NamespaceInv(scopes, i);
  }

  lemma PushKeeps(scopes: seq<Scope>, scope: Scope)
    requires Inv(scopes) && (scope.parent.Some? ==> scope.parent.value < |scopes|)
    requires scope.Local? ==> scope.parent.Some?
    requires scope.Namespace? ==> scope.captures == [] && scope.gets == [] && scope.children == []
    ensures Inv(scopes + [scope])
  {
    var scopes' := scopes + [scope];
    forall n: ScopeId | n < |scopes'| && scopes'[n].Namespace? ensures NamespaceInv(scopes', n) {
      if n < |scopes| {
        NamespaceSame(scopes, scopes', |scopes|, n);
      }
    }
  }

  lemma DropKeeps(scopes: seq<Scope>)
    requires Inv(scopes) && scopes != []
    ensures Inv(scopes[..|scopes| - 1])
  {
    var n := |scopes| - 1;
    forall i: ScopeId | i < n && scopes[i].Namespace? ensures NamespaceInv(scopes[..n], i) {
      NamespaceSame(scopes, scopes[..n], n, i);
    }
  }

  /** The declaration a namespace leaves passes under the namespace above it. */
  lemma PopPasses(scopes: seq<Scope>, d: Decl)
    requires Inv(scopes) && scopes != []
    requires var top := scopes[|scopes| - 1]; top.Namespace? && d == Decl(top.captures, top.gets, top.children)
    ensures Passes(d, UpOrigins(scopes, |scopes| - 1))
    ensures var above := Above(scopes, |scopes| - 1);
            above != [] ==>
              && Tree(scopes[..|scopes| - 1])
              && UpOrigins(scopes, |scopes| - 1) == Origins(scopes[..|scopes| - 1], above[0])
  {
    var n := |scopes| - 1;
    assert NamespaceInv(scopes, n);
    if Above(scopes, n) != [] {
      OriginsSame(scopes, scopes[..n], n, Above(scopes, n)[0]);
    }
  }

  lemma AddChildKeeps(scopes: seq<Scope>, m: ScopeId, d: Decl)
    requires Inv(scopes) && m < |scopes| && scopes[m].Namespace? && Passes(d, Origins(scopes, m))
    ensures Inv(scopes[m := scopes[m].(children := scopes[m].children + [d])])
  {
    var scopes' := scopes[m := scopes[m].(children := scopes[m].children + [d])];
    forall n: ScopeId | n < |scopes'| && scopes'[n].Namespace? ensures NamespaceInv(scopes', n) {
      if n == m {
        OriginsSame(scopes, scopes', |scopes|, m);
        assert NamespaceInv(scopes, m);
      } else {
        NamespaceSame(scopes, scopes', |scopes|, n);
      }
    }
  }

  lemma GetKeeps(scopes: seq<Scope>, m: ScopeId, g: Get)
    requires Inv(scopes) && m < |scopes| && scopes[m].Namespace?
    requires g.index < |Origins(scopes, m)| && Origins(scopes, m)[g.index] == Some(g.inst)
    ensures var scopes' := scopes[m := scopes[m].(gets := scopes[m].gets + [g])];
            && Inv(scopes')
            && forall n: ScopeId :: n < |scopes| && scopes[n].Namespace? ==>
                 scopes'[n].Namespace? && Origins(scopes', n) == Origins(scopes, n)
  {
    var scopes' := scopes[m := scopes[m].(gets := scopes[m].gets + [g])];
    forall n: ScopeId | n < |scopes'| && scopes'[n].Namespace?
      ensures NamespaceInv(scopes', n) && Origins(scopes', n) == Origins(scopes, n)
    {
      OriginsSame(scopes, scopes', |scopes|, n);
      if n == m {
        assert NamespaceInv(scopes, m);
      } else {
        NamespaceSame(scopes, scopes', |scopes|, n);
      }
    }
  }

  // -----------------------------------------------------------------------------------------------
  // The lowering
  // -----------------------------------------------------------------------------------------------

  /** What a capture request gives: the reference itself, or a `CaptureGet` of an index. */
  datatype Captured = Same(ref: InstRef) | CaptureGet(index: nat)

  class Lowering {
    var scopes: seq<Scope>
    /** The lowered root namespaces. */
    var output: seq<Decl>

    ghost predicate Valid()
      reads this
    {
      Inv(scopes) && forall k :: 0 <= k < |output| ==> Passes(output[k], [])
    }

    constructor ()
      ensures Valid() && scopes == [] && output == []
    {
      scopes, output := [], [];
    }

    /** Pushes a scope; a namespace is pushed empty. */
    method Push(scope: Scope)
      requires Valid()
      requires scope.parent.Some? ==> scope.parent.value < |scopes|
      requires scope.Local? ==> scope.parent.Some?
      requires scope.Namespace? ==> scope.captures == [] && scope.gets == [] && scope.children == []
      modifies `scopes
      ensures Valid() && scopes == old(scopes) + [scope]
    {
      PushKeeps(scopes, scope);
      scopes := scopes + [scope];
    }

    /** Pops the last scope; a namespace leaves its declaration in the enclosing namespace. */
    method Pop()
      requires Valid() && scopes != []
      modifies this
      ensures Valid() && |scopes| == |old(scopes)| - 1
      ensures var n := |old(scopes)| - 1;
              var top, above := old(scopes)[n], Above(old(scopes), n);
              if !top.Namespace? then scopes == old(scopes)[..n] && output == old(output)
              else
                var d := Decl(top.captures, top.gets, top.children);
                if above == [] then scopes == old(scopes)[..n] && output == old(output) + [d]
                else
                  && output == old(output)
                  && scopes == old(scopes)[..n][
                       above[0] := old(scopes)[above[0]].(children := old(scopes)[above[0]].children + [d])]
    {
      var n := |scopes| - 1;
      var top := scopes[n];
      var above := Above(scopes, n);
      if !top.Namespace? {
        DropKeeps(scopes);
        scopes := scopes[..n];
      } else {
        var d := Decl(top.captures, top.gets, top.children);
        PopPasses(scopes, d);
        DropKeeps(scopes);
        if above == [] {
          scopes := scopes[..n];
          output := output + [d];
        } else {
          AddChildKeeps(scopes[..n], above[0], d);
          scopes := scopes[..n][above[0] := scopes[above[0]].(children := scopes[above[0]].children + [d])];
        }
      }
    }

    /** Walks the parents of the scope, counting namespaces. */
    method ResolveSymbol(blockScope: ScopeId, symbol: Symbol) returns (r: Resolution)
      requires Valid() && blockScope < |scopes|
      ensures r == if symbol != [] && symbol[0] == '@' then IsDecl else Lookup(scopes, blockScope, symbol, 0)
      ensures symbol == [] || symbol[0] != '@' ==> Means(scopes, blockScope, symbol, 0, r)
    {
      LookupMeans(scopes, blockScope, symbol, 0);
      hide Means;
      if symbol != [] && symbol[0] == '@' {
        return IsDecl;
      }
      var traversed: nat := 0;
      var scope: ScopeId := blockScope;
      while true
        invariant scope < |scopes|
        invariant Lookup(scopes, blockScope, symbol, 0) == Lookup(scopes, scope, symbol, traversed)
        decreases scope
      {
        match scopes[scope] {
          case Local(_, name, inst) =>
            if name == symbol {
              return if traversed > 0 then IsCapture(inst, traversed) else IsLocal(inst);
            }
          case Namespace(_, decls, _, _, _) =>
            traversed := traversed + 1;
            if symbol == SELF || symbol in decls {
              return IsDecl;
            }
          case Inner(_) =>
        }
        if scopes[scope].parent.None? {
          return NotFound;
        }
        scope := scopes[scope].parent.value;
      }
    }

    /** The namespaces a capture goes through, top to bottom, and the one it starts in. */
    method CapturePath(blockScope: ScopeId, count: nat) returns (root: ScopeId, intermediate: seq<ScopeId>)
      requires Valid() && blockScope < |scopes| && 0 < count <= |Above(scopes, blockScope)|
      ensures TopToBottom(Above(scopes, blockScope)[..count], root, intermediate)
    {
      var taken, top := TakeNamespaces(blockScope, count);
      root := top;
      intermediate := seq(|taken|, k requires 0 <= k < |taken| => taken[|taken| - 1 - k]);
    }

    /** The first count - 1 namespaces above the scope, nearest first, and the next one. */
    method TakeNamespaces(blockScope: ScopeId, count: nat) returns (taken: seq<ScopeId>, top: ScopeId)
      requires Valid() && blockScope < |scopes| && 0 < count <= |Above(scopes, blockScope)|
      ensures taken == Above(scopes, blockScope)[..count - 1] && top == Above(scopes, blockScope)[count - 1]
    {
      AbovePeel(scopes, blockScope);
      hide Inv, Above, FromHere;
      ghost var above := Above(scopes, blockScope);
      var scope: ScopeId := scopes[blockScope].parent.value;
      taken := [];
      while !scopes[scope].Namespace? || |taken| < count - 1
        invariant scope < |scopes| && |taken| < count && above == taken + FromHere(scopes, scope)
        decreases scope
      {
        TakeStep(scopes, scope, taken, above, count);
        if scopes[scope].Namespace? {
          taken := taken + [scope];
        }
        scope := scopes[scope].parent.value;
      }
      HereStep(scopes, scope);
      top := scope;
    }

    /** `captures.entry(key).or_insert_with(..)`, as `IndexMap.Map.OrInsert` does it. */
    method InternCapture(n: ScopeId, key: Capture, ghost inst: InstId) returns (index: nat)
      requires Valid() && n < |scopes| && scopes[n].Namespace? && KeyOrigin(scopes, n, key) == Some(inst)
      modifies `scopes
      ensures Valid() && Grows(old(scopes), scopes) && Finds(scopes, n, index, inst)
      ensures scopes == SetCaptures(old(scopes), n, Interned(old(scopes)[n].captures, key))
    {
      InternKeeps(scopes, n, key, inst);
      index := IndexOf(scopes[n].captures, key);
      scopes := SetCaptures(scopes, n, Interned(scopes[n].captures, key));
    }

    /** Enters the instruction into the outermost namespace and forwards it down to the nearest one. */
    method Tunnel(blockScope: ScopeId, inst: InstId, count: nat) returns (index: nat)
      requires Valid() && blockScope < |scopes| && 0 < count <= |Above(scopes, blockScope)|
      modifies `scopes
      ensures Valid() && Grows(old(scopes), scopes) && Finds(scopes, Above(old(scopes), blockScope)[0], index, inst)
    {
      AboveNesting(scopes, blockScope, count);
      var root, intermediate := CapturePath(blockScope, count);
      index := TunnelAlong(Above(scopes, blockScope)[..count], root, intermediate, inst);
    }

    method TunnelAlong(ghost path: seq<ScopeId>, root: ScopeId, intermediate: seq<ScopeId>, inst: InstId)
      returns (index: nat)
      requires Valid() && Nesting(scopes, path) && TopToBottom(path, root, intermediate)
      modifies `scopes
      ensures Valid() && Grows(old(scopes), scopes) && Finds(scopes, path[0], index, inst)
    {
      ghost var before := scopes;
      TopToBottomAt(path, root, intermediate, 0);
      index := InternCapture(root, Id(inst), inst);
      var k: nat := 0;
      ghost var at: nat := |path| - 1;
      hide Inv, Grows, Finds, Nesting, TopToBottom;
      while k < |intermediate|
        invariant k <= |intermediate| && at + k == |intermediate| == |path| - 1
        invariant Valid() && Grows(before, scopes)
        invariant Finds(scopes, path[at], index, inst)
      {
        ghost var middle := scopes;
        ForwardFinds(before, middle, path, at, index, inst);
        TopToBottomAt(path, root, intermediate, k);
        at := at - 1;
        index := InternCapture(intermediate[k], FromParent(index), inst);
        GrowsFurther(before, middle, scopes);
        k := k + 1;
      }
    }

    /** `capture_outer_scope_inst` */
    method CaptureOuterScopeInst(blockScope: ScopeId, outer: InstRef, count: nat) returns (r: Captured)
      requires Valid() && blockScope < |scopes| && 0 < count <= |Above(scopes, blockScope)|
      modifies `scopes
      ensures Valid() && |scopes| == |old(scopes)|
      ensures outer.Constant? ==> r == Same(outer) && scopes == old(scopes)
      ensures outer.Instruction? ==>
        && r.CaptureGet?
        && var n := Above(old(scopes), blockScope)[0];
           Finds(scopes, n, r.index, outer.id) && scopes[n].gets == old(scopes)[n].gets + [Get(r.index, outer.id)]
      ensures forall m: ScopeId :: m < |old(scopes)| && old(scopes)[m].Namespace? ==>
        scopes[m].Namespace? && Origins(old(scopes), m) <= Origins(scopes, m)
    {
      if outer.Constant? {
        return Same(outer);
      }
      var n := Above(scopes, blockScope)[0];
      var index := Tunnel(blockScope, outer.id, count);
      r := CaptureGet(index);
      forall m: ScopeId | m < |old(scopes)| && old(scopes)[m].Namespace?
        ensures Origins(old(scopes), m) <= Origins(scopes, m)
      {
        OriginsGrow(old(scopes), scopes, m);
      }
      GetKeeps(scopes, n, Get(index, outer.id));
      scopes := scopes[n := scopes[n].(gets := scopes[n].gets + [Get(index, outer.id)])];
    }

    /** An identifier used in a block: resolved, and captured if it belongs to an outer function. */
    method LowerIdent(blockScope: ScopeId, symbol: Symbol) returns (r: Resolution, captured: Option<Captured>)
      requires Valid() && blockScope < |scopes| && !scopes[blockScope].Namespace?
      modifies `scopes
      ensures Valid() && |scopes| == |old(scopes)|
      ensures r == if symbol != [] && symbol[0] == '@' then IsDecl else Lookup(old(scopes), blockScope, symbol, 0)
      ensures symbol == [] || symbol[0] != '@' ==> Means(old(scopes), blockScope, symbol, 0, r)
      ensures !r.IsCapture? ==> captured.None? && scopes == old(scopes)
      ensures r.IsCapture? && r.inst.Constant? ==> captured == Some(Same(r.inst))
      ensures r.IsCapture? && r.inst.Instruction? ==>
        && captured.Some? && captured.value.CaptureGet? && Above(old(scopes), blockScope) != []
        && var n := Above(old(scopes), blockScope)[0];
           && Finds(scopes, n, captured.value.index, r.inst.id)
           && scopes[n].gets == old(scopes)[n].gets + [Get(captured.value.index, r.inst.id)]
      ensures forall k: nat, inst ::
        (symbol == [] || symbol[0] != '@') && CapturesFrom(old(scopes), blockScope, k, symbol, inst) ==>
          && captured.Some? && captured.value.CaptureGet? && Above(old(scopes), blockScope) != []
          && Finds(scopes, Above(old(scopes), blockScope)[0], captured.value.index, inst)
    {
      hide Means;
      r := ResolveSymbol(blockScope, symbol);
      ghost var before := r;
      forall k: nat, inst |
        (symbol == [] || symbol[0] != '@') && CapturesFrom(old(scopes), blockScope, k, symbol, inst)
        ensures r.IsCapture? && r.inst == Instruction(inst)
      {
        CaptureMeans(scopes, blockScope, k, symbol, inst, r);
      }
      captured := None;
      if r.IsCapture? {
        ghost var l := CaptureRoot(scopes, blockScope, symbol);
        var c := CaptureOuterScopeInst(blockScope, r.inst, r.count);
        captured := Some(c);
      }
    }
  }
}
