/** Memory layout of runtime types, and the offsets computed again for run-time type information. */
module Layout {
  import opened Options
  import opened Power

  // -----------------------------------------------------------------------------------------------
  // Types and layouts
  // -----------------------------------------------------------------------------------------------

  datatype Ty =
    | Bool
    | Int(bits: nat)
    | Usize | Isize
    | F16 | F32 | F64 | F128
    | Ptr | Slice | Anyptr
    | Array(elem: Ty, len: nat)
    | Struct(fields: seq<Ty>)
    | Packed(fields: seq<Ty>)
    | Enum(tagTy: Ty)
    | Union(tag: Option<Ty>, payloads: seq<Option<Ty>>)
    | Void
    | Comptime        // types with no runtime layout: anyint, anyfloat, functions, `type`, never, ...

  datatype Placed = Placed(size: nat, align: nat)

  datatype Target = Target(ptrWidth: nat) {
    /** Pointer widths of the supported targets. */
    predicate Valid() {
      ptrWidth == 16 || ptrWidth == 32 || ptrWidth == 64
    }

    function PtrSize(): nat {
      ptrWidth / 8
    }
  }

  function Max(a: nat, b: nat): nat {
    if a >= b then a else b
  }

  function DivCeil(a: nat, b: nat): nat
    requires b > 0
  {
    if a % b == 0 then a / b else a / b + 1
  }

  /** Panics for a zero alignment. */
  function NextMultiple(x: nat, align: nat): (r: nat)
    requires align > 0
    ensures x <= r < x + align && r % align == 0
  {
    NextMultipleFact(x, align);
    if x % align == 0 then x else x + (align - x % align)
  }

  lemma NextMultipleFact(x: nat, align: nat)
    requires align > 0
    ensures x % align != 0 ==> (x + (align - x % align)) % align == 0
  {
    DivModFact(x, align);
    if x % align != 0 {
      var q := x / align;
      assert (q + 1) * align == q * align + align;
      DivModUnique(x + (align - x % align), align, q + 1, 0);
    }
  }

  function DoublePast(n: nat, p: nat): (r: nat)
    requires 0 < p
    ensures n <= r && 0 < r
    decreases n - p
  {
    if n <= p then p else DoublePast(n, 2 * p)
  }

  /** `next_power_of_two`: 1 for 0. */
  function NextPowerOfTwo(n: nat): nat {
    DoublePast(n, 1)
  }

  ghost predicate IsPowerOfTwo(a: nat) {
    exists k: nat :: a == Pow2(k)
  }

  lemma {:induction false} DoublePastPower(n: nat, p: nat, k: nat)
    requires p == Pow2(k)
    ensures IsPowerOfTwo(DoublePast(n, p)) && (n <= DoublePast(n, p)) && (n > p ==> DoublePast(n, p) < 2 * n)
    decreases n - p
  {
    if n <= p {
    } else {
      DoublePastPower(n, 2 * p, k + 1);
    }
  }

  /** The smaller of two powers of two divides the larger, and everything the larger divides. */
  lemma SmallerPowerDivides(a: nat, b: nat, x: nat)
    requires IsPowerOfTwo(a) && IsPowerOfTwo(b) && a <= b && x % b == 0
    ensures b % a == 0 && x % a == 0
  {
    var j: nat :| a == Pow2(j);
    var k: nat :| b == Pow2(k);
    if k < j {
      Pow2Strict(k, j);
    }
    Pow2Add(j, k - j);
    var m := Pow2(k - j);
    DivModFact(x, b);
    var q := x / b;
    assert q * (a * m) == (q * m) * a;
    DivModUnique(x, a, q * m, 0);
    DivModUnique(b, a, m, 0);
  }

  // -----------------------------------------------------------------------------------------------
  // Structs
  // -----------------------------------------------------------------------------------------------

  predicate Aligned(l: seq<Placed>) {
    forall k :: 0 <= k < |l| ==> l[k].align > 0
  }

  /** End of the first n fields. */
  function FieldsEnd(l: seq<Placed>, n: nat): nat
    requires Aligned(l) && n <= |l|
    decreases n, 0
  {
    if n == 0 then 0 else FieldOffset(l, n - 1) + l[n - 1].size
  }

  /** Where field k is placed: the end of the ones before it, rounded up to its alignment. */
  function FieldOffset(l: seq<Placed>, k: nat): nat
    requires Aligned(l) && k < |l|
    decreases k, 1
  {
    NextMultiple(FieldsEnd(l, k), l[k].align)
  }

  function MaxAlign(l: seq<Placed>, n: nat): (a: nat)
    requires n <= |l|
    ensures a > 0 && forall k :: 0 <= k < n ==> l[k].align <= a
    ensures a == 1 || exists k :: 0 <= k < n && l[k].align == a
  {
    if n == 0 then 1 else Max(MaxAlign(l, n - 1), l[n - 1].align)
  }

  /** A standard struct; None is the panic on a field of alignment 0. */
  function StandardStruct(l: seq<Placed>): Option<Placed> {
    if Aligned(l) then
      var align := MaxAlign(l, |l|);
      Some(Placed(NextMultiple(FieldsEnd(l, |l|), align), align))
    else None
  }

  lemma {:induction false} FieldsDisjoint(l: seq<Placed>, i: nat, j: nat)
    requires Aligned(l) && i < j <= |l|
    ensures FieldOffset(l, i) + l[i].size <= FieldsEnd(l, j)
    ensures j < |l| ==> FieldOffset(l, i) + l[i].size <= FieldOffset(l, j)
    decreases j
  {
    if i < j - 1 {
      FieldsDisjoint(l, i, j - 1);
    }
  }

  /**
   * The promise of a standard struct: its alignment is that of a field or 1 and its size a multiple of it with less
   * than one alignment of padding at the end; placed at any multiple of that alignment, every field is aligned, lies
   * inside, and overlaps no other.
   */
  lemma StructFields(l: seq<Placed>, base: nat, k: nat)
    requires Aligned(l) && forall n :: 0 <= n < |l| ==> IsPowerOfTwo(l[n].align)
    requires k < |l| && base % StandardStruct(l).value.align == 0
    ensures var s := StandardStruct(l).value;
            && IsPowerOfTwo(s.align) && s.size % s.align == 0 && s.size - FieldsEnd(l, |l|) < s.align
            && (s.align == 1 || exists n :: 0 <= n < |l| && l[n].align == s.align)
            && (base + FieldOffset(l, k)) % l[k].align == 0
            && FieldOffset(l, k) + l[k].size <= s.size
            && (forall n :: k < n < |l| ==> FieldOffset(l, k) + l[k].size <= FieldOffset(l, n))
            && FieldOffset(l, k) - (if k == 0 then 0 else FieldOffset(l, k - 1) + l[k - 1].size) < l[k].align
  {
    StructAligned(l, base, k);
    FieldsDisjoint(l, k, |l|);
    forall n | k < n < |l| ensures FieldOffset(l, k) + l[k].size <= FieldOffset(l, n) {
      FieldsDisjoint(l, k, n);
    }
  }

  lemma OneIsPower()
    ensures IsPowerOfTwo(1)
  {
    assert Pow2(0) == 1;
  }

  lemma MaxAlignPower(l: seq<Placed>)
    requires forall k :: 0 <= k < |l| ==> IsPowerOfTwo(l[k].align)
    ensures IsPowerOfTwo(MaxAlign(l, |l|))
  {
    OneIsPower();
  }

  lemma StructAligned(l: seq<Placed>, base: nat, k: nat)
    requires Aligned(l) && (forall n :: 0 <= n < |l| ==> IsPowerOfTwo(l[n].align)) && k < |l|
    requires base % MaxAlign(l, |l|) == 0
    ensures IsPowerOfTwo(MaxAlign(l, |l|)) && (base + FieldOffset(l, k)) % l[k].align == 0
  {
    MaxAlignPower(l);
    SmallerPowerDivides(l[k].align, MaxAlign(l, |l|), base);
    SumOfMultiples(base, FieldOffset(l, k), l[k].align);
  }

  lemma SumOfMultiples(x: nat, y: nat, a: nat)
    requires a > 0 && x % a == 0 && y % a == 0
    ensures (x + y) % a == 0
  {
    DivModFact(x, a);
    DivModFact(y, a);
    var p, q := x / a, y / a;
    assert (p + q) * a == p * a + q * a;
    DivModUnique(x + y, a, p + q, 0);
  }

  /** The struct arm of `type_layout`; None is its panic. */
  method LayOutStruct(l: seq<Placed>) returns (r: Option<Placed>)
    ensures r == StandardStruct(l)
  {
    hide NextMultiple;
    var size: nat := 0;
    var align: nat := 1;
    for i := 0 to |l|
      invariant Aligned(l[..i])
      invariant size == FieldsEnd(l[..i], i) && align == MaxAlign(l[..i], i)
    {
      var field := l[i];
      if field.align == 0 {
        return None;
      }
      PrefixSame(l[..i + 1], l[..i], i);
      size := NextMultiple(size, field.align);
      size := size + field.size;
      align := Max(align, field.align);
    }
    assert l[..|l|] == l;
    r := Some(Placed(NextMultiple(size, align), align));
  }

  lemma {:induction false} PrefixSame(l: seq<Placed>, p: seq<Placed>, n: nat)
    requires Aligned(l) && Aligned(p) && n <= |l| && n <= |p| && l[..n] == p[..n]
    ensures FieldsEnd(l, n) == FieldsEnd(p, n) && MaxAlign(l, n) == MaxAlign(p, n)
  {
    if n > 0 {
      assert l[..n][..n - 1] == l[..n - 1] && p[..n][..n - 1] == p[..n - 1];
      assert l[..n][n - 1] == p[..n][n - 1];
      PrefixSame(l, p, n - 1);
    }
  }

  /**
   * The running offset of the type-info code gives every field the place the layout gives it, and panics for exactly
   * the structs the layout panics for.
   */
  method TypeInfoOffsets(l: seq<Placed>) returns (offsets: Option<seq<nat>>)
    ensures offsets.Some? <==> StandardStruct(l).Some?
    ensures offsets.Some? ==>
      |offsets.value| == |l| && forall k :: 0 <= k < |l| ==> offsets.value[k] == FieldOffset(l, k)
  {
    hide NextMultiple;
    var curOffset: nat := 0;
    var placed: seq<nat> := [];
    for i := 0 to |l|
      invariant |placed| == i && Aligned(l[..i]) && curOffset == FieldsEnd(l[..i], i)
      invariant forall k :: 0 <= k < i ==> placed[k] == FieldOffset(l[..i], k)
    {
      if l[i].align == 0 {
        return None;
      }
      forall k | 0 <= k < i ensures FieldOffset(l[..i + 1], k) == FieldOffset(l[..i], k) {
        PrefixSame(l[..i + 1], l[..i], k);
      }
      PrefixSame(l[..i + 1], l[..i], i);
      curOffset := NextMultiple(curOffset, l[i].align);
      placed := placed + [curOffset];
      curOffset := curOffset + l[i].size;
    }
    assert l[..|l|] == l;
    offsets := Some(placed);
  }

  // -----------------------------------------------------------------------------------------------
  // Packed structs
  // -----------------------------------------------------------------------------------------------

  datatype BitField = BitField(offset: nat, width: nat)

  /** Total width of the first n fields. */
  function BitsEnd(widths: seq<nat>, n: nat): nat
    requires n <= |widths|
  {
    if n == 0 then 0 else BitsEnd(widths, n - 1) + widths[n - 1]
  }

  /** The fields placed one after the other. */
  function BitFields(widths: seq<nat>, n: nat): (r: seq<BitField>)
    requires n <= |widths|
    ensures |r| == n && forall k :: 0 <= k < n ==> r[k] == BitField(BitsEnd(widths, k), widths[k])
  {
    if n == 0 then [] else BitFields(widths, n - 1) + [BitField(BitsEnd(widths, n - 1), widths[n - 1])]
  }

  method PackFields(widths: seq<nat>) returns (fields: seq<BitField>, fieldsBits: nat, storageBits: nat)
    ensures fields == BitFields(widths, |widths|)
    ensures fieldsBits == BitsEnd(widths, |widths|)
    ensures storageBits % 8 == 0 && fieldsBits <= storageBits < fieldsBits + 8
  {
    hide StorageBits;
    var bitOffset: nat := 0;
    fields := [];
    for i := 0 to |widths|
      invariant fields == BitFields(widths, i) && bitOffset == BitsEnd(widths, i)
    {
      fields := fields + [BitField(bitOffset, widths[i])];
      bitOffset := bitOffset + widths[i];
    }
    fieldsBits, storageBits := bitOffset, StorageBits(bitOffset);
  }

  /** Whole bytes for the bits. */
  function StorageBits(bits: nat): (s: nat)
    ensures s % 8 == 0 && bits <= s < bits + 8
  {
    DivCeil(bits, 8) * 8
  }

  /** Packed fields follow each other without gap or overlap; the byte a type-info offset names is inside the struct. */
  lemma {:induction false} PackedDisjoint(widths: seq<nat>, i: nat, j: nat)
    requires i < j <= |widths|
    ensures BitsEnd(widths, i) + widths[i] <= BitsEnd(widths, j)
    ensures widths[i] > 0 ==> BitsEnd(widths, i) / 8 < DivCeil(BitsEnd(widths, j), 8)
    decreases j
  {
    if i < j - 1 {
      PackedDisjoint(widths, i, j - 1);
    }
  }

  // -----------------------------------------------------------------------------------------------
  // Unions
  // -----------------------------------------------------------------------------------------------

  datatype UnionLayout = UnionLayout(
    union: Placed,
    payload: Placed,
    mostAligned: nat,
    mostAlignedLayout: Placed,
    tag: Placed,
    trailingPadding: nat)

  /** What the loop over the payloads has found. */
  datatype PayloadScan = PayloadScan(payload: Placed, mostAligned: nat, mostAlignedLayout: Placed)

  /** A payload that takes part: present and of some size. */
  predicate Takes(p: Option<Placed>) {
    p.Some? && p.value.size > 0
  }

  /** The scan result is the least placement that holds every payload, and names the last of the most aligned ones. */
  ghost predicate IsScan(payloads: seq<Option<Placed>>, s: PayloadScan) {
    && (forall k :: 0 <= k < |payloads| && Takes(payloads[k]) ==>
          payloads[k].value.size <= s.payload.size && payloads[k].value.align <= s.payload.align)
    && (s.payload.size == 0 ||
          exists k :: 0 <= k < |payloads| && Takes(payloads[k]) && payloads[k].value.size == s.payload.size)
    && s.payload.align >= 1
    && (if exists k :: 0 <= k < |payloads| && Takes(payloads[k]) && payloads[k].value.align >= 1 then
          && s.mostAligned < |payloads| && Takes(payloads[s.mostAligned])
          && payloads[s.mostAligned].value == s.mostAlignedLayout && s.mostAlignedLayout.align == s.payload.align
          && forall k :: s.mostAligned < k < |payloads| && Takes(payloads[k]) ==>
               payloads[k].value.align < s.payload.align
        else
          s.payload.align == 1 && s.mostAligned == 0 && s.mostAlignedLayout == Placed(0, 0))
  }

  lemma ScanUnique(payloads: seq<Option<Placed>>, s: PayloadScan, t: PayloadScan)
    requires IsScan(payloads, s) && IsScan(payloads, t)
    ensures s == t
  {}

  method ScanPayloads(payloads: seq<Option<Placed>>) returns (s: PayloadScan)
    ensures IsScan(payloads, s)
  {
    var payloadSize: nat := 0;
    var payloadAlign: nat := 1;
    var mostAligned: nat := 0;
    var mostAlignedLayout := Placed(0, 0);
    for i := 0 to |payloads|
      invariant IsScan(payloads[..i], PayloadScan(Placed(payloadSize, payloadAlign), mostAligned, mostAlignedLayout))
    {
      ghost var before := PayloadScan(Placed(payloadSize, payloadAlign), mostAligned, mostAlignedLayout);
      if payloads[i].Some? && payloads[i].value.size != 0 {
        var field := payloads[i].value;
        payloadSize := Max(payloadSize, field.size);
        if field.align >= payloadAlign {
          payloadAlign := field.align;
          mostAligned := i;
          mostAlignedLayout := field;
        }
      }
      ScanStep(payloads, i, before);
    }
    assert payloads[..|payloads|] == payloads;
    s := PayloadScan(Placed(payloadSize, payloadAlign), mostAligned, mostAlignedLayout);
  }

  /** One payload taken into account. */
  function Scanned(s: PayloadScan, i: nat, p: Option<Placed>): PayloadScan {
    if !Takes(p) then s
    else if p.value.align >= s.payload.align then
      PayloadScan(Placed(Max(s.payload.size, p.value.size), p.value.align), i, p.value)
    else s.(payload := Placed(Max(s.payload.size, p.value.size), s.payload.align))
  }

  lemma ScanStep(payloads: seq<Option<Placed>>, i: nat, s: PayloadScan)
    requires i < |payloads| && IsScan(payloads[..i], s)
    ensures IsScan(payloads[..i + 1], Scanned(s, i, payloads[i]))
  {
    var a, b, t := payloads[..i], payloads[..i + 1], Scanned(s, i, payloads[i]);
    assert b == a + [payloads[i]];
    assert forall k :: 0 <= k < i ==> b[k] == a[k];
    assert b[i] == payloads[i];
  }

  /** The scan of the first n payloads as a function. */
  function Scan(payloads: seq<Option<Placed>>, n: nat): PayloadScan
    requires n <= |payloads|
  {
    if n == 0 then PayloadScan(Placed(0, 1), 0, Placed(0, 0))
    else Scanned(Scan(payloads, n - 1), n - 1, payloads[n - 1])
  }

  lemma {:induction false} ScanIs(payloads: seq<Option<Placed>>, n: nat)
    requires n <= |payloads|
    ensures IsScan(payloads[..n], Scan(payloads, n))
  {
    if n > 0 {
      ScanIs(payloads, n - 1);
      ScanStep(payloads, n - 1, Scan(payloads, n - 1));
    }
  }

  /** Where the content of a union ends. */
  function ContentEnd(payload: Placed, tag: Placed): nat
    requires payload.align > 0 && (tag.size > 0 ==> tag.align > 0)
  {
    if tag.size == 0 then payload.size
    else if payload.size == 0 then tag.size
    else if tag.align >= payload.align then NextMultiple(tag.size, payload.align) + payload.size
    else NextMultiple(payload.size, tag.align) + tag.size
  }

  function UnionOf(scan: PayloadScan, tag: Placed): UnionLayout
    requires scan.payload.align > 0 && (tag.size > 0 ==> tag.align > 0)
  {
    var align := Max(tag.align, scan.payload.align);
    var end := ContentEnd(scan.payload, tag);
    var size := NextMultiple(end, align);
    UnionLayout(Placed(size, align), scan.payload, scan.mostAligned, scan.mostAlignedLayout, tag, size - end)
  }

  /** The tag and payload offsets the type-info code works out again. */
  function TagOffset(u: UnionLayout): nat
    requires u.tag.size > 0 ==> u.tag.align > 0
  {
    if u.tag.size == 0 || u.payload.size == 0 then 0
    else if u.tag.align >= u.payload.align then 0
    else NextMultiple(u.payload.size, u.tag.align)
  }

  function PayloadOffset(u: UnionLayout): nat
    requires u.payload.align > 0
  {
    if u.tag.size == 0 || u.payload.size == 0 then 0
    else if u.tag.align >= u.payload.align then NextMultiple(u.tag.size, u.payload.align)
    else 0
  }

  /**
   * The offsets of the type-info code agree with the layout: tag and payload are aligned, do not overlap, end exactly
   * where the layout says the content ends, and only padding below one alignment follows.
   */
  lemma UnionParts(scan: PayloadScan, tag: Placed, base: nat)
    requires IsPowerOfTwo(scan.payload.align) && (tag == Placed(0, 0) || IsPowerOfTwo(tag.align))
    requires scan.payload.align > 0 && (tag.size > 0 ==> tag.align > 0)
    requires base % UnionOf(scan, tag).union.align == 0
    ensures var u := UnionOf(scan, tag);
            && IsPowerOfTwo(u.union.align) && u.union.size % u.union.align == 0
            && (tag.align > 0 ==> (base + TagOffset(u)) % tag.align == 0)
            && (base + PayloadOffset(u)) % u.payload.align == 0
            && (tag.size > 0 && u.payload.size > 0 ==>
                 TagOffset(u) + tag.size <= PayloadOffset(u) || PayloadOffset(u) + u.payload.size <= TagOffset(u))
            && u.union.size - u.trailingPadding == Max(TagOffset(u) + tag.size, PayloadOffset(u) + u.payload.size)
            && u.trailingPadding < u.union.align
  {
    var u := UnionOf(scan, tag);
    PowerPositive(scan.payload.align);
    if tag != Placed(0, 0) {
      PowerPositive(tag.align);
      SmallerPowerDivides(tag.align, u.union.align, base);
      SumOfMultiples(base, TagOffset(u), tag.align);
    }
    hide NextMultiple, IsPowerOfTwo;
    SmallerPowerDivides(scan.payload.align, u.union.align, base);
    SumOfMultiples(base, PayloadOffset(u), u.payload.align);
  }

  lemma PowerPositive(a: nat)
    requires IsPowerOfTwo(a)
    ensures a > 0 && 0 % a == 0
  {}

  /** Any payload stored at the payload offset is aligned and lies inside the payload part. */
  lemma PayloadFits(payloads: seq<Option<Placed>>, tag: Placed, base: nat, k: nat)
    requires forall n :: 0 <= n < |payloads| && Takes(payloads[n]) ==> IsPowerOfTwo(payloads[n].value.align)
    requires (tag == Placed(0, 0) || IsPowerOfTwo(tag.align)) && k < |payloads| && Takes(payloads[k])
    requires Scan(payloads, |payloads|).payload.align > 0 && (tag.size > 0 ==> tag.align > 0)
    requires base % UnionOf(Scan(payloads, |payloads|), tag).union.align == 0
    ensures var u := UnionOf(Scan(payloads, |payloads|), tag);
            && IsPowerOfTwo(u.payload.align) && payloads[k].value.size <= u.payload.size
            && payloads[k].value.align > 0 && (base + PayloadOffset(u)) % payloads[k].value.align == 0
  {
    PowerPositive(payloads[k].value.align);
    var scan := Scan(payloads, |payloads|);
    ScanAlign(payloads);
    UnionParts(scan, tag, base);
    var at := base + PayloadOffset(UnionOf(scan, tag));
    SmallerPowerDivides(payloads[k].value.align, scan.payload.align, at);
  }

  lemma ScanAlign(payloads: seq<Option<Placed>>)
    requires forall n :: 0 <= n < |payloads| && Takes(payloads[n]) ==> IsPowerOfTwo(payloads[n].value.align)
    ensures IsPowerOfTwo(Scan(payloads, |payloads|).payload.align)
    ensures forall k :: 0 <= k < |payloads| && Takes(payloads[k]) ==>
              payloads[k].value.size <= Scan(payloads, |payloads|).payload.size
              && payloads[k].value.align <= Scan(payloads, |payloads|).payload.align
  {
    ScanIs(payloads, |payloads|);
    assert payloads[..|payloads|] == payloads;
    OneIsPower();
  }

  // -----------------------------------------------------------------------------------------------
  // type_layout
  // -----------------------------------------------------------------------------------------------

  /** Width in bits of a packed struct field; None where analysis has already refused the type. */
  function PackedWidth(t: Target, ty: Ty): Option<nat>
    decreases ty, 1, 0
  {
    match ty
    case Int(bits) => Some(bits)
    case Bool => Some(1)
    case F16 => Some(16)
    case F32 => Some(32)
    case F64 => Some(64)
    case F128 => Some(128)
    case Isize => Some(t.ptrWidth)
    case Usize => Some(t.ptrWidth)
    case Void => Some(0)
    case Packed(fields) =>
      (match PackedWidths(t, ty, |fields|)
       case Some(widths) => Some(BitsEnd(widths, |widths|))
       case None => None)
    case _ => None
  }

  function PackedWidths(t: Target, ty: Ty, n: nat): (r: Option<seq<nat>>)
    requires ty.Packed? && n <= |ty.fields|
    ensures r.Some? ==> |r.value| == n
    decreases ty, 0, n
  {
    if n == 0 then Some([])
    else
      match (PackedWidths(t, ty, n - 1), PackedWidth(t, ty.fields[n - 1]))
      case (Some(widths), Some(w)) => Some(widths + [w])
      case _ => None
  }

  function IntLayout(bits: nat): (p: Placed)
    ensures p.align > 0
  {
    var size := DivCeil(bits, 8);
    Placed(size, NextPowerOfTwo(size))
  }

  /** None is the panic of rounding the element size to alignment 0. */
  function ArrayLayout(e: Placed, len: nat): (r: Option<Placed>)
    ensures r.Some? <==> e.align > 0
    ensures r.Some? ==> r.value.align == e.align && r.value.size % e.align == 0
  {
    if e.align == 0 then None
    else
      MultipleTimes(NextMultiple(e.size, e.align), e.align, len);
      Some(Placed(NextMultiple(e.size, e.align) * len, e.align))
  }

  lemma MultipleTimes(x: nat, a: nat, n: nat)
    requires a > 0 && x % a == 0
    ensures x * n >= 0 && x * n % a == 0
  {
    DivModFact(x, a);
    var q := x / a;
    assert x * n == (q * n) * a;
    MulNonNegative(x, n);
    MulNonNegative(q, n);
    DivModUnique(x * n, a, q * n, 0);
  }

  /** None is a panic: a type with no runtime layout, or rounding to a zero alignment. */
  function TypeLayout(t: Target, ty: Ty): (r: Option<Placed>)
    requires t.Valid()
    ensures r.Some? && r.value.size > 0 ==> r.value.align > 0
    decreases ty, 1, 0
  {
    match ty
    case Bool => Some(Placed(1, 1))
    case Int(bits) => Some(IntLayout(bits))
    case F16 => Some(Placed(2, 2))
    case F32 => Some(Placed(4, 4))
    case F64 => Some(Placed(8, 8))
    case F128 => Some(Placed(16, 16))
    case Ptr => Some(Placed(t.PtrSize(), t.PtrSize()))
    case Usize => Some(Placed(t.PtrSize(), t.PtrSize()))
    case Isize => Some(Placed(t.PtrSize(), t.PtrSize()))
    case Slice => Some(Placed(t.PtrSize() * 2, t.PtrSize()))
    case Anyptr => Some(Placed(t.PtrSize() * 2, t.PtrSize()))
    case Array(elem, len) =>
      (match TypeLayout(t, elem)
       case Some(e) => ArrayLayout(e, len)
       case None => None)
    case Struct(fields) =>
      (match FieldLayouts(t, ty, |fields|)
       case Some(l) => StandardStruct(l)
       case None => None)
    case Packed(fields) =>
      (match PackedWidth(t, ty)
       case Some(bits) => Some(Placed(DivCeil(bits, 8), 1))
       case None => None)
    case Enum(tag) => TypeLayout(t, tag)
    case Union(_, payloads) =>
      (match UnionTypeLayout(t, ty)
       case Some(u) => Some(u.union)
       case None => None)
    case Void => Some(Placed(0, 0))
    case Comptime => None
  }

  /** Layouts of the first n fields. */
  function FieldLayouts(t: Target, ty: Ty, n: nat): (r: Option<seq<Placed>>)
    requires t.Valid() && ty.Struct? && n <= |ty.fields|
    ensures r.Some? ==> |r.value| == n
    decreases ty, 0, n
  {
    if n == 0 then Some([])
    else
      match (FieldLayouts(t, ty, n - 1), TypeLayout(t, ty.fields[n - 1]))
      case (Some(l), Some(field)) => Some(l + [field])
      case _ => None
  }

  /** Layouts of the first n payloads, absent ones left out. */
  function PayloadLayouts(t: Target, ty: Ty, n: nat): (r: Option<seq<Option<Placed>>>)
    requires t.Valid() && ty.Union? && n <= |ty.payloads|
    ensures r.Some? ==> |r.value| == n
    decreases ty, 0, n
  {
    if n == 0 then Some([])
    else
      match PayloadLayouts(t, ty, n - 1)
      case None => None
      case Some(l) =>
        match ty.payloads[n - 1]
        case None => Some(l + [None])
        case Some(p) =>
          match TypeLayout(t, p)
          case Some(field) => Some(l + [Some(field)])
          case None => None
  }

  function TagLayout(t: Target, ty: Ty): (r: Option<Placed>)
    requires t.Valid() && ty.Union?
    ensures r.Some? && r.value.size > 0 ==> r.value.align > 0
    decreases ty, 0, 0
  {
    match ty.tag
    case Some(tag) => TypeLayout(t, tag)
    case None => Some(Placed(0, 1))
  }

  /** `type_union_layout` */
  function UnionTypeLayout(t: Target, ty: Ty): (r: Option<UnionLayout>)
    requires t.Valid() && ty.Union?
    ensures r.Some? ==> r.value.union.align > 0
    decreases ty, 0, |ty.payloads| + 1
  {
    match (PayloadLayouts(t, ty, |ty.payloads|), TagLayout(t, ty))
    case (Some(l), Some(tag)) =>
      ScanIs(l, |l|);
      Some(UnionOf(Scan(l, |l|), tag))
    case _ => None
  }

  // -----------------------------------------------------------------------------------------------
  // Which types have a layout, and what every layout keeps
  // -----------------------------------------------------------------------------------------------

  /** Laid out with alignment 0: void, and enums tagged by such a type. */
  predicate VoidLike(ty: Ty) {
    ty.Void? || (ty.Enum? && VoidLike(ty.tagTy))
  }

  predicate Packable(ty: Ty) {
    match ty
    case Int(_) => true
    case Bool => true
    case F16 => true
    case F32 => true
    case F64 => true
    case F128 => true
    case Isize => true
    case Usize => true
    case Void => true
    case Packed(fields) => forall k :: 0 <= k < |fields| ==> Packable(fields[k])
    case _ => false
  }

  /** No compile-time type anywhere, and no void field or element outside packed structs and union payloads. */
  predicate Laid(ty: Ty) {
    match ty
    case Array(elem, _) => Laid(elem) && !VoidLike(elem)
    case Struct(fields) => forall k :: 0 <= k < |fields| ==> Laid(fields[k]) && !VoidLike(fields[k])
    case Packed(fields) => Packable(ty)
    case Enum(tag) => Laid(tag)
    case Union(tag, payloads) =>
      && (tag.Some? ==> Laid(tag.value))
      && forall k :: 0 <= k < |payloads| && payloads[k].Some? ==> Laid(payloads[k].value)
    case Comptime => false
    case _ => true
  }

  ghost predicate GoodAlign(ty: Ty, p: Placed) {
    if VoidLike(ty) then p == Placed(0, 0) else IsPowerOfTwo(p.align)
  }

  lemma {:induction false} PackedWidthExists(t: Target, ty: Ty)
    ensures PackedWidth(t, ty).Some? <==> Packable(ty)
    decreases ty, 1, 0
  {
    if ty.Packed? {
      PackedWidthsExist(t, ty, |ty.fields|);
    }
  }

  lemma {:induction false} PackedWidthsExist(t: Target, ty: Ty, n: nat)
    requires ty.Packed? && n <= |ty.fields|
    ensures PackedWidths(t, ty, n).Some? <==> forall k :: 0 <= k < n ==> Packable(ty.fields[k])
    decreases ty, 0, n
  {
    if n > 0 {
      PackedWidthsExist(t, ty, n - 1);
      PackedWidthExists(t, ty.fields[n - 1]);
    }
  }

  /**
   * A type has a layout exactly when it is free of compile-time types and of void fields and elements; every alignment
   * is then a power of two, save for void itself.
   */
  lemma {:induction false} LayoutExistsIff(t: Target, ty: Ty)
    requires t.Valid()
    ensures TypeLayout(t, ty).Some? <==> Laid(ty)
    ensures TypeLayout(t, ty).Some? ==> GoodAlign(ty, TypeLayout(t, ty).value)
    decreases ty, 1, 0
  {
    match ty
    case Array(elem, len) =>
      LayoutExistsIff(t, elem);
      if TypeLayout(t, elem).Some? && VoidLike(elem) {
        assert TypeLayout(t, elem).value.align == 0;
      } else if TypeLayout(t, elem).Some? {
        PowerPositive(TypeLayout(t, elem).value.align);
      }
    case Struct(fields) => StructExistsIff(t, ty);
    case Packed(_) =>
      PackedWidthExists(t, ty);
      PowersUpTo16();
    case Enum(tag) => LayoutExistsIff(t, tag);
    case Union(_, _) => UnionExistsIff(t, ty);
    case _ => ScalarGood(t, ty);
  }

  lemma ScalarGood(t: Target, ty: Ty)
    requires t.Valid()
    requires !ty.Array? && !ty.Struct? && !ty.Packed? && !ty.Enum? && !ty.Union?
    ensures TypeLayout(t, ty).Some? <==> Laid(ty)
    ensures TypeLayout(t, ty).Some? ==> GoodAlign(ty, TypeLayout(t, ty).value)
  {
    hide IntLayout, IsPowerOfTwo, FieldLayouts, UnionTypeLayout, PackedWidth, Packable, ArrayLayout, StandardStruct;
    hide Target.Valid, Target.PtrSize;
    PowersUpTo16();
    PtrGood(t);
    if ty.Int? {
      IntGood(ty.bits);
    }
  }

  lemma PtrGood(t: Target)
    requires t.Valid()
    ensures IsPowerOfTwo(t.PtrSize())
  {
    PowersUpTo16();
  }

  lemma IntGood(bits: nat)
    ensures IsPowerOfTwo(IntLayout(bits).align)
  {
    DoublePastPower(DivCeil(bits, 8), 1, 0);
  }

  lemma {:induction false} StructExistsIff(t: Target, ty: Ty)
    requires t.Valid() && ty.Struct?
    ensures TypeLayout(t, ty).Some? <==> Laid(ty)
    ensures TypeLayout(t, ty).Some? ==> GoodAlign(ty, TypeLayout(t, ty).value)
    decreases ty, 0, |ty.fields| + 1
  {
    FieldsExistIff(t, ty, |ty.fields|);
    if FieldLayouts(t, ty, |ty.fields|).Some? {
      var l := FieldLayouts(t, ty, |ty.fields|).value;
      StructGood(l);
      forall k | 0 <= k < |l| && !VoidLike(ty.fields[k]) ensures l[k].align > 0 {
        PowerPositive(l[k].align);
      }
      assert Aligned(l) ==> forall k :: 0 <= k < |l| ==> l[k].align > 0;
    }
  }

  lemma {:induction false} UnionExistsIff(t: Target, ty: Ty)
    requires t.Valid() && ty.Union?
    ensures TypeLayout(t, ty).Some? <==> Laid(ty)
    ensures TypeLayout(t, ty).Some? ==> GoodAlign(ty, TypeLayout(t, ty).value)
    decreases ty, 0, |ty.payloads| + 1
  {
    PayloadsExistIff(t, ty, |ty.payloads|);
    TagExistsIff(t, ty);
    if UnionTypeLayout(t, ty).Some? {
      var l := PayloadLayouts(t, ty, |ty.payloads|).value;
      UnionGood(l, TagLayout(t, ty).value);
    }
  }

  lemma {:induction false} TagExistsIff(t: Target, ty: Ty)
    requires t.Valid() && ty.Union?
    ensures TagLayout(t, ty).Some? <==> (ty.tag.Some? ==> Laid(ty.tag.value))
    ensures TagLayout(t, ty).Some? ==>
              TagLayout(t, ty).value == Placed(0, 0) || IsPowerOfTwo(TagLayout(t, ty).value.align)
    decreases ty, 0, 0
  {
    OneIsPower();
    if ty.tag.Some? {
      LayoutExistsIff(t, ty.tag.value);
    }
  }

  lemma PowersApart(a: nat, b: nat)
    requires IsPowerOfTwo(a) && IsPowerOfTwo(b) && a <= b < 2 * a
    ensures a == b
  {
    var j: nat :| a == Pow2(j);
    var k: nat :| b == Pow2(k);
    if j < k {
      Pow2Strict(j, k);
    } else if k < j {
      Pow2Strict(k, j);
    }
  }

  /** An integer type of 24 bits, say, has a size that is no multiple of its alignment. */
  lemma IntSizeIff(bits: nat)
    ensures var p := IntLayout(bits);
            p.size % p.align == 0 <==> p.size == 0 || IsPowerOfTwo(p.size)
  {
    var size := IntLayout(bits).size;
    OneIsPower();
    DoublePastPower(size, 1, 0);
    if size > 0 {
      MultipleOfPower(size, NextPowerOfTwo(size));
    }
  }

  lemma MultipleOfPower(size: nat, align: nat)
    requires 0 < size <= align < 2 * size && IsPowerOfTwo(align)
    ensures size % align == 0 <==> IsPowerOfTwo(size)
  {
    hide IsPowerOfTwo;
    if size % align == 0 {
      DivSmallOrEqual(size, align);
    }
    if IsPowerOfTwo(size) {
      PowersApart(size, align);
    }
  }

  lemma DivSmallOrEqual(x: nat, a: nat)
    requires 0 < x <= a && x % a == 0
    ensures x == a
  {}

  lemma PowersUpTo16()
    ensures IsPowerOfTwo(1) && IsPowerOfTwo(2) && IsPowerOfTwo(4) && IsPowerOfTwo(8) && IsPowerOfTwo(16)
  {
    assert Pow2(0) == 1 && Pow2(1) == 2 && Pow2(2) == 4 && Pow2(3) == 8;
    Pow2Add(3, 1);
  }

  lemma {:induction false} FieldsExistIff(t: Target, ty: Ty, n: nat)
    requires t.Valid() && ty.Struct? && n <= |ty.fields|
    ensures FieldLayouts(t, ty, n).Some? <==> forall k :: 0 <= k < n ==> Laid(ty.fields[k])
    ensures FieldLayouts(t, ty, n).Some? ==>
              forall k :: 0 <= k < n ==> GoodAlign(ty.fields[k], FieldLayouts(t, ty, n).value[k])
    decreases ty, 0, n
  {
    hide Laid, GoodAlign, TypeLayout;
    if n > 0 {
      FieldsExistIff(t, ty, n - 1);
      LayoutExistsIff(t, ty.fields[n - 1]);
    }
  }

  lemma {:induction false} PayloadsExistIff(t: Target, ty: Ty, n: nat)
    requires t.Valid() && ty.Union? && n <= |ty.payloads|
    ensures PayloadLayouts(t, ty, n).Some? <==>
              forall k :: 0 <= k < n && ty.payloads[k].Some? ==> Laid(ty.payloads[k].value)
    ensures PayloadLayouts(t, ty, n).Some? ==>
              forall k :: 0 <= k < n && Takes(PayloadLayouts(t, ty, n).value[k]) ==>
                IsPowerOfTwo(PayloadLayouts(t, ty, n).value[k].value.align)
    decreases ty, 0, n
  {
    if n > 0 {
      PayloadsExistIff(t, ty, n - 1);
      if ty.payloads[n - 1].Some? {
        LayoutExistsIff(t, ty.payloads[n - 1].value);
      }
    }
  }

  lemma StructGood(l: seq<Placed>)
    ensures StandardStruct(l).Some? <==> Aligned(l)
    ensures (forall k :: 0 <= k < |l| ==> IsPowerOfTwo(l[k].align)) ==>
              Aligned(l) && IsPowerOfTwo(StandardStruct(l).value.align)
  {
    if forall k :: 0 <= k < |l| ==> IsPowerOfTwo(l[k].align) {
      forall k | 0 <= k < |l| ensures l[k].align > 0 {
        PowerPositive(l[k].align);
      }
      MaxAlignPower(l);
    }
  }

  lemma UnionGood(l: seq<Option<Placed>>, tag: Placed)
    requires forall k :: 0 <= k < |l| && Takes(l[k]) ==> IsPowerOfTwo(l[k].value.align)
    requires tag == Placed(0, 0) || IsPowerOfTwo(tag.align)
    ensures Scan(l, |l|).payload.align > 0 && (tag.size > 0 ==> tag.align > 0)
    ensures IsPowerOfTwo(UnionOf(Scan(l, |l|), tag).union.align)
  {
    ScanAlign(l);
    PowerPositive(Scan(l, |l|).payload.align);
  }

  // -----------------------------------------------------------------------------------------------
  // The promises for whole types
  // -----------------------------------------------------------------------------------------------

  lemma {:induction false} LayoutsOfFields(t: Target, ty: Ty, n: nat)
    requires t.Valid() && ty.Struct? && n <= |ty.fields|
    ensures FieldLayouts(t, ty, n).Some? ==>
              forall k :: 0 <= k < n ==> TypeLayout(t, ty.fields[k]) == Some(FieldLayouts(t, ty, n).value[k])
  {
    hide TypeLayout;
    if n > 0 {
      LayoutsOfFields(t, ty, n - 1);
    }
  }

  lemma {:induction false} LayoutsOfPayloads(t: Target, ty: Ty, n: nat)
    requires t.Valid() && ty.Union? && n <= |ty.payloads|
    ensures PayloadLayouts(t, ty, n).Some? ==>
              forall k :: 0 <= k < n ==> PayloadLayouts(t, ty, n).value[k] == PayloadLayout(t, ty.payloads[k])
  {
    hide TypeLayout;
    if n > 0 {
      LayoutsOfPayloads(t, ty, n - 1);
    }
  }

  function PayloadLayout(t: Target, payload: Option<Ty>): Option<Placed>
    requires t.Valid()
  {
    if payload.Some? then TypeLayout(t, payload.value) else None
  }

  /** A union type with a layout: its tag is laid out as its type, and it has the greater of the two alignments. */
  lemma UnionShape(t: Target, ty: Ty)
    requires t.Valid() && ty.Union? && Laid(ty)
    ensures UnionTypeLayout(t, ty).Some?
    ensures var u := UnionTypeLayout(t, ty).value;
            && (if ty.tag.Some? then TypeLayout(t, ty.tag.value) == Some(u.tag) else u.tag == Placed(0, 1))
            && u.union.align == if u.tag.align > u.payload.align then u.tag.align else u.payload.align
  {
    UnionLaid(t, ty);
    hide PayloadLayouts, Scan, TypeLayout, Laid, IsPowerOfTwo, ContentEnd, NextMultiple;
  }

  lemma ScanOfUnion(t: Target, ty: Ty)
    requires t.Valid() && ty.Union? && Laid(ty)
    ensures UnionTypeLayout(t, ty).Some? && PayloadLayouts(t, ty, |ty.payloads|).Some?
    ensures var l, u := PayloadLayouts(t, ty, |ty.payloads|).value, UnionTypeLayout(t, ty).value;
            && u.payload == Scan(l, |l|).payload && IsScan(l, Scan(l, |l|))
            && forall k :: 0 <= k < |l| ==> l[k] == PayloadLayout(t, ty.payloads[k])
  {
    hide UnionTypeLayout, PayloadLayouts, Scan, IsScan, TypeLayout, Laid, IsPowerOfTwo, UnionOf;
    UnionLaid(t, ty);
    var l := PayloadLayouts(t, ty, |ty.payloads|).value;
    LayoutsOfPayloads(t, ty, |ty.payloads|);
    ScanIs(l, |l|);
    assert l[..|l|] == l;
  }

  /** The payload part is as large as every payload, and as aligned as every one that takes space. */
  lemma PayloadHeld(t: Target, ty: Ty, k: nat)
    requires t.Valid() && ty.Union? && Laid(ty) && k < |ty.payloads| && ty.payloads[k].Some?
    ensures UnionTypeLayout(t, ty).Some? && TypeLayout(t, ty.payloads[k].value).Some?
    ensures var part, p := UnionTypeLayout(t, ty).value.payload, TypeLayout(t, ty.payloads[k].value).value;
            p.size <= part.size && (p.size > 0 ==> p.align <= part.align)
  {
    ScanOfUnion(t, ty);
    PayloadsExistIff(t, ty, |ty.payloads|);
    LayoutExistsIff(t, ty.payloads[k].value);
    hide UnionTypeLayout, PayloadLayouts, Scan, TypeLayout, Laid, IsPowerOfTwo, GoodAlign;
    var l := PayloadLayouts(t, ty, |ty.payloads|).value;
    assert l[k].Some? && (Takes(l[k]) || l[k].value.size == 0);
  }

  /** And no larger than its largest payload. */
  lemma LargestPayload(t: Target, ty: Ty) returns (k: nat)
    requires t.Valid() && ty.Union? && Laid(ty)
    ensures UnionTypeLayout(t, ty).Some?
    ensures var size := UnionTypeLayout(t, ty).value.payload.size;
            size > 0 ==>
              && k < |ty.payloads| && ty.payloads[k].Some? && TypeLayout(t, ty.payloads[k].value).Some?
              && TypeLayout(t, ty.payloads[k].value).value.size == size
  {
    ScanOfUnion(t, ty);
    hide UnionTypeLayout, PayloadLayouts, Scan, TypeLayout, Laid;
    var l, u := PayloadLayouts(t, ty, |ty.payloads|).value, UnionTypeLayout(t, ty).value;
    k := 0;
    if u.payload.size > 0 {
      k :| 0 <= k < |l| && Takes(l[k]) && l[k].value.size == u.payload.size;
    }
  }

  /** A struct type with a layout is a standard struct of aligned fields. */
  lemma StructLaid(t: Target, ty: Ty)
    requires t.Valid() && ty.Struct? && Laid(ty)
    ensures FieldLayouts(t, ty, |ty.fields|).Some?
    ensures var l := FieldLayouts(t, ty, |ty.fields|).value;
            && Aligned(l) && (forall k :: 0 <= k < |l| ==> IsPowerOfTwo(l[k].align))
            && TypeLayout(t, ty) == StandardStruct(l)
            && forall k :: 0 <= k < |l| ==> TypeLayout(t, ty.fields[k]) == Some(l[k])
  {
    hide StandardStruct;
    LayoutsOfFields(t, ty, |ty.fields|);
    FieldsExistIff(t, ty, |ty.fields|);
    StructGood(FieldLayouts(t, ty, |ty.fields|).value);
  }

  /** Every struct type without void fields: what `StructFields` says holds of its fields' layouts. */
  lemma StructTypeFields(t: Target, ty: Ty, base: nat, k: nat)
    requires t.Valid() && ty.Struct? && Laid(ty) && k < |ty.fields|
    ensures TypeLayout(t, ty).Some? && FieldLayouts(t, ty, |ty.fields|).Some? && TypeLayout(t, ty).value.align > 0
    ensures base % TypeLayout(t, ty).value.align == 0 ==>
              var s, l := TypeLayout(t, ty).value, FieldLayouts(t, ty, |ty.fields|).value;
              && Aligned(l) && IsPowerOfTwo(s.align) && s.size % s.align == 0
              && (base + FieldOffset(l, k)) % l[k].align == 0 && FieldOffset(l, k) + l[k].size <= s.size
              && (forall n :: k < n < |l| ==> FieldOffset(l, k) + l[k].size <= FieldOffset(l, n))
              && FieldOffset(l, k) - (if k == 0 then 0 else FieldOffset(l, k - 1) + l[k - 1].size) < l[k].align
              && TypeLayout(t, ty.fields[k]) == Some(l[k])
  {
    hide TypeLayout, FieldLayouts, FieldsEnd, FieldOffset, Laid, IsPowerOfTwo, NextMultiple;
    StructLaid(t, ty);
    if base % TypeLayout(t, ty).value.align == 0 {
      StructFields(FieldLayouts(t, ty, |ty.fields|).value, base, k);
    }
  }

  /** A union type with a layout is the union of what the scan of its payloads finds and its tag. */
  lemma UnionLaid(t: Target, ty: Ty)
    requires t.Valid() && ty.Union? && Laid(ty)
    ensures PayloadLayouts(t, ty, |ty.payloads|).Some? && TagLayout(t, ty).Some?
    ensures var l, tag := PayloadLayouts(t, ty, |ty.payloads|).value, TagLayout(t, ty).value;
            var scan := Scan(l, |l|);
            && IsPowerOfTwo(scan.payload.align) && (tag == Placed(0, 0) || IsPowerOfTwo(tag.align))
            && scan.payload.align > 0 && (tag.size > 0 ==> tag.align > 0)
            && UnionTypeLayout(t, ty) == Some(UnionOf(scan, tag))
            && UnionOf(scan, tag).tag == tag && UnionOf(scan, tag).payload == scan.payload
  {
    hide IsPowerOfTwo, Scan, PayloadLayouts, TagLayout, NextMultiple, ContentEnd;
    PayloadsExistIff(t, ty, |ty.payloads|);
    TagExistsIff(t, ty);
    var l, tag := PayloadLayouts(t, ty, |ty.payloads|).value, TagLayout(t, ty).value;
    UnionGood(l, tag);
    ScanAlign(l);
  }

  /** Every union type with a layout: what `UnionParts` says holds of its tag and payload. */
  lemma UnionTypeParts(t: Target, ty: Ty, base: nat)
    requires t.Valid() && ty.Union? && Laid(ty)
    ensures UnionTypeLayout(t, ty).Some? && UnionTypeLayout(t, ty).value.payload.align > 0
    ensures base % UnionTypeLayout(t, ty).value.union.align == 0 ==>
              var u := UnionTypeLayout(t, ty).value;
              && IsPowerOfTwo(u.union.align) && u.union.size % u.union.align == 0 && u.trailingPadding < u.union.align
              && (u.tag.size > 0 ==> u.tag.align > 0 && (base + TagOffset(u)) % u.tag.align == 0)
              && (base + PayloadOffset(u)) % u.payload.align == 0
              && (u.tag.size > 0 && u.payload.size > 0 ==>
                   TagOffset(u) + u.tag.size <= PayloadOffset(u) || PayloadOffset(u) + u.payload.size <= TagOffset(u))
              && u.union.size - u.trailingPadding == Max(TagOffset(u) + u.tag.size, PayloadOffset(u) + u.payload.size)
  {
    hide UnionTypeLayout, PayloadLayouts, TagLayout, UnionOf, Scan, Laid, IsPowerOfTwo, NextMultiple;
    UnionLaid(t, ty);
    if base % UnionTypeLayout(t, ty).value.union.align == 0 {
      var l := PayloadLayouts(t, ty, |ty.payloads|).value;
      UnionParts(Scan(l, |l|), TagLayout(t, ty).value, base);
    }
  }

  /** The fewest whole bytes for an integer's bits, and the least power of two not below them (1 for none). */
  lemma IntSize(bits: nat)
    ensures var p := IntLayout(bits);
            && 8 * p.size < bits + 8 && bits <= 8 * p.size
            && IsPowerOfTwo(p.align) && p.size <= p.align
            && (if p.size <= 1 then p.align == 1 else p.align < 2 * p.size)
  {
    OneIsPower();
    DoublePastPower(DivCeil(bits, 8), 1, 0);
  }

  /** The layouts of the types without parts, in bytes; that of an enum is its tag's. */
  lemma ScalarSizes(t: Target, ty: Ty)
    requires t.Valid()
    ensures ty.Bool? ==> TypeLayout(t, ty) == Some(Placed(1, 1))
    ensures ty.F16? ==> TypeLayout(t, ty) == Some(Placed(2, 2))
    ensures ty.F32? ==> TypeLayout(t, ty) == Some(Placed(4, 4))
    ensures ty.F64? ==> TypeLayout(t, ty) == Some(Placed(8, 8))
    ensures ty.F128? ==> TypeLayout(t, ty) == Some(Placed(16, 16))
    ensures ty.Void? ==> TypeLayout(t, ty) == Some(Placed(0, 0))
    ensures ty.Ptr? || ty.Usize? || ty.Isize? || ty.Slice? || ty.Anyptr? ==>
              && TypeLayout(t, ty).Some?
              && var p := TypeLayout(t, ty).value;
                 && 8 * p.align == t.ptrWidth
                 && 8 * p.size == if ty.Slice? || ty.Anyptr? then 2 * t.ptrWidth else t.ptrWidth
    ensures ty.Enum? ==> TypeLayout(t, ty) == TypeLayout(t, ty.tagTy)
    ensures ty.Int? ==>
              && TypeLayout(t, ty).Some?
              && var p := TypeLayout(t, ty).value;
                 8 * p.size < ty.bits + 8 && ty.bits <= 8 * p.size && IsPowerOfTwo(p.align)
                 && p.size <= p.align && (if p.size <= 1 then p.align == 1 else p.align < 2 * p.size)
  {
    hide IntLayout, IsPowerOfTwo, FieldLayouts, UnionTypeLayout, PackedWidth, ArrayLayout, StandardStruct;
    if ty.Int? {
      IntSize(ty.bits);
    }
  }

  /** An array is its elements one after the other, each at the least multiple of their alignment that holds them. */
  lemma ArrayElements(t: Target, ty: Ty, base: nat, k: nat)
    requires t.Valid() && ty.Array? && Laid(ty)
    ensures TypeLayout(t, ty.elem).Some? && TypeLayout(t, ty).Some? && TypeLayout(t, ty.elem).value.align > 0
    ensures var e, a := TypeLayout(t, ty.elem).value, TypeLayout(t, ty).value;
            var stride := NextMultiple(e.size, e.align);
            && a.align == e.align && a.size == ty.len * stride
            && e.size <= stride < e.size + e.align && stride % e.align == 0
            && (k < ty.len ==> 0 <= k * stride && k * stride + e.size <= (k + 1) * stride <= a.size)
            && (base % a.align == 0 ==> (base + k * stride) % e.align == 0)
  {
    LayoutExistsIff(t, ty.elem);
    LayoutExistsIff(t, ty);
    PowerPositive(TypeLayout(t, ty.elem).value.align);
    var e, a := TypeLayout(t, ty.elem).value, TypeLayout(t, ty).value;
    assert ArrayLayout(e, ty.len) == Some(a);
    hide TypeLayout, IsPowerOfTwo, Laid, GoodAlign;
    var stride := NextMultiple(e.size, e.align);
    MultipleTimes(stride, e.align, k);
    Strides(stride, k, ty.len);
    if base % a.align == 0 {
      SumOfMultiples(base, stride * k, e.align);
    }
  }

  lemma Strides(stride: nat, k: nat, n: nat)
    ensures k * stride == stride * k && n * stride == stride * n && 0 <= k * stride
    ensures (k + 1) * stride == k * stride + stride
    ensures k < n ==> (k + 1) * stride <= n * stride
  {
    MulNonNegative(k, stride);
    if k < n {
      MulMonotone(k + 1, n, stride);
    }
  }

  /** The bits of a packed field, by type; a packed struct has those of its fields, in the fewest whole bytes. */
  lemma PackedSizes(t: Target, ty: Ty)
    ensures ty.Int? ==> PackedWidth(t, ty) == Some(ty.bits)
    ensures ty.Bool? ==> PackedWidth(t, ty) == Some(1)
    ensures ty.F16? ==> PackedWidth(t, ty) == Some(16)
    ensures ty.F32? ==> PackedWidth(t, ty) == Some(32)
    ensures ty.F64? ==> PackedWidth(t, ty) == Some(64)
    ensures ty.F128? ==> PackedWidth(t, ty) == Some(128)
    ensures ty.Usize? || ty.Isize? ==> PackedWidth(t, ty) == Some(t.ptrWidth)
    ensures ty.Void? ==> PackedWidth(t, ty) == Some(0)
    ensures ty.Packed? && t.Valid() && PackedWidth(t, ty).Some? ==>
              && PackedWidths(t, ty, |ty.fields|).Some? && TypeLayout(t, ty).Some?
              && var widths, p := PackedWidths(t, ty, |ty.fields|).value, TypeLayout(t, ty).value;
                 && p.align == 1
                 && 8 * p.size < BitsEnd(widths, |widths|) + 8 && BitsEnd(widths, |widths|) <= 8 * p.size
                 && forall k :: 0 <= k < |widths| ==> PackedWidth(t, ty.fields[k]) == Some(widths[k])
  {
    if ty.Packed? && PackedWidth(t, ty).Some? {
      WidthsOfFields(t, ty, |ty.fields|);
    }
  }

  lemma {:induction false} WidthsOfFields(t: Target, ty: Ty, n: nat)
    requires ty.Packed? && n <= |ty.fields| && PackedWidths(t, ty, n).Some?
    ensures forall k :: 0 <= k < n ==> PackedWidth(t, ty.fields[k]) == Some(PackedWidths(t, ty, n).value[k])
  {
    if n > 0 {
      WidthsOfFields(t, ty, n - 1);
    }
  }

  // -----------------------------------------------------------------------------------------------
  // type_layout itself
  // -----------------------------------------------------------------------------------------------

  method LayOut(t: Target, ty: Ty) returns (r: Option<Placed>)
    requires t.Valid()
    ensures r == TypeLayout(t, ty)
    decreases ty, 1, 0
  {
    match ty
    case Array(elem, len) =>
      var e := LayOut(t, elem);
      r := if e.None? then None else ArrayLayout(e.value, len);
    case Struct(fields) =>
      r := LayOutFields(t, ty);
    case Enum(tag) =>
      r := LayOut(t, tag);
    case Union(_, _) =>
      var u := LayOutUnion(t, ty);
      r := if u.None? then None else Some(u.value.union);
    case _ =>
      r := TypeLayout(t, ty);
  }

  method LayOutFields(t: Target, ty: Ty) returns (r: Option<Placed>)
    requires t.Valid() && ty.Struct?
    ensures r == TypeLayout(t, ty)
    decreases ty, 0, 0
  {
    var l: seq<Placed> := [];
    for i := 0 to |ty.fields|
      invariant FieldLayouts(t, ty, i) == Some(l)
    {
      var field := LayOut(t, ty.fields[i]);
      if field.None? {
        FieldsStop(t, ty, i + 1, |ty.fields|);
        return None;
      }
      l := l + [field.value];
    }
    r := LayOutStruct(l);
  }

  lemma {:induction false} FieldsStop(t: Target, ty: Ty, i: nat, n: nat)
    requires t.Valid() && ty.Struct? && i <= n <= |ty.fields| && FieldLayouts(t, ty, i).None?
    ensures FieldLayouts(t, ty, n).None?
    decreases n
  {
    if i < n {
      FieldsStop(t, ty, i, n - 1);
    }
  }

  method LayOutUnion(t: Target, ty: Ty) returns (r: Option<UnionLayout>)
    requires t.Valid() && ty.Union?
    ensures r == UnionTypeLayout(t, ty)
    decreases ty, 0, 0
  {
    var l: seq<Option<Placed>> := [];
    for i := 0 to |ty.payloads|
      invariant PayloadLayouts(t, ty, i) == Some(l)
    {
      if ty.payloads[i].Some? {
        var field := LayOut(t, ty.payloads[i].value);
        if field.None? {
          PayloadsStop(t, ty, i + 1, |ty.payloads|);
          return None;
        }
        l := l + [field];
      } else {
        l := l + [None];
      }
    }
    var scan := ScanPayloads(l);
    ScanIs(l, |l|);
    assert l[..|l|] == l;
    ScanUnique(l, scan, Scan(l, |l|));
    var tag := Some(Placed(0, 1));
    if ty.tag.Some? {
      tag := LayOut(t, ty.tag.value);
      if tag.None? {
        return None;
      }
    }
    r := Some(UnionOf(scan, tag.value));
  }

  lemma {:induction false} PayloadsStop(t: Target, ty: Ty, i: nat, n: nat)
    requires t.Valid() && ty.Union? && i <= n <= |ty.payloads| && PayloadLayouts(t, ty, i).None?
    ensures PayloadLayouts(t, ty, n).None?
    decreases n
  {
    if i < n {
      PayloadsStop(t, ty, i, n - 1);
    }
  }
}
