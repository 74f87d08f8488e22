/**
 The variant walk against the data layout: how many bits the walk takes, and exactly when it puts every
 leaf where the layout puts it.  Both are functions of the type alone.
 */
module TypedVariant {
  import opened Options
  import opened Powers
  import opened Alignment
  import opened DataLayout
  import opened VariantPacker
  import opened VariantLayout

  /** `v` is a value of type `ty`, with the alignments the target gives it. */
  predicate Typed(t: Target, ty: Type, v: Value)
    requires ValidTarget(t)
    decreases ty
  {
    && v.align == Align(t, ty)
    && match ty
       case Vec(n, elt) => v.Aggregate? && |v.parts| == n && forall p <- v.parts :: Typed(t, elt, p)
       case Arr(n, elt) => v.Aggregate? && |v.parts| == n && forall p <- v.parts :: Typed(t, elt, p)
       case Struct(fields) =>
         && v.Aggregate? && |v.parts| == |fields|
         && forall i :: 0 <= i < |fields| ==> Typed(t, fields[i], v.parts[i])
       case Int(w) => v.Leaf? && |v.bits| == w
       case Float(w) => v.Leaf? && |v.bits| == w
       case Ptr => v.Leaf? && |v.bits| == t.pointerBits
  }

  lemma {:induction false} TypedIsAligned(t: Target, ty: Type, v: Value)
    requires ValidTarget(t) && Typed(t, ty, v)
    ensures Aligned(v)
    decreases ty
  {
    PositiveAlign(t, ty);
    match ty
    case Vec(n, elt) => forall p | p in v.parts { TypedIsAligned(t, elt, p); }
    case Arr(n, elt) => forall p | p in v.parts { TypedIsAligned(t, elt, p); }
    case Struct(fields) =>
      forall p | p in v.parts
        ensures Aligned(p)
      {
        var i :| 0 <= i < |v.parts| && v.parts[i] == p;
        TypedIsAligned(t, fields[i], p);
      }
    case _ =>
  }

  // ----- the layout's own leaf offsets -----

  /** Bit offsets of the leaves of a `ty` that starts at bit `base`. */
  function LayoutOffsets(t: Target, ty: Type, base: nat): seq<nat>
    requires ValidTarget(t)
    decreases ty, 0, 0
  {
    match ty
    case Vec(n, elt) => RepeatedOffsets(t, elt, n, base, SizeInBits(t, elt))
    case Arr(n, elt) => RepeatedOffsets(t, elt, n, base, StoreSize(t, elt) * 8)
    case Struct(fields) => FieldOffsets(t, fields, base, 0)
    case _ => [base]
  }

  function RepeatedOffsets(t: Target, elt: Type, n: nat, base: nat, stride: nat): seq<nat>
    requires ValidTarget(t)
    decreases elt, 1, n
  {
    if n == 0 then []
    else LayoutOffsets(t, elt, base) + RepeatedOffsets(t, elt, n - 1, base + stride, stride)
  }

  function FieldOffsets(t: Target, fields: seq<Type>, base: nat, size: nat): seq<nat>
    requires ValidTarget(t)
    decreases fields, 0, 0
  {
    if fields == [] then []
    else
      var start := FieldStart(t, fields[0], size);
      LayoutOffsets(t, fields[0], base + start * 8)
      + FieldOffsets(t, fields[1..], base, start + AllocSize(t, fields[0]))
  }

  /** Every leaf and every nested aggregate fills its own alloc size. */
  predicate Filled(t: Target, ty: Type)
    requires ValidTarget(t)
    decreases ty
  {
    match ty
    case Vec(n, elt) => Filled(t, elt) && SizeInBits(t, ty) == n * SizeInBits(t, elt)
    case Arr(n, elt) => Filled(t, elt)
    case Struct(fields) =>
      PositiveAlign(t, ty);
      (forall f <- fields :: Filled(t, f)) && StructEnd(t, fields, 0) % Align(t, ty) == 0
    case _ => SizeInBits(t, ty) == 8 * AllocSize(t, ty)
  }

  lemma BytesForWhole(n: nat)
    ensures BytesFor(8 * n) == n
  {
  }

  lemma FilledRepeat(t: Target, ty: Type, elt: Type, n: nat)
    requires ValidTarget(t) && Align(t, ty) == Align(t, elt) && SizeInBits(t, ty) == 8 * (n * AllocSize(t, elt))
    ensures AllocSize(t, ty) == n * AllocSize(t, elt)
  {
    hide SizeInBits, AllocSize, BytesFor, AlignAndType;
    AllocUnfolds(t, ty);
    AllocUnfolds(t, elt);
    BytesForWhole(n * AllocSize(t, elt));
    MultipleOfAligned(n, AllocSize(t, elt), Align(t, elt));
  }

  lemma MultipleOfAligned(n: nat, x: nat, a: nat)
    requires a >= 1 && x % a == 0
    ensures (n * x) % a == 0
  {
    var q, r := DivMod(x, a);
    assert n * (a * q) == a * (n * q);
    MultipleMod(a, n * q);
  }

  /** A filled type has neither tail padding nor unused bits. */
  lemma {:induction false} FilledSize(t: Target, ty: Type)
    requires ValidTarget(t) && Filled(t, ty)
    ensures SizeInBits(t, ty) == 8 * AllocSize(t, ty) && StoreSize(t, ty) == AllocSize(t, ty)
    decreases ty
  {
    match ty
    case Vec(n, elt) =>
      FilledSize(t, elt);
      RepeatSizeInBits(t, ty, elt, n);
      FilledRepeat(t, ty, elt, n);
      BytesForWhole(n * AllocSize(t, elt));
    case Arr(n, elt) =>
      FilledSize(t, elt);
      RepeatSizeInBits(t, ty, elt, n);
      FilledRepeat(t, ty, elt, n);
      BytesForWhole(n * AllocSize(t, elt));
    case Struct(fields) =>
      FilledStruct(t, fields);
    case _ =>
      BytesForWhole(AllocSize(t, ty));
  }

  lemma FilledStruct(t: Target, fields: seq<Type>)
    requires ValidTarget(t) && Align(t, Struct(fields)) >= 1
    requires StructEnd(t, fields, 0) % Align(t, Struct(fields)) == 0
    ensures var end := StructEnd(t, fields, 0);
            SizeInBits(t, Struct(fields)) == 8 * end && AllocSize(t, Struct(fields)) == end
  {
    var ty, end, strictest := Struct(fields), StructEnd(t, fields, 0), Strictest(t, fields, (1, None)).0;
    AlignIsPow2(t, ty);
    StrictestIsPow2(t, fields, (1, None));
    AlignedToSmaller(end, strictest, Align(t, ty));
    assert SizeInBits(t, ty) == AlignTo(end, strictest) * CHAR_BIT;
    hide SizeInBits, AllocSize, StructEnd, IsPow2;
    BytesForWhole(end);
    AllocUnfolds(t, ty);
  }

  // ----- how far the walk goes -----

  /** The bits the walk takes for a value of the type, from a start at the type's alignment. */
  function WalkBits(t: Target, ty: Type): nat
    requires ValidTarget(t)
    decreases ty, 0
  {
    match ty
    case Vec(n, elt) => Spread(n, WalkBits(t, elt), WalkStride(t, elt))
    case Arr(n, elt) => Spread(n, WalkBits(t, elt), WalkStride(t, elt))
    case Struct(fields) => FieldBits(t, fields, 0)
    case _ => SizeInBits(t, ty)
  }

  /** From the start of one element to the start of the next. */
  function WalkStride(t: Target, elt: Type): nat
    requires ValidTarget(t)
    decreases elt, 1
  {
    PositiveAlign(t, elt);
    AlignTo(WalkBits(t, elt), Align(t, elt) * 8)
  }

  /** `n` elements of `bits`, `stride` apart. */
  function Spread(n: nat, bits: nat, stride: nat): nat { if n == 0 then 0 else (n - 1) * stride + bits }

  /** Where the fields end when `size` bits of the struct precede them. */
  function FieldBits(t: Target, fields: seq<Type>, size: nat): (r: nat)
    requires ValidTarget(t)
    ensures r >= size
    decreases fields, 0
  {
    if fields == [] then size
    else
      PositiveAlign(t, fields[0]);
      FieldBits(t, fields[1..], AlignTo(size, Align(t, fields[0]) * 8) + WalkBits(t, fields[0]))
  }

  /** For every value of the type and every start, the walk takes exactly those bits. */
  lemma {:induction false} WalkEnds(t: Target, ty: Type, v: Value, offset: nat)
    requires ValidTarget(t) && Typed(t, ty, v)
    ensures Aligned(v) && End(v, offset) == AlignTo(offset, v.align * 8) + WalkBits(t, ty)
    decreases ty, 0, 0
  {
    TypedIsAligned(t, ty, v);
    var base := AlignTo(offset, v.align * 8);
    match ty
    case Vec(n, elt) => RepeatEnds(t, elt, v.parts, base);
    case Arr(n, elt) => RepeatEnds(t, elt, v.parts, base);
    case Struct(fields) =>
      FieldAlignments(t, fields, base);
      FieldsEnd(t, fields, v.parts, base, 0);
    case _ =>
  }

  lemma {:induction false} RepeatEnds(t: Target, elt: Type, parts: seq<Value>, offset: nat)
    requires ValidTarget(t) && (forall p <- parts :: Typed(t, elt, p))
    ensures (forall p <- parts :: Aligned(p)) && Align(t, elt) >= 1
    ensures EndAll(parts, offset) ==
            if parts == [] then offset
            else AlignTo(offset, Align(t, elt) * 8) + Spread(|parts|, WalkBits(t, elt), WalkStride(t, elt))
    decreases elt, 1, |parts|
  {
    hide ValidTarget, Typed, WalkBits, End, Align;
    PositiveAlign(t, elt);
    forall p | p in parts { TypedIsAligned(t, elt, p); }
    if parts != [] {
      var a, bits, stride := Align(t, elt) * 8, WalkBits(t, elt), WalkStride(t, elt);
      var start := AlignTo(offset, a);
      WalkEnds(t, elt, parts[0], offset);
      TypedAlign(t, elt, parts[0]);
      RepeatEnds(t, elt, parts[1..], start + bits);
      AlignToShift(start, bits, a);
      if |parts| > 1 { OneMore(|parts| - 1, stride); }
    }
  }

  lemma {:induction false} FieldsEnd(t: Target, fields: seq<Type>, parts: seq<Value>, base: nat, size: nat)
    requires ValidTarget(t) && |parts| == |fields|
    requires forall i :: 0 <= i < |fields| ==> Typed(t, fields[i], parts[i])
    requires forall f <- fields :: OnBoundary(t, f, base)
    ensures forall p <- parts :: Aligned(p)
    ensures EndAll(parts, base + size) == base + FieldBits(t, fields, size)
    decreases fields, 0, 0
  {
    hide *;
    if parts == [] {
      NoParts(t, base + size, size);
    } else {
      var f := fields[0];
      assert f in fields && Typed(t, fields[0], parts[0]);
      PositiveAlign(t, f);
      WalkEnds(t, f, parts[0], base + size);
      TypedAlign(t, f, parts[0]);
      BoundaryShift(t, f, base, size);
      FieldsEnd(t, fields[1..], parts[1..], base, AlignTo(size, Align(t, f) * 8) + WalkBits(t, f));
      assert forall p <- parts :: p == parts[0] || p in parts[1..];
      UnfoldEndAll(parts, base + size);
      UnfoldEnds(t, fields, size, 0);
    }
  }

  lemma NoParts(t: Target, offset: nat, size: nat)
    requires ValidTarget(t)
    ensures EndAll([], offset) == offset && FieldBits(t, [], size) == size
  {
  }

  lemma UnfoldEndAll(parts: seq<Value>, offset: nat)
    requires parts != [] && forall p <- parts :: Aligned(p)
    ensures EndAll(parts, offset) == EndAll(parts[1..], End(parts[0], offset))
  {
    hide End;
  }

  lemma TypedAlign(t: Target, ty: Type, v: Value)
    requires ValidTarget(t) && Typed(t, ty, v)
    ensures v.align == Align(t, ty)
  {
  }

  lemma OneMore(n: nat, stride: nat)
    requires n >= 1
    ensures n * stride == stride + (n - 1) * stride
  {
  }

  /** A bit offset at the alignment of the type. */
  predicate OnBoundary(t: Target, f: Type, base: nat) { Align(t, f) >= 1 && base % (Align(t, f) * 8) == 0 }

  lemma BoundaryShift(t: Target, f: Type, base: nat, bits: nat)
    requires OnBoundary(t, f, base)
    ensures Align(t, f) >= 1 && AlignTo(base + bits, Align(t, f) * 8) == base + AlignTo(bits, Align(t, f) * 8)
  {
    AlignToShift(base, bits, Align(t, f) * 8);
  }

  lemma FieldAlignments(t: Target, fields: seq<Type>, base: nat)
    requires ValidTarget(t) && Align(t, Struct(fields)) >= 1 && base % (Align(t, Struct(fields)) * 8) == 0
    ensures forall f <- fields :: OnBoundary(t, f, base)
  {
    var ty := Struct(fields);
    forall f | f in fields
      ensures OnBoundary(t, f, base)
    {
      AlignIsPow2(t, f);
      AlignIsPow2(t, ty);
      FieldAlignDivides(t, fields, f);
      AlignedToSmallerBits(base, Align(t, f), Align(t, ty));
    }
  }

  lemma AlignedToSmallerBits(x: nat, a: nat, b: nat)
    requires IsPow2(a) && IsPow2(b) && a <= b && x % (b * 8) == 0
    ensures x % (a * 8) == 0
  {
    var q := Pow2Divides(a, b);
    EightTimes(a, b, q);
    AlignedToFactor(x, a * 8, q);
  }

  lemma EightTimes(a: nat, b: nat, q: nat)
    requires b == a * q && a >= 1 && q >= 1
    ensures b * 8 == (a * 8) * q >= 1
  {
    assert (a * 8) * q == 8 * (a * q);
  }

  // ----- when the walk puts leaves where the layout does -----

  /** The type has a leaf at all. */
  predicate HasLeaf(ty: Type) {
    match ty
    case Vec(n, elt) => n >= 1 && HasLeaf(elt)
    case Arr(n, elt) => n >= 1 && HasLeaf(elt)
    case Struct(fields) => exists f <- fields :: HasLeaf(f)
    case _ => true
  }

  /** What separates the elements in the layout. */
  function LayoutStride(t: Target, ty: Type): nat
    requires ValidTarget(t) && (ty.Vec? || ty.Arr?)
  {
    if ty.Vec? then SizeInBits(t, ty.elt) else StoreSize(t, ty.elt) * 8
  }

  /**
   Every element or field that holds a leaf starts where the layout starts it: whatever tail padding the walk
   leaves out is made up for by the alignment of what follows.
   */
  predicate Absorbed(t: Target, ty: Type)
    requires ValidTarget(t)
    decreases ty, 0
  {
    match ty
    case Vec(n, elt) => HasLeaf(ty) ==> Absorbed(t, elt) && (n >= 2 ==> WalkStride(t, elt) == LayoutStride(t, ty))
    case Arr(n, elt) => HasLeaf(ty) ==> Absorbed(t, elt) && (n >= 2 ==> WalkStride(t, elt) == LayoutStride(t, ty))
    case Struct(fields) => AbsorbedFields(t, fields, 0, 0, 0)
    case _ => true
  }

  /** The same for fields after `bits` of the walk and `size` bytes of the layout, which is `shift` bits ahead. */
  predicate AbsorbedFields(t: Target, fields: seq<Type>, bits: nat, size: nat, shift: int)
    requires ValidTarget(t)
    decreases fields, 0
  {
    if fields == [] then true
    else
      var f := fields[0];
      PositiveAlign(t, f);
      var start := AlignTo(bits, Align(t, f) * 8);
      && (HasLeaf(f) ==> start == FieldStart(t, f, size) * 8 + shift && Absorbed(t, f))
      && AbsorbedFields(t, fields[1..], start + WalkBits(t, f), FieldStart(t, f, size) + AllocSize(t, f), shift)
  }

  /** A vector without leaves has no bits (no target has it otherwise; here widths are a parameter). */
  predicate Plain(t: Target, ty: Type)
    requires ValidTarget(t)
    decreases ty
  {
    match ty
    case Vec(n, elt) => Plain(t, elt) && (!HasLeaf(ty) ==> SizeInBits(t, ty) == 0)
    case Arr(n, elt) => Plain(t, elt)
    case Struct(fields) => forall f <- fields :: Plain(t, f)
    case _ => true
  }

  /** Types without leaves take no bits on either side. */
  lemma {:induction false} LeaflessIsEmpty(t: Target, ty: Type)
    requires ValidTarget(t) && Plain(t, ty) && !HasLeaf(ty)
    ensures SizeInBits(t, ty) == 0 && AllocSize(t, ty) == 0 && WalkBits(t, ty) == 0
    decreases ty, 1
  {
    hide *;
    LeaflessKinds(ty);
    match ty {
      case Vec(n, elt) => LeaflessElements(t, ty, n, elt);
      case Arr(n, elt) => LeaflessElements(t, ty, n, elt);
      case Struct(fields) => LeaflessStruct(t, fields);
    }
    EmptyAlloc(t, ty);
  }

  lemma LeaflessKinds(ty: Type)
    requires !HasLeaf(ty)
    ensures ty.Vec? || ty.Arr? || ty.Struct?
  {
  }

  lemma EmptyAlloc(t: Target, ty: Type)
    requires ValidTarget(t) && SizeInBits(t, ty) == 0
    ensures AllocSize(t, ty) == 0
  {
    hide SizeInBits, AllocSize, AlignAndType;
    AllocUnfolds(t, ty);
  }

  lemma LeaflessStruct(t: Target, fields: seq<Type>)
    requires ValidTarget(t) && Plain(t, Struct(fields)) && !HasLeaf(Struct(fields))
    ensures SizeInBits(t, Struct(fields)) == 0 && WalkBits(t, Struct(fields)) == 0
    decreases fields, 1
  {
    assert forall f <- fields :: Plain(t, f) && !HasLeaf(f);
    assert WalkBits(t, Struct(fields)) == FieldBits(t, fields, 0);
    hide SizeInBits, WalkBits, Plain, HasLeaf, StructEnd, FieldBits;
    LeaflessFields(t, fields);
    EmptyStruct(t, fields);
  }

  lemma EmptyStruct(t: Target, fields: seq<Type>)
    requires ValidTarget(t) && StructEnd(t, fields, 0) == 0
    ensures SizeInBits(t, Struct(fields)) == 0
  {
    hide StructEnd;
    StrictestIsPow2(t, fields, (1, None));
  }

  lemma LeaflessElements(t: Target, ty: Type, n: nat, elt: Type)
    requires ValidTarget(t) && Plain(t, ty) && !HasLeaf(ty) && (ty == Vec(n, elt) || ty == Arr(n, elt))
    ensures SizeInBits(t, ty) == 0 && WalkBits(t, ty) == 0
    decreases ty, 0
  {
    if n > 0 {
      LeaflessIsEmpty(t, elt);
      PositiveAlign(t, elt);
      assert (n - 1) * 0 == 0 && n * 0 * CHAR_BIT == 0;
    }
  }

  lemma {:induction false} LeaflessFields(t: Target, fields: seq<Type>)
    requires ValidTarget(t) && forall f <- fields :: Plain(t, f) && !HasLeaf(f)
    ensures StructEnd(t, fields, 0) == 0 && FieldBits(t, fields, 0) == 0
    decreases fields, 0
  {
    if fields != [] {
      LeaflessIsEmpty(t, fields[0]);
      PositiveAlign(t, fields[0]);
      hide AllocSize, SizeInBits, AlignAndType, Plain, HasLeaf, WalkBits;
      LeaflessFields(t, fields[1..]);
    }
  }

  /** The first leaf is at the very start, in the walk and in the layout, so a shifted layout never agrees. */
  lemma {:induction false} FirstLeafAtStart(t: Target, fields: seq<Type>, shift: int)
    requires ValidTarget(t) && forall f <- fields :: Plain(t, f)
    requires (exists f <- fields :: HasLeaf(f)) && AbsorbedFields(t, fields, 0, 0, shift)
    ensures shift == 0
    decreases fields
  {
    var f := fields[0];
    PositiveAlign(t, f);
    if !HasLeaf(f) {
      LeaflessIsEmpty(t, f);
      hide AllocSize, SizeInBits, AlignAndType, Plain, HasLeaf, WalkBits, Absorbed;
      assert exists g <- fields[1..] :: HasLeaf(g);
      FirstLeafAtStart(t, fields[1..], shift);
    }
  }

  lemma {:induction false} LeaflessFieldsAbsorbed(t: Target, fields: seq<Type>, bits: nat, size: nat, shift: int)
    requires ValidTarget(t) && forall f <- fields :: !HasLeaf(f)
    ensures AbsorbedFields(t, fields, bits, size, shift)
    decreases fields
  {
    if fields != [] {
      hide AllocSize, AlignAndType, WalkBits, HasLeaf, FieldStart;
      PositiveAlign(t, fields[0]);
      LeaflessFieldsAbsorbed(t, fields[1..], AlignTo(bits, Align(t, fields[0]) * 8) + WalkBits(t, fields[0]),
                             FieldStart(t, fields[0], size) + AllocSize(t, fields[0]), shift);
    }
  }

  lemma ShiftedFields(t: Target, fields: seq<Type>, shift: int)
    requires ValidTarget(t) && forall f <- fields :: Plain(t, f)
    ensures AbsorbedFields(t, fields, 0, 0, shift) <==>
            (forall f <- fields :: !HasLeaf(f)) || (shift == 0 && AbsorbedFields(t, fields, 0, 0, 0))
  {
    hide *;
    if forall f <- fields :: !HasLeaf(f) {
      LeaflessFieldsAbsorbed(t, fields, 0, 0, shift);
    } else if AbsorbedFields(t, fields, 0, 0, shift) {
      FirstLeafAtStart(t, fields, shift);
    }
  }

  function Starts(ps: seq<Placement>): seq<nat> {
    seq(|ps|, i requires 0 <= i < |ps| => ps[i].at)
  }

  lemma StartsConcat(a: seq<Placement>, b: seq<Placement>)
    ensures Starts(a + b) == Starts(a) + Starts(b)
  {
  }

  lemma SplitEqual(a: seq<nat>, b: seq<nat>, c: seq<nat>, d: seq<nat>)
    requires |a| == |c|
    ensures a + b == c + d <==> a == c && b == d
  {
    if a + b == c + d {
      assert a == (a + b)[..|a|] && c == (c + d)[..|a|];
      assert b == (a + b)[|a|..] && d == (c + d)[|a|..];
    }
  }

  /** The walk from `offset` against the layout from `l`, whatever `l` is. */
  ghost predicate MatchClaim(t: Target, ty: Type, v: Value, offset: nat, l: nat)
    requires ValidTarget(t) && Aligned(v)
  {
    && |Leaves(v, offset)| == |LayoutOffsets(t, ty, l)|
    && (|Leaves(v, offset)| > 0 <==> HasLeaf(ty))
    && (Starts(Leaves(v, offset)) == LayoutOffsets(t, ty, l) <==>
        !HasLeaf(ty) || (AlignTo(offset, v.align * 8) == l && Absorbed(t, ty)))
  }

  lemma {:induction false} LeavesMatch(t: Target, ty: Type, v: Value, offset: nat, l: nat)
    requires ValidTarget(t) && Typed(t, ty, v) && Plain(t, ty)
    ensures Aligned(v) && MatchClaim(t, ty, v, offset, l)
    decreases ty, 3, 0
  {
    hide *;
    TypedIsAligned(t, ty, v);
    if ty.Vec? || ty.Arr? {
      RepeatedMatch(t, ty, v, offset, l);
    } else if ty.Struct? {
      StructMatch(t, ty.fields, v, offset, l);
    } else {
      LeafMatch(t, ty, v, offset, l);
    }
  }

  lemma LeafMatch(t: Target, ty: Type, v: Value, offset: nat, l: nat)
    requires ValidTarget(t) && Typed(t, ty, v) && !ty.Vec? && !ty.Arr? && !ty.Struct? && Aligned(v)
    ensures MatchClaim(t, ty, v, offset, l)
  {
    var base := AlignTo(offset, v.align * 8);
    assert Leaves(v, offset) == [Placement(base, v.bits)];
    hide AlignTo, ValidTarget;
    assert Starts(Leaves(v, offset)) == [base];
  }

  lemma RepeatedMatch(t: Target, ty: Type, v: Value, offset: nat, l: nat)
    requires ValidTarget(t) && Typed(t, ty, v) && Plain(t, ty) && (ty.Vec? || ty.Arr?) && Aligned(v)
    ensures MatchClaim(t, ty, v, offset, l)
    decreases ty, 2, 0
  {
    var base, elt, stride := AlignTo(offset, v.align * 8), ty.elt, LayoutStride(t, ty);
    assert (forall p <- v.parts :: Typed(t, elt, p)) && |v.parts| == ty.count && v.align == Align(t, elt);
    assert Leaves(v, offset) == LeavesAll(v.parts, base);
    assert LayoutOffsets(t, ty, l) == RepeatedOffsets(t, elt, ty.count, l, stride);
    hide Typed, Leaves, LeavesAll, LayoutOffsets, RepeatedOffsets, Starts, WalkStride, LayoutStride;
    hide AlignTo, SizeInBits, StoreSize, AlignAndType, ValidTarget;
    ElementsMatch(t, elt, v.parts, base, l, stride);
    AlignToTwice(offset, v.align * 8);
  }

  lemma AlignToTwice(offset: nat, a: nat)
    requires a >= 1
    ensures AlignTo(AlignTo(offset, a), a) == AlignTo(offset, a)
  {
  }

  lemma StructMatch(t: Target, fields: seq<Type>, v: Value, offset: nat, l: nat)
    requires ValidTarget(t) && Typed(t, Struct(fields), v) && Plain(t, Struct(fields)) && Aligned(v)
    ensures MatchClaim(t, Struct(fields), v, offset, l)
    decreases Struct(fields), 2, 0
  {
    hide *;
    TypedStruct(t, fields, v);
    var base, ty := AlignTo(offset, v.align * 8), Struct(fields);
    LeavesOfStruct(t, fields, v, offset, l);
    AlignToIsAligned(offset, v.align * 8);
    FieldAlignments(t, fields, base);
    FieldsMatch(t, fields, v.parts, base, 0, l, 0);
    ShiftedFields(t, fields, l - base);
    ClaimFrom(t, ty, v, offset, l);
  }

  lemma TypedStruct(t: Target, fields: seq<Type>, v: Value)
    requires ValidTarget(t) && Typed(t, Struct(fields), v) && Plain(t, Struct(fields))
    ensures v.Aggregate? && |v.parts| == |fields| && v.align == Align(t, Struct(fields)) >= 1
    ensures forall i :: 0 <= i < |fields| ==> Typed(t, fields[i], v.parts[i]) && Plain(t, fields[i])
    ensures forall f <- fields :: Plain(t, f)
  {
    PositiveAlign(t, Struct(fields));
    hide AlignAndType, SizeInBits, HasLeaf;
  }

  lemma LeavesOfStruct(t: Target, fields: seq<Type>, v: Value, offset: nat, l: nat)
    requires ValidTarget(t) && Aligned(v) && v.Aggregate? && v.align >= 1
    ensures forall p <- v.parts :: Aligned(p)
    ensures Leaves(v, offset) == LeavesAll(v.parts, AlignTo(offset, v.align * 8))
    ensures LayoutOffsets(t, Struct(fields), l) == FieldOffsets(t, fields, l, 0)
    ensures Absorbed(t, Struct(fields)) == AbsorbedFields(t, fields, 0, 0, 0)
    ensures HasLeaf(Struct(fields)) <==> exists f <- fields :: HasLeaf(f)
  {
    hide AlignTo, LeavesAll, FieldOffsets, AbsorbedFields, ValidTarget;
  }

  lemma AlignToIsAligned(offset: nat, a: nat)
    requires a >= 1
    ensures AlignTo(offset, a) % a == 0
  {
  }

  lemma ClaimFrom(t: Target, ty: Type, v: Value, offset: nat, l: nat)
    requires ValidTarget(t) && Aligned(v) && v.align >= 1
    requires |Leaves(v, offset)| == |LayoutOffsets(t, ty, l)| && (|Leaves(v, offset)| > 0 <==> HasLeaf(ty))
    requires Starts(Leaves(v, offset)) == LayoutOffsets(t, ty, l) <==>
             !HasLeaf(ty) || (AlignTo(offset, v.align * 8) == l && Absorbed(t, ty))
    ensures MatchClaim(t, ty, v, offset, l)
  {
  }

  lemma ClaimSays(t: Target, ty: Type, v: Value, offset: nat, l: nat)
    requires ValidTarget(t) && Aligned(v) && v.align >= 1 && MatchClaim(t, ty, v, offset, l)
    ensures |Leaves(v, offset)| == |LayoutOffsets(t, ty, l)| && (|Leaves(v, offset)| > 0 <==> HasLeaf(ty))
    ensures Starts(Leaves(v, offset)) == LayoutOffsets(t, ty, l) <==>
            !HasLeaf(ty) || (AlignTo(offset, v.align * 8) == l && Absorbed(t, ty))
  {
  }

  lemma {:induction false} ElementsMatch(t: Target, elt: Type, parts: seq<Value>, offset: nat, l: nat, stride: nat)
    requires ValidTarget(t) && Plain(t, elt) && (forall p <- parts :: Typed(t, elt, p))
    ensures (forall p <- parts :: Aligned(p)) && Align(t, elt) >= 1
    ensures |LeavesAll(parts, offset)| == |RepeatedOffsets(t, elt, |parts|, l, stride)|
    ensures |LeavesAll(parts, offset)| > 0 <==> parts != [] && HasLeaf(elt)
    ensures Starts(LeavesAll(parts, offset)) == RepeatedOffsets(t, elt, |parts|, l, stride) <==>
            || parts == [] || !HasLeaf(elt)
            || (&& AlignTo(offset, Align(t, elt) * 8) == l && Absorbed(t, elt)
                && (|parts| >= 2 ==> WalkStride(t, elt) == stride))
    decreases elt, 4, |parts|
  {
    hide ValidTarget, Typed, Plain, WalkBits, WalkStride, SizeInBits, Leaves, End, Starts, LayoutOffsets;
    hide Align, HasLeaf, Absorbed, AlignTo, Aligned, LeavesAll;
    PositiveAlign(t, elt);
    forall p | p in parts { TypedIsAligned(t, elt, p); }
    if parts == [] {
      NoLeaves(offset);
    } else {
      var a, bits := Align(t, elt) * 8, WalkBits(t, elt);
      var start, n := AlignTo(offset, a), |parts|;
      WalkEnds(t, elt, parts[0], offset);
      TypedAlign(t, elt, parts[0]);
      LeavesMatch(t, elt, parts[0], offset, l);
      ElementsMatch(t, elt, parts[1..], start + bits, l + stride, stride);
      AlignToShift(start, bits, a);
      StrideIs(t, elt);
      assert forall p <- parts :: p == parts[0] || p in parts[1..];
      UnfoldLeaves(parts, offset);
      var first, rest := Leaves(parts[0], offset), LeavesAll(parts[1..], start + bits);
      StartsConcat(first, rest);
      StartsLength(first);
      SplitEqual(Starts(first), Starts(rest),
                 LayoutOffsets(t, elt, l), RepeatedOffsets(t, elt, n - 1, l + stride, stride));
    }
  }

  lemma NoLeaves(offset: nat)
    ensures Starts([]) == [] && LeavesAll([], offset) == []
  {
  }

  lemma StartsLength(ps: seq<Placement>)
    ensures |Starts(ps)| == |ps|
  {
  }

  lemma {:induction false} FieldsMatch(t: Target, fields: seq<Type>, parts: seq<Value>, base: nat, bits: nat,
                                       l: nat, size: nat)
    requires ValidTarget(t) && |parts| == |fields|
    requires forall i :: 0 <= i < |fields| ==> Plain(t, fields[i]) && Typed(t, fields[i], parts[i])
    requires forall f <- fields :: OnBoundary(t, f, base)
    ensures forall p <- parts :: Aligned(p)
    ensures |LeavesAll(parts, base + bits)| == |FieldOffsets(t, fields, l, size)|
    ensures |LeavesAll(parts, base + bits)| > 0 <==> exists f <- fields :: HasLeaf(f)
    ensures Starts(LeavesAll(parts, base + bits)) == FieldOffsets(t, fields, l, size) <==>
            AbsorbedFields(t, fields, bits, size, l - base)
    decreases fields, 0, 0
  {
    hide *;
    if parts == [] {
      NoFieldsMatch(t, base + bits, bits, l, size, l - base);
    } else {
      var f, offset := fields[0], base + bits;
      PositiveAlign(t, f);
      var start, at := AlignTo(bits, Align(t, f) * 8), FieldStart(t, f, size);
      var bits', size' := start + WalkBits(t, f), at + AllocSize(t, f);
      assert f in fields && Typed(t, fields[0], parts[0]) && Plain(t, fields[0]);
      WalkEnds(t, f, parts[0], offset);
      TypedAlign(t, f, parts[0]);
      BoundaryShift(t, f, base, bits);
      LeavesMatch(t, f, parts[0], offset, l + at * 8);
      ClaimSays(t, f, parts[0], offset, l + at * 8);
      FieldsMatch(t, fields[1..], parts[1..], base, bits', l, size');
      SomeLeaf(fields);
      assert forall p <- parts :: p == parts[0] || p in parts[1..];
      assert End(parts[0], offset) == base + bits';
      UnfoldLeaves(parts, offset);
      UnfoldFields(t, fields, bits, size, l, l - base);
      var first, rest := Leaves(parts[0], offset), LeavesAll(parts[1..], base + bits');
      StartsConcat(first, rest);
      StartsLength(first);
      SplitEqual(Starts(first), Starts(rest), LayoutOffsets(t, f, l + at * 8), FieldOffsets(t, fields[1..], l, size'));
    }
  }

  lemma StrideIs(t: Target, elt: Type)
    requires ValidTarget(t) && Align(t, elt) >= 1
    ensures WalkStride(t, elt) == AlignTo(WalkBits(t, elt), Align(t, elt) * 8)
  {
  }

  lemma SomeLeaf(fields: seq<Type>)
    requires fields != []
    ensures (exists f <- fields :: HasLeaf(f)) <==> HasLeaf(fields[0]) || (exists f <- fields[1..] :: HasLeaf(f))
  {
    hide HasLeaf;
    assert forall f <- fields :: f == fields[0] || f in fields[1..];
    if f :| f in fields[1..] && HasLeaf(f) {
      assert f in fields;
    }
  }

  lemma NoFieldsMatch(t: Target, offset: nat, bits: nat, l: nat, size: nat, shift: int)
    requires ValidTarget(t)
    ensures LeavesAll([], offset) == [] && FieldOffsets(t, [], l, size) == [] && Starts([]) == []
    ensures AbsorbedFields(t, [], bits, size, shift)
  {
  }

  lemma UnfoldFields(t: Target, fields: seq<Type>, bits: nat, size: nat, l: nat, shift: int)
    requires ValidTarget(t) && fields != [] && Align(t, fields[0]) >= 1
    ensures var f := fields[0];
            var start, at := AlignTo(bits, Align(t, f) * 8), FieldStart(t, f, size);
            && FieldOffsets(t, fields, l, size) ==
               LayoutOffsets(t, f, l + at * 8) + FieldOffsets(t, fields[1..], l, at + AllocSize(t, f))
            && (AbsorbedFields(t, fields, bits, size, shift) <==>
                && (HasLeaf(f) ==> start == at * 8 + shift && Absorbed(t, f))
                && AbsorbedFields(t, fields[1..], start + WalkBits(t, f), at + AllocSize(t, f), shift))
  {
    hide WalkBits, AllocSize, LayoutOffsets, HasLeaf, Absorbed, AlignTo, AlignAndType;
  }

  lemma UnfoldLeaves(parts: seq<Value>, offset: nat)
    requires parts != [] && forall p <- parts :: Aligned(p)
    ensures LeavesAll(parts, offset) == Leaves(parts[0], offset) + LeavesAll(parts[1..], End(parts[0], offset))
  {
    hide Leaves, End;
  }

  /** Leaf for leaf, the walk's offsets are the layout's if and only if the type absorbs its tail padding. */
  lemma WalkMatchesLayoutIff(t: Target, ty: Type, v: Value, offset: nat)
    requires ValidTarget(t) && Typed(t, ty, v) && Plain(t, ty)
    ensures Aligned(v)
    ensures Starts(Leaves(v, offset)) == LayoutOffsets(t, ty, AlignTo(offset, v.align * 8)) <==> Absorbed(t, ty)
  {
    TypedIsAligned(t, ty, v);
    LeavesMatch(t, ty, v, offset, AlignTo(offset, v.align * 8));
    hide Leaves, LayoutOffsets, Starts, AlignTo, SizeInBits, AlignAndType;
    if !HasLeaf(ty) && ty.Struct? {
      LeaflessFieldsAbsorbed(t, ty.fields, 0, 0, 0);
    }
  }

  // ----- types without tail padding inside -----

  lemma RepeatSizeInBits(t: Target, ty: Type, elt: Type, n: nat)
    requires ValidTarget(t) && Filled(t, ty)
    requires ty == Vec(n, elt) || ty == Arr(n, elt)
    requires SizeInBits(t, elt) == 8 * AllocSize(t, elt) && StoreSize(t, elt) == AllocSize(t, elt)
    ensures SizeInBits(t, ty) == 8 * (n * AllocSize(t, elt))
  {
    var a := AllocSize(t, elt);
    assert SizeInBits(t, ty) == if ty.Vec? then n * SizeInBits(t, elt) else n * StoreSize(t, elt) * CHAR_BIT;
    hide AllocSize, SizeInBits, StoreSize;
    Commute8(n, a);
  }

  lemma Commute8(n: nat, a: nat)
    ensures n * (8 * a) == 8 * (n * a) && n * a * CHAR_BIT == 8 * (n * a)
  {
  }

  lemma AllocInBits(t: Target, ty: Type)
    requires ValidTarget(t)
    ensures Align(t, ty) >= 1 && (8 * AllocSize(t, ty)) % (Align(t, ty) * 8) == 0
  {
    hide AllocSize, AlignAndType;
    AllocUnfolds(t, ty);
    AlignToScale(AllocSize(t, ty), Align(t, ty), 8);
  }

  /** A filled type takes its alloc size in the walk, and absorbs what is not there. */
  lemma {:induction false} FilledIsAbsorbed(t: Target, ty: Type)
    requires ValidTarget(t) && Filled(t, ty)
    ensures WalkBits(t, ty) == 8 * AllocSize(t, ty) && Plain(t, ty) && Absorbed(t, ty)
    decreases ty
  {
    FilledSize(t, ty);
    match ty
    case Vec(n, elt) => FilledElements(t, ty, elt, n);
    case Arr(n, elt) => FilledElements(t, ty, elt, n);
    case Struct(fields) =>
      FilledFields(t, fields, 0);
      FilledStruct(t, fields);
    case _ =>
  }

  lemma FilledElements(t: Target, ty: Type, elt: Type, n: nat)
    requires ValidTarget(t) && Filled(t, ty) && (ty == Vec(n, elt) || ty == Arr(n, elt))
    ensures WalkBits(t, ty) == 8 * AllocSize(t, ty) && Plain(t, ty) && Absorbed(t, ty)
    decreases ty, 0
  {
    var a := AllocSize(t, elt);
    FilledSize(t, elt);
    FilledIsAbsorbed(t, elt);
    AllocInBits(t, elt);
    RepeatSizeInBits(t, ty, elt, n);
    FilledRepeat(t, ty, elt, n);
    Commute8(n, a);
    assert WalkStride(t, elt) == 8 * a;
    if n > 0 { OneMore(n, 8 * a); }
    assert WalkBits(t, ty) == Spread(n, 8 * a, 8 * a) == n * (8 * a);
    if n > 0 && !HasLeaf(ty) { LeaflessIsEmpty(t, elt); }
  }

  lemma {:induction false} FilledFields(t: Target, fields: seq<Type>, size: nat)
    requires ValidTarget(t) && forall f <- fields :: Filled(t, f)
    ensures forall f <- fields :: Plain(t, f)
    ensures FieldBits(t, fields, 8 * size) == 8 * StructEnd(t, fields, size)
    ensures AbsorbedFields(t, fields, 8 * size, size, 0)
    decreases fields
  {
    hide *;
    if fields == [] {
      NoFieldEnds(t, 8 * size, size);
    } else {
      var f := fields[0];
      FilledIsAbsorbed(t, f);
      PositiveAlign(t, f);
      UnfoldEnds(t, fields, 8 * size, size);
      UnfoldFields(t, fields, 8 * size, size, 0, 0);
      StartInBits(t, f, size);
      FilledFields(t, fields[1..], FieldStart(t, f, size) + AllocSize(t, f));
      assert forall g <- fields :: g == f || g in fields[1..];
    }
  }

  lemma NoFieldEnds(t: Target, bits: nat, size: nat)
    requires ValidTarget(t)
    ensures FieldBits(t, [], bits) == bits && StructEnd(t, [], size) == size && AbsorbedFields(t, [], bits, size, 0)
  {
  }

  lemma UnfoldEnds(t: Target, fields: seq<Type>, bits: nat, size: nat)
    requires ValidTarget(t) && fields != [] && Align(t, fields[0]) >= 1
    ensures var f := fields[0];
            && FieldBits(t, fields, bits) == FieldBits(t, fields[1..], AlignTo(bits, Align(t, f) * 8) + WalkBits(t, f))
            && StructEnd(t, fields, size) == StructEnd(t, fields[1..], FieldStart(t, f, size) + AllocSize(t, f))
  {
    hide WalkBits, AllocSize, FieldStart, AlignTo, AlignAndType;
  }

  lemma StartInBits(t: Target, f: Type, size: nat)
    requires ValidTarget(t) && Align(t, f) >= 1
    ensures AlignTo(8 * size, Align(t, f) * 8) == 8 * FieldStart(t, f, size)
  {
    hide AlignAndType;
    AlignToScale(size, Align(t, f), 8);
  }

  /** For every type without tail padding inside, the walk's offsets are the layout's and it ends at the alloc size. */
  lemma WalkMatchesLayout(t: Target, ty: Type, v: Value, offset: nat)
    requires ValidTarget(t) && Typed(t, ty, v) && Filled(t, ty)
    ensures Aligned(v)
    ensures var base := AlignTo(offset, v.align * 8);
            && Starts(Leaves(v, offset)) == LayoutOffsets(t, ty, base)
            && End(v, offset) == base + 8 * AllocSize(t, ty)
  {
    hide Filled, Typed, Leaves, End, LayoutOffsets, Starts, AllocSize, WalkBits, Plain, Absorbed;
    FilledIsAbsorbed(t, ty);
    WalkEnds(t, ty, v, offset);
    WalkMatchesLayoutIff(t, ty, v, offset);
  }

  // ----- types whose walk stays within their alloc size -----

  /** Array elements are as wide as their stride, and vectors leave room for aligned elements. */
  predicate Regular(t: Target, ty: Type)
    requires ValidTarget(t)
    decreases ty
  {
    match ty
    case Vec(n, elt) => Regular(t, elt) && SizeInBits(t, ty) >= n * (8 * AllocSize(t, elt))
    case Arr(n, elt) => Regular(t, elt) && StoreSize(t, elt) == AllocSize(t, elt)
    case Struct(fields) => forall f <- fields :: Regular(t, f)
    case _ => true
  }

  lemma BitsFitAlloc(t: Target, ty: Type)
    requires ValidTarget(t)
    ensures SizeInBits(t, ty) <= 8 * AllocSize(t, ty)
  {
    hide SizeInBits, AllocSize;
    AllocUnfolds(t, ty);
  }

  /** Whatever their tail padding, such types never need more than their alloc size. */
  lemma {:induction false} RegularFits(t: Target, ty: Type)
    requires ValidTarget(t) && Regular(t, ty)
    ensures WalkBits(t, ty) <= 8 * AllocSize(t, ty)
    decreases ty, 0
  {
    BitsFitAlloc(t, ty);
    match ty
    case Vec(n, elt) => RegularElements(t, n, elt);
    case Arr(n, elt) =>
      RegularElements(t, n, elt);
      Commute8(n, AllocSize(t, elt));
    case Struct(fields) =>
      RegularFields(t, fields, 0, 0);
      StructFitsAlloc(t, fields);
    case _ =>
  }

  lemma RegularElements(t: Target, n: nat, elt: Type)
    requires ValidTarget(t) && Regular(t, elt)
    ensures Spread(n, WalkBits(t, elt), WalkStride(t, elt)) <= n * (8 * AllocSize(t, elt))
    decreases elt, 1
  {
    RegularFits(t, elt);
    hide WalkBits, AllocSize, AlignAndType, Regular;
    AllocInBits(t, elt);
    var a, most := Align(t, elt) * 8, 8 * AllocSize(t, elt);
    AlignToLeast(WalkBits(t, elt), a, most);
    if n > 0 {
      OneMore(n, most);
      ScaleAtMost(n - 1, WalkStride(t, elt), most);
    }
  }

  lemma ScaleAtMost(n: nat, a: nat, b: nat)
    requires a <= b
    ensures n * a <= n * b
  {
    assert n * (b - a) >= 0;
  }

  lemma {:induction false} RegularFields(t: Target, fields: seq<Type>, bits: nat, size: nat)
    requires ValidTarget(t) && (forall f <- fields :: Regular(t, f)) && bits <= 8 * size
    ensures FieldBits(t, fields, bits) <= 8 * StructEnd(t, fields, size)
    decreases fields, 0
  {
    hide *;
    if fields == [] {
      NoFieldEnds(t, bits, size);
    } else {
      var f := fields[0];
      RegularFits(t, f);
      PositiveAlign(t, f);
      UnfoldEnds(t, fields, bits, size);
      StartInBits(t, f, size);
      AlignToMonotone(bits, 8 * size, Align(t, f) * 8);
      RegularFields(t, fields[1..], AlignTo(bits, Align(t, f) * 8) + WalkBits(t, f),
                    FieldStart(t, f, size) + AllocSize(t, f));
    }
  }

  lemma StructFitsAlloc(t: Target, fields: seq<Type>)
    requires ValidTarget(t)
    ensures StructEnd(t, fields, 0) <= AllocSize(t, Struct(fields))
  {
    var ty := Struct(fields);
    StrictestIsPow2(t, fields, (1, None));
    var end, strictest := StructEnd(t, fields, 0), Strictest(t, fields, (1, None)).0;
    assert SizeInBits(t, ty) == AlignTo(end, strictest) * CHAR_BIT;
    hide SizeInBits, AllocSize, StructEnd, IsPow2;
    BitsFitAlloc(t, ty);
  }
}
