/**
 Sizes and alignments of lowered types.  The target's own numbers are parameters; alignments
 are powers of two, a store size is bits rounded up to bytes, and an alloc size is a store size
 rounded up to the alignment.
 */
module DataLayout {
  import opened Options
  import opened Powers
  import opened Alignment

  datatype Type =
    | Int(width: nat)
    | Float(width: nat)
    | Ptr
    | Vec(count: nat, elt: Type)
    | Arr(count: nat, elt: Type)
    | Struct(fields: seq<Type>)
  {
    predicate IsLeaf() { Int? || Float? || Ptr? }
  }

  datatype Target = Target(
    intAlign: nat -> nat,
    floatAlign: nat -> nat,
    pointerBits: nat,
    pointerAlign: nat,
    structAlign: nat,
    vectorBits: (nat, nat) -> nat)

  ghost predicate ValidTarget(t: Target) {
    && (forall w: nat :: IsPow2(t.intAlign(w)) && IsPow2(t.floatAlign(w)))
    && IsPow2(t.pointerAlign) && IsPow2(t.structAlign)
  }

  function Max(a: nat, b: nat): nat { if a >= b then a else b }

  // ----- alignment -----

  /** The ABI alignment, and the leaf type that gives it (none for a struct without leaves). */
  function AlignAndType(t: Target, ty: Type): (nat, Option<Type>)
    decreases ty
  {
    match ty
    case Int(w) => (t.intAlign(w), Some(ty))
    case Float(w) => (t.floatAlign(w), Some(ty))
    case Ptr => (t.pointerAlign, Some(ty))
    case Vec(_, elt) => AlignAndType(t, elt)
    case Arr(_, elt) => AlignAndType(t, elt)
    case Struct(fields) =>
      var strictest := Strictest(t, fields, (1, None));
      (Max(strictest.0, t.structAlign), strictest.1)
  }

  /** The last of the most aligned fields wins, starting from `best`. */
  function Strictest(t: Target, fields: seq<Type>, best: (nat, Option<Type>)): (nat, Option<Type>)
    decreases fields
  {
    if fields == [] then best
    else
      var cur := AlignAndType(t, fields[0]);
      Strictest(t, fields[1..], if cur.0 >= best.0 then cur else best)
  }

  function Align(t: Target, ty: Type): nat { AlignAndType(t, ty).0 }

  lemma {:induction false} AlignIsPow2(t: Target, ty: Type)
    requires ValidTarget(t)
    ensures IsPow2(Align(t, ty))
    decreases ty
  {
    match ty
    case Vec(_, elt) => AlignIsPow2(t, elt);
    case Arr(_, elt) => AlignIsPow2(t, elt);
    case Struct(fields) => StrictestIsPow2(t, fields, (1, None));
    case _ =>
  }

  lemma {:induction false} StrictestIsPow2(t: Target, fields: seq<Type>, best: (nat, Option<Type>))
    requires ValidTarget(t) && IsPow2(best.0)
    ensures IsPow2(Strictest(t, fields, best).0)
    ensures Strictest(t, fields, best).0 >= best.0
    ensures forall f <- fields :: Align(t, f) <= Strictest(t, fields, best).0
    decreases fields
  {
    if fields != [] {
      var cur := AlignAndType(t, fields[0]);
      AlignIsPow2(t, fields[0]);
      StrictestIsPow2(t, fields[1..], if cur.0 >= best.0 then cur else best);
      assert forall f <- fields :: f == fields[0] || f in fields[1..];
    }
  }

  /** A struct is at least as aligned as each of its fields. */
  lemma FieldAlignDivides(t: Target, fields: seq<Type>, f: Type)
    requires ValidTarget(t) && f in fields
    ensures Align(t, f) <= Align(t, Struct(fields))
  {
    StrictestIsPow2(t, fields, (1, None));
  }

  /** Where structs add no alignment of their own, the leaf reported with an alignment has that alignment. */
  lemma {:induction false} StrictestLeafGivesAlignment(t: Target, ty: Type)
    requires ValidTarget(t) && t.structAlign == 1 && AlignAndType(t, ty).1.Some?
    ensures AlignAndType(t, ty).1.value.IsLeaf() && Align(t, AlignAndType(t, ty).1.value) == Align(t, ty)
    decreases ty
  {
    match ty
    case Vec(_, elt) => StrictestLeafGivesAlignment(t, elt);
    case Arr(_, elt) => StrictestLeafGivesAlignment(t, elt);
    case Struct(fields) => StrictestFieldGivesAlignment(t, fields, (1, None));
    case _ =>
  }

  lemma {:induction false} StrictestFieldGivesAlignment(t: Target, fields: seq<Type>, best: (nat, Option<Type>))
    requires ValidTarget(t) && t.structAlign == 1 && best.0 >= 1
    requires best.1.Some? ==> best.1.value.IsLeaf() && Align(t, best.1.value) == best.0
    ensures var r := Strictest(t, fields, best);
            r.0 >= 1 && (r.1.Some? ==> r.1.value.IsLeaf() && Align(t, r.1.value) == r.0)
    decreases fields
  {
    if fields != [] {
      var cur := AlignAndType(t, fields[0]);
      if cur.1.Some? {
        StrictestLeafGivesAlignment(t, fields[0]);
      }
      StrictestFieldGivesAlignment(t, fields[1..], if cur.0 >= best.0 then cur else best);
    }
  }

  /** The alignment and leaf of a struct are those of the last of its most aligned fields. */
  lemma StructFollowsLastStrictest(t: Target, fields: seq<Type>, i: nat)
    requires ValidTarget(t) && i < |fields|
    requires forall j :: 0 <= j < |fields| ==> Align(t, fields[j]) <= Align(t, fields[i])
    requires forall j :: i < j < |fields| ==> Align(t, fields[j]) < Align(t, fields[i])
    ensures AlignAndType(t, Struct(fields)) ==
            (Max(Align(t, fields[i]), t.structAlign), AlignAndType(t, fields[i]).1)
  {
    AlignIsPow2(t, fields[i]);
    StrictestIsLast(t, fields, (1, None), i);
  }

  lemma {:induction false} StrictestIsLast(t: Target, fields: seq<Type>, best: (nat, Option<Type>), i: nat)
    requires i < |fields| && best.0 <= Align(t, fields[i])
    requires forall j :: 0 <= j < |fields| ==> Align(t, fields[j]) <= Align(t, fields[i])
    requires forall j :: i < j < |fields| ==> Align(t, fields[j]) < Align(t, fields[i])
    ensures Strictest(t, fields, best) == AlignAndType(t, fields[i])
    decreases |fields|
  {
    var cur := AlignAndType(t, fields[0]);
    if i > 0 {
      StrictestIsLast(t, fields[1..], if cur.0 >= best.0 then cur else best, i - 1);
    } else {
      NoneStricter(t, fields[1..], cur);
    }
  }

  lemma {:induction false} NoneStricter(t: Target, fields: seq<Type>, best: (nat, Option<Type>))
    requires forall j :: 0 <= j < |fields| ==> Align(t, fields[j]) < best.0
    ensures Strictest(t, fields, best) == best
    decreases |fields|
  {
    if fields != [] {
      assert Align(t, fields[0]) < best.0;
      NoneStricter(t, fields[1..], best);
    }
  }

  // ----- size -----

  function BytesFor(bits: nat): nat { (bits + 7) / 8 }

  /** Bits of a value of the type; a struct's include its padding. */
  function SizeInBits(t: Target, ty: Type): nat
    requires ValidTarget(t)
    decreases ty, 2
  {
    match ty
    case Int(w) => w
    case Float(w) => w
    case Ptr => t.pointerBits
    case Vec(n, elt) => t.vectorBits(n, SizeInBits(t, elt))
    case Arr(n, elt) => n * StoreSize(t, elt) * CHAR_BIT
    case Struct(fields) =>
      StrictestIsPow2(t, fields, (1, None));
      AlignTo(StructEnd(t, fields, 0), Strictest(t, fields, (1, None)).0) * CHAR_BIT
  }

  function StoreSize(t: Target, ty: Type): nat
    requires ValidTarget(t)
    decreases ty, 3
  {
    BytesFor(SizeInBits(t, ty))
  }

  function AllocSize(t: Target, ty: Type): nat
    requires ValidTarget(t)
    decreases ty, 4
  {
    AlignIsPow2(t, ty);
    AlignTo(StoreSize(t, ty), Align(t, ty))
  }

  /** Where a field starts when `size` bytes precede it. */
  function FieldStart(t: Target, f: Type, size: nat): nat
    requires ValidTarget(t)
  {
    AlignIsPow2(t, f);
    AlignTo(size, Align(t, f))
  }

  /** Where the last field ends, before the struct's own tail padding. */
  function StructEnd(t: Target, fields: seq<Type>, size: nat): (r: nat)
    requires ValidTarget(t)
    ensures r >= size
    decreases fields, 0
  {
    if fields == [] then size
    else StructEnd(t, fields[1..], FieldStart(t, fields[0], size) + AllocSize(t, fields[0]))
  }

  // ----- the loops of the source -----

  method ComputeAlign(t: Target, ty: Type) returns (r: (nat, Option<Type>))
    requires ValidTarget(t)
    ensures r == AlignAndType(t, ty)
    decreases ty
  {
    match ty
    case Int(w) => r := (t.intAlign(w), Some(ty));
    case Float(w) => r := (t.floatAlign(w), Some(ty));
    case Ptr => r := (t.pointerAlign, Some(ty));
    case Vec(_, elt) => r := ComputeAlign(t, elt);
    case Arr(_, elt) => r := ComputeAlign(t, elt);
    case Struct(fields) =>
      var strictest: (nat, Option<Type>) := (1, None);
      for i := 0 to |fields|
        invariant Strictest(t, fields[i..], strictest) == Strictest(t, fields, (1, None))
      {
        var cur := ComputeAlign(t, fields[i]);
        assert fields[i..][1..] == fields[i + 1..];
        if cur.0 >= strictest.0 {
          strictest := cur;
        }
      }
      r := (Max(strictest.0, t.structAlign), strictest.1);
  }

  method ComputeSize(t: Target, ty: Type) returns (r: nat)
    requires ValidTarget(t)
    ensures r == SizeInBits(t, ty)
    decreases ty
  {
    match ty
    case Int(w) => r := w;
    case Float(w) => r := w;
    case Ptr => r := t.pointerBits;
    case Vec(n, elt) =>
      var e := ComputeSize(t, elt);
      r := t.vectorBits(n, e);
    case Arr(n, elt) =>
      var e := ComputeSize(t, elt);
      r := n * BytesFor(e) * CHAR_BIT;
    case Struct(fields) =>
      r := ComputeStructSize(t, fields);
  }

  method ComputeStructSize(t: Target, fields: seq<Type>) returns (r: nat)
    requires ValidTarget(t)
    ensures r == SizeInBits(t, Struct(fields))
    decreases fields
  {
    hide ValidTarget, AlignTo, IsPow2;
    var size: nat := 0;
    var strictest: (nat, Option<Type>) := (1, None);
    for i := 0 to |fields|
      invariant strictest.0 >= 1
      invariant Strictest(t, fields[i..], strictest) == Strictest(t, fields, (1, None))
      invariant StructEnd(t, fields[i..], size) == StructEnd(t, fields, 0)
    {
      var cur := ComputeAlign(t, fields[i]);
      var bits := ComputeSize(t, fields[i]);
      PositiveAlign(t, fields[i]);
      LayoutStep(t, fields, i, size, strictest);
      size := AlignTo(size, cur.0) + AlignTo(BytesFor(bits), cur.0);
      if cur.0 >= strictest.0 {
        strictest := cur;
      }
    }
    r := AlignTo(size, strictest.0) * CHAR_BIT;
  }

  lemma PositiveAlign(t: Target, ty: Type)
    requires ValidTarget(t)
    ensures Align(t, ty) >= 1
  {
    AlignIsPow2(t, ty);
  }

  lemma AllocUnfolds(t: Target, ty: Type)
    requires ValidTarget(t)
    ensures Align(t, ty) >= 1
    ensures AllocSize(t, ty) == AlignTo(BytesFor(SizeInBits(t, ty)), Align(t, ty))
  {
    hide AlignTo, SizeInBits, BytesFor;
    AlignIsPow2(t, ty);
  }

  /** One field of the loop, in both accumulators. */
  lemma LayoutStep(t: Target, fields: seq<Type>, i: nat, size: nat, best: (nat, Option<Type>))
    requires ValidTarget(t) && i < |fields| && Align(t, fields[i]) >= 1
    ensures var cur := AlignAndType(t, fields[i]);
            var size' := AlignTo(size, cur.0) + AlignTo(BytesFor(SizeInBits(t, fields[i])), cur.0);
            && StructEnd(t, fields[i..], size) == StructEnd(t, fields[i + 1..], size')
            && Strictest(t, fields[i..], best) ==
               Strictest(t, fields[i + 1..], if cur.0 >= best.0 then cur else best)
  {
    hide ValidTarget, AlignTo, IsPow2, SizeInBits, AlignAndType, BytesFor;
    assert fields[i..][1..] == fields[i + 1..] && fields[i..][0] == fields[i];
    AllocUnfolds(t, fields[i]);
  }
}
