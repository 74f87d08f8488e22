/**
 Converting a KGEN struct to an LLVM literal struct: byte arrays are inserted wherever KGEN
 aligns a field, or the whole struct, more strictly than LLVM would, and the element each
 logical field became is cached.
 */
module StructConversion {
  import opened Options
  import opened Powers
  import opened Alignment
  import opened DataLayout
  import opened TypedVariant
  import UnionLowering

  /** A field: its converted type, and alignment and alloc size in KGEN's layout; each may be unknown. */
  datatype Field = Field(llvm: Option<Type>, kgenAlign: Option<nat>, kgenSize: Option<nat>)

  datatype KStruct = KStruct(fields: seq<Field>, totalAlign: Option<nat>)

  predicate Resolved(f: Field) {
    f.llvm.Some? && f.kgenAlign.Some? && f.kgenSize.Some? && f.kgenAlign.value >= 1
  }

  predicate AllResolved(fields: seq<Field>) {
    forall i :: 0 <= i < |fields| ==> Resolved(fields[i])
  }

  // ----- KGEN's own layout -----

  function KgenStart(f: Field, offset: nat): nat
    requires Resolved(f)
  {
    AlignTo(offset, f.kgenAlign.value)
  }

  function KgenOffset(fields: seq<Field>, offset: nat, i: nat): nat
    requires AllResolved(fields) && i < |fields|
    decreases |fields|
  {
    var start := KgenStart(fields[0], offset);
    if i == 0 then start else KgenOffset(fields[1..], start + fields[0].kgenSize.value, i - 1)
  }

  function KgenEnd(fields: seq<Field>, offset: nat): nat
    requires AllResolved(fields)
    decreases |fields|
  {
    if fields == [] then offset
    else KgenEnd(fields[1..], KgenStart(fields[0], offset) + fields[0].kgenSize.value)
  }

  // ----- what the conversion emits -----

  function Bytes(n: nat): Type { Arr(n, Int(8)) }

  /** The elements for one field: possibly a padding array, then the field. */
  function Elements(t: Target, f: Field, offset: nat): seq<Type>
    requires ValidTarget(t) && Resolved(f)
  {
    var kgen := KgenStart(f, offset);
    (if kgen > FieldStart(t, f.llvm.value, offset) then [Bytes(kgen - offset)] else []) + [f.llvm.value]
  }

  function AllElements(t: Target, fields: seq<Field>, offset: nat): seq<Type>
    requires ValidTarget(t) && AllResolved(fields)
    decreases |fields|
  {
    if fields == [] then []
    else
      Elements(t, fields[0], offset)
      + AllElements(t, fields[1..], KgenStart(fields[0], offset) + fields[0].kgenSize.value)
  }

  /** Which element logical field `i` became. */
  function ElementIndex(t: Target, fields: seq<Field>, offset: nat, i: nat): nat
    requires ValidTarget(t) && AllResolved(fields) && i < |fields|
    decreases |fields|
  {
    var here := |Elements(t, fields[0], offset)|;
    if i == 0 then here - 1
    else here + ElementIndex(t, fields[1..], KgenStart(fields[0], offset) + fields[0].kgenSize.value, i - 1)
  }

  /** Where LLVM places element `j` of a struct body, counting from `size`. */
  function LlvmOffset(t: Target, body: seq<Type>, size: nat, j: nat): nat
    requires ValidTarget(t) && j < |body|
    decreases |body|
  {
    var start := FieldStart(t, body[0], size);
    if j == 0 then start else LlvmOffset(t, body[1..], start + AllocSize(t, body[0]), j - 1)
  }

  /** LLVM's placement is a layout: every element aligned, before the next one, and before the end. */
  lemma {:induction false} LlvmOffsetsAreALayout(t: Target, body: seq<Type>, size: nat, j: nat)
    requires ValidTarget(t) && j < |body|
    ensures var at := LlvmOffset(t, body, size, j);
            && Align(t, body[j]) >= 1 && at % Align(t, body[j]) == 0 && at >= size
            && at + AllocSize(t, body[j]) <=
               if j + 1 < |body| then LlvmOffset(t, body, size, j + 1) else StructEnd(t, body, size)
    decreases |body|
  {
    hide AllocSize, AlignAndType;
    PositiveAlign(t, body[0]);
    var next := FieldStart(t, body[0], size) + AllocSize(t, body[0]);
    if j > 0 {
      LlvmOffsetsAreALayout(t, body[1..], next, j - 1);
    } else if |body| > 1 {
      LlvmOffsetsAreALayout(t, body[1..], next, 0);
    }
  }

  // ----- when fields land on their KGEN offsets -----

  /** The padding emitted before a field: up to KGEN's offset, if that is beyond where LLVM would put the field. */
  function Pad(t: Target, f: Field, offset: nat): nat
    requires ValidTarget(t) && Resolved(f)
  {
    var kgen := KgenStart(f, offset);
    if kgen > FieldStart(t, f.llvm.value, offset) then kgen - offset else 0
  }

  /** Where LLVM, at `size` while KGEN is at `offset`, puts the field. */
  function LlvmStart(t: Target, f: Field, offset: nat, size: nat): nat
    requires ValidTarget(t) && Resolved(f)
  {
    FieldStart(t, f.llvm.value, size + Pad(t, f, offset))
  }

  /** Where LLVM is after the fields, wherever it puts them. */
  function LlvmEnd(t: Target, fields: seq<Field>, offset: nat, size: nat): nat
    requires ValidTarget(t) && AllResolved(fields)
    decreases |fields|
  {
    if fields == [] then size
    else
      var f := fields[0];
      LlvmEnd(t, fields[1..], KgenStart(f, offset) + f.kgenSize.value,
              LlvmStart(t, f, offset, size) + AllocSize(t, f.llvm.value))
  }

  /** Field by field: LLVM, whose sizes may differ from KGEN's, is brought to KGEN's offset. */
  predicate LandsFrom(t: Target, fields: seq<Field>, offset: nat, size: nat)
    requires ValidTarget(t) && AllResolved(fields)
    decreases |fields|
  {
    if fields == [] then true
    else
      var f, kgen := fields[0], KgenStart(fields[0], offset);
      && LlvmStart(t, f, offset, size) == kgen
      && LandsFrom(t, fields[1..], kgen + f.kgenSize.value, kgen + AllocSize(t, f.llvm.value))
  }

  /** LLVM's placement of a body, one element at a time. */
  lemma ConsPlacement(t: Target, e: Type, rest: seq<Type>, size: nat, j: nat)
    requires ValidTarget(t)
    ensures var next := FieldStart(t, e, size) + AllocSize(t, e);
            && StructEnd(t, [e] + rest, size) == StructEnd(t, rest, next)
            && LlvmOffset(t, [e] + rest, size, 0) == FieldStart(t, e, size)
            && (j < |rest| ==> LlvmOffset(t, [e] + rest, size, 1 + j) == LlvmOffset(t, rest, next, j))
  {
    hide AllocSize, FieldStart, ValidTarget;
    assert ([e] + rest)[1..] == rest;
  }

  lemma PaddingPlacement(t: Target, n: nat, size: nat)
    requires ValidTarget(t) && UnionLowering.ByteAligned(t)
    ensures FieldStart(t, Bytes(n), size) + AllocSize(t, Bytes(n)) == size + n
  {
    UnionLowering.ByteArray(t, n);
    hide AllocSize, FieldStart;
    UnionLowering.StartAt(t, Bytes(n), size);
  }

  /** The elements of one field, placed from anywhere; `j` counts elements after them. */
  lemma ElementsPlaced(t: Target, f: Field, offset: nat, size: nat, rest: seq<Type>, j: nat)
    requires ValidTarget(t) && UnionLowering.ByteAligned(t) && Resolved(f)
    ensures var es, start := Elements(t, f, offset), LlvmStart(t, f, offset, size);
            var next := start + AllocSize(t, f.llvm.value);
            && es != [] && LlvmOffset(t, es + rest, size, |es| - 1) == start
            && StructEnd(t, es + rest, size) == StructEnd(t, rest, next)
            && (j < |rest| ==> LlvmOffset(t, es + rest, size, |es| + j) == LlvmOffset(t, rest, next, j))
  {
    hide AllocSize, FieldStart, KgenStart, ValidTarget, StructEnd, LlvmOffset;
    var es, kgen, ty := Elements(t, f, offset), KgenStart(f, offset), f.llvm.value;
    KgenStartAbove(f, offset);
    if kgen > FieldStart(t, ty, offset) {
      var n := kgen - offset;
      var pad, tail := Bytes(n), [ty] + rest;
      assert es == [pad, ty] && es + rest == [pad] + tail;
      ConsPlacement(t, ty, rest, size + n, j);
      ConsPlacement(t, pad, tail, size, 0);
      ConsPlacement(t, pad, tail, size, 1 + j);
      PaddingPlacement(t, n, size);
    } else {
      assert es == [ty];
      ConsPlacement(t, ty, rest, size, j);
    }
  }

  lemma KgenStartAbove(f: Field, offset: nat)
    requires Resolved(f)
    ensures KgenStart(f, offset) >= offset
  {
  }

  lemma FieldIsLastElement(t: Target, f: Field, offset: nat)
    requires ValidTarget(t) && Resolved(f)
    ensures var es := Elements(t, f, offset); es != [] && es[|es| - 1] == f.llvm.value
  {
    hide KgenStart, FieldStart;
  }

  /** The cached index names the field's element, wherever LLVM puts it, and indices increase. */
  lemma {:induction false} IndexNamesElement(t: Target, fields: seq<Field>, offset: nat, extra: seq<Type>, i: nat)
    requires ValidTarget(t) && i < |fields| && AllResolved(fields)
    ensures var body, k := AllElements(t, fields, offset) + extra, ElementIndex(t, fields, offset, i);
            && k < |AllElements(t, fields, offset)| && body[k] == fields[i].llvm.value
            && (i > 0 ==> ElementIndex(t, fields, offset, i - 1) < k)
    decreases |fields|
  {
    hide ValidTarget, KgenStart, Elements;
    var es, next := Elements(t, fields[0], offset), KgenStart(fields[0], offset) + fields[0].kgenSize.value;
    var rest := AllElements(t, fields[1..], next) + extra;
    assert AllElements(t, fields, offset) + extra == es + rest;
    FieldIsLastElement(t, fields[0], offset);
    if i > 0 {
      IndexNamesElement(t, fields[1..], next, extra, i - 1);
    }
  }

  /** Where LLVM puts field `i` of the converted body. */
  function LandsAt(t: Target, fields: seq<Field>, offset: nat, size: nat, extra: seq<Type>, i: nat): nat
    requires ValidTarget(t) && AllResolved(fields) && i < |fields|
  {
    IndexNamesElement(t, fields, offset, extra, i);
    LlvmOffset(t, AllElements(t, fields, offset) + extra, size, ElementIndex(t, fields, offset, i))
  }

  predicate AllLand(t: Target, fields: seq<Field>, offset: nat, size: nat, extra: seq<Type>)
    requires ValidTarget(t) && AllResolved(fields)
  {
    forall i :: 0 <= i < |fields| ==> LandsAt(t, fields, offset, size, extra, i) == KgenOffset(fields, offset, i)
  }

  lemma LandsAtUnfolds(t: Target, fields: seq<Field>, offset: nat, size: nat, extra: seq<Type>, i: nat)
    requires ValidTarget(t) && UnionLowering.ByteAligned(t) && AllResolved(fields) && i < |fields|
    ensures var f, start := fields[0], LlvmStart(t, fields[0], offset, size);
            LandsAt(t, fields, offset, size, extra, i) ==
            if i == 0 then start
            else LandsAt(t, fields[1..], KgenStart(f, offset) + f.kgenSize.value, start + AllocSize(t, f.llvm.value),
                         extra, i - 1)
  {
    hide ValidTarget, KgenStart, Elements, LlvmOffset, LlvmStart, AllocSize;
    var f := fields[0];
    var es, next := Elements(t, f, offset), KgenStart(f, offset) + f.kgenSize.value;
    var rest := AllElements(t, fields[1..], next) + extra;
    assert AllElements(t, fields, offset) + extra == es + rest;
    if i == 0 {
      ElementsPlaced(t, f, offset, size, rest, 0);
    } else {
      IndexNamesElement(t, fields[1..], next, extra, i - 1);
      ElementsPlaced(t, f, offset, size, rest, ElementIndex(t, fields[1..], next, i - 1));
    }
  }

  /** All fields land on their KGEN offsets exactly when LLVM is brought to each in turn, whatever the sizes. */
  lemma {:induction false} FieldsLandIff(t: Target, fields: seq<Field>, offset: nat, size: nat, extra: seq<Type>)
    requires ValidTarget(t) && UnionLowering.ByteAligned(t) && AllResolved(fields)
    ensures LandsFrom(t, fields, offset, size) <==> AllLand(t, fields, offset, size, extra)
    decreases |fields|
  {
    hide ValidTarget, KgenStart, LandsAt, LlvmStart, AllocSize, KgenOffset;
    if fields != [] {
      var f, rest, kgen := fields[0], fields[1..], KgenStart(fields[0], offset);
      var offset', size' := kgen + f.kgenSize.value, kgen + AllocSize(t, f.llvm.value);
      LandsAtUnfolds(t, fields, offset, size, extra, 0);
      KgenOffsetUnfolds(fields, offset, 0);
      if LlvmStart(t, f, offset, size) == kgen {
        hide AllLand;
        FieldsLandIff(t, rest, offset', size', extra);
        forall i | 0 < i < |fields|
          ensures LandsAt(t, fields, offset, size, extra, i) == LandsAt(t, rest, offset', size', extra, i - 1)
          ensures KgenOffset(fields, offset, i) == KgenOffset(rest, offset', i - 1)
        {
          LandsAtUnfolds(t, fields, offset, size, extra, i);
          KgenOffsetUnfolds(fields, offset, i);
        }
        AllLandTail(t, fields, offset, size, extra);
      }
    }
  }

  lemma KgenOffsetUnfolds(fields: seq<Field>, offset: nat, i: nat)
    requires AllResolved(fields) && i < |fields|
    ensures var start := KgenStart(fields[0], offset);
            KgenOffset(fields, offset, i) ==
            if i == 0 then start else KgenOffset(fields[1..], start + fields[0].kgenSize.value, i - 1)
  {
    hide KgenStart;
  }

  lemma AllLandTail(t: Target, fields: seq<Field>, offset: nat, size: nat, extra: seq<Type>)
    requires ValidTarget(t) && AllResolved(fields) && fields != []
    requires LandsAt(t, fields, offset, size, extra, 0) == KgenOffset(fields, offset, 0)
    requires var f, kgen := fields[0], KgenStart(fields[0], offset);
             var offset', size' := kgen + f.kgenSize.value, kgen + AllocSize(t, f.llvm.value);
             forall i :: 0 < i < |fields| ==>
               && LandsAt(t, fields, offset, size, extra, i) == LandsAt(t, fields[1..], offset', size', extra, i - 1)
               && KgenOffset(fields, offset, i) == KgenOffset(fields[1..], offset', i - 1)
    ensures var f, kgen := fields[0], KgenStart(fields[0], offset);
            AllLand(t, fields, offset, size, extra) <==>
            AllLand(t, fields[1..], kgen + f.kgenSize.value, kgen + AllocSize(t, f.llvm.value), extra)
  {
    hide ValidTarget, KgenStart, LandsAt, KgenOffset, AllocSize;
    var f, kgen, rest := fields[0], KgenStart(fields[0], offset), fields[1..];
    var offset', size' := kgen + f.kgenSize.value, kgen + AllocSize(t, f.llvm.value);
    if AllLand(t, fields, offset, size, extra) {
      forall i | 0 <= i < |rest|
        ensures LandsAt(t, rest, offset', size', extra, i) == KgenOffset(rest, offset', i)
      {
        assert LandsAt(t, fields, offset, size, extra, i + 1) == KgenOffset(fields, offset, i + 1);
      }
    }
  }

  /** Then every field sits at its KGEN offset under the index the cache gives it, in order. */
  lemma FieldsLandOnKgenOffsets(t: Target, fields: seq<Field>, offset: nat, size: nat, extra: seq<Type>, i: nat)
    requires ValidTarget(t) && UnionLowering.ByteAligned(t) && i < |fields|
    requires AllResolved(fields) && LandsFrom(t, fields, offset, size)
    ensures var body, k := AllElements(t, fields, offset) + extra, ElementIndex(t, fields, offset, i);
            && k < |AllElements(t, fields, offset)|
            && body[k] == fields[i].llvm.value
            && LlvmOffset(t, body, size, k) == KgenOffset(fields, offset, i)
            && (i > 0 ==> ElementIndex(t, fields, offset, i - 1) < k)
  {
    hide ValidTarget, AllElements, ElementIndex, LlvmOffset, KgenOffset, LandsFrom;
    IndexNamesElement(t, fields, offset, extra, i);
    FieldsLandIff(t, fields, offset, size, extra);
    assert LandsAt(t, fields, offset, size, extra, i) == KgenOffset(fields, offset, i);
  }

  /** The padded body ends where the fields put LLVM, landed or not. */
  lemma {:induction false} BodyEnd(t: Target, fields: seq<Field>, offset: nat, size: nat, extra: seq<Type>)
    requires ValidTarget(t) && UnionLowering.ByteAligned(t) && AllResolved(fields)
    ensures StructEnd(t, AllElements(t, fields, offset) + extra, size) ==
            StructEnd(t, extra, LlvmEnd(t, fields, offset, size))
    decreases |fields|
  {
    hide ValidTarget, Elements, LlvmOffset, KgenStart, StructEnd, LlvmStart, AllocSize;
    if fields == [] {
      assert [] + extra == extra;
    } else {
      var f := fields[0];
      var es, next := Elements(t, f, offset), KgenStart(f, offset) + f.kgenSize.value;
      var rest := AllElements(t, fields[1..], next) + extra;
      assert AllElements(t, fields, offset) + extra == es + rest;
      ElementsPlaced(t, f, offset, size, rest, 0);
      BodyEnd(t, fields[1..], next, LlvmStart(t, f, offset, size) + AllocSize(t, f.llvm.value), extra);
    }
  }

  // ----- fields of which both layouts have the same size -----

  /** KGEN and LLVM give the field the same size. */
  predicate Agrees(t: Target, f: Field)
    requires ValidTarget(t)
  {
    Resolved(f) && f.kgenSize.value == AllocSize(t, f.llvm.value)
  }

  predicate AllAgree(t: Target, fields: seq<Field>)
    requires ValidTarget(t)
  {
    forall i :: 0 <= i < |fields| ==> Agrees(t, fields[i])
  }

  /** An offset that LLVM can use for the type. */
  predicate FitsAt(t: Target, ty: Type, at: nat)
    requires ValidTarget(t)
  {
    PositiveAlign(t, ty);
    at % Align(t, ty) == 0
  }

  /** Every KGEN offset is one that LLVM can use. */
  predicate AllFit(t: Target, fields: seq<Field>, offset: nat)
    requires ValidTarget(t) && AllResolved(fields)
    decreases |fields|
  {
    if fields == [] then true
    else
      var f, kgen := fields[0], KgenStart(fields[0], offset);
      FitsAt(t, f.llvm.value, kgen) && AllFit(t, fields[1..], kgen + f.kgenSize.value)
  }

  /** Padded from KGEN's own position, a field lands exactly where LLVM can use KGEN's offset. */
  lemma LandsWhereItFits(t: Target, f: Field, offset: nat)
    requires ValidTarget(t) && Resolved(f)
    ensures LlvmStart(t, f, offset, offset) == KgenStart(f, offset) <==> FitsAt(t, f.llvm.value, KgenStart(f, offset))
  {
    hide AlignAndType;
    PositiveAlign(t, f.llvm.value);
    if FitsAt(t, f.llvm.value, KgenStart(f, offset)) {
      AlignToLeast(offset, Align(t, f.llvm.value), KgenStart(f, offset));
    }
  }

  /** Where sizes agree, the fields land if and only if LLVM's alignment divides every KGEN offset. */
  lemma {:induction false} AgreeingFieldsLandIff(t: Target, fields: seq<Field>, offset: nat)
    requires ValidTarget(t) && AllResolved(fields) && AllAgree(t, fields)
    ensures LandsFrom(t, fields, offset, offset) <==> AllFit(t, fields, offset)
    ensures LandsFrom(t, fields, offset, offset) ==> LlvmEnd(t, fields, offset, offset) == KgenEnd(fields, offset)
    decreases |fields|
  {
    if fields != [] {
      hide ValidTarget, KgenStart, LlvmStart, AllocSize, FitsAt;
      assert Agrees(t, fields[0]);
      LandsWhereItFits(t, fields[0], offset);
      AgreeingFieldsLandIff(t, fields[1..], KgenStart(fields[0], offset) + fields[0].kgenSize.value);
    }
  }

  /** KGEN aligns the field at least as strictly as LLVM does. */
  predicate Stricter(t: Target, f: Field)
    requires ValidTarget(t)
  {
    Resolved(f) && IsPow2(f.kgenAlign.value) && Align(t, f.llvm.value) <= f.kgenAlign.value
  }

  /** Then all KGEN offsets fit. */
  lemma {:induction false} StricterFieldsFit(t: Target, fields: seq<Field>, offset: nat)
    requires ValidTarget(t) && AllResolved(fields) && forall i :: 0 <= i < |fields| ==> Stricter(t, fields[i])
    ensures AllFit(t, fields, offset)
    decreases |fields|
  {
    if fields != [] {
      var f, kgen := fields[0], KgenStart(fields[0], offset);
      assert Stricter(t, f);
      AlignIsPow2(t, f.llvm.value);
      AlignedToSmaller(kgen, Align(t, f.llvm.value), f.kgenAlign.value);
      StricterFieldsFit(t, fields[1..], kgen + f.kgenSize.value);
    }
  }

  // ----- the whole struct -----

  /** Any struct's alloc size: its end rounded up to its alignment. */
  lemma StructAlloc(t: Target, body: seq<Type>)
    requires ValidTarget(t) && Align(t, Struct(body)) >= 1
    ensures AllocSize(t, Struct(body)) == AlignTo(StructEnd(t, body, 0), Align(t, Struct(body)))
  {
    var ty, end, strictest := Struct(body), StructEnd(t, body, 0), Strictest(t, body, (1, None)).0;
    StrictestIsPow2(t, body, (1, None));
    AlignIsPow2(t, ty);
    UnionLowering.AlignToNested(end, strictest, Align(t, ty));
    assert SizeInBits(t, ty) == AlignTo(end, strictest) * CHAR_BIT;
    hide SizeInBits, StructEnd, Strictest, IsPow2, AlignAndType;
    BytesForWhole(AlignTo(end, strictest));
    AllocUnfolds(t, ty);
  }

  lemma {:induction false} StrictestWithBytes(t: Target, body: seq<Type>, g: Type, best: (nat, Option<Type>))
    requires ValidTarget(t) && Align(t, g) == 1 && best.0 >= 1
    ensures Strictest(t, body + [g], best).0 == Strictest(t, body, best).0
    decreases |body|
  {
    hide AlignAndType, ValidTarget;
    if body == [] {
      assert body + [g] == [g] && [g][1..] == [];
    } else {
      assert (body + [g])[1..] == body[1..] + [g] && (body + [g])[0] == body[0];
      var cur := AlignAndType(t, body[0]);
      StrictestWithBytes(t, body[1..], g, if cur.0 >= best.0 then cur else best);
    }
  }

  /** The literal struct, with tail padding where KGEN's total alignment asks for more than LLVM adds. */
  function Closed(t: Target, body: seq<Type>, offset: nat, totalAlign: nat): Type
    requires ValidTarget(t) && totalAlign >= 1
  {
    PositiveAlign(t, Struct(body));
    var kgen := AlignTo(offset, totalAlign);
    if kgen > AlignTo(offset, Align(t, Struct(body))) then Struct(body + [Bytes(kgen - offset)]) else Struct(body)
  }

  /** The tail padding that closes the struct. */
  function TailPad(t: Target, body: seq<Type>, offset: nat, totalAlign: nat): nat
    requires ValidTarget(t) && totalAlign >= 1
  {
    PositiveAlign(t, Struct(body));
    var kgen := AlignTo(offset, totalAlign);
    if kgen > AlignTo(offset, Align(t, Struct(body))) then kgen - offset else 0
  }

  /** Whatever the fields, the closed struct is where they put LLVM, and the tail padding, rounded up. */
  lemma ClosedAlloc(t: Target, body: seq<Type>, offset: nat, totalAlign: nat)
    requires ValidTarget(t) && UnionLowering.ByteAligned(t) && totalAlign >= 1 && Align(t, Struct(body)) >= 1
    ensures AllocSize(t, Closed(t, body, offset, totalAlign)) ==
            AlignTo(StructEnd(t, body, 0) + TailPad(t, body, offset, totalAlign), Align(t, Struct(body)))
  {
    var n := TailPad(t, body, offset, totalAlign);
    if n > 0 {
      var pad := Bytes(n);
      UnionLowering.ByteArray(t, n);
      PaddingEnd(t, body, n);
      StrictestWithBytes(t, body, pad, (1, None));
      hide StructEnd, AllocSize, SizeInBits, Strictest, IsPow2;
      StructAlloc(t, body + [pad]);
    } else {
      hide StructEnd, AllocSize, SizeInBits, Strictest, IsPow2;
      StructAlloc(t, body);
    }
  }

  lemma PaddingEnd(t: Target, body: seq<Type>, n: nat)
    requires ValidTarget(t) && UnionLowering.ByteAligned(t)
    ensures StructEnd(t, body + [Bytes(n)], 0) == StructEnd(t, body, 0) + n
  {
    hide AllocSize, FieldStart;
    var pad, end := Bytes(n), StructEnd(t, body, 0);
    StructEndAppend(t, body, [pad], 0);
    PaddingPlacement(t, n, end);
    ConsPlacement(t, pad, [], end, 0);
    assert [pad] + [] == [pad];
  }

  lemma RoundsTo(end: nat, a: nat, size: nat)
    requires a >= 1
    ensures AlignTo(end, a) == size <==> size % a == 0 && end <= size < end + a
  {
    if size % a == 0 && end <= size < end + a {
      AlignToLeast(end, a, size);
      UniqueMultiple(AlignTo(end, a), size, a);
    }
  }

  lemma UniqueMultiple(x: nat, y: nat, a: nat)
    requires a >= 1 && x % a == 0 && y % a == 0 && x <= y < x + a
    ensures x == y
  {
    var p, _ := DivMod(x, a);
    var q, _ := DivMod(y, a);
    if p < q { StepUp(a, p, q); }
    if q < p { StepUp(a, q, p); }
  }

  /**
   The converted struct is exactly as large as KGEN's if and only if LLVM's alignment divides KGEN's size, and
   with the tail padding LLVM ends within one alignment below that size; whatever the fields' sizes and offsets.
   */
  lemma ConvertedHasKgenSizeIff(t: Target, fields: seq<Field>, totalAlign: nat)
    requires ValidTarget(t) && UnionLowering.ByteAligned(t) && AllResolved(fields) && totalAlign >= 1
    ensures var body, size := AllElements(t, fields, 0), AlignTo(KgenEnd(fields, 0), totalAlign);
            var end := LlvmEnd(t, fields, 0, 0) + TailPad(t, body, KgenEnd(fields, 0), totalAlign);
            AllocSize(t, Closed(t, body, KgenEnd(fields, 0), totalAlign)) == size <==>
            FitsAt(t, Struct(body), size) && end <= size < end + Align(t, Struct(body))
  {
    hide *;
    var body, size := AllElements(t, fields, 0), AlignTo(KgenEnd(fields, 0), totalAlign);
    var end := LlvmEnd(t, fields, 0, 0);
    NoFieldEnds(t, 0, end);
    BodyEnd(t, fields, 0, 0, []);
    assert body + [] == body;
    PositiveAlign(t, Struct(body));
    ClosedAlloc(t, body, KgenEnd(fields, 0), totalAlign);
    RoundsTo(end + TailPad(t, body, KgenEnd(fields, 0), totalAlign), Align(t, Struct(body)), size);
    FitsWhenMultiple(t, Struct(body), size);
  }

  lemma FitsWhenMultiple(t: Target, ty: Type, at: nat)
    requires ValidTarget(t) && Align(t, ty) >= 1
    ensures FitsAt(t, ty, at) <==> at % Align(t, ty) == 0
  {
    hide AlignAndType;
  }

  /**
   Where fields of agreed sizes land, that is the divisibility alone; and it holds whenever KGEN aligns the
   struct at least as strictly as LLVM does.
   */
  lemma ConvertedHasKgenSize(t: Target, fields: seq<Field>, totalAlign: nat)
    requires ValidTarget(t) && UnionLowering.ByteAligned(t)
    requires AllResolved(fields) && AllAgree(t, fields) && AllFit(t, fields, 0) && totalAlign >= 1
    ensures var body, size := AllElements(t, fields, 0), AlignTo(KgenEnd(fields, 0), totalAlign);
            && (AllocSize(t, Closed(t, body, KgenEnd(fields, 0), totalAlign)) == size <==>
                FitsAt(t, Struct(body), size))
            && (IsPow2(totalAlign) && Align(t, Struct(body)) <= totalAlign ==> FitsAt(t, Struct(body), size))
  {
    var body, end := AllElements(t, fields, 0), KgenEnd(fields, 0);
    AgreeingFieldsLandIff(t, fields, 0);
    hide AllElements, KgenEnd, LlvmEnd, AllFit, AllAgree, LandsFrom, AllocSize, IsPow2, Closed, AlignAndType;
    ConvertedHasKgenSizeIff(t, fields, totalAlign);
    PositiveAlign(t, Struct(body));
    if IsPow2(totalAlign) && Align(t, Struct(body)) <= totalAlign {
      AlignIsPow2(t, Struct(body));
      AlignedToSmaller(AlignTo(end, totalAlign), Align(t, Struct(body)), totalAlign);
    }
  }

  lemma {:induction false} StructEndAppend(t: Target, a: seq<Type>, b: seq<Type>, size: nat)
    requires ValidTarget(t)
    ensures StructEnd(t, a + b, size) == StructEnd(t, b, StructEnd(t, a, size))
    decreases |a|
  {
    hide ValidTarget, AllocSize, FieldStart;
    if a == [] {
      assert a + b == b;
    } else {
      assert (a + b)[1..] == a[1..] + b && (a + b)[0] == a[0];
      StructEndAppend(t, a[1..], b, FieldStart(t, a[0], size) + AllocSize(t, a[0]));
    }
  }

  // ----- the conversion and its cache -----

  lemma {:induction false} OneMoreField(t: Target, fields: seq<Field>, f: Field, offset: nat)
    requires ValidTarget(t) && AllResolved(fields) && Resolved(f)
    ensures AllResolved(fields + [f])
    ensures var end := KgenEnd(fields, offset);
            && AllElements(t, fields + [f], offset) == AllElements(t, fields, offset) + Elements(t, f, end)
            && KgenEnd(fields + [f], offset) == KgenStart(f, end) + f.kgenSize.value
            && ElementIndex(t, fields + [f], offset, |fields|) ==
               |AllElements(t, fields, offset)| + |Elements(t, f, end)| - 1
    decreases |fields|
  {
    hide ValidTarget, Elements, KgenStart;
    if fields == [] {
      assert [] + [f] == [f] && [f][1..] == [];
    } else {
      assert (fields + [f])[1..] == fields[1..] + [f] && (fields + [f])[0] == fields[0];
      OneMoreField(t, fields[1..], f, KgenStart(fields[0], offset) + fields[0].kgenSize.value);
    }
  }

  /** What may be cached for field `i`: its index, which depends only on the fields up to it. */
  predicate Cacheable(t: Target, s: KStruct, i: nat, index: nat)
    requires ValidTarget(t)
  {
    && i < |s.fields| && AllResolved(s.fields[..i + 1])
    && index == ElementIndex(t, s.fields[..i + 1], 0, i)
  }

  lemma {:induction false} IndexOfPrefix(t: Target, fields: seq<Field>, offset: nat, i: nat)
    requires ValidTarget(t) && AllResolved(fields) && i < |fields|
    ensures ElementIndex(t, fields[..i + 1], offset, i) == ElementIndex(t, fields, offset, i)
    decreases |fields|
  {
    if i > 0 {
      hide ValidTarget, Elements, KgenStart;
      assert fields[..i + 1][1..] == fields[1..][..i];
      IndexOfPrefix(t, fields[1..], KgenStart(fields[0], offset) + fields[0].kgenSize.value, i - 1);
    }
  }

  /** A cached index names the element that is the field, whatever follows it; where fields land, at its KGEN offset. */
  lemma CachedIndexNamesField(t: Target, s: KStruct, i: nat, index: nat, extra: seq<Type>)
    requires ValidTarget(t) && UnionLowering.ByteAligned(t) && Cacheable(t, s, i, index) && AllResolved(s.fields)
    ensures var body := AllElements(t, s.fields, 0) + extra;
            && index < |body| && body[index] == s.fields[i].llvm.value
            && (LandsFrom(t, s.fields, 0, 0) ==> LlvmOffset(t, body, 0, index) == KgenOffset(s.fields, 0, i))
  {
    hide AllElements, ElementIndex, LlvmOffset, KgenOffset, LandsFrom;
    IndexOfPrefix(t, s.fields, 0, i);
    IndexNamesElement(t, s.fields, 0, extra, i);
    if LandsFrom(t, s.fields, 0, 0) {
      FieldsLandOnKgenOffsets(t, s.fields, 0, 0, extra, i);
    }
  }

  class Converter {
    const t: Target
    var structFieldIndexCache: map<(KStruct, nat), nat>

    ghost predicate Valid()
      reads this
    {
      ValidTarget(t) && forall k <- structFieldIndexCache :: Cacheable(t, k.0, k.1, structFieldIndexCache[k])
    }

    constructor (t: Target)
      requires ValidTarget(t)
      ensures Valid() && this.t == t && structFieldIndexCache == map[]
    {
      this.t, structFieldIndexCache := t, map[];
    }

    /** Emit one field, after the elements of the fields before it, and cache its index. */
    method ConvertField(s: KStruct, i: nat, before: seq<Type>, offset: nat) returns (llvmTypes: seq<Type>, next: nat)
      requires Valid() && i < |s.fields| && AllResolved(s.fields[..i]) && Resolved(s.fields[i])
      requires before == AllElements(t, s.fields[..i], 0) && offset == KgenEnd(s.fields[..i], 0)
      modifies this
      ensures Valid() && (s, i) in structFieldIndexCache
      ensures forall k <- old(structFieldIndexCache) :: k in structFieldIndexCache
      ensures AllResolved(s.fields[..i + 1])
      ensures llvmTypes == AllElements(t, s.fields[..i + 1], 0) && next == KgenEnd(s.fields[..i + 1], 0)
    {
      hide ValidTarget, AllElements, KgenEnd, ElementIndex, AlignTo;
      var f := s.fields[i];
      assert s.fields[..i + 1] == s.fields[..i] + [f];
      OneMoreField(t, s.fields[..i], f, 0);
      var kgenOffset := AlignTo(offset, f.kgenAlign.value);
      var align := ComputeAlign(t, f.llvm.value);
      PositiveAlign(t, f.llvm.value);
      llvmTypes := before;
      if kgenOffset > AlignTo(offset, align.0) {
        llvmTypes := llvmTypes + [Bytes(kgenOffset - offset)];
      }
      if (s, i) !in structFieldIndexCache {
        structFieldIndexCache := structFieldIndexCache[(s, i) := |llvmTypes|];
      } else {
        assert structFieldIndexCache[(s, i)] == |llvmTypes|;
      }
      llvmTypes := llvmTypes + [f.llvm.value];
      next := kgenOffset + f.kgenSize.value;
    }

    /**
     Convert a struct.  Conversion succeeds when everything about it is resolved; what is in the
     cache afterwards is right for every struct ever converted, and holds every field of this one.
     */
    method Convert(s: KStruct) returns (r: Option<Type>)
      requires Valid() && forall f <- s.fields :: f.kgenAlign.Some? ==> f.kgenAlign.value >= 1
      requires s.totalAlign.Some? ==> s.totalAlign.value >= 1
      modifies this
      ensures Valid() && forall k <- old(structFieldIndexCache) :: k in structFieldIndexCache
      ensures r.Some? <==> AllResolved(s.fields) && s.totalAlign.Some?
      ensures r.Some? ==>
                && r.value == Closed(t, AllElements(t, s.fields, 0), KgenEnd(s.fields, 0), s.totalAlign.value)
                && forall i: nat :: i < |s.fields| ==> (s, i) in structFieldIndexCache
    {
      hide ValidTarget, AllElements, KgenEnd, ElementIndex, Closed, AlignTo, Cacheable;
      var llvmTypes, offset := [], 0;
      NoFields(t);
      for i := 0 to |s.fields|
        invariant Valid() && forall k <- old(structFieldIndexCache) :: k in structFieldIndexCache
        invariant AllResolved(s.fields[..i])
        invariant llvmTypes == AllElements(t, s.fields[..i], 0) && offset == KgenEnd(s.fields[..i], 0)
        invariant forall j: nat :: j < i ==> (s, j) in structFieldIndexCache
      {
        if !Resolved(s.fields[i]) {
          return None;
        }
        assert s.fields[..i + 1] == s.fields[..i] + [s.fields[i]];
        llvmTypes, offset := ConvertField(s, i, llvmTypes, offset);
      }
      assert s.fields[..|s.fields|] == s.fields;
      if s.totalAlign.None? {
        return None;
      }
      var have := ComputeAlign(t, Struct(llvmTypes));
      PositiveAlign(t, Struct(llvmTypes));
      var kgenOffset := AlignTo(offset, s.totalAlign.value);
      ClosedIs(t, llvmTypes, offset, s.totalAlign.value);
      if kgenOffset > AlignTo(offset, have.0) {
        llvmTypes := llvmTypes + [Bytes(kgenOffset - offset)];
      }
      r := Some(Struct(llvmTypes));
    }
  }

  lemma NoFields(t: Target)
    requires ValidTarget(t)
    ensures AllElements(t, [], 0) == [] && KgenEnd([], 0) == 0
  {
  }

  lemma ClosedIs(t: Target, body: seq<Type>, offset: nat, totalAlign: nat)
    requires ValidTarget(t) && totalAlign >= 1 && Align(t, Struct(body)) >= 1
    ensures var kgen := AlignTo(offset, totalAlign);
            Closed(t, body, offset, totalAlign) ==
            Struct(if kgen > AlignTo(offset, Align(t, Struct(body))) then body + [Bytes(kgen - offset)] else body)
  {
  }
}
