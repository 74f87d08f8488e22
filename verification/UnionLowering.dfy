/**
 Lowering a union to `{repr, [tail x i8]}`: how the representative is chosen, how large the
 struct becomes, exactly when the packed value of a member fits its storage words, and where
 its leaves then are in memory.
 */
module UnionLowering {
  import opened Options
  import opened Powers
  import opened Bits
  import opened Alignment
  import opened DataLayout
  import opened VariantPacker
  import opened VariantLayout
  import opened TypedVariant

  /** A member's lowered type, and its alloc size in KGEN's own layout where that knows the type. */
  datatype Member = Member(llvm: Type, kgenSize: Option<nat>)

  function MemberSize(t: Target, m: Member): nat
    requires ValidTarget(t)
  {
    if m.kgenSize.Some? then Max(AllocSize(t, m.llvm), m.kgenSize.value) else AllocSize(t, m.llvm)
  }

  /** The size of the widest member. */
  predicate IsPayload(t: Target, members: seq<Member>, size: nat)
    requires ValidTarget(t)
  {
    && (forall m <- members :: MemberSize(t, m) <= size)
    && (size == 0 || exists m <- members :: MemberSize(t, m) == size)
  }

  method PayloadSize(t: Target, members: seq<Member>) returns (size: nat)
    requires ValidTarget(t)
    ensures IsPayload(t, members, size)
  {
    size := 0;
    for i := 0 to |members|
      invariant forall j :: 0 <= j < i ==> MemberSize(t, members[j]) <= size
      invariant size == 0 || exists m <- members :: MemberSize(t, m) == size
    {
      var bits := ComputeSize(t, members[i].llvm);
      var align := ComputeAlign(t, members[i].llvm);
      AllocUnfolds(t, members[i].llvm);
      var memberSize := AlignTo(BytesFor(bits), align.0);
      if members[i].kgenSize.Some? {
        memberSize := Max(memberSize, members[i].kgenSize.value);
      }
      assert memberSize == MemberSize(t, members[i]) && members[i] in members;
      size := Max(size, memberSize);
    }
  }

  /** The type's value fills its own storage. */
  predicate IsSafe(t: Target, ty: Type)
    requires ValidTarget(t)
  {
    SizeInBits(t, ty) == 8 * StoreSize(t, ty)
  }

  /** A member that offers a representative: its most aligned leaf exists and fills its storage. */
  predicate Offers(t: Target, m: Member, align: nat, leaf: Type)
    requires ValidTarget(t)
  {
    AlignAndType(t, m.llvm) == (align, Some(leaf)) && IsSafe(t, leaf)
  }

  /** The last of the most aligned offers, or i8 when nobody offers. */
  ghost predicate BestOffer(t: Target, members: seq<Member>, repr: Type)
    requires ValidTarget(t)
  {
    || (repr == Int(8) && forall j: nat, align: nat, leaf :: j < |members| ==> !Offers(t, members[j], align, leaf))
    || exists i: nat, align: nat :: LastBest(t, members, i, align, repr)
  }

  /** Member `i` offers `repr`; no member offers more, and none after it offers as much. */
  ghost predicate LastBest(t: Target, members: seq<Member>, i: nat, align: nat, repr: Type)
    requires ValidTarget(t)
  {
    && i < |members| && Offers(t, members[i], align, repr)
    && forall j: nat, align': nat, leaf :: j < |members| && Offers(t, members[j], align', leaf) ==>
         align' <= align && (j > i ==> align' < align)
  }

  /** An under-aligned choice is widened to a plain integer, when that integer is aligned enough. */
  function Widened(t: Target, base: Type, trueAlign: Option<nat>): Type {
    if trueAlign.Some? && trueAlign.value > Align(t, base) && Align(t, Int(8 * trueAlign.value)) >= trueAlign.value
    then Int(8 * trueAlign.value) else base
  }

  method ReprType(t: Target, members: seq<Member>, trueAlign: Option<nat>) returns (repr: Type, base: Type)
    requires ValidTarget(t)
    ensures BestOffer(t, members, base) && repr == Widened(t, base, trueAlign)
    ensures trueAlign.None? || trueAlign.value <= Align(t, base) ==> repr == base
    ensures trueAlign.Some? && trueAlign.value > Align(t, base) ==>
              var wide := Int(8 * trueAlign.value); repr == if Align(t, wide) >= trueAlign.value then wide else base
  {
    hide SizeInBits;
    var best: (nat, Option<Type>) := (1, None);
    ghost var from := 0;
    for i := 0 to |members|
      invariant forall j: nat, align: nat, leaf :: j < i && Offers(t, members[j], align, leaf) ==>
                  best.1.Some? && align <= best.0 && (j > from ==> align < best.0)
      invariant best.1.Some? ==> from < |members| && Offers(t, members[from], best.0, best.1.value)
      invariant best.1.None? ==> best.0 == 1
    {
      var cur := ComputeAlign(t, members[i].llvm);
      PositiveAlign(t, members[i].llvm);
      if cur.1.Some? {
        var bits := ComputeSize(t, cur.1.value);
        if bits == 8 * BytesFor(bits) && cur.0 >= best.0 {
          best, from := cur, i;
        }
      }
    }
    repr := if best.1.Some? then best.1.value else Int(8);
    base := repr;
    if best.1.Some? {
      assert LastBest(t, members, from, best.0, repr);
    }
    if trueAlign.Some? {
      var have := ComputeAlign(t, repr);
      var wide := ComputeAlign(t, Int(8 * trueAlign.value));
      if trueAlign.value > have.0 && wide.0 >= trueAlign.value {
        repr := Int(8 * trueAlign.value);
      }
    }
  }

  // ----- the lowered struct -----

  function Lowered(repr: Type, tail: nat): Type {
    Struct(if tail == 0 then [repr] else [repr, Arr(tail, Int(8))])
  }

  /** Bytes are one byte aligned. */
  predicate ByteAligned(t: Target) { t.intAlign(8) == 1 }

  lemma ByteArray(t: Target, n: nat)
    requires ValidTarget(t) && ByteAligned(t)
    ensures Align(t, Arr(n, Int(8))) == 1 && AllocSize(t, Arr(n, Int(8))) == n
  {
    var ty := Arr(n, Int(8));
    assert SizeInBits(t, Int(8)) == 8 && StoreSize(t, Int(8)) == 1;
    assert SizeInBits(t, ty) == n * 1 * CHAR_BIT;
    hide SizeInBits, AllocSize;
    AllocUnfolds(t, ty);
  }

  lemma AlignToNested(x: nat, a: nat, b: nat)
    requires IsPow2(a) && IsPow2(b) && a <= b
    ensures AlignTo(AlignTo(x, a), b) == AlignTo(x, b)
  {
    AlignedToSmaller(AlignTo(x, b), a, b);
    AlignToLeast(x, a, AlignTo(x, b));
    AlignToLeast(AlignTo(x, a), b, AlignTo(x, b));
    AlignToMonotone(x, AlignTo(x, a), b);
  }

  /** The alignment of the lowered struct. */
  function UnionAlign(t: Target, repr: Type): nat { Max(Align(t, repr), t.structAlign) }

  lemma LoweredEnd(t: Target, repr: Type, tail: nat)
    requires ValidTarget(t) && ByteAligned(t)
    ensures var fields := Lowered(repr, tail).fields;
            && StructEnd(t, fields, 0) == AllocSize(t, repr) + tail
            && Strictest(t, fields, (1, None)).0 == Align(t, repr)
  {
    PositiveAlign(t, repr);
    ByteArray(t, tail);
    hide SizeInBits, AllocSize, ValidTarget, AlignAndType;
    var bytes, a := Arr(tail, Int(8)), AllocSize(t, repr);
    StartAt(t, repr, 0);
    StartAt(t, bytes, a);
    if tail == 0 {
      EndOfOne(t, repr);
    } else {
      EndOfTwo(t, repr, bytes);
    }
  }

  lemma StartAt(t: Target, f: Type, size: nat)
    requires ValidTarget(t) && (size == 0 || Align(t, f) == 1)
    ensures FieldStart(t, f, size) == size
  {
    PositiveAlign(t, f);
  }

  lemma EndOfOne(t: Target, f: Type)
    requires ValidTarget(t) && FieldStart(t, f, 0) == 0 && Align(t, f) >= 1
    ensures StructEnd(t, [f], 0) == AllocSize(t, f)
    ensures Strictest(t, [f], (1, None)) == AlignAndType(t, f)
  {
    hide AllocSize, FieldStart, AlignAndType;
    assert [f][1..] == [];
  }

  lemma EndOfTwo(t: Target, f: Type, g: Type)
    requires ValidTarget(t) && FieldStart(t, f, 0) == 0 && Align(t, f) >= 1 && Align(t, g) == 1
    requires FieldStart(t, g, AllocSize(t, f)) == AllocSize(t, f)
    ensures StructEnd(t, [f, g], 0) == AllocSize(t, f) + AllocSize(t, g)
    ensures Strictest(t, [f, g], (1, None)).0 == Align(t, f)
  {
    hide AllocSize, FieldStart, AlignAndType;
    assert [f, g][1..] == [g] && [g][1..] == [];
    assert Strictest(t, [f, g], (1, None)) == Strictest(t, [g], AlignAndType(t, f));
    assert Strictest(t, [g], AlignAndType(t, f)) ==
           Strictest(t, [], if Align(t, g) >= Align(t, f) then AlignAndType(t, g) else AlignAndType(t, f));
    assert StructEnd(t, [f, g], 0) == StructEnd(t, [g], AllocSize(t, f));
  }

  /** The struct is the payload rounded up to the representative's alignment. */
  lemma LoweredAllocSize(t: Target, repr: Type, payload: nat)
    requires ValidTarget(t) && ByteAligned(t) && AllocSize(t, repr) <= payload && UnionAlign(t, repr) >= 1
    ensures AllocSize(t, Lowered(repr, payload - AllocSize(t, repr))) == AlignTo(payload, UnionAlign(t, repr))
  {
    var tail := payload - AllocSize(t, repr);
    var ty := Lowered(repr, tail);
    LoweredEnd(t, repr, tail);
    AlignIsPow2(t, repr);
    var size := AlignTo(payload, Align(t, repr));
    LoweredBits(t, repr, tail);
    hide SizeInBits, AllocSize, Strictest, StructEnd, Lowered;
    AllocUnfolds(t, ty);
    BytesForWhole(size);
    AlignToNested(payload, Align(t, repr), UnionAlign(t, repr));
  }

  lemma LoweredBits(t: Target, repr: Type, tail: nat)
    requires ValidTarget(t) && ByteAligned(t) && Align(t, repr) >= 1
    ensures var ty := Lowered(repr, tail);
            && SizeInBits(t, ty) == 8 * AlignTo(AllocSize(t, repr) + tail, Align(t, repr))
            && Align(t, ty) == UnionAlign(t, repr)
  {
    LoweredEnd(t, repr, tail);
    var ty := Lowered(repr, tail);
    hide AllocSize, StructEnd, Strictest, ValidTarget;
    assert ty.Struct?;
  }

  /** The size assertion of the lowering holds exactly when the alignment divides the payload. */
  lemma SizeAssertionHoldsIff(t: Target, repr: Type, payload: nat)
    requires ValidTarget(t) && ByteAligned(t) && AllocSize(t, repr) <= payload && UnionAlign(t, repr) >= 1
    ensures AllocSize(t, Lowered(repr, payload - AllocSize(t, repr))) == payload <==>
            payload % UnionAlign(t, repr) == 0
  {
    LoweredAllocSize(t, repr, payload);
  }

  // ----- a representative taken from a member fits -----

  /** No array or vector of no elements, whose element would give an alignment but no bytes. */
  predicate NoEmptyArrays(ty: Type) {
    match ty
    case Vec(n, elt) => n >= 1 && NoEmptyArrays(elt)
    case Arr(n, elt) => n >= 1 && NoEmptyArrays(elt)
    case Struct(fields) => forall f <- fields :: NoEmptyArrays(f)
    case _ => true
  }

  ghost predicate WideVectors(t: Target) {
    forall n: nat, bits: nat :: n >= 1 ==> t.vectorBits(n, bits) >= bits
  }

  lemma AllocMonotone(t: Target, a: Type, b: Type)
    requires ValidTarget(t) && Align(t, a) == Align(t, b) && SizeInBits(t, a) <= SizeInBits(t, b)
    ensures AllocSize(t, a) <= AllocSize(t, b)
  {
    hide SizeInBits, AllocSize, AlignAndType;
    AllocUnfolds(t, a);
    AllocUnfolds(t, b);
    AlignToMonotone(BytesFor(SizeInBits(t, a)), BytesFor(SizeInBits(t, b)), Align(t, a));
  }

  lemma ArrayHoldsElement(t: Target, n: nat, elt: Type)
    requires ValidTarget(t) && n >= 1
    ensures AllocSize(t, elt) <= AllocSize(t, Arr(n, elt))
  {
    var s := BytesFor(SizeInBits(t, elt));
    assert n * s * CHAR_BIT >= s * CHAR_BIT by {
      assert n * s >= s by { assert (n - 1) * s >= 0; }
    }
    assert SizeInBits(t, Arr(n, elt)) == n * s * CHAR_BIT;
    assert SizeInBits(t, elt) <= s * CHAR_BIT;
    AllocMonotone(t, elt, Arr(n, elt));
  }

  /** The leaf that gives a type its alignment is no larger than the type. */
  lemma {:induction false} StrictestLeafFits(t: Target, ty: Type)
    requires ValidTarget(t) && WideVectors(t) && NoEmptyArrays(ty) && AlignAndType(t, ty).1.Some?
    ensures AllocSize(t, AlignAndType(t, ty).1.value) <= AllocSize(t, ty)
    decreases ty
  {
    match ty
    case Vec(n, elt) =>
      StrictestLeafFits(t, elt);
      AllocMonotone(t, elt, ty);
    case Arr(n, elt) =>
      StrictestLeafFits(t, elt);
      ArrayHoldsElement(t, n, elt);
    case Struct(fields) =>
      StrictestFieldFits(t, fields, (1, None), 0);
      StructFitsAlloc(t, fields);
    case _ =>
  }

  lemma {:induction false} StrictestFieldFits(t: Target, fields: seq<Type>, best: (nat, Option<Type>), size: nat)
    requires ValidTarget(t) && WideVectors(t) && forall f <- fields :: NoEmptyArrays(f)
    ensures var r := Strictest(t, fields, best).1;
            r == best.1 || (r.Some? ==> AllocSize(t, r.value) <= StructEnd(t, fields, size))
    decreases fields
  {
    if fields != [] {
      var f, cur := fields[0], AlignAndType(t, fields[0]);
      if cur.1.Some? { StrictestLeafFits(t, f); }
      hide AllocSize, SizeInBits, AlignAndType, WideVectors, NoEmptyArrays, FieldStart;
      StrictestFieldFits(t, fields[1..], if cur.0 >= best.0 then cur else best,
                         FieldStart(t, f, size) + AllocSize(t, f));
    }
  }

  lemma MemberRepresentativeFits(t: Target, m: Member, align: nat, leaf: Type, payload: nat)
    requires ValidTarget(t) && WideVectors(t) && NoEmptyArrays(m.llvm)
    requires Offers(t, m, align, leaf) && MemberSize(t, m) <= payload
    ensures AllocSize(t, leaf) <= payload
  {
    StrictestLeafFits(t, m.llvm);
  }

  /** What makes a member's own leaf fit: no empty arrays, and vectors at least as wide as an element. */
  ghost predicate LeavesFit(t: Target, members: seq<Member>) {
    WideVectors(t) && forall m <- members :: NoEmptyArrays(m.llvm)
  }

  /**
   Lower a union: the empty struct for an empty payload, otherwise `{repr, tail}`, unless the representative
   is larger than the payload.  Its alloc size is the payload rounded up to the alignment, so the size
   assertion holds exactly when the alignment divides the payload.  A representative that is a member's leaf
   is never too large without empty arrays; a widened one is, exactly when its alignment exceeds the payload.
   */
  method LowerUnion(t: Target, members: seq<Member>, trueAlign: Option<nat>)
      returns (r: Option<Type>, payload: nat, base: Type)
    requires ValidTarget(t) && ByteAligned(t)
    ensures IsPayload(t, members, payload) && BestOffer(t, members, base)
    ensures payload == 0 ==> r == Some(Struct([]))
    ensures payload > 0 ==> (r.Some? <==> AllocSize(t, Widened(t, base, trueAlign)) <= payload)
    ensures payload > 0 && r.Some? ==>
              var repr := Widened(t, base, trueAlign);
              var align := UnionAlign(t, repr);
              && r.value == Lowered(repr, payload - AllocSize(t, repr))
              && align >= 1 && AllocSize(t, r.value) == AlignTo(payload, align)
              && (AllocSize(t, r.value) == payload <==> payload % align == 0)
    ensures trueAlign.None? || trueAlign.value <= Align(t, base) ==> Widened(t, base, trueAlign) == base
    ensures LeavesFit(t, members) && Widened(t, base, trueAlign) == base ==> r.Some?
    ensures payload > 0 && Widened(t, base, trueAlign) != base ==>
              (r.Some? <==> Align(t, Widened(t, base, trueAlign)) <= payload)
  {
    hide SizeInBits, AllocSize, IsPayload, BestOffer, Widened, LeavesFit, Lowered, UnionAlign;
    hide ValidTarget, AlignAndType;
    payload := PayloadSize(t, members);
    var repr;
    repr, base := ReprType(t, members, trueAlign);
    if payload == 0 {
      return Some(Struct([])), payload, base;
    }
    if LeavesFit(t, members) {
      BestOfferFits(t, members, base, payload);
    }
    if repr != base {
      WidenedAlloc(t, base, trueAlign);
    }
    var bits := ComputeSize(t, repr);
    var align := ComputeAlign(t, repr);
    AllocUnfolds(t, repr);
    var head := AlignTo(BytesFor(bits), align.0);
    if head > payload {
      return None, payload, base;
    }
    PositiveUnionAlign(t, repr);
    LoweredAllocSize(t, repr, payload);
    r := Some(Lowered(repr, payload - head));
  }

  /** A widened representative is as large as it is aligned. */
  lemma WidenedAlloc(t: Target, base: Type, trueAlign: Option<nat>)
    requires ValidTarget(t) && Widened(t, base, trueAlign) != base
    ensures var repr := Widened(t, base, trueAlign); AllocSize(t, repr) == Align(t, repr)
  {
    var a, repr := trueAlign.value, Widened(t, base, trueAlign);
    IntegerBits(t, 8 * a);
    PositiveAlign(t, base);
    hide SizeInBits, AllocSize, AlignAndType, AlignTo;
    AllocUnfolds(t, repr);
    BytesForWhole(a);
    AlignToOne(a, Align(t, repr));
  }

  lemma IntegerBits(t: Target, width: nat)
    requires ValidTarget(t)
    ensures SizeInBits(t, Int(width)) == width
  {
  }

  lemma PositiveUnionAlign(t: Target, repr: Type)
    requires ValidTarget(t)
    ensures UnionAlign(t, repr) >= 1
  {
    PositiveAlign(t, repr);
  }

  /** The representative that the members offer is never larger than the payload. */
  lemma BestOfferFits(t: Target, members: seq<Member>, base: Type, payload: nat)
    requires ValidTarget(t) && ByteAligned(t) && LeavesFit(t, members) && BestOffer(t, members, base)
    requires IsPayload(t, members, payload) && payload >= 1
    ensures AllocSize(t, base) <= payload
  {
    hide MemberSize, NoEmptyArrays, WideVectors, Offers, SizeInBits, AllocSize;
    if i: nat, align: nat :| LastBest(t, members, i, align, base) {
      MemberRepresentativeFits(t, members[i], align, base, payload);
    } else {
      OneByte(t);
    }
  }

  lemma OneByte(t: Target)
    requires ValidTarget(t) && ByteAligned(t)
    ensures AllocSize(t, Int(8)) == 1
  {
    AllocUnfolds(t, Int(8));
  }

  // ----- a member's packed value fits the storage words -----

  /** Widths of the storage words: the representative's bits, then one byte for each tail element. */
  function StorageWidths(t: Target, repr: Type, tail: nat): seq<nat>
    requires ValidTarget(t)
  {
    [SizeInBits(t, repr)] + seq(tail, _ => 8)
  }

  function Total(widths: seq<nat>): nat {
    if widths == [] then 0 else widths[0] + Total(widths[1..])
  }

  lemma {:induction false} ConcatLength(words: seq<Word>, widths: seq<nat>)
    requires |words| == |widths| && forall i :: 0 <= i < |words| ==> |words[i]| == widths[i]
    ensures |Concat(words)| == Total(widths)
    decreases |words|
  {
    if words != [] {
      ConcatLength(words[1..], widths[1..]);
    }
  }

  lemma {:induction false} TotalOfBytes(n: nat)
    ensures Total(seq(n, _ => 8)) == 8 * n
  {
    var s := seq(n, _ => 8);
    if n > 0 {
      assert s[1..] == seq(n - 1, _ => 8);
      TotalOfBytes(n - 1);
    }
  }

  /** The storage is as long as the payload exactly when the representative fills its alloc size. */
  lemma StorageLength(t: Target, repr: Type, payload: nat)
    requires ValidTarget(t) && AllocSize(t, repr) <= payload
    ensures var total := Total(StorageWidths(t, repr, payload - AllocSize(t, repr)));
            && total == 8 * payload - (8 * AllocSize(t, repr) - SizeInBits(t, repr))
            && (total == 8 * payload <==> SizeInBits(t, repr) == 8 * AllocSize(t, repr))
  {
    var tail := payload - AllocSize(t, repr);
    hide SizeInBits, AllocSize;
    TotalOfBytes(tail);
    assert StorageWidths(t, repr, tail)[1..] == seq(tail, _ => 8);
  }

  /**
   A member's values fit the storage if and only if their bits, and the bits by which the representative
   falls short of its alloc size, fit the payload.  It depends on the member's type alone.
   */
  lemma StorageFitsIff(t: Target, repr: Type, payload: nat, ty: Type, value: Value)
    requires ValidTarget(t) && AllocSize(t, repr) <= payload && Typed(t, ty, value)
    ensures Aligned(value)
    ensures var total := Total(StorageWidths(t, repr, payload - AllocSize(t, repr)));
            && (End(value, 0) <= total <==> WalkBits(t, ty) <= total)
            && (End(value, 0) <= total <==>
                WalkBits(t, ty) + (8 * AllocSize(t, repr) - SizeInBits(t, repr)) <= 8 * payload)
  {
    hide SizeInBits, AllocSize, Typed, End, StorageWidths, WalkBits;
    WalkEnds(t, ty, value, 0);
    StorageLength(t, repr, payload);
  }

  /** A representative that fills its alloc size leaves room for every regular member. */
  lemma RegularMemberFits(t: Target, repr: Type, payload: nat, m: Member)
    requires ValidTarget(t) && AllocSize(t, repr) <= payload && MemberSize(t, m) <= payload
    requires SizeInBits(t, repr) == 8 * AllocSize(t, repr) && Regular(t, m.llvm)
    ensures WalkBits(t, m.llvm) <= Total(StorageWidths(t, repr, payload - AllocSize(t, repr)))
  {
    hide SizeInBits, AllocSize, Regular, StorageWidths, WalkBits;
    RegularFits(t, m.llvm);
    StorageLength(t, repr, payload);
  }

  /** And for a boolean vector, of one byte an element to KGEN, although LLVM allocates a bit for each. */
  lemma BoolVectorFits(t: Target, repr: Type, payload: nat, n: nat)
    requires ValidTarget(t) && t.intAlign(1) == 1 && n >= 1
    requires AllocSize(t, repr) <= payload && MemberSize(t, Member(Vec(n, Int(1)), Some(n))) <= payload
    requires SizeInBits(t, repr) == 8 * AllocSize(t, repr)
    ensures WalkBits(t, Vec(n, Int(1))) == 8 * n - 7
    ensures WalkBits(t, Vec(n, Int(1))) <= Total(StorageWidths(t, repr, payload - AllocSize(t, repr)))
  {
    assert WalkBits(t, Int(1)) == 1 && WalkStride(t, Int(1)) == AlignTo(1, 1 * 8) == 8;
    hide SizeInBits, AllocSize, StorageWidths;
    StorageLength(t, repr, payload);
  }

  // ----- the lowered value and its memory -----

  /** A value of the lowered struct: the representative's bits, then the bytes of the tail. */
  datatype Content = Content(head: Word, tail: seq<Word>) {
    function Words(): seq<Word> { [head] + tail }
  }

  predicate ContentOf(t: Target, repr: Type, tail: nat, c: Content)
    requires ValidTarget(t)
  {
    |c.head| == SizeInBits(t, repr) && |c.tail| == tail && forall i :: 0 <= i < tail ==> |c.tail[i]| == 8
  }

  function Known(w: Word): (r: seq<Option<bool>>)
    ensures |r| == |w|
  {
    seq(|w|, i requires 0 <= i < |w| => Some(w[i]))
  }

  /** The bits of the struct in (little-endian) memory; what the representative leaves of its alloc size is unknown. */
  function Memory(t: Target, repr: Type, c: Content): seq<Option<bool>>
    requires ValidTarget(t)
  {
    var gap := 8 * AllocSize(t, repr) - |c.head|;
    Known(c.head) + (if gap > 0 then seq(gap, _ => None) else []) + Known(Concat(c.tail))
  }

  predicate InMemory(memory: seq<Option<bool>>, at: nat, bits: Word) {
    bits == [] || (at + |bits| <= |memory| && memory[at..at + |bits|] == Known(bits))
  }

  lemma MemoryIsStorage(t: Target, repr: Type, c: Content)
    requires ValidTarget(t) && |c.head| == 8 * AllocSize(t, repr)
    ensures Memory(t, repr, c) == Known(Concat(c.Words()))
  {
    hide AllocSize;
    assert c.Words()[1..] == c.tail;
    assert Concat(c.Words()) == c.head + Concat(c.tail);
  }

  lemma KnownPart(storage: Word, p: Placement)
    requires ReadsBack(storage, p)
    ensures InMemory(Known(storage), p.at, p.bits)
  {
    assert Known(storage)[p.at..p.at + |p.bits|] == Known(storage[p.at..p.at + |p.bits|]);
  }

  /** The bits of memory that the representative leaves unused. */
  function Gap(t: Target, repr: Type): nat
    requires ValidTarget(t)
  {
    BitsFitAlloc(t, repr);
    8 * AllocSize(t, repr) - SizeInBits(t, repr)
  }

  /** Storage bits `at..at + bits` are bits `m..m + bits` of memory: in the head, behind the gap, or without a gap. */
  predicate MovedTo(t: Target, repr: Type, at: nat, bits: nat, m: nat)
    requires ValidTarget(t)
  {
    || bits == 0
    || (m == at && (Gap(t, repr) == 0 || at + bits <= SizeInBits(t, repr)))
    || (m == at + Gap(t, repr) && at >= SizeInBits(t, repr))
  }

  /** Every leaf is at its place in the storage words, and in memory wherever that place is moved to. */
  ghost predicate Stored(t: Target, repr: Type, c: Content, value: Value)
    requires ValidTarget(t) && Aligned(value)
  {
    forall p <- Leaves(value, 0) ::
      && ReadsBack(Concat(c.Words()), p)
      && forall m: nat :: MovedTo(t, repr, p.at, |p.bits|, m) ==> InMemory(Memory(t, repr, c), m, p.bits)
  }

  /** Put a value into zeroed storage with room for it, and make the struct of it. */
  method MaterializeUnion(t: Target, repr: Type, tail: nat, value: Value) returns (content: Content)
    requires ValidTarget(t) && Aligned(value) && End(value, 0) <= Total(StorageWidths(t, repr, tail))
    ensures ContentOf(t, repr, tail, content) && Holds(content.Words(), Serialized(value, []))
    ensures Stored(t, repr, content, value)
  {
    hide Serialized, Leaves, End, Holds, SizeInBits, Stored;
    var bits := ComputeSize(t, repr);
    var widths := [bits] + seq(tail, _ => 8);
    assert widths == StorageWidths(t, repr, tail);
    var packer := new Packer(widths);
    ConcatLength(packer.words, widths);
    LeavesReadBack(value, []);
    ghost var before := packer.words;
    packer.Walk(value, []);
    var words := packer.words;
    assert |words| == 1 + tail && |words[0]| == |before[0]| == widths[0];
    assert forall i :: 0 <= i < tail ==> |words[1..][i]| == |before[1 + i]| == widths[1 + i];
    content := Content(words[0], words[1..]);
    assert content.Words() == words;
    ContentIsStored(t, repr, content, value);
  }

  lemma ContentIsStored(t: Target, repr: Type, c: Content, value: Value)
    requires ValidTarget(t) && Aligned(value) && |c.head| == SizeInBits(t, repr)
    requires Holds(c.Words(), Serialized(value, []))
    ensures Stored(t, repr, c, value)
  {
    hide Serialized, Leaves, Holds, SizeInBits, AllocSize, Memory, InMemory, ReadsBack, MovedTo;
    HeldReadsBack(c.Words(), value);
    forall p, m: nat | p in Leaves(value, 0) && MovedTo(t, repr, p.at, |p.bits|, m)
      ensures InMemory(Memory(t, repr, c), m, p.bits)
    {
      PartInMemory(t, repr, c, p, m);
    }
  }

  lemma PartInMemory(t: Target, repr: Type, c: Content, p: Placement, m: nat)
    requires ValidTarget(t) && |c.head| == SizeInBits(t, repr) && ReadsBack(Concat(c.Words()), p)
    requires MovedTo(t, repr, p.at, |p.bits|, m)
    ensures InMemory(Memory(t, repr, c), m, p.bits)
  {
    hide SizeInBits, AllocSize, Memory, ReadsBack;
    if p.bits != [] {
      if Gap(t, repr) == 0 {
        MemoryIsStorage(t, repr, c);
        KnownPart(Concat(c.Words()), p);
      } else if p.at >= SizeInBits(t, repr) {
        TailPart(t, repr, c, p);
      } else {
        HeadPart(t, repr, c, p);
      }
    }
  }

  lemma HeadPart(t: Target, repr: Type, c: Content, p: Placement)
    requires ValidTarget(t) && ReadsBack(Concat(c.Words()), p) && p.at + |p.bits| <= |c.head|
    ensures InMemory(Memory(t, repr, c), p.at, p.bits)
  {
    hide AllocSize;
    var all, memory := Concat(c.Words()), Memory(t, repr, c);
    assert c.Words()[1..] == c.tail && all == c.head + Concat(c.tail);
    assert all[p.at..p.at + |p.bits|] == c.head[p.at..p.at + |p.bits|];
    assert memory[p.at..p.at + |p.bits|] == Known(c.head)[p.at..p.at + |p.bits|];
    assert Known(c.head)[p.at..p.at + |p.bits|] == Known(c.head[p.at..p.at + |p.bits|]);
  }

  lemma TailPart(t: Target, repr: Type, c: Content, p: Placement)
    requires ValidTarget(t) && ReadsBack(Concat(c.Words()), p) && p.at >= |c.head| == SizeInBits(t, repr)
    ensures InMemory(Memory(t, repr, c), p.at + Gap(t, repr), p.bits)
  {
    hide AllocSize, SizeInBits;
    var h, n, tail, memory := |c.head|, |p.bits|, Concat(c.tail), Memory(t, repr, c);
    var m, at := p.at + Gap(t, repr), p.at - h;
    assert c.Words()[1..] == c.tail && Concat(c.Words()) == c.head + tail;
    assert (c.head + tail)[p.at..p.at + n] == tail[at..at + n];
    assert memory == memory[..8 * AllocSize(t, repr)] + Known(tail);
    assert memory[m..m + n] == Known(tail)[at..at + n];
    assert Known(tail)[at..at + n] == Known(tail[at..at + n]);
  }

  lemma HeldReadsBack(words: seq<Word>, value: Value)
    requires Aligned(value) && Holds(words, Serialized(value, []))
    ensures forall p <- Leaves(value, 0) :: ReadsBack(Concat(words), p)
  {
    var s := Serialized(value, []);
    LeavesReadBack(value, []);
    hide Serialized, Leaves, Concat;
    forall p | p in Leaves(value, 0)
      ensures ReadsBack(Concat(words), p)
    {
      ReadsBackLater(s, Concat(words), p);
    }
  }
}
