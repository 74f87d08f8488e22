/**
 Sizes, alignments and lowerings in plain numbers, on a 64-bit target with natural alignments.
 */
module LayoutTable {
  import opened Options
  import opened Powers
  import opened Alignment
  import opened DataLayout
  import opened TypedVariant
  import opened UnionLowering
  import opened StructConversion
  import opened LayoutExamples

  /** Vectors take a whole byte for each element. */
  const BYTEWISE: Target := NATURAL.(vectorBits := (n, bits) => n * AlignTo(bits, 8))

  lemma BytewiseIsValid()
    ensures ValidTarget(BYTEWISE)
  {
    NaturalIsValid();
  }

  /** Leaves: bits, bytes, bytes in memory, alignment. */
  predicate IsLeafOf(t: Target, ty: Type, bits: nat, store: nat, alloc: nat, align: nat)
    requires ValidTarget(t)
  {
    && SizeInBits(t, ty) == bits && StoreSize(t, ty) == store && AllocSize(t, ty) == alloc
    && AlignAndType(t, ty) == (align, Some(ty))
  }

  lemma Leaves()
    ensures ValidTarget(NATURAL)
    ensures IsLeafOf(NATURAL, Ptr, 64, 8, 8, 8)
    ensures IsLeafOf(NATURAL, Int(1), 1, 1, 1, 1) && IsLeafOf(NATURAL, Int(8), 8, 1, 1, 1)
    ensures IsLeafOf(NATURAL, Int(24), 24, 3, 4, 4) && IsLeafOf(NATURAL, Int(64), 64, 8, 8, 8)
    ensures IsLeafOf(NATURAL, Float(32), 32, 4, 4, 4) && IsLeafOf(NATURAL, Float(80), 80, 10, 16, 16)
  {
    NaturalIsValid();
    Leaf(Ptr, 64, 8, 8, 8);
    Leaf(Int(1), 1, 1, 1, 1);
    Leaf(Int(8), 8, 1, 1, 1);
    Leaf(Int(24), 24, 3, 4, 4);
    Leaf(Int(64), 64, 8, 8, 8);
    Leaf(Float(32), 32, 4, 4, 4);
    Leaf(Float(80), 80, 10, 16, 16);
  }

  lemma Leaf(ty: Type, bits: nat, store: nat, alloc: nat, align: nat)
    requires ValidTarget(NATURAL) && (ty.Int? || ty.Float? || ty.Ptr?)
    requires bits == SizeInBits(NATURAL, ty) && store == (bits + 7) / 8 && align == Align(NATURAL, ty)
    requires align >= 1 && store <= alloc < store + align && alloc % align == 0
    ensures IsLeafOf(NATURAL, ty, bits, store, alloc, align)
  {
    AllocUnfolds(NATURAL, ty);
    AlignToLeast(store, align, alloc);
    RoundsTo(store, align, alloc);
  }

  /** A vector has the width the target gives it and the alignment of its element; an array strides by store size. */
  lemma Repeated()
    ensures ValidTarget(NATURAL) && ValidTarget(BYTEWISE)
    ensures SizeInBits(NATURAL, Vec(4, Float(32))) == 128
    ensures AlignAndType(NATURAL, Vec(4, Float(32))) == (4, Some(Float(32)))
    ensures SizeInBits(BYTEWISE, Vec(6, Int(1))) == 48 && AlignAndType(BYTEWISE, Vec(6, Int(1))) == (1, Some(Int(1)))
    ensures SizeInBits(NATURAL, Arr(3, Int(24))) == 72 && AlignAndType(NATURAL, Arr(3, Int(24))) == (4, Some(Int(24)))
    ensures AllocSize(NATURAL, Arr(3, Int(24))) == 12
  {
    NaturalIsValid();
    BytewiseIsValid();
    AllocUnfolds(NATURAL, Arr(3, Int(24)));
  }

  /** A struct of two fields: where the second starts, where it ends, and the whole. */
  lemma PairLayout(t: Target, a: Type, b: Type, second: nat, align: nat, bytes: nat)
    requires ValidTarget(t) && t.structAlign == 1
    requires second == FieldStart(t, b, AllocSize(t, a)) && align == Max(Align(t, a), Align(t, b))
    requires align >= 1 && second + AllocSize(t, b) <= bytes < second + AllocSize(t, b) + align && bytes % align == 0
    ensures SizeInBits(t, Struct([a, b])) == 8 * bytes && Align(t, Struct([a, b])) == align
    ensures AllocSize(t, Struct([a, b])) == bytes
  {
    var fields, end := [a, b], second + AllocSize(t, b);
    PairEnds(t, a, b);
    assert SizeInBits(t, Struct(fields)) == AlignTo(StructEnd(t, fields, 0), Strictest(t, fields, (1, None)).0) * 8;
    hide SizeInBits, AllocSize, StructEnd, Strictest, AlignTo;
    RoundsTo(end, align, bytes);
    StructAlloc(t, fields);
  }

  lemma PairEnds(t: Target, a: Type, b: Type)
    requires ValidTarget(t) && t.structAlign == 1
    ensures StructEnd(t, [a, b], 0) == FieldStart(t, b, AllocSize(t, a)) + AllocSize(t, b)
    ensures var align := Max(Align(t, a), Align(t, b));
            Strictest(t, [a, b], (1, None)).0 == align && Align(t, Struct([a, b])) == align >= 1
  {
    PositiveAlign(t, a);
    PositiveAlign(t, b);
    StartAt(t, a, 0);
    hide AllocSize, FieldStart, ValidTarget;
    assert [a, b][1..] == [b] && [b][1..] == [];
    assert StructEnd(t, [a, b], 0) == StructEnd(t, [b], AllocSize(t, a));
    assert Strictest(t, [a, b], (1, None)) == Strictest(t, [b], AlignAndType(t, a));
    assert Strictest(t, [b], AlignAndType(t, a)) ==
           if Align(t, b) >= Align(t, a) then AlignAndType(t, b) else AlignAndType(t, a);
  }

  /** A pointer and a byte: 128 bits, 8-aligned; a byte and a word: 8 bytes, the word at offset 4. */
  method PairsInNumbers() returns (pointerBits: nat, pointerAlign: nat, wordBits: nat, wordAlign: nat)
    ensures pointerBits == 128 && pointerAlign == 8 && wordBits == 64 && wordAlign == 4
  {
    PairSizes();
    pointerBits := ComputeSize(NATURAL, Struct([Ptr, Int(8)]));
    var a := ComputeAlign(NATURAL, Struct([Ptr, Int(8)]));
    wordBits := ComputeSize(NATURAL, Struct([Int(8), Int(32)]));
    var b := ComputeAlign(NATURAL, Struct([Int(8), Int(32)]));
    pointerAlign, wordAlign := a.0, b.0;
  }

  lemma PairSizes()
    ensures ValidTarget(NATURAL)
    ensures SizeInBits(NATURAL, Struct([Ptr, Int(8)])) == 128 && Align(NATURAL, Struct([Ptr, Int(8)])) == 8
    ensures SizeInBits(NATURAL, Struct([Int(8), Int(32)])) == 64 && Align(NATURAL, Struct([Int(8), Int(32)])) == 4
  {
    Leaves();
    SmallSizes();
    Starts();
    PairLayout(NATURAL, Ptr, Int(8), 8, 8, 16);
    PairLayout(NATURAL, Int(8), Int(32), 4, 4, 8);
  }

  lemma Starts()
    requires ValidTarget(NATURAL)
    ensures FieldStart(NATURAL, Int(8), 8) == 8 && FieldStart(NATURAL, Int(32), 1) == 4
  {
  }

  /** Of equally aligned fields the last gives the leaf, and a later struct without leaves takes it away. */
  lemma LastOfTheStrictest()
    ensures ValidTarget(NATURAL)
    ensures AlignAndType(NATURAL, Struct([Float(32), Int(32), Int(8)])) == (4, Some(Int(32)))
    ensures AlignAndType(NATURAL, Struct([Int(8), Struct([])])) == (1, None)
  {
    NaturalIsValid();
    SmallSizes();
    StructFollowsLastStrictest(NATURAL, [Float(32), Int(32), Int(8)], 1);
    assert AlignAndType(NATURAL, Struct([])) == (1, None);
    StructFollowsLastStrictest(NATURAL, [Int(8), Struct([])], 1);
  }

  const POINTER_UNION: seq<Member> := [Plainly(Ptr), Plainly(Int(8))]

  /** A pointer or a byte: `{ptr}`, of eight bytes. */
  method PointerUnion() returns (r: Option<Type>, payload: nat)
    ensures r == Some(Struct([Ptr])) && payload == 8
    ensures ValidTarget(NATURAL) && AllocSize(NATURAL, Struct([Ptr])) == 8
  {
    Leaves();
    NaturalIsValid();
    PointerMembers();
    hide Offers, BestOffer, IsPayload, AllocSize, SizeInBits, MemberSize;
    var base;
    r, payload, base := LowerUnion(NATURAL, POINTER_UNION, None);
    PayloadOfTwo(NATURAL, Plainly(Ptr), Plainly(Int(8)), payload);
    BestOfTwo(NATURAL, Plainly(Ptr), Plainly(Int(8)), 8, 1, Ptr, Int(8), base);
    WholePayload();
  }

  lemma PointerMembers()
    ensures ValidTarget(NATURAL)
    ensures Offers(NATURAL, Plainly(Ptr), 8, Ptr) && Offers(NATURAL, Plainly(Int(8)), 1, Int(8))
    ensures MemberSize(NATURAL, Plainly(Ptr)) == 8 && MemberSize(NATURAL, Plainly(Int(8))) == 1
  {
    Leaves();
  }

  lemma WholePayload()
    requires ValidTarget(NATURAL)
    ensures UnionAlign(NATURAL, Ptr) == 8 && Widened(NATURAL, Ptr, None) == Ptr && AlignTo(8, 8) == 8
    ensures Lowered(Ptr, 0) == Struct([Ptr])
  {
  }

  /** A boolean does not fill its byte, so it offers nothing and a byte heads the union. */
  method BoolUnion() returns (r: Option<Type>, payload: nat)
    ensures r == Some(Struct([Int(8)])) && payload == 1
  {
    Leaves();
    NaturalIsValid();
    BoolMember();
    hide Offers, BestOffer, IsPayload, AllocSize, SizeInBits, MemberSize;
    var base;
    r, payload, base := LowerUnion(NATURAL, [Plainly(Int(1))], None);
    BoolChoice(payload, base);
  }

  lemma BoolMember()
    requires ValidTarget(NATURAL) && IsLeafOf(NATURAL, Int(1), 1, 1, 1, 1)
    ensures MemberSize(NATURAL, Plainly(Int(1))) == 1
    ensures forall align: nat, leaf :: !Offers(NATURAL, Plainly(Int(1)), align, leaf)
  {
  }

  lemma BoolChoice(payload: nat, base: Type)
    requires ValidTarget(NATURAL) && MemberSize(NATURAL, Plainly(Int(1))) == 1
    requires forall align: nat, leaf :: !Offers(NATURAL, Plainly(Int(1)), align, leaf)
    requires IsPayload(NATURAL, [Plainly(Int(1))], payload) && BestOffer(NATURAL, [Plainly(Int(1))], base)
    ensures payload == 1 && base == Int(8) && Widened(NATURAL, Int(8), None) == Int(8)
    ensures Lowered(Int(8), 0) == Struct([Int(8)])
  {
    hide Offers, MemberSize, SizeInBits;
    assert Plainly(Int(1)) in [Plainly(Int(1))];
  }

  /** Structs are 8-aligned as a whole. */
  const AGGREGATE: Target := NATURAL.(structAlign := 8)

  /** A struct's own alignment rounds up its alloc size, and not the bits of its value. */
  lemma StructAlignment()
    ensures ValidTarget(AGGREGATE)
    ensures SizeInBits(AGGREGATE, Struct([Int(8)])) == 8 && Align(AGGREGATE, Struct([Int(8)])) == 8
    ensures AllocSize(AGGREGATE, Struct([Int(8)])) == 8
  {
    NaturalIsValid();
    var t := AGGREGATE;
    assert IsPow2(8) by { assert IsPow2(1) && IsPow2(2) && IsPow2(4); }
    AllocUnfolds(t, Int(8));
    PositiveAlign(t, Int(8));
    StartAt(t, Int(8), 0);
    EndOfOne(t, Int(8));
    assert AllocSize(t, Int(8)) == 1;
    assert SizeInBits(t, Struct([Int(8)])) == AlignTo(1, 1) * 8;
    AllocUnfolds(t, Struct([Int(8)]));
    AlignToOne(1, 8);
  }

  /** Elements of an array are a store size apart, those of a vector their own bits. */
  lemma ElementOffsets()
    ensures ValidTarget(NATURAL)
    ensures LayoutOffsets(NATURAL, Arr(3, Int(24)), 0) == [0, 24, 48]
    ensures LayoutOffsets(NATURAL, Arr(2, Int(1)), 0) == [0, 8] && LayoutOffsets(NATURAL, Vec(2, Int(1)), 0) == [0, 1]
  {
    NaturalIsValid();
    var t := NATURAL;
    assert StoreSize(t, Int(24)) == 3 && StoreSize(t, Int(1)) == 1;
    assert RepeatedOffsets(t, Int(24), 1, 48, 24) == [48] + RepeatedOffsets(t, Int(24), 0, 72, 24);
    assert RepeatedOffsets(t, Int(24), 2, 24, 24) == [24] + RepeatedOffsets(t, Int(24), 1, 48, 24);
    assert RepeatedOffsets(t, Int(1), 1, 8, 8) == [8] + RepeatedOffsets(t, Int(1), 0, 16, 8);
    assert RepeatedOffsets(t, Int(1), 1, 1, 1) == [1] + RepeatedOffsets(t, Int(1), 0, 2, 1);
  }

  // ----- struct conversion -----

  /** A word that KGEN aligns to 16 bytes. */
  const SPARSE_WORD: Field := Field(Some(Int(32)), Some(16), Some(4))

  lemma TwoFieldElements(t: Target, f: Field, f': Field)
    requires ValidTarget(t) && Resolved(f) && Resolved(f')
    ensures var next := KgenStart(f, 0) + f.kgenSize.value;
            && AllResolved([f, f']) && AllElements(t, [f, f'], 0) == Elements(t, f, 0) + Elements(t, f', next)
            && KgenEnd([f, f'], 0) == KgenStart(f', next) + f'.kgenSize.value
            && ElementIndex(t, [f, f'], 0, 1) == |Elements(t, f, 0)| + |Elements(t, f', next)| - 1
  {
    hide Elements, KgenStart;
    var next := KgenStart(f, 0) + f.kgenSize.value;
    var end := KgenStart(f', next) + f'.kgenSize.value;
    assert [f, f'][1..] == [f'] && [f'][1..] == [];
    assert AllElements(t, [f'], next) == Elements(t, f', next) + AllElements(t, [], end);
    assert KgenEnd([f'], next) == KgenEnd([], end);
    assert ElementIndex(t, [f, f'], 0, 1) == |Elements(t, f, 0)| + ElementIndex(t, [f'], next, 0);
  }

  lemma ElementsInNumbers()
    ensures ValidTarget(NATURAL)
    ensures KgenStart(BYTE, 0) == 0 && KgenStart(WORD, 1) == 4 && KgenStart(SPARSE_WORD, 1) == 16
    ensures Elements(NATURAL, BYTE, 0) == [Int(8)] && Elements(NATURAL, WORD, 1) == [Int(32)]
    ensures Elements(NATURAL, SPARSE_WORD, 1) == [Arr(15, Int(8)), Int(32)]
  {
    NaturalIsValid();
    SmallSizes();
  }

  /** LLVM pads a word after a byte by itself; padding for KGEN's wider alignment is spelled out, the tail's too. */
  method ConvertInNumbers() returns (plain: Option<Type>, sparse: Option<Type>)
    ensures plain == Some(Struct([Int(8), Int(32)]))
    ensures sparse == Some(Struct([Int(8), Arr(15, Int(8)), Int(32), Arr(12, Int(8))]))
  {
    NaturalIsValid();
    ElementsInNumbers();
    TwoFieldElements(NATURAL, BYTE, WORD);
    TwoFieldElements(NATURAL, BYTE, SPARSE_WORD);
    ClosedInNumbers();
    hide AllElements, KgenEnd, Closed, Elements, KgenStart;
    var converter := new Converter(NATURAL);
    plain := converter.Convert(KStruct([BYTE, WORD], Some(4)));
    sparse := converter.Convert(KStruct([BYTE, SPARSE_WORD], Some(16)));
  }

  lemma ClosedInNumbers()
    ensures ValidTarget(NATURAL)
    ensures Closed(NATURAL, [Int(8)] + [Int(32)], 8, 4) == Struct([Int(8), Int(32)])
    ensures Closed(NATURAL, [Int(8)] + [Arr(15, Int(8)), Int(32)], 20, 16) ==
            Struct([Int(8), Arr(15, Int(8)), Int(32), Arr(12, Int(8))])
  {
    NaturalIsValid();
    SmallSizes();
    var plain, sparse := [Int(8)] + [Int(32)], [Int(8)] + [Arr(15, Int(8)), Int(32)];
    assert plain == [Int(8), Int(32)] && sparse == [Int(8), Arr(15, Int(8)), Int(32)];
    assert Align(NATURAL, Arr(15, Int(8))) == 1;
    StructFollowsLastStrictest(NATURAL, plain, 1);
    StructFollowsLastStrictest(NATURAL, sparse, 2);
    assert Align(NATURAL, Struct(plain)) == 4 && Align(NATURAL, Struct(sparse)) == 4;
    hide AlignAndType;
    assert AlignTo(20, 16) == 32 && AlignTo(20, 4) == 20 && AlignTo(8, 4) == 8;
    assert sparse + [Bytes(12)] == [Int(8), Arr(15, Int(8)), Int(32), Arr(12, Int(8))];
  }
}
