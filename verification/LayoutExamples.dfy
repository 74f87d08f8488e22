/**
 Concrete inputs on which the layout conditions fail, and what the code then does.
 */
module LayoutExamples {
  import opened Options
  import opened Powers
  import opened Bits
  import opened Alignment
  import opened DataLayout
  import opened VariantPacker
  import opened VariantLayout
  import opened TypedVariant
  import opened UnionLowering
  import opened StructConversion

  /** A 64-bit target with natural alignments, 16 bytes for an 80-bit float. */
  const NATURAL: Target := Target(
    w => if w <= 8 then 1 else if w <= 16 then 2 else if w <= 32 then 4 else 8,
    w => if w <= 16 then 2 else if w <= 32 then 4 else if w <= 64 then 8 else 16,
    64, 8, 1,
    (n, bits) => n * bits)

  lemma NaturalIsValid()
    ensures ValidTarget(NATURAL) && ByteAligned(NATURAL)
  {
    assert IsPow2(1) && IsPow2(2) && IsPow2(4) && IsPow2(8);
    assert 16 / 2 == 8 && IsPow2(16);
  }

  // ----- tail padding inside: the walk packs tighter than the layout -----

  const INNER: Type := Struct([Int(32), Int(8)])
  const OUTER: Type := Struct([INNER, Int(8)])

  function Sample(a: Word, b: Word, c: Word): Value {
    Aggregate(4, [Aggregate(4, [Leaf(4, a), Leaf(1, b)]), Leaf(1, c)])
  }

  /** The last byte goes to bit 40, where the inner struct's padding is; the layout has it at bit 64. */
  lemma TailPaddingMovesLeaves(a: Word, b: Word, c: Word)
    requires |a| == 32 && |b| == 8 && |c| == 8
    ensures ValidTarget(NATURAL) && Typed(NATURAL, OUTER, Sample(a, b, c)) && Aligned(Sample(a, b, c))
    ensures Starts(Leaves(Sample(a, b, c), 0)) == [0, 32, 40]
    ensures LayoutOffsets(NATURAL, OUTER, 0) == [0, 32, 64]
    ensures !Absorbed(NATURAL, OUTER)
  {
    NaturalIsValid();
    InnerLayout();
    OuterLayout();
    OuterTyped(a, b, c);
    OuterLeaves(a, b, c);
    assert Plain(NATURAL, INNER) && Plain(NATURAL, OUTER);
    hide *;
    WalkMatchesLayoutIff(NATURAL, OUTER, Sample(a, b, c), 0);
    SampleAlign(a, b, c);
  }

  lemma SampleAlign(a: Word, b: Word, c: Word)
    ensures Sample(a, b, c).align == 4 && AlignTo(0, 4 * 8) == 0
  {
  }

  lemma InnerLayout()
    ensures ValidTarget(NATURAL)
    ensures Align(NATURAL, INNER) == 4 && AllocSize(NATURAL, INNER) == 8
    ensures LayoutOffsets(NATURAL, INNER, 0) == [0, 32]
    ensures StructEnd(NATURAL, INNER.fields, 0) == 5
  {
    NaturalIsValid();
    var t, fields := NATURAL, INNER.fields;
    assert fields[1..] == [Int(8)] && [Int(8)][1..] == [];
    assert AllocSize(t, Int(32)) == 4 && AllocSize(t, Int(8)) == 1;
    assert Strictest(t, fields, (1, None)) == Strictest(t, [Int(8)], (4, Some(Int(32))));
    assert Strictest(t, [Int(8)], (4, Some(Int(32)))) == (4, Some(Int(32)));
    assert StructEnd(t, fields, 0) == StructEnd(t, [Int(8)], 4);
    assert StructEnd(t, [Int(8)], 4) == StructEnd(t, [], 5);
    assert SizeInBits(t, INNER) == AlignTo(5, 4) * CHAR_BIT == 64;
    AllocUnfolds(t, INNER);
    assert FieldOffsets(t, fields, 0, 0) == LayoutOffsets(t, Int(32), 0) + FieldOffsets(t, [Int(8)], 0, 4);
    assert FieldOffsets(t, [Int(8)], 0, 4) == LayoutOffsets(t, Int(8), 32) + FieldOffsets(t, [], 0, 5);
  }

  lemma OuterLayout()
    ensures ValidTarget(NATURAL)
    ensures Align(NATURAL, OUTER) == 4
    ensures LayoutOffsets(NATURAL, OUTER, 0) == [0, 32, 64]
  {
    NaturalIsValid();
    InnerLayout();
    var t, fields := NATURAL, OUTER.fields;
    assert fields[1..] == [Int(8)] && [Int(8)][1..] == [];
    assert AllocSize(t, Int(8)) == 1;
    assert Strictest(t, fields, (1, None)) == Strictest(t, [Int(8)], AlignAndType(t, INNER));
    assert Strictest(t, [Int(8)], AlignAndType(t, INNER)) == AlignAndType(t, INNER);
    assert FieldStart(t, INNER, 0) == 0 && FieldStart(t, Int(8), 8) == 8;
    assert FieldOffsets(t, fields, 0, 0) == LayoutOffsets(t, INNER, 0) + FieldOffsets(t, [Int(8)], 0, 8);
    assert FieldOffsets(t, [Int(8)], 0, 8) == LayoutOffsets(t, Int(8), 64) + FieldOffsets(t, [], 0, 9);
  }

  lemma OuterTyped(a: Word, b: Word, c: Word)
    requires |a| == 32 && |b| == 8 && |c| == 8
    ensures ValidTarget(NATURAL) && Typed(NATURAL, OUTER, Sample(a, b, c))
  {
    NaturalIsValid();
    InnerLayout();
    OuterLayout();
    var inner := Aggregate(4, [Leaf(4, a), Leaf(1, b)]);
    assert Typed(NATURAL, Int(32), Leaf(4, a));
    assert Typed(NATURAL, Int(8), Leaf(1, b)) && Typed(NATURAL, Int(8), Leaf(1, c));
    assert Typed(NATURAL, INNER, inner);
  }

  lemma OuterLeaves(a: Word, b: Word, c: Word)
    requires |a| == 32 && |b| == 8 && |c| == 8
    ensures Aligned(Sample(a, b, c)) && Starts(Leaves(Sample(a, b, c), 0)) == [0, 32, 40]
  {
    var la, lb, lc := Leaf(4, a), Leaf(1, b), Leaf(1, c);
    var inner := Aggregate(4, [la, lb]);
    assert [la, lb][1..] == [lb] && [lb][1..] == [] && [inner, lc][1..] == [lc] && [lc][1..] == [];
    assert LeavesAll([la, lb], 0) == [Placement(0, a)] + LeavesAll([lb], 32);
    assert LeavesAll([lb], 32) == [Placement(32, b)] + LeavesAll([], 40);
    assert EndAll([la, lb], 0) == EndAll([lb], 32) == 40;
    assert LeavesAll([inner, lc], 0) == Leaves(inner, 0) + LeavesAll([lc], 40);
    assert LeavesAll([lc], 40) == [Placement(40, c)] + LeavesAll([], 48);
  }

  // ----- a field that KGEN packs tighter than LLVM can -----

  const BYTE: Field := Field(Some(Int(8)), Some(1), Some(1))
  const PACKED_WORD: Field := Field(Some(Int(32)), Some(1), Some(4))

  /** A 32-bit field at offset 1 gets no padding, and LLVM moves it to offset 4. */
  lemma PackedFieldMoves()
    ensures ValidTarget(NATURAL) && AllResolved([BYTE, PACKED_WORD]) && AllAgree(NATURAL, [BYTE, PACKED_WORD])
    ensures AllElements(NATURAL, [BYTE, PACKED_WORD], 0) == [Int(8), Int(32)]
    ensures KgenOffset([BYTE, PACKED_WORD], 0, 1) == 1 && LlvmOffset(NATURAL, [Int(8), Int(32)], 0, 1) == 4
    ensures !LandsFrom(NATURAL, [BYTE, PACKED_WORD], 0, 0)
  {
    NaturalIsValid();
    SmallSizes();
    TwoFields(BYTE, PACKED_WORD, 0, 1, 0, 4);
  }

  lemma SmallSizes()
    ensures ValidTarget(NATURAL)
    ensures AllocSize(NATURAL, Int(8)) == 1 && AllocSize(NATURAL, Int(32)) == 4
    ensures AllocSize(NATURAL, Vec(4, Int(1))) == 1
    ensures Align(NATURAL, Int(8)) == 1 && Align(NATURAL, Int(32)) == 4 && Align(NATURAL, Vec(4, Int(1))) == 1
  {
    NaturalIsValid();
    AllocUnfolds(NATURAL, Int(8));
    AllocUnfolds(NATURAL, Int(32));
    AllocUnfolds(NATURAL, Vec(4, Int(1)));
  }

  /** Two fields without padding: KGEN has them at `k` and `k'`, LLVM at `l` and `l'`. */
  lemma TwoFields(f: Field, f': Field, k: nat, k': nat, l: nat, l': nat)
    requires ValidTarget(NATURAL) && Resolved(f) && Resolved(f')
    requires k == KgenStart(f, 0) && k' == KgenStart(f', k + f.kgenSize.value)
    requires l == FieldStart(NATURAL, f.llvm.value, 0)
    requires l' == FieldStart(NATURAL, f'.llvm.value, l + AllocSize(NATURAL, f.llvm.value))
    requires Pad(NATURAL, f, 0) == 0 && Pad(NATURAL, f', k + f.kgenSize.value) == 0
    ensures AllResolved([f, f']) && AllElements(NATURAL, [f, f'], 0) == [f.llvm.value, f'.llvm.value]
    ensures KgenOffset([f, f'], 0, 1) == k' && LlvmOffset(NATURAL, [f.llvm.value, f'.llvm.value], 0, 1) == l'
    ensures LandsFrom(NATURAL, [f, f'], 0, 0) <==> k == l && k' == l'
    ensures KgenEnd([f, f'], 0) == k' + f'.kgenSize.value
    ensures LlvmEnd(NATURAL, [f, f'], 0, 0) == l' + AllocSize(NATURAL, f'.llvm.value)
  {
    hide AllocSize, FieldStart, KgenStart, Pad, LlvmStart, LlvmEnd, LandsFrom, AllElements, Elements, KgenOffset;
    hide KgenEnd, LlvmOffset, AllResolved, AlignAndType, ValidTarget;
    BothResolved(f, f');
    KgenStartAbove(f, 0);
    KgenStartAbove(f', k + f.kgenSize.value);
    TwoKgen(f, f', k, k');
    TwoLlvm(NATURAL, f.llvm.value, f'.llvm.value);
    NoPadding(NATURAL, f, 0, 0);
    NoPadding(NATURAL, f', k + f.kgenSize.value, l + AllocSize(NATURAL, f.llvm.value));
    NoPadding(NATURAL, f', k + f.kgenSize.value, k + AllocSize(NATURAL, f.llvm.value));
    TwoElements(NATURAL, f, f', k);
    TwoLand(NATURAL, f, f', k, k');
    TwoEnds(NATURAL, f, f', k, k');
  }

  lemma BothResolved(f: Field, f': Field)
    requires Resolved(f) && Resolved(f')
    ensures AllResolved([f, f'])
  {
  }

  lemma TwoKgen(f: Field, f': Field, k: nat, k': nat)
    requires Resolved(f) && Resolved(f') && AllResolved([f, f'])
    requires k == KgenStart(f, 0) && k' == KgenStart(f', k + f.kgenSize.value)
    ensures KgenOffset([f, f'], 0, 1) == k' && KgenEnd([f, f'], 0) == k' + f'.kgenSize.value
  {
    hide KgenStart;
    assert [f, f'][1..] == [f'] && [f'][1..] == [];
    assert KgenOffset([f, f'], 0, 1) == KgenOffset([f'], k + f.kgenSize.value, 0);
    assert KgenEnd([f, f'], 0) == KgenEnd([f'], k + f.kgenSize.value) == KgenEnd([], k' + f'.kgenSize.value);
  }

  lemma TwoLlvm(t: Target, a: Type, b: Type)
    requires ValidTarget(t)
    ensures LlvmOffset(t, [a, b], 0, 1) == FieldStart(t, b, FieldStart(t, a, 0) + AllocSize(t, a))
  {
    hide AllocSize, FieldStart;
    assert [a, b][1..] == [b];
    assert LlvmOffset(t, [a, b], 0, 1) == LlvmOffset(t, [b], FieldStart(t, a, 0) + AllocSize(t, a), 0);
  }

  lemma NoPadding(t: Target, f: Field, offset: nat, size: nat)
    requires ValidTarget(t) && Resolved(f) && Pad(t, f, offset) == 0 && KgenStart(f, offset) >= offset
    ensures LlvmStart(t, f, offset, size) == FieldStart(t, f.llvm.value, size)
    ensures Elements(t, f, offset) == [f.llvm.value] || KgenStart(f, offset) == offset
    ensures FieldStart(t, f.llvm.value, offset) >= offset ==> Elements(t, f, offset) == [f.llvm.value]
  {
    hide FieldStart, KgenStart;
  }

  lemma TwoElements(t: Target, f: Field, f': Field, k: nat)
    requires ValidTarget(t) && Resolved(f) && Resolved(f') && AllResolved([f, f']) && k == KgenStart(f, 0)
    requires Pad(t, f, 0) == 0 && Pad(t, f', k + f.kgenSize.value) == 0
    ensures AllElements(t, [f, f'], 0) == [f.llvm.value, f'.llvm.value]
  {
    var next := k + f.kgenSize.value;
    StartAbove(t, f.llvm.value, 0);
    StartAbove(t, f'.llvm.value, next);
    KgenStartAbove(f, 0);
    KgenStartAbove(f', next);
    NoPadding(t, f, 0, 0);
    NoPadding(t, f', next, 0);
    hide Elements, KgenStart, FieldStart, Pad;
    assert [f, f'][1..] == [f'] && [f'][1..] == [];
    var end := KgenStart(f', next) + f'.kgenSize.value;
    assert AllElements(t, [f'], next) == [f'.llvm.value] + AllElements(t, [], end);
    assert AllElements(t, [f, f'], 0) == [f.llvm.value] + AllElements(t, [f'], next);
  }

  lemma StartAbove(t: Target, ty: Type, size: nat)
    requires ValidTarget(t)
    ensures FieldStart(t, ty, size) >= size
  {
  }

  lemma TwoLand(t: Target, f: Field, f': Field, k: nat, k': nat)
    requires ValidTarget(t) && Resolved(f) && Resolved(f') && AllResolved([f, f'])
    requires k == KgenStart(f, 0) && k' == KgenStart(f', k + f.kgenSize.value)
    ensures LandsFrom(t, [f, f'], 0, 0) <==>
            && LlvmStart(t, f, 0, 0) == k
            && LlvmStart(t, f', k + f.kgenSize.value, k + AllocSize(t, f.llvm.value)) == k'
  {
    hide KgenStart, LlvmStart, AllocSize;
    assert [f, f'][1..] == [f'] && [f'][1..] == [];
    var offset, size := k + f.kgenSize.value, k + AllocSize(t, f.llvm.value);
    assert LandsFrom(t, [], k' + f'.kgenSize.value, k' + AllocSize(t, f'.llvm.value));
    assert LandsFrom(t, [f'], offset, size) <==> LlvmStart(t, f', offset, size) == k';
  }

  lemma TwoEnds(t: Target, f: Field, f': Field, k: nat, k': nat)
    requires ValidTarget(t) && Resolved(f) && Resolved(f') && AllResolved([f, f'])
    requires k == KgenStart(f, 0) && k' == KgenStart(f', k + f.kgenSize.value)
    ensures LlvmEnd(t, [f, f'], 0, 0) ==
            LlvmStart(t, f', k + f.kgenSize.value, LlvmStart(t, f, 0, 0) + AllocSize(t, f.llvm.value))
            + AllocSize(t, f'.llvm.value)
  {
    hide KgenStart, LlvmStart, AllocSize;
    assert [f, f'][1..] == [f'] && [f'][1..] == [];
    var offset, size := k + f.kgenSize.value, LlvmStart(t, f, 0, 0) + AllocSize(t, f.llvm.value);
    var end := LlvmStart(t, f', offset, size) + AllocSize(t, f'.llvm.value);
    assert LlvmEnd(t, [], k' + f'.kgenSize.value, end) == end;
    assert LlvmEnd(t, [f'], offset, size) == end;
  }

  /** Four booleans: four bytes to KGEN, one to LLVM. */
  const BOOLS: Field := Field(Some(Vec(4, Int(1))), Some(1), Some(4))

  /** The byte after them, at offset 4 to KGEN, gets no padding, since LLVM could use offset 4; it goes to offset 1. */
  lemma BoolVectorShiftsFields()
    ensures ValidTarget(NATURAL) && AllResolved([BOOLS, BYTE]) && AllFit(NATURAL, [BOOLS, BYTE], 0)
    ensures AllElements(NATURAL, [BOOLS, BYTE], 0) == [Vec(4, Int(1)), Int(8)]
    ensures KgenOffset([BOOLS, BYTE], 0, 1) == 4 && LlvmOffset(NATURAL, [Vec(4, Int(1)), Int(8)], 0, 1) == 1
    ensures !LandsFrom(NATURAL, [BOOLS, BYTE], 0, 0)
  {
    NaturalIsValid();
    SmallSizes();
    TwoFields(BOOLS, BYTE, 0, 4, 0, 1);
    assert [BOOLS, BYTE][1..] == [BYTE] && [BYTE][1..] == [];
    assert AllFit(NATURAL, [BYTE], 4);
  }

  const WORD: Field := Field(Some(Int(32)), Some(4), Some(4))

  /** A word and a byte in a struct that KGEN packs: both fields land, but KGEN has 5 bytes and LLVM 8. */
  lemma PackedStructGrows()
    ensures ValidTarget(NATURAL) && AllResolved([WORD, BYTE]) && LandsFrom(NATURAL, [WORD, BYTE], 0, 0)
    ensures AlignTo(KgenEnd([WORD, BYTE], 0), 1) == 5
    ensures AllocSize(NATURAL, Closed(NATURAL, AllElements(NATURAL, [WORD, BYTE], 0), KgenEnd([WORD, BYTE], 0), 1)) == 8
  {
    hide *;
    WordAndByte();
    WordAndByteEnd();
    var body := [Int(32), Int(8)];
    BodyEnd(NATURAL, [WORD, BYTE], 0, 0, []);
    assert body + [] == body;
    ClosedAlloc(NATURAL, body, 5, 1);
  }

  lemma WordAndByte()
    ensures ValidTarget(NATURAL) && AllResolved([WORD, BYTE]) && LandsFrom(NATURAL, [WORD, BYTE], 0, 0)
    ensures AllElements(NATURAL, [WORD, BYTE], 0) == [Int(32), Int(8)] && KgenEnd([WORD, BYTE], 0) == 5
    ensures LlvmEnd(NATURAL, [WORD, BYTE], 0, 0) == 5
  {
    NaturalIsValid();
    SmallSizes();
    TwoFields(WORD, BYTE, 0, 4, 0, 4);
  }

  lemma WordAndByteEnd()
    requires ValidTarget(NATURAL)
    ensures Align(NATURAL, Struct([Int(32), Int(8)])) == 4 && StructEnd(NATURAL, [], 5) == 5
    ensures TailPad(NATURAL, [Int(32), Int(8)], 5, 1) == 0 && AlignTo(5, 1) == 5 && AlignTo(5 + 0, 4) == 8
    ensures WORD.llvm == Some(Int(32)) && BYTE.llvm == Some(Int(8)) && BYTE.kgenSize == Some(1)
    ensures ByteAligned(NATURAL)
  {
    NaturalIsValid();
    WordAndByteAlign();
  }

  lemma WordAndByteAlign()
    requires ValidTarget(NATURAL)
    ensures Align(NATURAL, Struct([Int(32), Int(8)])) == 4
  {
    var fields := [Int(32), Int(8)];
    assert fields[1..] == [Int(8)] && [Int(8)][1..] == [];
    assert Strictest(NATURAL, fields, (1, None)) == Strictest(NATURAL, [Int(8)], (4, Some(Int(32))));
    assert Strictest(NATURAL, [Int(8)], (4, Some(Int(32)))) == Strictest(NATURAL, [], (4, Some(Int(32))));
  }

  // ----- unions -----

  function Plainly(ty: Type): Member { Member(ty, None) }

  /** The representative of two members that both offer one. */
  lemma BestOfTwo(t: Target, m: Member, m': Member, align: nat, align': nat, leaf: Type, leaf': Type, base: Type)
    requires ValidTarget(t) && Offers(t, m, align, leaf) && Offers(t, m', align', leaf')
    ensures BestOffer(t, [m, m'], base) <==> base == if align' >= align then leaf' else leaf
  {
    hide AlignAndType, SizeInBits;
    var members := [m, m'];
    assert members[0] == m && members[1] == m';
    if align' >= align {
      assert LastBest(t, members, 1, align', leaf');
    } else {
      assert LastBest(t, members, 0, align, leaf);
    }
  }

  lemma PayloadOfTwo(t: Target, m: Member, m': Member, payload: nat)
    requires ValidTarget(t)
    ensures IsPayload(t, [m, m'], payload) <==> payload == Max(MemberSize(t, m), MemberSize(t, m'))
  {
    hide AllocSize;
    assert m in [m, m'] && m' in [m, m'];
  }

  const ODD_UNION: seq<Member> := [Plainly(Int(64)), Plainly(Arr(9, Int(8)))]

  /** The union of a 64-bit integer and nine bytes: nine bytes of payload under the integer trip the size assertion. */
  lemma OddPayloadBreaksAssertion(payload: nat, base: Type)
    ensures ValidTarget(NATURAL)
    ensures IsPayload(NATURAL, ODD_UNION, payload) <==> payload == 9
    ensures BestOffer(NATURAL, ODD_UNION, base) <==> base == Int(64)
    ensures AllocSize(NATURAL, Int(64)) == 8 && AllocSize(NATURAL, Lowered(Int(64), 9 - 8)) == 16
  {
    NaturalIsValid();
    ByteArray(NATURAL, 9);
    AllocUnfolds(NATURAL, Int(64));
    assert UnionAlign(NATURAL, Int(64)) == 8 && AlignTo(8, 8) == 8 && AlignTo(9, 8) == 16;
    ByteArrayOffers(9);
    assert Offers(NATURAL, Plainly(Int(64)), 8, Int(64));
    hide AllocSize, UnionAlign, Lowered, ValidTarget, AlignTo, Offers, BestOffer, IsPayload;
    LoweredAllocSize(NATURAL, Int(64), 9);
    PayloadOfTwo(NATURAL, Plainly(Int(64)), Plainly(Arr(9, Int(8))), payload);
    BestOfTwo(NATURAL, Plainly(Int(64)), Plainly(Arr(9, Int(8))), 8, 1, Int(64), Int(8), base);
  }

  lemma ByteArrayOffers(n: nat)
    requires ValidTarget(NATURAL)
    ensures Offers(NATURAL, Plainly(Arr(n, Int(8))), 1, Int(8))
  {
  }

  const HOLLOW_UNION: seq<Member> := [Plainly(Arr(0, Int(64))), Plainly(Int(8))]

  /** No 64-bit integers, or one byte: the empty array offers its element, eight bytes for a payload of one. */
  lemma EmptyArrayHeadIsTooLarge(payload: nat, base: Type)
    ensures ValidTarget(NATURAL)
    ensures IsPayload(NATURAL, HOLLOW_UNION, payload) <==> payload == 1
    ensures BestOffer(NATURAL, HOLLOW_UNION, base) <==> base == Int(64)
    ensures AllocSize(NATURAL, Int(64)) == 8 > 1
  {
    hide *;
    HollowSizes();
    var none, byte := Plainly(Arr(0, Int(64))), Plainly(Int(8));
    SizePlainly(Arr(0, Int(64)));
    SizePlainly(Int(8));
    PayloadOfTwo(NATURAL, none, byte, payload);
    BestOfTwo(NATURAL, none, byte, 8, 1, Int(64), Int(8), base);
  }

  lemma HollowSizes()
    ensures ValidTarget(NATURAL) && HOLLOW_UNION == [Plainly(Arr(0, Int(64))), Plainly(Int(8))] && Max(0, 1) == 1
    ensures AllocSize(NATURAL, Int(64)) == 8 && AllocSize(NATURAL, Int(8)) == 1
    ensures AllocSize(NATURAL, Arr(0, Int(64))) == 0
    ensures Offers(NATURAL, Plainly(Arr(0, Int(64))), 8, Int(64)) && Offers(NATURAL, Plainly(Int(8)), 1, Int(8))
  {
    NaturalIsValid();
    AllocUnfolds(NATURAL, Int(64));
    AllocUnfolds(NATURAL, Int(8));
    AllocUnfolds(NATURAL, Arr(0, Int(64)));
  }

  /** One byte of true alignment 4: the head is widened to 32 bits, four bytes for a payload of one. */
  lemma WidenedHeadIsTooLarge(payload: nat, base: Type)
    ensures ValidTarget(NATURAL)
    ensures IsPayload(NATURAL, [Plainly(Int(8))], payload) <==> payload == 1
    ensures BestOffer(NATURAL, [Plainly(Int(8))], base) <==> base == Int(8)
    ensures Widened(NATURAL, Int(8), Some(4)) == Int(32) && AllocSize(NATURAL, Int(32)) == 4 > 1
  {
    NaturalIsValid();
    SmallSizes();
    var m := Plainly(Int(8));
    assert m in [m] && [m][0] == m && Offers(NATURAL, m, 1, Int(8));
    hide AllocSize, SizeInBits;
    assert LastBest(NATURAL, [m], 0, 1, Int(8));
  }

  const LONG_DOUBLE_UNION: seq<Member> := [Plainly(Float(80)), Plainly(Arr(32, Int(8)))]

  /**
   The union of an 80-bit float, 16 bytes in memory but 80 bits of storage, and 32 bytes: the storage is
   48 bits shorter than every value of the bytes.
   */
  lemma LongDoubleStorageIsShort(payload: nat, base: Type, bytes: Value)
    requires ValidTarget(NATURAL) && Typed(NATURAL, Arr(32, Int(8)), bytes)
    ensures IsPayload(NATURAL, LONG_DOUBLE_UNION, payload) <==> payload == 32
    ensures BestOffer(NATURAL, LONG_DOUBLE_UNION, base) <==> base == Float(80)
    ensures AllocSize(NATURAL, Float(80)) == 16 && Total(StorageWidths(NATURAL, Float(80), 32 - 16)) == 256 - 48
    ensures Aligned(bytes) && End(bytes, 0) == 256
  {
    NaturalIsValid();
    LongDoubleSize();
    ByteArray(NATURAL, 32);
    ByteArrayOffers(32);
    BytesBits(32);
    assert Offers(NATURAL, Plainly(Float(80)), 16, Float(80));
    hide *;
    SizePlainly(Float(80));
    SizePlainly(Arr(32, Int(8)));
    PayloadOfTwo(NATURAL, Plainly(Float(80)), Plainly(Arr(32, Int(8))), payload);
    BestOfTwo(NATURAL, Plainly(Float(80)), Plainly(Arr(32, Int(8))), 16, 1, Float(80), Int(8), base);
    StorageLength(NATURAL, Float(80), 32);
    EndsAt(Arr(32, Int(8)), bytes, 256);
    LongDoubleUnionIs();
  }

  lemma LongDoubleUnionIs()
    ensures LONG_DOUBLE_UNION == [Plainly(Float(80)), Plainly(Arr(32, Int(8)))] && Max(16, 32) == 32
  {
  }

  lemma SizePlainly(ty: Type)
    requires ValidTarget(NATURAL)
    ensures MemberSize(NATURAL, Plainly(ty)) == AllocSize(NATURAL, ty)
  {
    hide AllocSize;
  }

  lemma LongDoubleSize()
    ensures ValidTarget(NATURAL) && SizeInBits(NATURAL, Float(80)) == 80 && Align(NATURAL, Float(80)) == 16
    ensures AllocSize(NATURAL, Float(80)) == 16 && StoreSize(NATURAL, Float(80)) == 10
  {
    NaturalIsValid();
    AllocUnfolds(NATURAL, Float(80));
  }

  lemma BytesBits(n: nat)
    requires ValidTarget(NATURAL)
    ensures WalkBits(NATURAL, Arr(n, Int(8))) == 8 * n
  {
    assert WalkBits(NATURAL, Int(8)) == 8 && WalkStride(NATURAL, Int(8)) == AlignTo(8, 1 * 8) == 8;
  }

  lemma EndsAt(ty: Type, v: Value, bits: nat)
    requires ValidTarget(NATURAL) && Typed(NATURAL, ty, v) && WalkBits(NATURAL, ty) == bits
    ensures Aligned(v) && End(v, 0) == bits
  {
    hide Typed, WalkBits, End, ValidTarget;
    WalkEnds(NATURAL, ty, v, 0);
  }

  // ----- arrays that are walked further than they are allocated -----

  /**
   Elements are allocated by store size and walked by alignment: four 80-bit floats take 48 bytes and are
   walked to bit 464 of 384, while two, in 32 bytes, stop at bit 208 of 256.
   */
  lemma LongDoubleArrayOverruns(v: Value)
    requires ValidTarget(NATURAL) && Typed(NATURAL, Arr(4, Float(80)), v)
    ensures Aligned(v) && End(v, 0) == 464 > 8 * AllocSize(NATURAL, Arr(4, Float(80)))
    ensures WalkBits(NATURAL, Arr(2, Float(80))) == 208 <= 8 * AllocSize(NATURAL, Arr(2, Float(80)))
  {
    FloatArray(4);
    FloatArray(2);
    hide *;
    EndsAt(Arr(4, Float(80)), v, 464);
  }

  lemma FloatArray(n: nat)
    requires ValidTarget(NATURAL) && n >= 1
    ensures WalkBits(NATURAL, Arr(n, Float(80))) == 128 * n - 48
    ensures AllocSize(NATURAL, Arr(n, Float(80))) == AlignTo(10 * n, 16)
    ensures AlignTo(40, 16) == 48 && AlignTo(20, 16) == 32
  {
    LongDoubleSize();
    assert WalkBits(NATURAL, Float(80)) == 80 && WalkStride(NATURAL, Float(80)) == AlignTo(80, 16 * 8) == 128;
    assert SizeInBits(NATURAL, Arr(n, Float(80))) == n * 10 * CHAR_BIT;
    assert Align(NATURAL, Arr(n, Float(80))) == 16;
    hide SizeInBits, AllocSize, AlignAndType;
    AllocUnfolds(NATURAL, Arr(n, Float(80)));
    BytesForWhole(10 * n);
  }

  const ODD_ARRAY_UNION: seq<Member> := [Plainly(Arr(4, Int(24))), Plainly(Int(32))]

  /** The union of four 24-bit integers and a 32-bit one: 96 bits of storage for values that are walked to bit 120. */
  lemma OddArrayOverrunsUnion(payload: nat, base: Type, v: Value)
    requires ValidTarget(NATURAL) && Typed(NATURAL, Arr(4, Int(24)), v)
    ensures IsPayload(NATURAL, ODD_ARRAY_UNION, payload) <==> payload == 12
    ensures BestOffer(NATURAL, ODD_ARRAY_UNION, base) <==> base == Int(32)
    ensures AllocSize(NATURAL, Int(32)) == 4 && Total(StorageWidths(NATURAL, Int(32), 12 - 4)) == 96
    ensures Aligned(v) && End(v, 0) == 120
  {
    WordSizes();
    assert Offers(NATURAL, Plainly(Arr(4, Int(24))), 4, Int(24)) && Offers(NATURAL, Plainly(Int(32)), 4, Int(32));
    hide *;
    SizePlainly(Arr(4, Int(24)));
    SizePlainly(Int(32));
    PayloadOfTwo(NATURAL, Plainly(Arr(4, Int(24))), Plainly(Int(32)), payload);
    BestOfTwo(NATURAL, Plainly(Arr(4, Int(24))), Plainly(Int(32)), 4, 4, Int(24), Int(32), base);
    StorageLength(NATURAL, Int(32), 12);
    EndsAt(Arr(4, Int(24)), v, 120);
    OddArrayUnionIs();
  }

  lemma OddArrayUnionIs()
    ensures ODD_ARRAY_UNION == [Plainly(Arr(4, Int(24))), Plainly(Int(32))] && Max(12, 4) == 12
  {
  }

  lemma WordSizes()
    requires ValidTarget(NATURAL)
    ensures AllocSize(NATURAL, Int(32)) == 4 && SizeInBits(NATURAL, Int(32)) == 32
    ensures AllocSize(NATURAL, Arr(4, Int(24))) == 12 && WalkBits(NATURAL, Arr(4, Int(24))) == 120
  {
    AllocUnfolds(NATURAL, Int(32));
    assert StoreSize(NATURAL, Int(24)) == 3;
    assert WalkBits(NATURAL, Int(24)) == 24 && WalkStride(NATURAL, Int(24)) == AlignTo(24, 4 * 8) == 32;
    assert SizeInBits(NATURAL, Arr(4, Int(24))) == 96;
    AllocUnfolds(NATURAL, Arr(4, Int(24)));
    assert AlignTo(12, 4) == 12;
  }
}
