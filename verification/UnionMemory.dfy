/**
 Where a stored member is in memory: for every leaf of every member type, from exactly which bit of memory all
 values of the member have it, and exactly when that is where the member's own layout has it.
 */
module UnionMemory {
  import opened Options
  import opened Bits
  import opened Alignment
  import opened DataLayout
  import opened VariantPacker
  import opened VariantLayout
  import opened TypedVariant
  import opened UnionLowering

  // ----- places of leaves, by type -----

  /** The storage bit a leaf starts at, and its bits. */
  datatype Span = Span(at: nat, bits: nat)

  /** Where the walk is after a value of the type. */
  function After(t: Target, ty: Type, offset: nat): nat
    requires ValidTarget(t)
  {
    Start(t, ty, offset) + WalkBits(t, ty)
  }

  function Start(t: Target, ty: Type, offset: nat): nat
    requires ValidTarget(t)
  {
    PositiveAlign(t, ty);
    AlignTo(offset, Align(t, ty) * 8)
  }

  /** The leaves of every value of the type, walked from `offset`. */
  function Spans(t: Target, ty: Type, offset: nat): seq<Span>
    requires ValidTarget(t)
    decreases ty, 0, 0
  {
    var start := Start(t, ty, offset);
    match ty
    case Vec(n, elt) => ElementSpans(t, elt, n, start)
    case Arr(n, elt) => ElementSpans(t, elt, n, start)
    case Struct(fields) => FieldSpans(t, fields, start)
    case _ => [Span(start, SizeInBits(t, ty))]
  }

  function ElementSpans(t: Target, elt: Type, n: nat, offset: nat): seq<Span>
    requires ValidTarget(t)
    decreases elt, 1, n
  {
    if n == 0 then [] else Spans(t, elt, offset) + ElementSpans(t, elt, n - 1, After(t, elt, offset))
  }

  function FieldSpans(t: Target, fields: seq<Type>, offset: nat): seq<Span>
    requires ValidTarget(t)
    decreases fields, 0, 0
  {
    if fields == [] then []
    else Spans(t, fields[0], offset) + FieldSpans(t, fields[1..], After(t, fields[0], offset))
  }

  function Places(ps: seq<Placement>): (r: seq<Span>)
    ensures |r| == |ps|
  {
    seq(|ps|, i requires 0 <= i < |ps| => Span(ps[i].at, |ps[i].bits|))
  }

  lemma PlacesConcat(a: seq<Placement>, b: seq<Placement>)
    ensures Places(a + b) == Places(a) + Places(b)
  {
  }

  lemma EndIsAfter(t: Target, ty: Type, v: Value, offset: nat)
    requires ValidTarget(t) && Typed(t, ty, v)
    ensures Aligned(v) && End(v, offset) == After(t, ty, offset)
  {
    hide Typed, End, WalkBits, AlignTo;
    WalkEnds(t, ty, v, offset);
    TypedAlign(t, ty, v);
  }

  lemma {:induction false} LeavesHaveSpans(t: Target, ty: Type, v: Value, offset: nat)
    requires ValidTarget(t) && Typed(t, ty, v)
    ensures Aligned(v) && Places(Leaves(v, offset)) == Spans(t, ty, offset)
    decreases ty, 0, 0
  {
    TypedIsAligned(t, ty, v);
    var start := Start(t, ty, offset);
    match ty
    case Vec(n, elt) => ElementsHaveSpans(t, elt, v.parts, start);
    case Arr(n, elt) => ElementsHaveSpans(t, elt, v.parts, start);
    case Struct(fields) => FieldsHaveSpans(t, fields, v.parts, start);
    case _ =>
      assert Leaves(v, offset) == [Placement(start, v.bits)];
  }

  lemma {:induction false} ElementsHaveSpans(t: Target, elt: Type, parts: seq<Value>, offset: nat)
    requires ValidTarget(t) && forall p <- parts :: Typed(t, elt, p)
    ensures forall p <- parts :: Aligned(p)
    ensures Places(LeavesAll(parts, offset)) == ElementSpans(t, elt, |parts|, offset)
    decreases elt, 1, |parts|
  {
    hide ValidTarget, Typed, Leaves, End, Spans, After, Places, Aligned;
    forall p | p in parts { TypedIsAligned(t, elt, p); }
    if parts == [] {
      NoPlaces();
    } else {
      LeavesHaveSpans(t, elt, parts[0], offset);
      EndIsAfter(t, elt, parts[0], offset);
      ElementsHaveSpans(t, elt, parts[1..], After(t, elt, offset));
      PlacesConcat(Leaves(parts[0], offset), LeavesAll(parts[1..], After(t, elt, offset)));
    }
  }

  lemma {:induction false} FieldsHaveSpans(t: Target, fields: seq<Type>, parts: seq<Value>, offset: nat)
    requires ValidTarget(t) && |parts| == |fields| && forall i :: 0 <= i < |fields| ==> Typed(t, fields[i], parts[i])
    ensures (forall p <- parts :: Aligned(p)) && Places(LeavesAll(parts, offset)) == FieldSpans(t, fields, offset)
    decreases fields, 0, 0
  {
    hide ValidTarget, Typed, Leaves, End, Spans, After, Places, Aligned;
    if parts == [] {
      NoPlaces();
    } else {
      assert Typed(t, fields[0], parts[0]);
      LeavesHaveSpans(t, fields[0], parts[0], offset);
      EndIsAfter(t, fields[0], parts[0], offset);
      FieldsHaveSpans(t, fields[1..], parts[1..], After(t, fields[0], offset));
      assert forall p <- parts :: p == parts[0] || p in parts[1..];
      PlacesConcat(Leaves(parts[0], offset), LeavesAll(parts[1..], After(t, fields[0], offset)));
    }
  }

  lemma NoPlaces()
    ensures Places([]) == []
  {
  }

  // ----- a value with chosen bits -----

  /** Bits `at`, `at + 1`, ... of a pattern. */
  function Cutout(f: nat -> bool, at: nat, n: nat): (w: Word)
    ensures |w| == n && forall k :: 0 <= k < n ==> w[k] == f(at + k)
  {
    seq(n, k requires 0 <= k < n => f(at + k))
  }

  /** The value of the type whose leaves, walked from `offset`, are cut out of the pattern. */
  function Filling(t: Target, ty: Type, offset: nat, f: nat -> bool): Value
    requires ValidTarget(t)
    decreases ty, 0, 0
  {
    var start := Start(t, ty, offset);
    match ty
    case Vec(n, elt) => Aggregate(Align(t, ty), FillingElements(t, elt, n, start, f))
    case Arr(n, elt) => Aggregate(Align(t, ty), FillingElements(t, elt, n, start, f))
    case Struct(fields) => Aggregate(Align(t, ty), FillingFields(t, fields, start, f))
    case _ => Leaf(Align(t, ty), Cutout(f, start, SizeInBits(t, ty)))
  }

  function FillingElements(t: Target, elt: Type, n: nat, offset: nat, f: nat -> bool): (parts: seq<Value>)
    requires ValidTarget(t)
    ensures |parts| == n
    decreases elt, 1, n
  {
    if n == 0 then []
    else [Filling(t, elt, offset, f)] + FillingElements(t, elt, n - 1, After(t, elt, offset), f)
  }

  function FillingFields(t: Target, fields: seq<Type>, offset: nat, f: nat -> bool): (parts: seq<Value>)
    requires ValidTarget(t)
    ensures |parts| == |fields|
    decreases fields, 0, 0
  {
    if fields == [] then []
    else [Filling(t, fields[0], offset, f)] + FillingFields(t, fields[1..], After(t, fields[0], offset), f)
  }

  lemma {:induction false} FillingIsTyped(t: Target, ty: Type, offset: nat, f: nat -> bool)
    requires ValidTarget(t)
    ensures Typed(t, ty, Filling(t, ty, offset, f))
    decreases ty, 0, 0
  {
    var start := Start(t, ty, offset);
    match ty
    case Vec(n, elt) => FillingElementsAreTyped(t, elt, n, start, f);
    case Arr(n, elt) => FillingElementsAreTyped(t, elt, n, start, f);
    case Struct(fields) => FillingFieldsAreTyped(t, fields, start, f);
    case _ =>
  }

  lemma {:induction false} FillingElementsAreTyped(t: Target, elt: Type, n: nat, offset: nat, f: nat -> bool)
    requires ValidTarget(t)
    ensures forall p <- FillingElements(t, elt, n, offset, f) :: Typed(t, elt, p)
    decreases elt, 1, n
  {
    hide ValidTarget, Typed, Filling, After;
    if n > 0 {
      FillingIsTyped(t, elt, offset, f);
      FillingElementsAreTyped(t, elt, n - 1, After(t, elt, offset), f);
    }
  }

  lemma {:induction false} FillingFieldsAreTyped(t: Target, fields: seq<Type>, offset: nat, f: nat -> bool)
    requires ValidTarget(t)
    ensures forall i :: 0 <= i < |fields| ==> Typed(t, fields[i], FillingFields(t, fields, offset, f)[i])
    decreases fields, 0, 0
  {
    hide ValidTarget, Typed, Filling, After;
    if fields != [] {
      FillingIsTyped(t, fields[0], offset, f);
      FillingFieldsAreTyped(t, fields[1..], After(t, fields[0], offset), f);
    }
  }

  /** Its leaves hold the pattern. */
  predicate HoldPattern(ps: seq<Placement>, f: nat -> bool) {
    forall p <- ps :: p.bits == Cutout(f, p.at, |p.bits|)
  }

  lemma HoldPatternConcat(a: seq<Placement>, b: seq<Placement>, f: nat -> bool)
    requires HoldPattern(a, f) && HoldPattern(b, f)
    ensures HoldPattern(a + b, f)
  {
  }

  lemma {:induction false} FillingHoldsPattern(t: Target, ty: Type, offset: nat, f: nat -> bool)
    requires ValidTarget(t)
    ensures Aligned(Filling(t, ty, offset, f)) && HoldPattern(Leaves(Filling(t, ty, offset, f), offset), f)
    decreases ty, 0, 0
  {
    var start, v := Start(t, ty, offset), Filling(t, ty, offset, f);
    FillingIsTyped(t, ty, offset, f);
    TypedIsAligned(t, ty, v);
    match ty
    case Vec(n, elt) => FillingElementsHold(t, elt, n, start, f);
    case Arr(n, elt) => FillingElementsHold(t, elt, n, start, f);
    case Struct(fields) => FillingFieldsHold(t, fields, start, f);
    case _ =>
      assert Leaves(v, offset) == [Placement(start, v.bits)];
  }

  lemma {:induction false} FillingElementsHold(t: Target, elt: Type, n: nat, offset: nat, f: nat -> bool)
    requires ValidTarget(t)
    ensures var parts := FillingElements(t, elt, n, offset, f);
            (forall p <- parts :: Aligned(p)) && HoldPattern(LeavesAll(parts, offset), f)
    decreases elt, 1, n
  {
    hide ValidTarget, Typed, Filling, After, Leaves, End, Aligned;
    if n > 0 {
      var first, next := Filling(t, elt, offset, f), After(t, elt, offset);
      FillingIsTyped(t, elt, offset, f);
      EndIsAfter(t, elt, first, offset);
      FillingHoldsPattern(t, elt, offset, f);
      FillingElementsHold(t, elt, n - 1, next, f);
      var parts := FillingElements(t, elt, n, offset, f);
      assert parts[0] == first && parts[1..] == FillingElements(t, elt, n - 1, next, f);
      assert forall p <- parts :: p == first || p in parts[1..];
      HoldPatternConcat(Leaves(first, offset), LeavesAll(parts[1..], next), f);
    }
  }

  lemma {:induction false} FillingFieldsHold(t: Target, fields: seq<Type>, offset: nat, f: nat -> bool)
    requires ValidTarget(t)
    ensures var parts := FillingFields(t, fields, offset, f);
            (forall p <- parts :: Aligned(p)) && HoldPattern(LeavesAll(parts, offset), f)
    decreases fields, 0, 0
  {
    hide ValidTarget, Typed, Filling, After, Leaves, End, Aligned;
    if fields != [] {
      var first, next := Filling(t, fields[0], offset, f), After(t, fields[0], offset);
      FillingIsTyped(t, fields[0], offset, f);
      EndIsAfter(t, fields[0], first, offset);
      FillingHoldsPattern(t, fields[0], offset, f);
      FillingFieldsHold(t, fields[1..], next, f);
      var parts := FillingFields(t, fields, offset, f);
      assert parts[0] == first && parts[1..] == FillingFields(t, fields[1..], next, f);
      assert forall p <- parts :: p == first || p in parts[1..];
      HoldPatternConcat(Leaves(first, offset), LeavesAll(parts[1..], next), f);
    }
  }

  // ----- what is not a leaf is zero -----

  /** Some leaf has bit `j`. */
  predicate InLeaf(ps: seq<Placement>, j: nat) { exists p <- ps :: p.at <= j < p.at + |p.bits| }

  lemma {:induction false} OutsideLeavesIsZero(v: Value, done: Word, j: nat)
    requires Aligned(v) && |done| <= j < |Serialized(v, done)|
    ensures InLeaf(Leaves(v, |done|), j) || !Serialized(v, done)[j]
    decreases v, 1
  {
    var padded := Padded(done, v.align);
    match v
    case Leaf(_, bits) =>
      assert Leaves(v, |done|) == [Placement(|padded|, bits)];
      if j < |padded| {
        assert !padded[j];
      } else {
        assert Placement(|padded|, bits) in Leaves(v, |done|);
      }
    case Aggregate(_, parts) =>
      if j < |padded| {
        assert SerializedAll(parts, padded)[j] == padded[j] && !padded[j];
      } else {
        OutsideAllLeavesIsZero(parts, padded, j);
      }
  }

  lemma {:induction false} OutsideAllLeavesIsZero(parts: seq<Value>, done: Word, j: nat)
    requires (forall p <- parts :: Aligned(p)) && |done| <= j < |SerializedAll(parts, done)|
    ensures InLeaf(LeavesAll(parts, |done|), j) || !SerializedAll(parts, done)[j]
    decreases parts, 0
  {
    if parts != [] {
      hide Serialized, Leaves, End;
      var next := Serialized(parts[0], done);
      LeavesReadBack(parts[0], done);
      var first, rest := Leaves(parts[0], |done|), LeavesAll(parts[1..], |next|);
      assert LeavesAll(parts, |done|) == first + rest;
      if j < |next| {
        OutsideLeavesIsZero(parts[0], done, j);
        assert SerializedAll(parts[1..], next)[j] == next[j];
      } else {
        OutsideAllLeavesIsZero(parts[1..], next, j);
      }
      InLeafConcat(first, rest, j);
    }
  }

  lemma InLeafConcat(a: seq<Placement>, b: seq<Placement>, j: nat)
    ensures InLeaf(a, j) || InLeaf(b, j) ==> InLeaf(a + b, j)
  {
    if p :| p in a && p.at <= j < p.at + |p.bits| { assert p in a + b; }
    if p :| p in b && p.at <= j < p.at + |p.bits| { assert p in a + b; }
  }

  /** A stored filling has a bit only where the pattern has it. */
  lemma FillingStaysInPattern(t: Target, ty: Type, f: nat -> bool, j: nat)
    requires ValidTarget(t) && Aligned(Filling(t, ty, 0, f)) && j < |Serialized(Filling(t, ty, 0, f), [])|
    ensures Serialized(Filling(t, ty, 0, f), [])[j] ==> f(j)
  {
    hide Filling, Serialized, Leaves;
    var v := Filling(t, ty, 0, f);
    var s := Serialized(v, []);
    if s[j] {
      OutsideLeavesIsZero(v, [], j);
      LeavesReadBack(v, []);
      FillingHoldsPattern(t, ty, 0, f);
      var p :| p in Leaves(v, 0) && p.at <= j < p.at + |p.bits|;
      assert ReadsBack(s, p);
      assert s[p.at..p.at + |p.bits|][j - p.at] == s[j] && p.bits[j - p.at] == f(p.at + (j - p.at));
    }
  }

  // ----- contents for any storage -----

  /** Bytes of a bit string. */
  function CutBytes(s: Word, n: nat): (r: seq<Word>)
    requires |s| == 8 * n
    ensures |r| == n && forall i :: 0 <= i < n ==> |r[i]| == 8
  {
    if n == 0 then [] else [s[..8]] + CutBytes(s[8..], n - 1)
  }

  lemma {:induction false} CutBytesConcat(s: Word, n: nat)
    requires |s| == 8 * n
    ensures Concat(CutBytes(s, n)) == s
    decreases n
  {
    if n > 0 {
      CutBytesConcat(s[8..], n - 1);
      assert CutBytes(s, n)[1..] == CutBytes(s[8..], n - 1);
    }
  }

  lemma ContentWith(t: Target, repr: Type, tail: nat, value: Value) returns (c: Content)
    requires ValidTarget(t) && Aligned(value) && End(value, 0) <= Total(StorageWidths(t, repr, tail))
    ensures ContentOf(t, repr, tail, c) && Holds(c.Words(), Serialized(value, []))
  {
    hide Serialized, Leaves, End, SizeInBits;
    LeavesReadBack(value, []);
    TotalIs(t, repr, tail);
    var h, s := SizeInBits(t, repr), Serialized(value, []);
    var all := s + Zeros(h + 8 * tail - |s|);
    c := Content(all[..h], CutBytes(all[h..], tail));
    CutBytesConcat(all[h..], tail);
    assert c.Words()[1..] == c.tail && Concat(c.Words()) == all[..h] + all[h..] == all;
  }

  lemma TotalIs(t: Target, repr: Type, tail: nat)
    requires ValidTarget(t)
    ensures Total(StorageWidths(t, repr, tail)) == SizeInBits(t, repr) + 8 * tail
  {
    hide SizeInBits;
    TotalOfBytes(tail);
    assert StorageWidths(t, repr, tail)[1..] == seq(tail, _ => 8);
  }

  // ----- the exact condition -----

  /** The struct holds the value of the member. */
  ghost predicate IsStoredAs(t: Target, repr: Type, tail: nat, ty: Type, value: Value, c: Content)
    requires ValidTarget(t)
  {
    Typed(t, ty, value) && Aligned(value) && ContentOf(t, repr, tail, c) && Holds(c.Words(), Serialized(value, []))
  }

  /** Leaf `i` of the value is in memory from bit `m`. */
  predicate LeafInMemory(t: Target, repr: Type, value: Value, c: Content, i: nat, m: nat)
    requires ValidTarget(t) && Aligned(value)
  {
    i < |Leaves(value, 0)| && InMemory(Memory(t, repr, c), m, Leaves(value, 0)[i].bits)
  }

  lemma LeafSpan(t: Target, ty: Type, value: Value, i: nat)
    requires ValidTarget(t) && Typed(t, ty, value) && Aligned(value) && i < |Spans(t, ty, 0)|
    ensures i < |Leaves(value, 0)|
    ensures var p := Leaves(value, 0)[i]; Span(p.at, |p.bits|) == Spans(t, ty, 0)[i] && p in Leaves(value, 0)
  {
    hide Spans, Leaves, Typed;
    LeavesHaveSpans(t, ty, value, 0);
    assert Places(Leaves(value, 0))[i] == Spans(t, ty, 0)[i];
  }

  /** The storage bit that is bit `m` of memory; none in the gap. */
  function StorageBit(t: Target, repr: Type, m: nat): Option<nat>
    requires ValidTarget(t)
  {
    if m < SizeInBits(t, repr) then Some(m)
    else if m < SizeInBits(t, repr) + Gap(t, repr) then None
    else Some(m - Gap(t, repr))
  }

  lemma MemoryBit(t: Target, repr: Type, tail: nat, c: Content, m: nat)
    requires ValidTarget(t) && ContentOf(t, repr, tail, c) && m < |Memory(t, repr, c)|
    ensures var j := StorageBit(t, repr, m);
            if j.None? then Memory(t, repr, c)[m] == None
            else j.value < |Concat(c.Words())| && Memory(t, repr, c)[m] == Some(Concat(c.Words())[j.value])
  {
    hide SizeInBits, AllocSize;
    assert c.Words()[1..] == c.tail && Concat(c.Words()) == c.head + Concat(c.tail);
  }

  /** If a place is not moved to `m`, its first or its last bit is not. */
  lemma FirstOrLastIsNot(t: Target, repr: Type, at: nat, bits: nat, m: nat) returns (b: nat)
    requires ValidTarget(t) && bits > 0 && !MovedTo(t, repr, at, bits, m)
    ensures b < bits && StorageBit(t, repr, m + b) != Some(at + b)
  {
    hide SizeInBits, Gap;
    b := if StorageBit(t, repr, m) != Some(at) then 0 else bits - 1;
  }

  /** Then a value that has only that bit is not found from `m` on. */
  lemma MisplacedLeaf(t: Target, repr: Type, tail: nat, ty: Type, i: nat, m: nat) returns (value: Value, c: Content)
    requires ValidTarget(t) && WalkBits(t, ty) <= Total(StorageWidths(t, repr, tail)) && i < |Spans(t, ty, 0)|
    requires var s := Spans(t, ty, 0)[i]; !MovedTo(t, repr, s.at, s.bits, m)
    ensures IsStoredAs(t, repr, tail, ty, value, c) && !LeafInMemory(t, repr, value, c, i, m)
  {
    hide Spans, Filling, Typed, WalkBits, Serialized, Leaves, End, SizeInBits, Gap, StorageBit, StorageWidths, Memory;
    hide Holds, ContentOf;
    var span := Spans(t, ty, 0)[i];
    var b := FirstOrLastIsNot(t, repr, span.at, span.bits, m);
    var k := span.at + b;
    var f: nat -> bool := j => j == k;
    value := Filling(t, ty, 0, f);
    FillingIsTyped(t, ty, 0, f);
    FillingHoldsPattern(t, ty, 0, f);
    WalkEnds(t, ty, value, 0);
    c := ContentWith(t, repr, tail, value);
    LeafSpan(t, ty, value, i);
    if LeafInMemory(t, repr, value, c, i, m) {
      var p, memory, j := Leaves(value, 0)[i], Memory(t, repr, c), StorageBit(t, repr, m + b);
      assert memory[m..m + |p.bits|][b] == memory[m + b] && Known(p.bits)[b] == Some(f(k));
      MemoryBit(t, repr, tail, c, m + b);
      if j.Some? {
        OnlyBit(t, ty, f, k, c, j.value);
      }
    }
  }

  lemma OnlyBit(t: Target, ty: Type, f: nat -> bool, k: nat, c: Content, j: nat)
    requires ValidTarget(t) && Aligned(Filling(t, ty, 0, f)) && Holds(c.Words(), Serialized(Filling(t, ty, 0, f), []))
    requires (forall x: nat :: f(x) <==> x == k) && j != k && j < |Concat(c.Words())|
    ensures !Concat(c.Words())[j]
  {
    hide Filling, Serialized, Concat;
    var s := Serialized(Filling(t, ty, 0, f), []);
    if j < |s| {
      FillingStaysInPattern(t, ty, f, j);
    }
  }

  lemma PlacedLeaf(t: Target, repr: Type, tail: nat, ty: Type, i: nat, m: nat, value: Value, c: Content)
    requires ValidTarget(t) && i < |Spans(t, ty, 0)| && IsStoredAs(t, repr, tail, ty, value, c)
    requires var s := Spans(t, ty, 0)[i]; MovedTo(t, repr, s.at, s.bits, m)
    ensures LeafInMemory(t, repr, value, c, i, m)
  {
    hide Spans, Typed, Serialized, Leaves, Memory, Holds, InMemory, MovedTo;
    LeafSpan(t, ty, value, i);
    ContentIsStored(t, repr, c, value);
  }

  /**
   Whatever the member's value, its leaf is in memory from bit `m` on, if and only if the leaf's place in the
   storage is moved there: `m` is the place itself, in the head's own bits or without a gap, or the place plus the gap.
   */
  lemma LeafInMemoryIff(t: Target, repr: Type, tail: nat, ty: Type, i: nat, m: nat)
    requires ValidTarget(t) && WalkBits(t, ty) <= Total(StorageWidths(t, repr, tail)) && i < |Spans(t, ty, 0)|
    ensures (forall value, c :: IsStoredAs(t, repr, tail, ty, value, c) ==> LeafInMemory(t, repr, value, c, i, m)) <==>
            MovedTo(t, repr, Spans(t, ty, 0)[i].at, Spans(t, ty, 0)[i].bits, m)
  {
    hide Spans, WalkBits, StorageWidths, MovedTo, LeafInMemory;
    var s := Spans(t, ty, 0)[i];
    if MovedTo(t, repr, s.at, s.bits, m) {
      forall value, c | IsStoredAs(t, repr, tail, ty, value, c)
        ensures LeafInMemory(t, repr, value, c, i, m)
      {
        PlacedLeaf(t, repr, tail, ty, i, m, value, c);
      }
    } else {
      var value, c := MisplacedLeaf(t, repr, tail, ty, i, m);
    }
  }

  // ----- reading a member by its own layout -----

  /** Reading the type's leaves from memory, where the data layout has them, gives the leaves of the value. */
  ghost predicate ReadAsType(t: Target, ty: Type, repr: Type, c: Content, value: Value)
    requires ValidTarget(t) && Aligned(value)
  {
    var at := LayoutOffsets(t, ty, 0);
    |at| == |Leaves(value, 0)| && forall i :: 0 <= i < |at| ==> LeafInMemory(t, repr, value, c, i, at[i])
  }

  /** Storing moves every leaf to where the layout has it. */
  predicate MovesToLayout(t: Target, repr: Type, ty: Type)
    requires ValidTarget(t)
  {
    var at, spans := LayoutOffsets(t, ty, 0), Spans(t, ty, 0);
    |at| == |spans| && forall i :: 0 <= i < |spans| ==> MovedTo(t, repr, spans[i].at, spans[i].bits, at[i])
  }

  lemma {:induction false} OneOffsetEach(t: Target, ty: Type, base: nat, offset: nat)
    requires ValidTarget(t)
    ensures |LayoutOffsets(t, ty, base)| == |Spans(t, ty, offset)|
    decreases ty, 0, 0
  {
    var start := Start(t, ty, offset);
    match ty
    case Vec(n, elt) => OneOffsetPerElement(t, elt, n, base, LayoutStride(t, ty), start);
    case Arr(n, elt) => OneOffsetPerElement(t, elt, n, base, LayoutStride(t, ty), start);
    case Struct(fields) => OneOffsetPerField(t, fields, base, 0, start);
    case _ =>
  }

  lemma {:induction false} OneOffsetPerElement(t: Target, elt: Type, n: nat, base: nat, stride: nat, offset: nat)
    requires ValidTarget(t)
    ensures |RepeatedOffsets(t, elt, n, base, stride)| == |ElementSpans(t, elt, n, offset)|
    decreases elt, 1, n
  {
    hide ValidTarget, LayoutOffsets, Spans, After;
    if n > 0 {
      OneOffsetEach(t, elt, base, offset);
      OneOffsetPerElement(t, elt, n - 1, base + stride, stride, After(t, elt, offset));
    }
  }

  lemma {:induction false} OneOffsetPerField(t: Target, fields: seq<Type>, base: nat, size: nat, offset: nat)
    requires ValidTarget(t)
    ensures |FieldOffsets(t, fields, base, size)| == |FieldSpans(t, fields, offset)|
    decreases fields, 0, 0
  {
    hide ValidTarget, LayoutOffsets, Spans, After, FieldStart, AllocSize;
    if fields != [] {
      var start := FieldStart(t, fields[0], size);
      OneOffsetEach(t, fields[0], base + start * 8, offset);
      OneOffsetPerField(t, fields[1..], base, start + AllocSize(t, fields[0]), After(t, fields[0], offset));
    }
  }

  lemma OneLeafEach(t: Target, ty: Type, value: Value)
    requires ValidTarget(t) && Typed(t, ty, value) && Aligned(value)
    ensures |LayoutOffsets(t, ty, 0)| == |Spans(t, ty, 0)| == |Leaves(value, 0)|
  {
    hide LayoutOffsets, Spans, Leaves, Typed;
    OneOffsetEach(t, ty, 0, 0);
    LeavesHaveSpans(t, ty, value, 0);
  }

  /** Every value of the member reads back by the member's own layout if and only if storing moves its leaves there. */
  lemma ReadAsTypeIff(t: Target, repr: Type, tail: nat, ty: Type)
    requires ValidTarget(t) && WalkBits(t, ty) <= Total(StorageWidths(t, repr, tail))
    ensures (forall value, c :: IsStoredAs(t, repr, tail, ty, value, c) ==> ReadAsType(t, ty, repr, c, value)) <==>
            MovesToLayout(t, repr, ty)
  {
    hide WalkBits, StorageWidths, MovedTo, Spans, LayoutOffsets, LeafInMemory, Typed, Leaves;
    var at, spans := LayoutOffsets(t, ty, 0), Spans(t, ty, 0);
    OneOffsetEach(t, ty, 0, 0);
    if MovesToLayout(t, repr, ty) {
      forall value, c | IsStoredAs(t, repr, tail, ty, value, c)
        ensures ReadAsType(t, ty, repr, c, value)
      {
        ReadsAsType(t, repr, tail, ty, value, c);
      }
    } else {
      var i :| 0 <= i < |spans| && !MovedTo(t, repr, spans[i].at, spans[i].bits, at[i]);
      var value, c := MisplacedLeaf(t, repr, tail, ty, i, at[i]);
      assert !ReadAsType(t, ty, repr, c, value);
    }
  }

  lemma ReadsAsType(t: Target, repr: Type, tail: nat, ty: Type, value: Value, c: Content)
    requires ValidTarget(t) && MovesToLayout(t, repr, ty) && IsStoredAs(t, repr, tail, ty, value, c)
    ensures ReadAsType(t, ty, repr, c, value)
  {
    hide MovedTo, Spans, LayoutOffsets, LeafInMemory, Typed, Leaves, Holds, ContentOf, Serialized;
    var at := LayoutOffsets(t, ty, 0);
    OneLeafEach(t, ty, value);
    forall i | 0 <= i < |at|
      ensures LeafInMemory(t, repr, value, c, i, at[i])
    {
      PlacedLeaf(t, repr, tail, ty, i, at[i], value, c);
    }
  }

  /** It does for every type that absorbs its padding, under a representative that fills its alloc size. */
  lemma AbsorbedMovesToLayout(t: Target, repr: Type, ty: Type)
    requires ValidTarget(t) && Plain(t, ty) && Absorbed(t, ty) && Gap(t, repr) == 0
    ensures MovesToLayout(t, repr, ty)
  {
    hide Plain, Absorbed, Spans, LayoutOffsets, Typed, Leaves, Gap, Filling;
    var v := Filling(t, ty, 0, _ => false);
    FillingIsTyped(t, ty, 0, _ => false);
    WalkMatchesLayoutIff(t, ty, v, 0);
    StartsAtZero(v.align);
    OneLeafEach(t, ty, v);
    LeavesHaveSpans(t, ty, v, 0);
    var at, spans := LayoutOffsets(t, ty, 0), Spans(t, ty, 0);
    forall i | 0 <= i < |spans|
      ensures spans[i].at == at[i]
    {
      LeafSpan(t, ty, v, i);
      assert Starts(Leaves(v, 0))[i] == Leaves(v, 0)[i].at;
    }
  }

  lemma StartsAtZero(align: nat)
    requires align >= 1
    ensures AlignTo(0, align * 8) == 0
  {
  }

  /**
   Lower a union and store a value of one of its members.  Apart from an empty payload or a representative that is
   too large, it succeeds exactly when the member's bits fit the storage; every leaf is then at its place, in memory
   where that place is moved to, and where the member's own layout has it if storing moves the leaves there.
   */
  method StoreMember(t: Target, members: seq<Member>, trueAlign: Option<nat>, which: nat, value: Value)
      returns (r: Option<Content>, payload: nat, repr: Type)
    requires ValidTarget(t) && ByteAligned(t) && which < |members| && Typed(t, members[which].llvm, value)
    ensures IsPayload(t, members, payload)
    ensures exists base :: BestOffer(t, members, base) && repr == Widened(t, base, trueAlign)
    ensures r.Some? <==>
            && payload > 0 && AllocSize(t, repr) <= payload
            && WalkBits(t, members[which].llvm) + Gap(t, repr) <= 8 * payload
    ensures Aligned(value)
    ensures r.Some? ==>
              && IsStoredAs(t, repr, payload - AllocSize(t, repr), members[which].llvm, value, r.value)
              && Stored(t, repr, r.value, value)
              && (MovesToLayout(t, repr, members[which].llvm) ==>
                    ReadAsType(t, members[which].llvm, repr, r.value, value))
  {
    hide *;
    var ty := members[which].llvm;
    TypedIsAligned(t, ty, value);
    var lowered, base;
    lowered, payload, base := LowerUnion(t, members, trueAlign);
    repr := Widened(t, base, trueAlign);
    if payload == 0 || lowered.None? {
      return None, payload, repr;
    }
    var tail := payload - AllocSize(t, repr);
    StorageFitsIff(t, repr, payload, ty, value);
    GapIs(t, repr);
    if End(value, 0) > Total(StorageWidths(t, repr, tail)) {
      return None, payload, repr;
    }
    var content := MaterializeUnion(t, repr, tail, value);
    r := Some(content);
    IsStored(t, repr, tail, ty, value, content);
    if MovesToLayout(t, repr, ty) {
      ReadsAsType(t, repr, tail, ty, value, content);
    }
  }

  lemma GapIs(t: Target, repr: Type)
    requires ValidTarget(t)
    ensures Gap(t, repr) == 8 * AllocSize(t, repr) - SizeInBits(t, repr)
  {
    hide AllocSize, SizeInBits;
  }

  lemma IsStored(t: Target, repr: Type, tail: nat, ty: Type, value: Value, c: Content)
    requires ValidTarget(t) && Typed(t, ty, value) && Aligned(value)
    requires ContentOf(t, repr, tail, c) && Holds(c.Words(), Serialized(value, []))
    ensures IsStoredAs(t, repr, tail, ty, value, c)
  {
  }
}
