/**
 Packing a value tree into the storage words of a lowered union: leaves are written one after
 the other, each at its alignment, across words of whatever widths the representative gives.
 */
module VariantPacker {
  import opened Bits
  import opened Alignment

  /** A leaf with its bits, or an array, struct or vector of values; both with the ABI alignment in bytes. */
  datatype Value = Leaf(align: nat, bits: Word) | Aggregate(align: nat, parts: seq<Value>)

  predicate Aligned(v: Value) {
    v.align >= 1 && (v.Aggregate? ==> forall p <- v.parts :: Aligned(p))
  }

  // ----- the specification: an append-only bit string -----

  function Padded(done: Word, align: nat): (r: Word)
    requires align >= 1
    ensures done <= r && |r| == AlignTo(|done|, align * CHAR_BIT)
  {
    done + Zeros(AlignTo(|done|, align * CHAR_BIT) - |done|)
  }

  /** What the storage holds, up to its last bit written, once `v` has been put after `done`. */
  function Serialized(v: Value, done: Word): (r: Word)
    requires Aligned(v)
    ensures done <= r
    decreases v, 1
  {
    match v
    case Leaf(align, bits) => Padded(done, align) + bits
    case Aggregate(align, parts) => SerializedAll(parts, Padded(done, align))
  }

  function SerializedAll(parts: seq<Value>, done: Word): (r: Word)
    requires forall p <- parts :: Aligned(p)
    ensures done <= r
    decreases parts, 0
  {
    if parts == [] then done else SerializedAll(parts[1..], Serialized(parts[0], done))
  }

  // ----- one word -----

  /** Bits `from..` of `value`, brought to the width of a word and moved to `at`: lshr, zext or trunc, shl, or. */
  function OrInto(word: Word, at: nat, value: Word, from: nat): (r: Word)
    ensures |r| == |word|
  {
    var shifted := LShr(value, from);
    var resized := if |value| < |word| then ZExt(shifted, |word|) else Trunc(shifted, |word|);
    Or(word, Shl(resized, at))
  }

  function Min(a: nat, b: nat): nat { if a <= b then a else b }

  /** Or-ing onto zeros stores as many bits as fit, and nothing else. */
  lemma OrIntoZeros(head: Word, room: nat, value: Word, from: nat)
    requires from <= |value|
    ensures var n := Min(|value| - from, room);
            OrInto(head + Zeros(room), |head|, value, from) ==
            head + value[from..from + n] + Zeros(room - n)
  {
    var word := head + Zeros(room);
    var shifted := LShr(value, from);
    var resized := if |value| < |word| then ZExt(shifted, |word|) else Trunc(shifted, |word|);
    var moved := Shl(resized, |head|);
    var n := Min(|value| - from, room);
    var expected := head + value[from..from + n] + Zeros(room - n);
    forall i | 0 <= i < |word|
      ensures Or(word, moved)[i] == expected[i]
    {
      if i < |head| {
        assert !moved[i];
      } else {
        var k := i - |head|;
        assert !word[i] && moved[i] == resized[k];
        assert k < |value| ==> resized[k] == shifted[k];
        assert k >= |value| ==> !resized[k];
      }
    }
  }

  // ----- the storage -----

  /** The words hold `done`, and zeros after it. */
  predicate Holds(words: seq<Word>, done: Word) {
    |done| <= |Concat(words)| && Concat(words) == done + Zeros(|Concat(words)| - |done|)
  }

  /** The iterator and the offset into its word name bit `pos` of the storage. */
  predicate Names(words: seq<Word>, it: nat, storageOffset: nat, pos: nat) {
    && it <= |words|
    && (storageOffset == 0 || (it < |words| && storageOffset < |words[it]|))
    && |Concat(words[..it])| + storageOffset == pos
  }

  lemma StoreIntoWord(words: seq<Word>, it: nat, storageOffset: nat, done: Word, value: Word, from: nat)
    requires Holds(words, done) && Names(words, it, storageOffset, |done|) && it < |words| && from <= |value|
    ensures var n := Min(|value| - from, |words[it]| - storageOffset);
            var words' := words[it := OrInto(words[it], storageOffset, value, from)];
            && |Concat(words')| == |Concat(words)| && |done| + n <= |Concat(words)|
            && Holds(words', done + value[from..from + n])
            && Names(words', it, storageOffset, |done|)
  {
    hide Concat, OrInto;
    var word, room := words[it], |words[it]| - storageOffset;
    var before, after := Concat(words[..it]), Concat(words[it + 1..]);
    ConcatSplit(words, it);
    var head := word[..storageOffset];
    SplitHeld(done, |Concat(words)|, before, word, after, storageOffset);
    OrIntoZeros(head, room, value, from);
    var words' := words[it := OrInto(word, storageOffset, value, from)];
    ConcatSplit(words', it);
    assert words'[..it] == words[..it] && words'[it + 1..] == words[it + 1..];
    var n := Min(|value| - from, room);
    JoinHeld(done, before, head, value[from..from + n], room - n, |after|);
  }

  /** Where the words are cut, the held bits and the zeros are cut too. */
  lemma SplitHeld(done: Word, total: nat, before: Word, word: Word, after: Word, at: nat)
    requires |done| <= total && before + word + after == done + Zeros(total - |done|)
    requires at <= |word| && |before| + at == |done|
    ensures word == word[..at] + Zeros(|word| - at) && after == Zeros(|after|)
    ensures done == before + word[..at]
  {
    var all := done + Zeros(total - |done|);
    assert before == all[..|before|] && word == all[|before|..|before| + |word|];
    assert after == all[|before| + |word|..];
    assert done == all[..|done|] && before + word[..at] == all[..|done|];
  }

  lemma JoinHeld(done: Word, before: Word, head: Word, piece: Word, room: nat, rest: nat)
    requires done == before + head
    ensures before + (head + piece + Zeros(room)) + Zeros(rest) == (done + piece) + Zeros(room + rest)
  {
  }

  /** The same number of words, of the same widths. */
  predicate SameWidths(a: seq<Word>, b: seq<Word>) {
    |a| == |b| && forall i :: 0 <= i < |a| ==> |a[i]| == |b[i]|
  }

  class Packer {
    var words: seq<Word>
    var it: nat
    var storageOffset: nat
    var offset: nat

    /** Bits before the iterator, plus `storageOffset`, are the bits held so far. */
    ghost predicate Valid(done: Word)
      reads this
    {
      Holds(words, done) && Names(words, it, storageOffset, |done|)
    }

    ghost function Capacity(): nat
      reads this
    {
      |Concat(words)|
    }

    constructor (widths: seq<nat>)
      ensures Valid([]) && offset == 0
      ensures |words| == |widths| && forall i :: 0 <= i < |widths| ==> |words[i]| == widths[i]
    {
      words := seq(|widths|, i requires 0 <= i < |widths| => Zeros(widths[i]));
      it, storageOffset, offset := 0, 0, 0;
      new;
      assert forall i :: 0 <= i < |words| ==> words[i] == Zeros(widths[i]);
      ConcatOfZeros(words);
    }

    /** Move on by at most `amt` bits, not beyond the end of the current word, but past a word without bits. */
    method Advance(amt: nat, ghost pos: nat) returns (advanceBy: nat)
      requires Names(words, it, storageOffset, pos) && it < |words|
      modifies this`it, this`storageOffset
      ensures advanceBy == Min(amt, |words[old(it)]| - old(storageOffset))
      ensures Names(words, it, storageOffset, pos + advanceBy)
      ensures advanceBy == 0 && amt > 0 ==> it > old(it)
    {
      hide Concat;
      ConcatSplit(words, it);
      var size := |words[it]|;
      advanceBy := Min(amt, size - storageOffset);
      storageOffset := storageOffset + advanceBy;
      if storageOffset == size {
        it, storageOffset := it + 1, 0;
      }
    }

    method AddPadding(align: nat, ghost done: Word)
      requires Valid(done) && align >= 1 && offset == |done| && |Padded(done, align)| <= Capacity()
      modifies this`it, this`storageOffset, this`offset
      ensures Valid(Padded(done, align)) && offset == |Padded(done, align)|
    {
      hide Concat, Holds, Padded, AlignTo;
      var padding := AlignTo(offset, align * CHAR_BIT) - offset;
      var added := 0;
      while added != padding
        invariant 0 <= added <= padding && offset == |done|
        invariant Names(words, it, storageOffset, |done| + added)
        decreases padding - added, |words| - it
      {
        NotAtEnd(words, it, storageOffset, |done| + added);
        var n := Advance(padding - added, |done| + added);
        added := added + n;
      }
      offset := offset + padding;
      HoldsPadded(words, done, align);
    }

    /** Write the bits of a leaf, word by word. */
    method StoreLeaf(bits: Word, ghost done: Word)
      requires Valid(done) && offset == |done| && |done| + |bits| <= Capacity()
      modifies this
      ensures Valid(done + bits) && offset == |done| + |bits| && Capacity() == old(Capacity())
      ensures SameWidths(old(words), words)
    {
      hide Concat, OrInto, Holds;
      offset := offset + |bits|;
      var from := 0;
      assert done + bits[..0] == done;
      while from != |bits|
        invariant 0 <= from <= |bits| && Capacity() == old(Capacity()) && SameWidths(old(words), words)
        invariant Valid(done + bits[..from]) && offset == |done| + |bits|
        decreases |bits| - from, |words| - it
      {
        ghost var held := done + bits[..from];
        NotAtEnd(words, it, storageOffset, |held|);
        StoreIntoWord(words, it, storageOffset, held, bits, from);
        words := words[it := OrInto(words[it], storageOffset, bits, from)];
        var n := Advance(|bits| - from, |held|);
        assert held + bits[from..from + n] == done + bits[..from + n];
        from := from + n;
      }
      assert bits[..from] == bits;
    }

    /** Walk a value and pack its leaves: the storage then holds the serialised value. */
    method Walk(value: Value, ghost done: Word)
      requires Valid(done) && offset == |done| && Aligned(value)
      requires |Serialized(value, done)| <= Capacity()
      modifies this
      ensures Valid(Serialized(value, done)) && offset == |Serialized(value, done)|
      ensures Capacity() == old(Capacity()) && SameWidths(old(words), words)
      decreases value, 1
    {
      AddPadding(value.align, done);
      ghost var padded := Padded(done, value.align);
      match value
      case Leaf(_, bits) =>
        StoreLeaf(bits, padded);
      case Aggregate(_, parts) =>
        WalkAll(parts, padded);
    }

    method WalkAll(parts: seq<Value>, ghost done: Word)
      requires Valid(done) && offset == |done| && forall p <- parts :: Aligned(p)
      requires |SerializedAll(parts, done)| <= Capacity()
      modifies this
      ensures Valid(SerializedAll(parts, done)) && offset == |SerializedAll(parts, done)|
      ensures Capacity() == old(Capacity()) && SameWidths(old(words), words)
      decreases parts, 0
    {
      ghost var held := done;
      for i := 0 to |parts|
        invariant Valid(held) && offset == |held| && Capacity() == old(Capacity()) && SameWidths(old(words), words)
        invariant SerializedAll(parts[i..], held) == SerializedAll(parts, done)
      {
        assert parts[i..][1..] == parts[i + 1..];
        ghost var next := Serialized(parts[i], held);
        assert SerializedAll(parts[i..], held) == SerializedAll(parts[i + 1..], next);
        Walk(parts[i], held);
        held := next;
      }
    }
  }

  lemma HoldsPadded(words: seq<Word>, done: Word, align: nat)
    requires Holds(words, done) && align >= 1 && |Padded(done, align)| <= |Concat(words)|
    ensures Holds(words, Padded(done, align))
  {
    hide Concat, AlignTo;
    var total, padded := |Concat(words)|, Padded(done, align);
    assert done + Zeros(total - |done|) == padded + Zeros(total - |padded|);
  }

  lemma NotAtEnd(words: seq<Word>, it: nat, storageOffset: nat, pos: nat)
    requires Names(words, it, storageOffset, pos) && pos < |Concat(words)|
    ensures it < |words|
  {
    assert words[..|words|] == words;
  }

  lemma {:induction false} ConcatOfZeros(words: seq<Word>)
    requires forall w <- words :: w == Zeros(|w|)
    ensures Concat(words) == Zeros(|Concat(words)|)
    decreases |words|
  {
    if words != [] {
      ConcatOfZeros(words[1..]);
      assert words[0] == Zeros(|words[0]|);
    }
  }
}
