/**
 Fixed-width integers as sequences of bits, least significant first, with the operations the
 lowered code and the constant folder use on them.
 */
module Bits {

  type Word = seq<bool>

  type Byte = b: int | 0 <= b < 256

  function Zeros(n: nat): (w: Word)
    ensures |w| == n && forall i :: 0 <= i < n ==> !w[i]
  {
    seq(n, _ => false)
  }

  function LShr(w: Word, k: nat): (r: Word)
    ensures |r| == |w|
    ensures forall i :: 0 <= i < |w| ==> r[i] == (i + k < |w| && w[i + k])
  {
    seq(|w|, i requires 0 <= i < |w| => i + k < |w| && w[i + k])
  }

  function Shl(w: Word, k: nat): (r: Word)
    ensures |r| == |w|
    ensures forall i :: 0 <= i < |w| ==> r[i] == (i >= k && w[i - k])
  {
    seq(|w|, i requires 0 <= i < |w| => i >= k && w[i - k])
  }

  function Or(a: Word, b: Word): (r: Word)
    requires |a| == |b|
    ensures |r| == |a|
    ensures forall i :: 0 <= i < |a| ==> r[i] == (a[i] || b[i])
  {
    seq(|a|, i requires 0 <= i < |a| => a[i] || b[i])
  }

  function ZExt(w: Word, width: nat): (r: Word)
    requires |w| <= width
    ensures |r| == width
  {
    w + Zeros(width - |w|)
  }

  function Trunc(w: Word, width: nat): (r: Word)
    requires width <= |w|
    ensures |r| == width
  {
    w[..width]
  }

  function ExtractBits(w: Word, count: nat, at: nat): (r: Word)
    requires at + count <= |w|
    ensures |r| == count
  {
    w[at..at + count]
  }

  /** The words laid end to end. */
  function Concat(words: seq<Word>): Word {
    if words == [] then [] else words[0] + Concat(words[1..])
  }

  lemma {:induction false} ConcatAppend(a: seq<Word>, b: seq<Word>)
    ensures Concat(a + b) == Concat(a) + Concat(b)
    decreases |a|
  {
    if a == [] {
      assert a + b == b;
    } else {
      assert (a + b)[1..] == a[1..] + b;
      ConcatAppend(a[1..], b);
    }
  }

  lemma ConcatOne(w: Word)
    ensures Concat([w]) == w
  {
    assert [w][1..] == [];
  }

  lemma ConcatSplit(words: seq<Word>, i: nat)
    requires i < |words|
    ensures Concat(words) == Concat(words[..i]) + words[i] + Concat(words[i + 1..])
    ensures Concat(words[..i + 1]) == Concat(words[..i]) + words[i]
  {
    hide Concat;
    ConcatSplitPrefix(words, i);
    assert words == words[..i + 1] + words[i + 1..];
    ConcatAppend(words[..i + 1], words[i + 1..]);
  }

  lemma ConcatSplitPrefix(words: seq<Word>, i: nat)
    requires i < |words|
    ensures Concat(words[..i + 1]) == Concat(words[..i]) + words[i]
  {
    hide Concat;
    assert words[..i + 1] == words[..i] + [words[i]];
    ConcatAppend(words[..i], [words[i]]);
    ConcatOne(words[i]);
  }
}
