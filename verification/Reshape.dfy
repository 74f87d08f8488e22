/**
 Folding a SIMD bitcast that changes the lane width: lanes are merged or cut up in the target's
 byte order, so that the bits, read in memory order, stay the same string.
 */
module Reshape {
  import opened Options
  import opened Powers
  import opened Alignment
  import opened Bits

  /** The bits of a lane in memory order: least significant first, or most significant first. */
  function View(w: Word, little: bool): (r: Word)
    ensures |r| == |w|
    ensures forall i :: 0 <= i < |w| ==> r[i] == if little then w[i] else w[|w| - 1 - i]
  {
    seq(|w|, i requires 0 <= i < |w| => if little then w[i] else w[|w| - 1 - i])
  }

  /** The whole vector as one bit string. */
  function Flat(lanes: seq<Word>, little: bool): Word {
    if lanes == [] then [] else View(lanes[0], little) + Flat(lanes[1..], little)
  }

  predicate Uniform(lanes: seq<Word>, width: nat) { forall i :: 0 <= i < |lanes| ==> |lanes[i]| == width }

  /** A lane count that a SIMD type may have. */
  predicate ValidLaneCount(n: nat) { IsPow2(n) && n <= 0x8000 }

  lemma {:induction false} FlatAppend(a: seq<Word>, b: seq<Word>, little: bool)
    ensures Flat(a + b, little) == Flat(a, little) + Flat(b, little)
    decreases |a|
  {
    if a == [] {
      assert a + b == b;
    } else {
      assert (a + b)[1..] == a[1..] + b;
      FlatAppend(a[1..], b, little);
    }
  }

  lemma FlatOneMore(lanes: seq<Word>, w: Word, little: bool)
    ensures Flat(lanes + [w], little) == Flat(lanes, little) + View(w, little)
  {
    FlatAppend(lanes, [w], little);
    assert [w][1..] == [] && Flat([w], little) == View(w, little) + Flat([], little);
  }

  // ----- widths -----

  lemma CancelFactor(a: nat, x: nat, y: nat)
    requires a >= 1 && a * x == a * y
    ensures x == y
  {
    if x < y { StepUp(a, x, y); }
    if y < x { StepUp(a, y, x); }
  }

  /** Power-of-two lane counts and equal totals make the narrower width divide the wider. */
  lemma LaneCountsGiveDivisibility(few: nat, wide: nat, many: nat, narrow: nat) returns (q: nat)
    requires IsPow2(few) && IsPow2(many) && few * wide == many * narrow && 1 <= narrow <= wide
    ensures wide == narrow * q && many == few * q && q >= 1
    ensures wide / narrow == q
  {
    assert few >= 1 && many >= 1;
    FewerWhenWider(few, wide, many, narrow);
    q := Pow2Divides(few, many);
    WidthsFollowCounts(few, wide, narrow, q);
  }

  lemma WidthsFollowCounts(few: nat, wide: nat, narrow: nat, q: nat)
    requires few >= 1 && narrow >= 1 && few * wide == (few * q) * narrow
    ensures wide == narrow * q && wide / narrow == q
  {
    assert (few * q) * narrow == few * (narrow * q);
    CancelFactor(few, wide, narrow * q);
    DivModUnique(wide, narrow, q, 0);
  }

  lemma FewerWhenWider(few: nat, wide: nat, many: nat, narrow: nat)
    requires few * wide == many * narrow && 1 <= narrow <= wide && few >= 1
    ensures few <= many
  {
    assert few * (wide - narrow) >= 0;
    assert few * (wide - narrow) == few * wide - narrow * few;
    if many < few { StepUp(narrow, many, few); }
  }

  // ----- one lane -----

  function ShiftFor(little: bool, index: nat, count: nat, width: nat): nat
    requires index < count
  {
    if little then index * width else (count - 1 - index) * width
  }

  lemma ShiftInRange(little: bool, index: nat, count: nat, width: nat)
    requires index < count
    ensures ShiftFor(little, index, count, width) + width <= count * width
    ensures index * width + width <= count * width
    ensures !little ==> ShiftFor(little, index, count, width) == count * width - width - index * width
  {
    var rest := count - 1 - index;
    assert count * width == index * width + width + rest * width;
    assert rest * width >= 0 && index * width >= 0;
  }

  lemma ShiftWhenLittle(index: nat, count: nat, width: nat)
    requires index < count
    ensures ShiftFor(true, index, count, width) == index * width
  {
  }

  /** Or-ing the next lane in carries the merged bits on by one lane. */
  lemma MergeLane(combined: Word, v: Word, shift: nat, at: nat, little: bool, done: Word)
    requires |done| == at && at + |v| <= |combined|
    requires View(combined, little) == done + Zeros(|combined| - at)
    requires shift == if little then at else |combined| - |v| - at
    ensures View(Or(combined, Shl(ZExt(v, |combined|), shift)), little) ==
            done + View(v, little) + Zeros(|combined| - at - |v|)
  {
    hide *;
    var r := Or(combined, Shl(ZExt(v, |combined|), shift));
    MergeBits(combined, v, r, shift, at, little);
    JoinPieces(View(r, little), View(combined, little), done, View(v, little));
  }

  lemma MergeBits(combined: Word, v: Word, r: Word, shift: nat, at: nat, little: bool)
    requires at + |v| <= |combined| == |r|
    requires shift == if little then at else |combined| - |v| - at
    requires r == Or(combined, Shl(ZExt(v, |combined|), shift))
    ensures forall i :: 0 <= i < |combined| ==>
              View(r, little)[i] == (View(combined, little)[i] || (at <= i < at + |v| && View(v, little)[i - at]))
  {
    hide *;
    forall i | 0 <= i < |combined|
      ensures View(r, little)[i] == (View(combined, little)[i] || (at <= i < at + |v| && View(v, little)[i - at]))
    {
      MergeBit(combined, v, shift, at, little, i);
    }
  }

  lemma JoinPieces(r: Word, c: Word, done: Word, m: Word)
    requires |r| == |c| >= |done| + |m| && c == done + Zeros(|c| - |done|)
    requires forall i :: 0 <= i < |r| ==> r[i] == (c[i] || (|done| <= i < |done| + |m| && m[i - |done|]))
    ensures r == done + m + Zeros(|c| - |done| - |m|)
  {
  }

  lemma MergeBit(combined: Word, v: Word, shift: nat, at: nat, little: bool, i: nat)
    requires at + |v| <= |combined| && i < |combined|
    requires shift == if little then at else |combined| - |v| - at
    ensures View(Or(combined, Shl(ZExt(v, |combined|), shift)), little)[i] ==
            (View(combined, little)[i] || (at <= i < at + |v| && View(v, little)[i - at]))
  {
    var k := if little then i else |combined| - 1 - i;
    OrInBit(combined, v, shift, k);
    if shift <= k < shift + |v| {
      assert View(v, little)[i - at] == v[k - shift];
    }
  }

  lemma OrInBit(combined: Word, v: Word, shift: nat, k: nat)
    requires |v| <= |combined| && k < |combined|
    ensures Or(combined, Shl(ZExt(v, |combined|), shift))[k] ==
            (combined[k] || (shift <= k < shift + |v| && v[k - shift]))
  {
    var wide := ZExt(v, |combined|);
    if k >= shift {
      assert wide[k - shift] == (k - shift < |v| && v[k - shift]);
    }
  }

  /** A chunk cut out of a lane is the matching piece of the lane's bit string. */
  lemma CutChunk(value: Word, width: nat, chunk: nat, bitPos: nat, little: bool)
    requires chunk + width <= |value|
    requires bitPos == if little then chunk else |value| - width - chunk
    ensures View(ExtractBits(value, width, bitPos), little) == View(value, little)[chunk..chunk + width]
  {
  }

  // ----- the same without the bit order: significance alone -----

  function Reversed<T>(s: seq<T>): (r: seq<T>)
    ensures |r| == |s| && forall i :: 0 <= i < |s| ==> r[i] == s[|s| - 1 - i]
  {
    seq(|s|, i requires 0 <= i < |s| => s[|s| - 1 - i])
  }

  lemma {:induction false} FlatLittle(lanes: seq<Word>)
    ensures Flat(lanes, true) == Concat(lanes)
    decreases |lanes|
  {
    if lanes != [] {
      FlatLittle(lanes[1..]);
      assert View(lanes[0], true) == lanes[0];
    }
  }

  lemma {:induction false} FlatBig(lanes: seq<Word>)
    ensures Reversed(Flat(lanes, false)) == Concat(Reversed(lanes))
    decreases |lanes|
  {
    if lanes == [] {
      assert Reversed(lanes) == [];
    } else {
      var first, rest := lanes[0], lanes[1..];
      FlatBig(rest);
      assert Reversed(lanes) == Reversed(rest) + [first];
      ConcatAppend(Reversed(rest), [first]);
      ConcatOne(first);
      assert Reversed(View(first, false)) == first;
      ReversedConcat(View(first, false), Flat(rest, false));
    }
  }

  lemma ReversedConcat(a: Word, b: Word)
    ensures Reversed(a + b) == Reversed(b) + Reversed(a)
  {
  }

  /** Little endian, the first lane is the least significant part; big endian, the last is. */
  lemma FlatIsConcat(lanes: seq<Word>, whole: Word, little: bool)
    requires View(whole, little) == Flat(lanes, little)
    ensures whole == Concat(if little then lanes else Reversed(lanes))
  {
    if little {
      FlatLittle(lanes);
      assert View(whole, true) == whole;
    } else {
      FlatBig(lanes);
      assert Reversed(View(whole, false)) == whole;
    }
  }

  // ----- the fold -----

  /** Same bits, `size` lanes of `width`. */
  predicate IsReshape(from: seq<Word>, to: seq<Word>, width: nat, size: nat, little: bool) {
    |to| == size && Uniform(to, width) && Flat(to, little) == Flat(from, little)
  }

  /** One output lane out of `count` input lanes. */
  method MergeLanes(lanes: seq<Word>, width: nat, outWidth: nat, little: bool) returns (combined: Word)
    requires Uniform(lanes, width) && |lanes| * width == outWidth
    ensures |combined| == outWidth && View(combined, little) == Flat(lanes, little)
    ensures combined == Concat(if little then lanes else Reversed(lanes))
  {
    hide Flat, ShiftFor;
    combined := Zeros(outWidth);
    var count := |lanes|;
    FlatOfNone(little);
    assert View(combined, little) == [] + Zeros(outWidth);
    ghost var done, at: nat := [], 0;
    for i := 0 to count
      invariant |combined| == outWidth && |done| == at == i * width <= outWidth
      invariant done == Flat(lanes[..i], little) && View(combined, little) == done + Zeros(outWidth - at)
    {
      var shift := ShiftFor(little, i, count, width);
      ShiftInRange(little, i, count, width);
      ShiftWhenLittle(i, count, width);
      MergeLane(combined, lanes[i], shift, at, little, done);
      combined := Or(combined, Shl(ZExt(lanes[i], outWidth), shift));
      assert lanes[..i + 1] == lanes[..i] + [lanes[i]];
      FlatOneMore(lanes[..i], lanes[i], little);
      done, at := done + View(lanes[i], little), at + width;
      OneMoreTimes(i, width);
    }
    assert lanes[..count] == lanes && done + Zeros(0) == done;
    FlatIsConcat(lanes, combined, little);
  }

  /** The `count` output lanes that one input lane is cut into. */
  method CutLane(value: Word, width: nat, count: nat, little: bool) returns (lanes: seq<Word>)
    requires |value| == count * width
    ensures |lanes| == count && Uniform(lanes, width) && Flat(lanes, little) == View(value, little)
    ensures Concat(if little then lanes else Reversed(lanes)) == value
  {
    hide Flat, ExtractBits, ShiftFor;
    lanes := [];
    FlatOfNone(little);
    ghost var at := 0;
    ghost var whole := View(value, little);
    for i := 0 to count
      invariant |lanes| == i && Uniform(lanes, width) && at == i * width <= |value|
      invariant Flat(lanes, little) == whole[..at]
    {
      var bitPos := ShiftFor(little, i, count, width);
      ShiftInRange(little, i, count, width);
      ShiftWhenLittle(i, count, width);
      CutChunk(value, width, at, bitPos, little);
      var piece := ExtractBits(value, width, bitPos);
      FlatOneMore(lanes, piece, little);
      assert whole[..at] + whole[at..at + width] == whole[..at + width];
      lanes, at := lanes + [piece], at + width;
      OneMoreTimes(i, width);
    }
    assert whole[..at] == whole;
    FlatIsConcat(lanes, value, little);
  }

  /** Fold the reshape: refused when the totals differ, otherwise the same bits in lanes of the new width. */
  method Fold(values: seq<Word>, inWidth: nat, outWidth: nat, outSize: nat, little: bool)
      returns (r: Option<seq<Word>>)
    requires Uniform(values, inWidth) && inWidth >= 1 && outWidth >= 1
    requires ValidLaneCount(|values|) && ValidLaneCount(outSize)
    ensures r.Some? <==> |values| * inWidth == outSize * outWidth
    ensures r.Some? ==> IsReshape(values, r.value, outWidth, outSize, little)
  {
    hide Flat, IsPow2;
    var inSize := |values|;
    if inSize * inWidth != outSize * outWidth {
      return None;
    }
    var out: seq<Word> := [];
    if inWidth < outWidth {
      var perOutput := outWidth / inWidth;
      ghost var q := LaneCountsGiveDivisibility(outSize, outWidth, inSize, inWidth);
      assert inWidth * q == q * inWidth;
      out := MergeAll(values, inWidth, outWidth, outSize, perOutput, little);
    } else {
      var numChunks := inWidth / outWidth;
      ghost var q := LaneCountsGiveDivisibility(inSize, inWidth, outSize, outWidth);
      assert outWidth * q == q * outWidth;
      out := CutAll(values, inWidth, outWidth, numChunks, little);
    }
    r := Some(out);
  }

  method MergeAll(values: seq<Word>, inWidth: nat, outWidth: nat, outSize: nat, perOutput: nat, little: bool)
      returns (out: seq<Word>)
    requires Uniform(values, inWidth) && |values| == outSize * perOutput && perOutput * inWidth == outWidth
    ensures IsReshape(values, out, outWidth, outSize, little)
  {
    hide Flat, View;
    out := [];
    FlatOfNone(little);
    var lo := 0;
    for o := 0 to outSize
      invariant |out| == o && Uniform(out, outWidth) && lo == o * perOutput <= |values|
      invariant Flat(out, little) == Flat(values[..lo], little)
    {
      ShiftInRange(true, o, outSize, perOutput);
      var group := values[lo..lo + perOutput];
      var combined := MergeLanes(group, inWidth, outWidth, little);
      FlatOneMore(out, combined, little);
      assert values[..lo + perOutput] == values[..lo] + group;
      FlatAppend(values[..lo], group, little);
      out, lo := out + [combined], lo + perOutput;
      OneMoreTimes(o, perOutput);
    }
    assert values[..lo] == values;
  }

  lemma OneMoreTimes(n: nat, k: nat)
    ensures (n + 1) * k == n * k + k
  {
  }

  lemma FlatOfNone(little: bool)
    ensures Flat([], little) == []
  {
  }

  method CutAll(values: seq<Word>, inWidth: nat, outWidth: nat, numChunks: nat, little: bool)
      returns (out: seq<Word>)
    requires Uniform(values, inWidth) && numChunks * outWidth == inWidth
    ensures IsReshape(values, out, outWidth, |values| * numChunks, little)
  {
    hide Flat, View;
    out := [];
    FlatOfNone(little);
    for i := 0 to |values|
      invariant |out| == i * numChunks && Uniform(out, outWidth)
      invariant Flat(out, little) == Flat(values[..i], little)
    {
      var pieces := CutLane(values[i], outWidth, numChunks, little);
      FlatAppend(out, pieces, little);
      assert values[..i + 1] == values[..i] + [values[i]];
      FlatOneMore(values[..i], values[i], little);
      out := out + pieces;
      OneMoreTimes(i, numChunks);
    }
    assert values[..|values|] == values;
  }

  // ----- reshaping is determined by the bits -----

  lemma ViewInjective(a: Word, b: Word, little: bool)
    requires View(a, little) == View(b, little)
    ensures a == b
  {
    forall i | 0 <= i < |a|
      ensures |b| == |a| && a[i] == b[i]
    {
      var k := if little then i else |a| - 1 - i;
      assert View(a, little)[k] == a[i] && View(b, little)[k] == b[i];
    }
  }

  /** Lanes of one width are known from their bit string. */
  lemma {:induction false} FlatInjective(a: seq<Word>, b: seq<Word>, width: nat, little: bool)
    requires |a| == |b| && Uniform(a, width) && Uniform(b, width) && Flat(a, little) == Flat(b, little)
    ensures a == b
    decreases |a|
  {
    if a != [] {
      hide View;
      assert View(a[0], little) == Flat(a, little)[..width] && View(b[0], little) == Flat(b, little)[..width];
      assert Flat(a[1..], little) == Flat(a, little)[width..] && Flat(b[1..], little) == Flat(b, little)[width..];
      ViewInjective(a[0], b[0], little);
      FlatInjective(a[1..], b[1..], width, little);
    }
  }

  /** Reshaping out and back is the identity. */
  lemma ThereAndBack(lanes: seq<Word>, width: nat, there: seq<Word>, midWidth: nat, midSize: nat,
                     back: seq<Word>, little: bool)
    requires Uniform(lanes, width) && IsReshape(lanes, there, midWidth, midSize, little)
    requires IsReshape(there, back, width, |lanes|, little)
    ensures back == lanes
  {
    hide Flat;
    FlatInjective(back, lanes, width, little);
  }

  /** Reshaping by way of a middle width is reshaping directly. */
  lemma ThroughTheMiddle(lanes: seq<Word>, mid: seq<Word>, midWidth: nat, midSize: nat,
                         out: seq<Word>, direct: seq<Word>, width: nat, size: nat, little: bool)
    requires IsReshape(lanes, mid, midWidth, midSize, little)
    requires IsReshape(mid, out, width, size, little) && IsReshape(lanes, direct, width, size, little)
    ensures out == direct
  {
    hide Flat;
    FlatInjective(out, direct, width, little);
  }

  // ----- the fold itself, there and back -----

  /** Fold to lanes of another width and back: refused when the totals differ, otherwise the same lanes. */
  method FoldThereAndBack(values: seq<Word>, width: nat, midWidth: nat, midSize: nat, little: bool)
      returns (back: Option<seq<Word>>)
    requires Uniform(values, width) && width >= 1 && midWidth >= 1
    requires ValidLaneCount(|values|) && ValidLaneCount(midSize)
    ensures back == if |values| * width == midSize * midWidth then Some(values) else None
  {
    hide Flat, ValidLaneCount;
    var there := Fold(values, width, midWidth, midSize, little);
    if there.None? {
      return None;
    }
    back := Fold(there.value, midWidth, width, |values|, little);
    ThereAndBack(values, width, there.value, midWidth, midSize, back.value, little);
  }

  /** Fold by way of a middle width: where that is not refused, it is the direct fold. */
  method FoldThroughTheMiddle(values: seq<Word>, inWidth: nat, midWidth: nat, midSize: nat,
                              outWidth: nat, outSize: nat, little: bool)
      returns (through: Option<seq<Word>>, direct: Option<seq<Word>>)
    requires Uniform(values, inWidth) && inWidth >= 1 && midWidth >= 1 && outWidth >= 1
    requires ValidLaneCount(|values|) && ValidLaneCount(midSize) && ValidLaneCount(outSize)
    ensures direct.Some? <==> |values| * inWidth == outSize * outWidth
    ensures direct.Some? ==> IsReshape(values, direct.value, outWidth, outSize, little)
    ensures through == if |values| * inWidth == midSize * midWidth then direct else None
  {
    hide Flat, ValidLaneCount;
    direct := Fold(values, inWidth, outWidth, outSize, little);
    var mid := Fold(values, inWidth, midWidth, midSize, little);
    if mid.None? {
      return None, direct;
    }
    through := Fold(mid.value, midWidth, outWidth, outSize, little);
    if through.Some? {
      ThroughTheMiddle(values, mid.value, midWidth, midSize, through.value, direct.value, outWidth, outSize, little);
    }
  }
}
