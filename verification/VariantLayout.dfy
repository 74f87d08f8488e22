/**
 Where the variant walk puts the leaves of a value: every leaf reads back, the places are disjoint,
 and how they compare with the data layout's own field offsets.
 */
module VariantLayout {
  import opened Bits
  import opened Alignment
  import opened VariantPacker

  /** A leaf's bits and the storage bit they start at. */
  datatype Placement = Placement(at: nat, bits: Word)

  /** The bit after the last one the walk touches when it starts at `offset`. */
  function End(v: Value, offset: nat): (r: nat)
    requires Aligned(v)
    ensures r >= offset
    decreases v, 1
  {
    var start := AlignTo(offset, v.align * 8);
    match v
    case Leaf(_, bits) => start + |bits|
    case Aggregate(_, parts) => EndAll(parts, start)
  }

  function EndAll(parts: seq<Value>, offset: nat): (r: nat)
    requires forall p <- parts :: Aligned(p)
    ensures r >= offset
    decreases parts, 0
  {
    if parts == [] then offset else EndAll(parts[1..], End(parts[0], offset))
  }

  function Leaves(v: Value, offset: nat): seq<Placement>
    requires Aligned(v)
    decreases v, 1
  {
    var start := AlignTo(offset, v.align * 8);
    match v
    case Leaf(_, bits) => [Placement(start, bits)]
    case Aggregate(_, parts) => LeavesAll(parts, start)
  }

  function LeavesAll(parts: seq<Value>, offset: nat): seq<Placement>
    requires forall p <- parts :: Aligned(p)
    decreases parts, 0
  {
    if parts == [] then []
    else Leaves(parts[0], offset) + LeavesAll(parts[1..], End(parts[0], offset))
  }

  /** Placements inside `[lo, hi)`, each ending before the next begins. */
  predicate Ordered(ps: seq<Placement>, lo: nat, hi: nat) {
    && (forall p <- ps :: lo <= p.at && p.at + |p.bits| <= hi)
    && (forall i, j :: 0 <= i < j < |ps| ==> ps[i].at + |ps[i].bits| <= ps[j].at)
  }

  lemma OrderedConcat(a: seq<Placement>, b: seq<Placement>, lo: nat, mid: nat, hi: nat)
    requires Ordered(a, lo, mid) && Ordered(b, mid, hi) && lo <= mid <= hi
    ensures Ordered(a + b, lo, hi)
  {
  }

  /** Leaf ranges lie between the start and the end, in order, without overlap. */
  lemma {:induction false} LeavesAreDisjoint(v: Value, offset: nat)
    requires Aligned(v)
    ensures Ordered(Leaves(v, offset), offset, End(v, offset))
    decreases v, 1
  {
    if v.Aggregate? {
      LeavesAllAreDisjoint(v.parts, AlignTo(offset, v.align * 8));
    }
  }

  lemma {:induction false} LeavesAllAreDisjoint(parts: seq<Value>, offset: nat)
    requires forall p <- parts :: Aligned(p)
    ensures Ordered(LeavesAll(parts, offset), offset, EndAll(parts, offset))
    decreases parts, 0
  {
    if parts != [] {
      var mid := End(parts[0], offset);
      LeavesAreDisjoint(parts[0], offset);
      LeavesAllAreDisjoint(parts[1..], mid);
      OrderedConcat(Leaves(parts[0], offset), LeavesAll(parts[1..], mid), offset, mid, EndAll(parts, offset));
    }
  }

  /** The bits found at a placement. */
  predicate ReadsBack(storage: Word, p: Placement) {
    p.at + |p.bits| <= |storage| && storage[p.at..p.at + |p.bits|] == p.bits
  }

  lemma ReadsBackLater(storage: Word, longer: Word, p: Placement)
    requires ReadsBack(storage, p) && storage <= longer
    ensures ReadsBack(longer, p)
  {
    assert longer[..|storage|] == storage;
    assert storage[p.at..p.at + |p.bits|] == longer[p.at..p.at + |p.bits|];
  }

  /** The serialised value ends where the walk ends, and holds every leaf bit for bit. */
  lemma {:induction false} LeavesReadBack(v: Value, done: Word)
    requires Aligned(v)
    ensures |Serialized(v, done)| == End(v, |done|)
    ensures forall p <- Leaves(v, |done|) :: ReadsBack(Serialized(v, done), p)
    decreases v, 1
  {
    var padded := Padded(done, v.align);
    match v
    case Leaf(_, bits) =>
      assert (padded + bits)[|padded|..|padded| + |bits|] == bits;
    case Aggregate(_, parts) =>
      LeavesAllReadBack(parts, padded);
  }

  lemma {:induction false} LeavesAllReadBack(parts: seq<Value>, done: Word)
    requires forall p <- parts :: Aligned(p)
    ensures |SerializedAll(parts, done)| == EndAll(parts, |done|)
    ensures forall p <- LeavesAll(parts, |done|) :: ReadsBack(SerializedAll(parts, done), p)
    decreases parts, 0
  {
    if parts != [] {
      var next := Serialized(parts[0], done);
      LeavesReadBack(parts[0], done);
      LeavesAllReadBack(parts[1..], next);
      var all := SerializedAll(parts, done);
      forall p | p in Leaves(parts[0], |done|)
        ensures ReadsBack(all, p)
      {
        ReadsBackLater(next, all, p);
      }
    }
  }
}
