/**
 Which blobs of a memory space one reference materialises: a recursive walk over a graph that
 may have cycles, stopped by any indirect reference to stack memory, followed by the store pass.
 */
module BlobGraph {
  import opened Options
  import opened Stores
  import opened Bits
  import opened StoreEmitter

  datatype Kind = Stack | Persistent | ConstGlobal | Heap

  datatype Blob = Blob(kind: Kind, isGlobal: bool, data: seq<Byte>, regions: seq<Region>)

  type Space = seq<Blob>

  /** Every pointer points into the space, and every blob records its regions properly. */
  predicate WellFormed(space: Space, pointerSize: nat) {
    forall b <- space ::
      && ValidRegions(b.regions, pointerSize, |b.data|)
      && forall r <- b.regions :: r.blobIndex < |space|
  }

  predicate PointsTo(space: Space, u: nat, v: nat) {
    u < |space| && exists r <- space[u].regions :: r.blobIndex == v
  }

  // ----- reachability -----

  predicate IsPath(space: Space, p: seq<nat>) {
    && |p| >= 1 && p[0] < |space|
    && (|p| > 1 ==> PointsTo(space, p[0], p[1]) && IsPath(space, p[1..]))
  }

  ghost predicate Reachable(space: Space, u: nat, v: nat) {
    exists p :: IsPath(space, p) && p[0] == u && p[|p| - 1] == v
  }

  lemma ReachSelf(space: Space, u: nat)
    requires u < |space|
    ensures Reachable(space, u, u)
  {
    assert IsPath(space, [u]);
    assert [u][0] == u && [u][|[u]| - 1] == u;
  }

  lemma ReachStep(space: Space, u: nat, v: nat, w: nat)
    requires u < |space| && v < |space| && PointsTo(space, u, v) && Reachable(space, v, w)
    ensures Reachable(space, u, w)
  {
    var p :| IsPath(space, p) && p[0] == v && p[|p| - 1] == w;
    var q := [u] + p;
    assert q[1..] == p;
    assert IsPath(space, q) && q[0] == u && q[|q| - 1] == w;
  }

  /** A set closed under pointers holds the end of every path that starts in it. */
  lemma {:induction false} ClosedHoldsPath(space: Space, closed: set<nat>, p: seq<nat>)
    requires IsPath(space, p) && p[0] in closed
    requires forall u, v :: u in closed && PointsTo(space, u, v) ==> v in closed
    ensures p[|p| - 1] in closed
    decreases |p|
  {
    if |p| > 1 {
      ClosedHoldsPath(space, closed, p[1..]);
    }
  }

  // ----- the walk -----

  /** A stack blob other than those already materialised, reached from `v`. */
  ghost predicate StackInTheWay(space: Space, done: set<nat>, v: nat) {
    exists w: nat :: w < |space| && w !in done && space[w].kind == Stack && Reachable(space, v, w)
  }

  /** Everything the blobs of `added` point at has been materialised. */
  predicate PointersDone(space: Space, added: set<nat>, done: set<nat>) {
    forall u, r :: u in added && u < |space| && r in space[u].regions ==> r.blobIndex in done
  }

  ghost predicate AllReached(space: Space, v: nat, added: set<nat>) {
    forall u :: u in added ==> u < |space| && space[u].kind != Stack && Reachable(space, v, u)
  }

  function Indices(n: nat): (r: set<nat>)
    ensures forall u: nat :: u in r <==> u < n
  {
    if n == 0 then {} else Indices(n - 1) + {n - 1}
  }

  class Walk {
    const space: Space
    const pointerSize: nat
    var materialized: set<nat>

    ghost predicate Valid()
      reads this
    {
      WellFormed(space, pointerSize) && forall u <- materialized :: u < |space|
    }

    ghost function Rest(): set<nat>
      reads this
    {
      Indices(|space|) - materialized
    }

    constructor (space: Space, pointerSize: nat, root: nat)
      requires WellFormed(space, pointerSize) && root < |space|
      ensures Valid() && this.space == space && this.pointerSize == pointerSize && materialized == {root}
    {
      this.space, this.pointerSize, materialized := space, pointerSize, {root};
    }

    /** Follow the pointers of a blob that is itself materialised already. */
    method FollowPointers(v: nat) returns (ok: bool)
      requires Valid() && v in materialized
      modifies this
      ensures Valid() && old(materialized) <= materialized
      ensures AllReached(space, v, materialized - old(materialized))
      ensures ok ==> PointersDone(space, materialized - old(materialized) + {v}, materialized)
      ensures !ok ==> StackInTheWay(space, old(materialized), v)
      decreases Rest()
    {
      hide Reachable, ValidRegions;
      ghost var before := materialized;
      var regions := space[v].regions;
      var i := 0;
      while i < |regions|
        invariant 0 <= i <= |regions| && Valid() && before <= materialized
        invariant forall k :: 0 <= k < i ==> regions[k].blobIndex in materialized
        invariant AllReached(space, v, materialized - before)
        invariant PointersDone(space, materialized - before, materialized)
      {
        var w := regions[i].blobIndex;
        assert PointsTo(space, v, w);
        if w !in materialized {
          ReachSelf(space, w);
          ReachStep(space, v, w, w);
          if space[w].kind == Stack {
            return false;
          }
          ghost var earlier := materialized;
          materialized := materialized + {w};
          assert w in old(Rest()) && Rest() < old(Rest());
          ok := FollowPointers(w);
          ReachedThrough(space, v, w, materialized - (earlier + {w}));
          if !ok {
            StackThrough(space, v, w, earlier + {w}, before);
            return false;
          }
        }
        i := i + 1;
      }
      ok := true;
    }
  }

  lemma ReachedThrough(space: Space, v: nat, w: nat, added: set<nat>)
    requires v < |space| && w < |space| && PointsTo(space, v, w) && AllReached(space, w, added)
    ensures AllReached(space, v, added)
  {
    forall u | u in added
      ensures Reachable(space, v, u)
    {
      ReachStep(space, v, w, u);
    }
  }

  lemma StackThrough(space: Space, v: nat, w: nat, done: set<nat>, before: set<nat>)
    requires v < |space| && w < |space| && PointsTo(space, v, w) && before <= done
    requires StackInTheWay(space, done, w)
    ensures StackInTheWay(space, before, v)
  {
    var x: nat :| x < |space| && x !in done && space[x].kind == Stack && Reachable(space, w, x);
    ReachStep(space, v, w, x);
  }

  // ----- one uncached materialisation -----

  datatype Result = Failed | Materialized(blobs: set<nat>, stores: map<nat, seq<Store>>)

  /** The error condition: some stack blob other than the root can be reached from the root. */
  ghost predicate IndirectStack(space: Space, root: nat) {
    exists w: nat :: w < |space| && w != root && space[w].kind == Stack && Reachable(space, root, w)
  }

  /** What the walk has established from `{root}` alone: exactly the reachable blobs. */
  lemma WalkIsReachability(space: Space, root: nat, done: set<nat>)
    requires root < |space| && root in done
    requires AllReached(space, root, done - {root})
    requires PointersDone(space, done - {root} + {root}, done)
    ensures forall u: nat :: u in done <==> Reachable(space, root, u)
    ensures !IndirectStack(space, root)
  {
    ReachSelf(space, root);
    assert done - {root} + {root} == done;
    forall u: nat
      ensures u in done <==> Reachable(space, root, u)
    {
      if u in done && u != root {
        assert u in done - {root};
      }
      if Reachable(space, root, u) {
        var p :| IsPath(space, p) && p[0] == root && p[|p| - 1] == u;
        ClosedHoldsPath(space, done, p);
      }
    }
  }

  /** The stores of one blob leave its image, and point only at blobs that have been materialised. */
  predicate StoredProperly(space: Space, pointerSize: nat, done: set<nat>, u: nat, stores: seq<Store>) {
    && WellFormed(space, pointerSize) && u < |space|
    && Covers(stores, pointerSize, Image(space[u].data, space[u].regions, pointerSize), 0, |space[u].data|)
    && forall r <- space[u].regions :: r.blobIndex in done
  }

  /** Run the walk from `root`. */
  method ReachableBlobs(space: Space, root: nat, pointerSize: nat) returns (found: Option<set<nat>>)
    requires WellFormed(space, pointerSize) && root < |space|
    ensures found.None? <==> IndirectStack(space, root)
    ensures found.Some? ==> forall u: nat :: u in found.value <==> Reachable(space, root, u)
    ensures found.Some? ==> PointersDone(space, found.value, found.value)
  {
    hide Reachable, WellFormed, AllReached, PointersDone;
    var walk := new Walk(space, pointerSize, root);
    var ok := walk.FollowPointers(root);
    if !ok {
      return None;
    }
    var done := walk.materialized;
    WalkIsReachability(space, root, done);
    assert done - {root} + {root} == done;
    found := Some(done);
  }

  /** Emit the stores of every materialised blob that is not a global. */
  method StorePass(space: Space, done: set<nat>, pointerSize: nat, simdWidth: nat)
      returns (all: map<nat, seq<Store>>)
    requires WellFormed(space, pointerSize) && simdWidth >= 1 && PointersDone(space, done, done)
    ensures forall u: nat :: u in all <==> u in done && u < |space| && !space[u].isGlobal
    ensures forall u <- all :: StoredProperly(space, pointerSize, done, u, all[u])
  {
    hide Image, Covers;
    all := map[];
    for idx := 0 to |space|
      invariant forall u: nat :: u in all <==> u in done && u < idx && !space[u].isGlobal
      invariant forall u <- all :: StoredProperly(space, pointerSize, done, u, all[u])
    {
      if !space[idx].isGlobal && idx in done {
        var stores := EmitBlob(space[idx].data, space[idx].regions, pointerSize, simdWidth);
        all := all[idx := stores];
      }
    }
  }

  /**
   Materialise everything a reference to `root` needs.  It fails exactly when stack memory other
   than the root is reachable; otherwise the blobs are exactly the reachable ones, and every one of
   them that is not a global gets the stores that leave its image in memory.
   */
  method GetOrMaterialize(space: Space, root: nat, pointerSize: nat, simdWidth: nat) returns (result: Result)
    requires WellFormed(space, pointerSize) && root < |space| && simdWidth >= 1
    ensures result.Failed? <==> IndirectStack(space, root)
    ensures result.Materialized? ==>
              && (forall u: nat :: u in result.blobs <==> Reachable(space, root, u))
              && (forall u: nat :: u in result.stores <==> u in result.blobs && u < |space| && !space[u].isGlobal)
              && (forall u <- result.stores ::
                    StoredProperly(space, pointerSize, result.blobs, u, result.stores[u]))
  {
    hide Reachable, IndirectStack, StoredProperly;
    var found := ReachableBlobs(space, root, pointerSize);
    match found
    case None =>
      result := Failed;
    case Some(done) =>
      var stores := StorePass(space, done, pointerSize, simdWidth);
      result := Materialized(done, stores);
  }
}
