/**
 The store pass over one blob: chunks of the SIMD width, runs of equal bytes held back until
 they have to be committed, and a relocated pointer at every pointer region.
 */
module StoreEmitter {
  import opened Stores
  import opened Bits

  /** Pointer regions as the interpreter records them: in range, in order, not overlapping. */
  predicate ValidRegions(regions: seq<Region>, pointerSize: nat, size: nat) {
    && (forall r <- regions :: r.offset + pointerSize <= size)
    && (forall j, k :: 0 <= j < k < |regions| ==> regions[j].offset + pointerSize <= regions[k].offset)
  }

  /** The cells with every region overwritten by its relocated pointer, one after the other. */
  function Overlaid(cells: seq<Cell>, regions: seq<Region>, pointerSize: nat): (r: seq<Cell>)
    requires forall g <- regions :: g.offset + pointerSize <= |cells|
    ensures |r| == |cells|
    decreases |regions|
  {
    if regions == [] then cells
    else
      var g := regions[0];
      Overlaid(Write(cells, g.offset, PointerCells(g.blobIndex, g.target, pointerSize)), regions[1..], pointerSize)
  }

  /** What memory must hold: a byte copy of the blob with its pointers overlaid. */
  function Image(data: seq<Byte>, regions: seq<Region>, pointerSize: nat): (r: seq<Cell>)
    requires ValidRegions(regions, pointerSize, |data|)
    ensures |r| == |data|
  {
    Overlaid(RawCells(data), regions, pointerSize)
  }

  lemma {:induction false} OutsideRegions(cells: seq<Cell>, regions: seq<Region>, pointerSize: nat, i: nat)
    requires ValidRegions(regions, pointerSize, |cells|) && i < |cells|
    requires forall g <- regions :: !(g.offset <= i < g.offset + pointerSize)
    ensures Overlaid(cells, regions, pointerSize)[i] == cells[i]
    decreases |regions|
  {
    if regions != [] {
      var g := regions[0];
      var cells' := Write(cells, g.offset, PointerCells(g.blobIndex, g.target, pointerSize));
      assert cells'[i] == cells[i];
      OutsideRegions(cells', regions[1..], pointerSize, i);
    }
  }

  lemma {:induction false} InsideRegion(cells: seq<Cell>, regions: seq<Region>, pointerSize: nat, j: nat, k: nat)
    requires ValidRegions(regions, pointerSize, |cells|) && j < |regions| && k < pointerSize
    ensures var g := regions[j];
            Overlaid(cells, regions, pointerSize)[g.offset + k] == PointerPart(g.blobIndex, g.target, k)
    decreases |regions|
  {
    var g := regions[0];
    var cells' := Write(cells, g.offset, PointerCells(g.blobIndex, g.target, pointerSize));
    if j == 0 {
      assert cells'[g.offset + k] == PointerPart(g.blobIndex, g.target, k);
      OutsideRegions(cells', regions[1..], pointerSize, g.offset + k);
    } else {
      InsideRegion(cells', regions[1..], pointerSize, j - 1, k);
    }
  }

  /** On this stretch the image is the blob's own bytes. */
  predicate PlainStretch(image: seq<Cell>, data: seq<Byte>, lo: nat, hi: nat)
    requires |image| == |data| && hi <= |data|
  {
    forall i :: lo <= i < hi ==> image[i] == Raw(data[i])
  }

  lemma PlainStretchCells(image: seq<Cell>, data: seq<Byte>, lo: nat, hi: nat)
    requires |image| == |data| && lo <= hi <= |data| && PlainStretch(image, data, lo, hi)
    ensures image[lo..hi] == RawCells(data[lo..hi])
  {
  }

  /** A stretch between regions is plain data. */
  lemma GapIsRaw(data: seq<Byte>, regions: seq<Region>, pointerSize: nat, j: nat, lo: nat, hi: nat)
    requires ValidRegions(regions, pointerSize, |data|) && j <= |regions| && lo <= hi <= |data|
    requires forall m :: 0 <= m < j ==> regions[m].offset + pointerSize <= lo
    requires forall m :: j <= m < |regions| ==> hi <= regions[m].offset
    ensures PlainStretch(Image(data, regions, pointerSize), data, lo, hi)
  {
    var image := Image(data, regions, pointerSize);
    forall i | lo <= i < hi
      ensures image[i] == Raw(data[i])
    {
      OutsideRegions(RawCells(data), regions, pointerSize, i);
    }
  }

  lemma RegionIsPointer(data: seq<Byte>, regions: seq<Region>, pointerSize: nat, j: nat)
    requires ValidRegions(regions, pointerSize, |data|) && j < |regions|
    ensures var g := regions[j];
            Image(data, regions, pointerSize)[g.offset..g.offset + pointerSize] ==
            PointerCells(g.blobIndex, g.target, pointerSize)
  {
    var g, image := regions[j], Image(data, regions, pointerSize);
    forall k | 0 <= k < pointerSize
      ensures image[g.offset + k] == PointerPart(g.blobIndex, g.target, k)
    {
      InsideRegion(RawCells(data), regions, pointerSize, j, k);
    }
  }

  // ----- stores that produce a stretch of the image -----

  /** The stores tile `[lo, hi)` and hold there what the image holds. */
  predicate Covers(stores: seq<Store>, pointerSize: nat, image: seq<Cell>, lo: nat, hi: nat) {
    && lo <= hi <= |image|
    && Tiles(stores, pointerSize, lo, hi)
    && Flat(stores, pointerSize) == image[lo..hi]
  }

  lemma CoversNothing(pointerSize: nat, image: seq<Cell>)
    ensures Covers([], pointerSize, image, 0, 0)
  {
  }

  lemma CoversAppend(a: seq<Store>, b: seq<Store>, pointerSize: nat, image: seq<Cell>, lo: nat, mid: nat, hi: nat)
    requires Covers(a, pointerSize, image, lo, mid) && Covers(b, pointerSize, image, mid, hi)
    ensures Covers(a + b, pointerSize, image, lo, hi)
  {
    hide Tiles, Flat;
    TilesAppend(a, b, pointerSize, lo, mid, hi);
    assert image[lo..mid] + image[mid..hi] == image[lo..hi];
  }

  lemma VectorStoresCover(data: seq<Byte>, pointerSize: nat, image: seq<Cell>, lo: nat, hi: nat)
    requires |image| == |data| && lo <= hi <= |data| && PlainStretch(image, data, lo, hi)
    ensures Covers(VectorStores(data, lo, hi - lo), pointerSize, image, lo, hi)
  {
    hide Tiles, Flat, VectorStores, RawCells;
    VectorStoresTile(data, lo, hi - lo, pointerSize);
    PlainStretchCells(image, data, lo, hi);
  }

  lemma MemsetCovers(data: seq<Byte>, pointerSize: nat, image: seq<Cell>, lo: nat, hi: nat, value: Byte)
    requires |image| == |data| && lo <= hi <= |data| && PlainStretch(image, data, lo, hi)
    requires Uniform(data, lo, hi, value)
    ensures Covers([Memset(lo, value, hi - lo)], pointerSize, image, lo, hi)
  {
    hide Tiles, Flat;
    TilesOne(Memset(lo, value, hi - lo), pointerSize);
  }

  lemma PointerCovers(data: seq<Byte>, regions: seq<Region>, pointerSize: nat, j: nat)
    requires ValidRegions(regions, pointerSize, |data|) && j < |regions|
    ensures var Region(offset, blobIndex, target) := regions[j];
            Covers([Pointer(offset, blobIndex, target)], pointerSize, Image(data, regions, pointerSize),
                   offset, offset + pointerSize)
  {
    hide Tiles, Flat, Image;
    RegionIsPointer(data, regions, pointerSize, j);
    TilesOne(Pointer(regions[j].offset, regions[j].blobIndex, regions[j].target), pointerSize);
  }

  // ----- the emitter -----

  /** The run of equal bytes that has been seen but not written yet. */
  datatype Pending = Idle | Run(start: nat, value: Byte, reps: nat)

  predicate Uniform(data: seq<Byte>, lo: nat, hi: nat, value: Byte)
    requires hi <= |data|
  {
    forall k :: lo <= k < hi ==> data[k] == value
  }

  /** Plain data from `at`, in vector stores that cover one SIMD width after the other. */
  function Chunks(data: seq<Byte>, at: nat, size: nat, simdWidth: nat): seq<Store>
    requires simdWidth >= 1 && at + size <= |data|
    decreases size
  {
    if size == 0 then []
    else
      var first := if simdWidth < size then simdWidth else size;
      VectorStores(data, at, first) + Chunks(data, at + first, size - first, simdWidth)
  }

  /** What committing a pending run stores: a memset if it is longer than eight SIMD widths. */
  function Flushed(data: seq<Byte>, pending: Pending, simdWidth: nat): seq<Store>
    requires simdWidth >= 1 && (pending.Run? ==> pending.start + pending.reps <= |data|)
  {
    match pending
    case Idle => []
    case Run(start, value, reps) =>
      if reps <= 8 * simdWidth then Chunks(data, start, reps, simdWidth) else [Memset(start, value, reps)]
  }

  /** Stores are at most one SIMD width wide, and only runs of more than eight of them become a memset. */
  predicate Sized(stores: seq<Store>, simdWidth: nat) {
    forall s <- stores ::
      (s.Bytes? ==> 1 <= |s.data| <= simdWidth) && (s.Memset? ==> s.count > 8 * simdWidth)
  }

  lemma {:induction false} ChunksAreSized(data: seq<Byte>, at: nat, size: nat, simdWidth: nat)
    requires simdWidth >= 1 && at + size <= |data|
    ensures Sized(Chunks(data, at, size, simdWidth), simdWidth)
    decreases size
  {
    hide VectorStores;
    if size > 0 {
      var first := if simdWidth < size then simdWidth else size;
      VectorStoresAreSized(data, at, first, simdWidth);
      ChunksAreSized(data, at + first, size - first, simdWidth);
    }
  }

  lemma VectorStoresAreSized(data: seq<Byte>, idx: nat, size: nat, simdWidth: nat)
    requires idx + size <= |data| && size <= simdWidth
    ensures Sized(VectorStores(data, idx, size), simdWidth)
  {
    hide VectorStores;
    VectorStoreWidths(data, idx, size);
  }

  class Emitter {
    const data: seq<Byte>
    const pointerSize: nat
    const simdWidth: nat
    var stores: seq<Store>
    var pending: Pending

    /** The stores cover what is done, and the pending run, if any, ends exactly at `pos`. */
    ghost predicate Valid(image: seq<Cell>, pos: nat)
      reads this
    {
      && |image| == |data| && pos <= |data| && simdWidth >= 1 && Sized(stores, simdWidth)
      && match pending
         case Idle => Covers(stores, pointerSize, image, 0, pos)
         case Run(start, value, reps) =>
           && 0 < reps && start + reps == pos
           && Uniform(data, start, pos, value) && PlainStretch(image, data, start, pos)
           && Covers(stores, pointerSize, image, 0, start)
    }

    constructor (data: seq<Byte>, pointerSize: nat, simdWidth: nat, ghost image: seq<Cell>)
      requires simdWidth >= 1 && |image| == |data|
      ensures this.data == data && this.pointerSize == pointerSize && this.simdWidth == simdWidth
      ensures Valid(image, 0) && pending == Idle && stores == []
    {
      this.data, this.pointerSize, this.simdWidth := data, pointerSize, simdWidth;
      stores, pending := [], Idle;
      CoversNothing(pointerSize, image);
    }

    /** Append stores that carry on from `pos` to `next`. */
    method Append(more: seq<Store>, ghost image: seq<Cell>, ghost pos: nat, ghost next: nat)
      requires Valid(image, pos) && pending.Idle? && Covers(more, pointerSize, image, pos, next)
      requires Sized(more, simdWidth)
      modifies this`stores
      ensures Valid(image, next) && stores == old(stores) + more
    {
      CoversAppend(stores, more, pointerSize, image, 0, pos, next);
      stores := stores + more;
    }

    /** Store plain data in chunks of the SIMD width. */
    method StoreChunks(startIdx: nat, reps: nat, ghost image: seq<Cell>)
      requires Valid(image, startIdx) && pending.Idle? && startIdx + reps <= |data|
      requires PlainStretch(image, data, startIdx, startIdx + reps)
      modifies this`stores
      ensures Valid(image, startIdx + reps) && stores == old(stores) + Chunks(data, startIdx, reps, simdWidth)
    {
      hide Covers, VectorStores;
      var i := 0;
      ghost var done := 0;
      while i < reps
        invariant 0 <= i && done == (if i < reps then i else reps) && Valid(image, startIdx + done)
        invariant stores + Chunks(data, startIdx + done, reps - done, simdWidth) ==
                  old(stores) + Chunks(data, startIdx, reps, simdWidth)
      {
        var at, size := startIdx + i, if simdWidth < reps - i then simdWidth else reps - i;
        VectorStoresCover(data, pointerSize, image, at, at + size);
        VectorStoresAreSized(data, at, size, simdWidth);
        Append(VectorStores(data, at, size), image, at, at + size);
        i, done := i + simdWidth, done + size;
      }
      assert stores + [] == stores;
    }

    /** Write out the pending run: vector stores if it is short, one memset if it is long. */
    method Commit(ghost image: seq<Cell>, ghost pos: nat)
      requires Valid(image, pos)
      modifies this
      ensures Valid(image, pos) && pending.Idle?
      ensures stores == old(stores) + Flushed(data, old(pending), simdWidth)
    {
      hide Covers, Chunks;
      if pending.Idle? {
        return;
      }
      var Run(startIdx, value, reps) := pending;
      pending := Idle;
      if reps <= 8 * simdWidth {
        StoreChunks(startIdx, reps, image);
      } else {
        MemsetCovers(data, pointerSize, image, startIdx, pos, value);
        Append([Memset(startIdx, value, reps)], image, startIdx, pos);
      }
    }

    /** Store one chunk of plain data, or fold it into the pending run. */
    method MaterializeStore(idx: nat, size: nat, ghost image: seq<Cell>)
      requires Valid(image, idx) && idx + size <= |data| && size <= simdWidth
      requires PlainStretch(image, data, idx, idx + size)
      modifies this
      ensures Valid(image, idx + size)
      ensures var plain := size > 0 && Uniform(data, idx, idx + size, data[idx]);
              var grows := plain && old(pending).Run? && old(pending).value == data[idx];
              && stores == old(stores)
                           + (if size == 0 || grows then [] else Flushed(data, old(pending), simdWidth))
                           + (if size == 0 || plain then [] else VectorStores(data, idx, size))
              && pending == if size == 0 then old(pending)
                            else if grows then old(pending).(reps := old(pending).reps + size)
                            else if plain then Run(idx, data[idx], size)
                            else Idle
    {
      hide Covers, VectorStores, Chunks;
      if size == 0 {
        return;
      }
      if !Uniform(data, idx, idx + size, data[idx]) {
        Commit(image, idx);
        VectorStoresCover(data, pointerSize, image, idx, idx + size);
        VectorStoresAreSized(data, idx, size, simdWidth);
        Append(VectorStores(data, idx, size), image, idx, idx + size);
      } else if pending.Idle? {
        pending := Run(idx, data[idx], size);
      } else if pending.value == data[idx] {
        pending := pending.(reps := pending.reps + size);
      } else {
        Commit(image, idx);
        pending := Run(idx, data[idx], size);
      }
    }

    /** Nothing stored yet: all data so far is one pending run. */
    predicate OneRun(pos: nat)
      reads this
    {
      && stores == [] && |data| > 0
      && pending == if pos == 0 then Idle else Run(0, data[0], pos)
    }

    /** Store the next chunk; data of one byte goes on being one run. */
    method MaterializeChunk(idx: nat, size: nat, ghost image: seq<Cell>)
      requires Valid(image, idx) && 1 <= size <= simdWidth && idx + size <= |data|
      requires PlainStretch(image, data, idx, idx + size)
      modifies this
      ensures Valid(image, idx + size)
      ensures old(OneRun(idx)) && Uniform(data, 0, |data|, data[0]) ==> OneRun(idx + size)
    {
      hide Covers, VectorStores, Chunks, Uniform, PlainStretch;
      UniformPart(data, idx, size);
      MaterializeStore(idx, size, image);
    }

    /** Store up to a pointer region, then the relocated pointer. */
    method MaterializePointer(idx: nat, region: Region, ghost image: seq<Cell>)
      requires Valid(image, idx) && idx <= region.offset <= |data| && region.offset - idx <= simdWidth
      requires PlainStretch(image, data, idx, region.offset)
      requires Covers([Pointer(region.offset, region.blobIndex, region.target)], pointerSize, image,
                      region.offset, region.offset + pointerSize)
      modifies this
      ensures Valid(image, region.offset + pointerSize) && pending.Idle?
      ensures |stores| > 0 && stores[|stores| - 1] == Pointer(region.offset, region.blobIndex, region.target)
    {
      hide Covers, VectorStores, Chunks, Uniform;
      var Region(offset, blobIndex, target) := region;
      MaterializeStore(idx, offset - idx, image);
      Commit(image, offset);
      Append([Pointer(offset, blobIndex, target)], image, offset, offset + pointerSize);
    }
  }

  lemma UniformPart(data: seq<Byte>, idx: nat, size: nat)
    requires size >= 1 && idx + size <= |data|
    ensures Uniform(data, 0, |data|, data[0]) ==>
              Uniform(data, idx, idx + size, data[idx]) && data[idx] == data[0]
  {
  }

  lemma LongRun(data: seq<Byte>, simdWidth: nat)
    requires simdWidth >= 1
    ensures |data| > 8 * simdWidth ==>
              [] + Flushed(data, Run(0, data[0], |data|), simdWidth) == [Memset(0, data[0], |data|)]
  {
  }

  /** Position `i` is after region `j - 1` and not after region `j`. */
  predicate Between(regions: seq<Region>, pointerSize: nat, j: nat, i: nat) {
    && j <= |regions|
    && (forall m :: 0 <= m < j ==> regions[m].offset + pointerSize <= i)
    && (forall m :: j <= m < |regions| ==> i <= regions[m].offset)
  }

  lemma StartOfRegions(regions: seq<Region>, pointerSize: nat)
    ensures Between(regions, pointerSize, 0, 0)
  {
  }

  /** Up to the next region the image is plain data; after it comes the next position. */
  lemma NextRegion(data: seq<Byte>, regions: seq<Region>, pointerSize: nat, j: nat, i: nat)
    requires ValidRegions(regions, pointerSize, |data|) && Between(regions, pointerSize, j, i) && j < |regions|
    ensures i <= regions[j].offset && regions[j].offset + pointerSize <= |data|
    ensures PlainStretch(Image(data, regions, pointerSize), data, i, regions[j].offset)
    ensures Between(regions, pointerSize, j + 1, regions[j].offset + pointerSize)
  {
    hide Image, PlainStretch;
    GapIsRaw(data, regions, pointerSize, j, i, regions[j].offset);
  }

  /** A chunk in which no region starts is plain data. */
  lemma NextChunk(data: seq<Byte>, regions: seq<Region>, pointerSize: nat, j: nat, i: nat, size: nat, simdWidth: nat)
    requires ValidRegions(regions, pointerSize, |data|) && Between(regions, pointerSize, j, i)
    requires i + size <= |data| && size <= simdWidth && !(j < |regions| && i <= regions[j].offset < i + simdWidth)
    ensures PlainStretch(Image(data, regions, pointerSize), data, i, i + size)
    ensures Between(regions, pointerSize, j, i + simdWidth)
  {
    hide Image, PlainStretch;
    GapIsRaw(data, regions, pointerSize, j, i, i + size);
  }

  /** The store pass: the stores tile the whole blob and hold its image; a long blob of one byte is one memset. */
  method EmitBlob(data: seq<Byte>, regions: seq<Region>, pointerSize: nat, simdWidth: nat)
      returns (stores: seq<Store>)
    requires simdWidth >= 1 && ValidRegions(regions, pointerSize, |data|)
    ensures Covers(stores, pointerSize, Image(data, regions, pointerSize), 0, |data|) && Sized(stores, simdWidth)
    ensures regions == [] && |data| > 8 * simdWidth && Uniform(data, 0, |data|, data[0]) ==>
              stores == [Memset(0, data[0], |data|)]
  {
    hide Image, Covers, VectorStores, Chunks, Uniform, Flushed, PlainStretch, ValidRegions, Between;
    StartOfRegions(regions, pointerSize);
    ghost var oneByte := regions == [] && |data| > 0 && Uniform(data, 0, |data|, data[0]);
    ghost var image := Image(data, regions, pointerSize);
    var emitter := new Emitter(data, pointerSize, simdWidth, image);
    var i, j := 0, 0;
    while i < |data|
      invariant 0 <= j <= |regions| && emitter.data == data
      invariant emitter.pointerSize == pointerSize && emitter.simdWidth == simdWidth
      invariant emitter.Valid(image, if i < |data| then i else |data|)
      invariant Between(regions, pointerSize, j, i)
      invariant oneByte ==> emitter.OneRun(if i < |data| then i else |data|)
      decreases |data| - i, |regions| - j
    {
      if j < |regions| && i <= regions[j].offset < i + simdWidth {
        NextRegion(data, regions, pointerSize, j, i);
        PointerCovers(data, regions, pointerSize, j);
        emitter.MaterializePointer(i, regions[j], image);
        i, j := regions[j].offset + pointerSize, j + 1;
      } else {
        var size := if simdWidth < |data| - i then simdWidth else |data| - i;
        NextChunk(data, regions, pointerSize, j, i, size, simdWidth);
        emitter.MaterializeChunk(i, size, image);
        i := i + simdWidth;
      }
    }
    LongRun(data, simdWidth);
    emitter.Commit(image, |data|);
    stores := emitter.stores;
  }

  /**
   What `EmitBlob` guarantees when its stores are executed, whatever memory held before: a byte
   copy of the blob with the relocated pointers overlaid, every address written exactly once.
   */
  lemma EmittedStoresAreACopy(stores: seq<Store>, data: seq<Byte>, regions: seq<Region>, pointerSize: nat,
                              memory: seq<Cell>)
    requires ValidRegions(regions, pointerSize, |data|) && |memory| == |data|
    requires Covers(stores, pointerSize, Image(data, regions, pointerSize), 0, |data|)
    ensures InBounds(stores, pointerSize, |memory|)
    ensures Execute(stores, pointerSize, memory) == Image(data, regions, pointerSize)
    ensures forall a: nat :: WriteCount(stores, pointerSize, a) == if a < |data| then 1 else 0
  {
    hide Image, Tiles, Flat, Execute, WriteCount, InBounds;
    var image := Image(data, regions, pointerSize);
    TilesExecute(stores, pointerSize, 0, |data|, memory);
    assert image[0..|data|] == image && memory[..0] + image + memory[|data|..] == image;
    forall a: nat
      ensures WriteCount(stores, pointerSize, a) == if a < |data| then 1 else 0
    {
      TilesWriteOnce(stores, pointerSize, 0, |data|, a);
    }
  }
}
