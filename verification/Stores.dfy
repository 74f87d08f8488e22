/**
 The stores that materialise one interpreter blob: vector stores of shrinking width, memsets
 for long runs of one byte, and relocated pointers.  Memory is a sequence of cells, so that
 "the emitted stores leave what a byte copy with the pointers overlaid leaves" can be said.
 */
module Stores {
  import opened Powers
  import opened Bits

  /** A pointer held by a blob: where it is, and which byte of which blob it points at. */
  datatype Region = Region(offset: nat, blobIndex: nat, target: int)

  datatype Store =
    | Bytes(at: nat, data: seq<Byte>)
    | Memset(at: nat, value: Byte, count: nat)
    | Pointer(at: nat, blobIndex: nat, target: int)

  /** One byte of memory: plain data, or byte `part` of a relocated pointer. */
  datatype Cell = Raw(value: Byte) | PointerPart(blobIndex: nat, target: int, part: nat)

  function PointerCells(blobIndex: nat, target: int, pointerSize: nat): (cells: seq<Cell>)
    ensures |cells| == pointerSize
  {
    seq(pointerSize, k requires 0 <= k < pointerSize => PointerPart(blobIndex, target, k))
  }

  function RawCells(data: seq<Byte>): (cells: seq<Cell>)
    ensures |cells| == |data|
  {
    seq(|data|, k requires 0 <= k < |data| => Raw(data[k]))
  }

  /** The cells a store writes, starting at `store.at`. */
  function Written(store: Store, pointerSize: nat): seq<Cell> {
    match store
    case Bytes(_, data) => RawCells(data)
    case Memset(_, value, count) => seq(count, k => Raw(value))
    case Pointer(_, blobIndex, target) => PointerCells(blobIndex, target, pointerSize)
  }

  // ----- executing stores -----

  function Write(memory: seq<Cell>, at: nat, cells: seq<Cell>): (r: seq<Cell>)
    requires at + |cells| <= |memory|
    ensures |r| == |memory|
  {
    memory[..at] + cells + memory[at + |cells|..]
  }

  predicate InBounds(stores: seq<Store>, pointerSize: nat, size: nat) {
    forall s <- stores :: s.at + |Written(s, pointerSize)| <= size
  }

  function Execute(stores: seq<Store>, pointerSize: nat, memory: seq<Cell>): (r: seq<Cell>)
    requires InBounds(stores, pointerSize, |memory|)
    ensures |r| == |memory|
  {
    if stores == [] then memory
    else Execute(stores[1..], pointerSize, Write(memory, stores[0].at, Written(stores[0], pointerSize)))
  }

  /** How many of the stores write address `a`. */
  function WriteCount(stores: seq<Store>, pointerSize: nat, a: nat): nat {
    if stores == [] then 0
    else (if stores[0].at <= a < stores[0].at + |Written(stores[0], pointerSize)| then 1 else 0)
         + WriteCount(stores[1..], pointerSize, a)
  }

  // ----- stores that follow one another -----

  /** Each store starts where the one before ended, the first at `lo`, the last ending at `hi`. */
  predicate Tiles(stores: seq<Store>, pointerSize: nat, lo: nat, hi: nat) {
    if stores == [] then lo == hi
    else stores[0].at == lo && Tiles(stores[1..], pointerSize, lo + |Written(stores[0], pointerSize)|, hi)
  }

  function Flat(stores: seq<Store>, pointerSize: nat): seq<Cell> {
    if stores == [] then [] else Written(stores[0], pointerSize) + Flat(stores[1..], pointerSize)
  }

  lemma {:induction false} TilesLength(stores: seq<Store>, pointerSize: nat, lo: nat, hi: nat)
    requires Tiles(stores, pointerSize, lo, hi)
    ensures lo <= hi && |Flat(stores, pointerSize)| == hi - lo
    ensures InBounds(stores, pointerSize, hi)
    decreases |stores|
  {
    if stores != [] {
      TilesLength(stores[1..], pointerSize, lo + |Written(stores[0], pointerSize)|, hi);
      assert stores == [stores[0]] + stores[1..];
    }
  }

  lemma {:induction false} TilesAppend(a: seq<Store>, b: seq<Store>, pointerSize: nat, lo: nat, mid: nat, hi: nat)
    requires Tiles(a, pointerSize, lo, mid) && Tiles(b, pointerSize, mid, hi)
    ensures Tiles(a + b, pointerSize, lo, hi)
    ensures Flat(a + b, pointerSize) == Flat(a, pointerSize) + Flat(b, pointerSize)
    decreases |a|
  {
    hide Written;
    if a == [] {
      assert a + b == b;
    } else {
      assert (a + b)[1..] == a[1..] + b && (a + b)[0] == a[0];
      TilesAppend(a[1..], b, pointerSize, lo + |Written(a[0], pointerSize)|, mid, hi);
    }
  }

  lemma TilesOne(s: Store, pointerSize: nat)
    ensures Tiles([s], pointerSize, s.at, s.at + |Written(s, pointerSize)|)
    ensures Flat([s], pointerSize) == Written(s, pointerSize)
  {
    assert [s][1..] == [];
  }

  /** Tiling stores write every address of their range once, and no other. */
  lemma {:induction false} TilesWriteOnce(stores: seq<Store>, pointerSize: nat, lo: nat, hi: nat, a: nat)
    requires Tiles(stores, pointerSize, lo, hi)
    ensures WriteCount(stores, pointerSize, a) == if lo <= a < hi then 1 else 0
    decreases |stores|
  {
    if stores != [] {
      var next := lo + |Written(stores[0], pointerSize)|;
      TilesLength(stores[1..], pointerSize, next, hi);
      TilesWriteOnce(stores[1..], pointerSize, next, hi, a);
    }
  }

  /** Executing tiling stores replaces their range by what they hold. */
  lemma {:induction false} TilesExecute(stores: seq<Store>, pointerSize: nat, lo: nat, hi: nat, memory: seq<Cell>)
    requires Tiles(stores, pointerSize, lo, hi) && hi <= |memory|
    ensures InBounds(stores, pointerSize, |memory|) && lo <= hi
    ensures Execute(stores, pointerSize, memory) == memory[..lo] + Flat(stores, pointerSize) + memory[hi..]
    decreases |stores|
  {
    TilesLength(stores, pointerSize, lo, hi);
    if stores == [] {
      assert memory == memory[..lo] + [] + memory[hi..];
    } else {
      hide Written, InBounds;
      var cells := Written(stores[0], pointerSize);
      var next := lo + |cells|;
      TilesLength(stores[1..], pointerSize, next, hi);
      InBoundsTail(stores, pointerSize, |memory|);
      var memory' := Write(memory, lo, cells);
      TilesExecute(stores[1..], pointerSize, next, hi, memory');
      WriteThenRest(memory, lo, cells, Flat(stores[1..], pointerSize), hi);
    }
  }

  lemma InBoundsTail(stores: seq<Store>, pointerSize: nat, size: nat)
    requires InBounds(stores, pointerSize, size) && stores != []
    ensures InBounds(stores[1..], pointerSize, size)
  {
  }

  lemma WriteThenRest(memory: seq<Cell>, lo: nat, cells: seq<Cell>, rest: seq<Cell>, hi: nat)
    requires lo + |cells| <= hi <= |memory|
    ensures var memory' := Write(memory, lo, cells);
            memory'[..lo + |cells|] + rest + memory'[hi..] == memory[..lo] + (cells + rest) + memory[hi..]
  {
    var memory' := Write(memory, lo, cells);
    assert memory'[..lo + |cells|] == memory[..lo] + cells;
    assert memory'[hi..] == memory[hi..];
  }

  // ----- the vector stores of one chunk -----

  /** Round down to a power of two, inclusive: `NextPowerOf2(size) / 2`. */
  function FloorPow2(size: nat): (r: nat)
    requires size >= 1
    ensures IsPow2(r) && r <= size < 2 * r
  {
    if size == 1 then 1 else 2 * FloorPow2(size / 2)
  }

  function VectorStores(data: seq<Byte>, idx: nat, size: nat): seq<Store>
    requires idx + size <= |data|
    decreases size
  {
    if size == 0 then []
    else if size == 1 then [Bytes(idx, [data[idx]])]
    else
      var cur := FloorPow2(size);
      [Bytes(idx, data[idx..idx + cur])] + VectorStores(data, idx + cur, size - cur)
  }

  function PopCount(n: nat): nat {
    if n == 0 then 0 else n % 2 + PopCount(n / 2)
  }

  lemma RawCellsSplit(data: seq<Byte>, lo: nat, mid: nat, hi: nat)
    requires lo <= mid <= hi <= |data|
    ensures RawCells(data[lo..hi]) == RawCells(data[lo..mid]) + RawCells(data[mid..hi])
  {
  }

  lemma {:induction false} VectorStoresTile(data: seq<Byte>, idx: nat, size: nat, pointerSize: nat)
    requires idx + size <= |data|
    ensures Tiles(VectorStores(data, idx, size), pointerSize, idx, idx + size)
    ensures Flat(VectorStores(data, idx, size), pointerSize) == RawCells(data[idx..idx + size])
    decreases size
  {
    hide VectorStores, FloorPow2, Tiles, Flat, RawCells, Written;
    if size == 0 {
      EmptyStores(data, idx, pointerSize);
    } else {
      var cur := FloorPow2(size);
      var first, rest := Bytes(idx, data[idx..idx + cur]), VectorStores(data, idx + cur, size - cur);
      VectorStoresUnfold(data, idx, size);
      TilesOne(first, pointerSize);
      VectorStoresTile(data, idx + cur, size - cur, pointerSize);
      BytesWritten(first, pointerSize);
      TilesAppend([first], rest, pointerSize, idx, idx + cur, idx + size);
      RawCellsSplit(data, idx, idx + cur, idx + size);
    }
  }

  lemma BytesWritten(s: Store, pointerSize: nat)
    requires s.Bytes?
    ensures Written(s, pointerSize) == RawCells(s.data)
  {
  }

  lemma EmptyStores(data: seq<Byte>, idx: nat, pointerSize: nat)
    requires idx <= |data|
    ensures VectorStores(data, idx, 0) == []
    ensures Tiles([], pointerSize, idx, idx) && Flat([], pointerSize) == RawCells(data[idx..idx])
  {
  }

  lemma VectorStoresUnfold(data: seq<Byte>, idx: nat, size: nat)
    requires idx + size <= |data| && size >= 1
    ensures var cur := FloorPow2(size);
            VectorStores(data, idx, size) ==
            [Bytes(idx, data[idx..idx + cur])] + VectorStores(data, idx + cur, size - cur)
  {
    if size == 1 {
      assert data[idx..idx + 1] == [data[idx]];
    }
  }

  /** Every width is a power of two, and each is smaller than the one before. */
  lemma {:induction false} VectorStoreWidths(data: seq<Byte>, idx: nat, size: nat)
    requires idx + size <= |data|
    ensures var stores := VectorStores(data, idx, size);
            && (forall s <- stores :: s.Bytes? && IsPow2(|s.data|) && |s.data| <= size)
            && (forall i, j :: 0 <= i < j < |stores| ==> |stores[i].data| > |stores[j].data|)
    decreases size
  {
    hide VectorStores, FloorPow2, IsPow2;
    if size == 0 {
      EmptyStores(data, idx, 0);
    } else {
      var cur := FloorPow2(size);
      VectorStoresUnfold(data, idx, size);
      VectorStoreWidths(data, idx + cur, size - cur);
    }
  }

  lemma {:induction false} PopCountSplit(cur: nat, rest: nat)
    requires IsPow2(cur) && rest < cur
    ensures PopCount(cur + rest) == 1 + PopCount(rest)
    decreases cur
  {
    if cur == 1 {
      assert PopCount(1) == 1 + PopCount(0);
    } else {
      Halves(cur, rest);
      PopCountSplit(cur / 2, rest / 2);
      hide IsPow2;
    }
  }

  lemma Halves(cur: nat, rest: nat)
    requires cur % 2 == 0
    ensures (cur + rest) / 2 == cur / 2 + rest / 2 && (cur + rest) % 2 == rest % 2
  {
  }

  /** One store for each one bit of the size. */
  lemma {:induction false} VectorStoreCount(data: seq<Byte>, idx: nat, size: nat)
    requires idx + size <= |data|
    ensures |VectorStores(data, idx, size)| == PopCount(size)
    decreases size
  {
    hide VectorStores, FloorPow2, IsPow2;
    if size == 0 {
      EmptyStores(data, idx, 0);
    } else {
      hide PopCount;
      var cur := FloorPow2(size);
      VectorStoresUnfold(data, idx, size);
      VectorStoreCount(data, idx + cur, size - cur);
      PopCountSplit(cur, size - cur);
    }
  }
}
