# Mojo for Windows: a verified model of its compiler and support core

This project models the parts of the Windows port of Mojo whose correctness is hard to see from the code, and
proves what they are for. `dafny verify dfyconfig.toml` checks everything.

| part | modules |
|---|---|
| `fmaf` out of double arithmetic: exact product, TwoSum, round to odd, one narrowing | `FloatGrid`, `TwoSum`, `RoundToOdd`, `Fmaf` |
| Interpreter memory: the walk over the blob graph, the chunked and run-length compressed stores | `Stores`, `StoreEmitter`, `BlobGraph` |
| Variants: packing a value tree into storage words, and how that compares with the data layout | `Bits`, `VariantPacker`, `VariantLayout`, `DataLayout`, `TypedVariant` |
| Lowering unions and structs: representatives, padding, the field index cache | `UnionLowering`, `UnionMemory`, `StructConversion`, `LayoutExamples`, `LayoutTable` |
| C ABI: rewriting definitions, bytes through registers and slots, the Microsoft x64 convention end to end | `CAbiRewrite`, `CAbiMemory`, `Win64` |
| POP canonicalisation: an expression language with an evaluator, what its values mean, the patterns, their runs | `PopExpr`, `PopLaws`, `PopRewrites` |
| Folding a SIMD bitcast in either byte order | `Reshape` |
| CPU topology and thread placement | `CpuTopology`, `ThreadPlacement` |
| The `.res` file around a manifest | `ManifestResource` |
| Shared | `Options`, `Powers`, `Modular`, `Alignment` |

## How things are modelled

- Floats are exact integers. A number is a sign and the ordinal of its magnitude bits; its value is an integer
  in units of 2^-1074, in which 1.0 is 2^1074 (`OneIsAnchored`). Every binary64 operation is the exact result followed by one rounding. NaN payloads are
  not told apart. The comment in the source says TwoSum needs the addition not to go subnormal; the proof does
  not need that.
- Memory is a sequence of cells, each a plain byte or one byte of a relocated pointer, so emitted stores can be
  executed and compared with a plain copy.
- Target numbers (alignments of integers and floats, pointer size, struct alignment, vector widths) are
  parameters. Alignments are powers of two, a store size is bits rounded up to bytes, an alloc size is a store
  size rounded up to the alignment, and i8 is one-byte aligned where padding is inserted. KGEN's own sizes and
  alignments, and whether a blob is global, are inputs.
- Storage words are bit strings, least significant bit first, with the LLVM operations (`lshr`, `zext`, `trunc`,
  `shl`, `or`) on them.
- An integer `pop.cast` takes the source's value under its signedness modulo 2^width; `shr` on an unsigned type
  is logical. An expression may have no value (division by zero, an oversized shift, an ill-typed operand);
  a rewrite has to keep every value there was. POP expressions are trees, so `select` conditions are compared
  by structure where the source compares SSA values.
- A register has a type and holds as many bytes as that type stores; a body finds nothing in one of another type
  than its block argument declares. A pair is stored and loaded as a struct, each register at its field's offset.
  Storing or loading beyond a slot has no result. Padding bytes: loading or storing a struct keeps an arbitrary
  set of data bytes and leaves the others undefined, so the round trips hold for every choice of padding.
- Code that updates state in place is a class or a loop proved against a function of the old state; sorting,
  which the source takes from LLVM, is an insertion sort.

## Where a promise is conditional

- The variant walk agrees with the struct layout if and only if tail padding inside the type is absorbed by the
  alignment of what follows (`WalkMatchesLayoutIff`); otherwise the offsets differ (`TailPaddingMovesLeaves`).
- A member's values fit the union's storage if and only if its walk bits do (`StorageFitsIff`); arrays whose
  elements are larger than their stride can overrun it (`LongDoubleArrayOverruns`, `OddArrayOverrunsUnion`).
- The size assertion of the union lowering holds if and only if the alignment divides the payload
  (`SizeAssertionHoldsIff`, `OddPayloadBreaksAssertion`).
- Union storage spans the payload if and only if the representative fills its alloc size (`StorageLength`); an
  80-bit float does not (`LongDoubleStorageIsShort`).
- Converted structs put every field at its KGEN offset if and only if padding and alignment bring LLVM's own
  position to it, field by field (`FieldsLandIff`); where both layouts size the fields alike, that is LLVM's
  alignment dividing each offset (`AgreeingFieldsLandIff`). It fails for a field packed too tightly
  (`PackedFieldMoves`) and after a vector of booleans, which LLVM makes smaller (`BoolVectorShiftsFields`).
  The total size is KGEN's under the condition of `ConvertedHasKgenSizeIff` (`PackedStructGrows`).
- A union's head can be larger than its payload: the leaf of an empty array (`EmptyArrayHeadIsTooLarge`), and a
  widened integer exactly when its alignment exceeds the payload (`WidenedHeadIsTooLarge`).
- A stored member reads back by its own layout if and only if storing moves each leaf there (`ReadAsTypeIff`).
- The cast-chain pattern applies to redundant chains only, and refuses some of them (`GuardAgainstRedundancy`);
  `CastChainIsRedundantIff` says exactly which chains are redundant.
- Thread placement does not end without a CPU (`NoCpuNeverEnds`). Its declaration promises repeated CPU ids
  whenever there are more threads than CPUs; the code leaves an incomplete pass unpinned (`AllPinnedIff`,
  `RepeatsIff`, `ThirdThreadIsUnpinned`). The model follows the code.
- The cpuinfo reader takes over fields of an excluded processor exactly when a core id lacks a processor or
  physical id of its own (`ReadsStrictlyIff`, `ExcludedRecordLeavesItsSocket`).
- A C ABI round trip works if and only if the registers of both classes fit the value's slot, and keeps the bytes
  that both carry (`RewriteByClasses`); Win64's classes always fit and carry all (`ArgumentClass`, `ReturnClass`).
- A division of lanes is the integer quotient except where there is none: the least integer by -1
  (`DivisionDivides`).
- The `.res` writer truncates the size to 32 bits, so reading it back works exactly below 2^32 bytes
  (`ManifestReadsBack`).

## Model

| member | source | states |
|---|---|---|
| `Fmaf.FmafIsFusedMultiplyAdd` | overlay/bazel/internal/windows-math-fixups.c:69-107 | For every three binary32 values, NaNs, infinities, signed zeros, subnormals and overflow included, the code returns fusedMultiplyAdd of section 5.4.1 of IEEE 754-2019: the exact `x*y+z` rounded once. |
| `Fmaf.FmafIsNearestEven` | overlay/bazel/internal/windows-math-fixups.c:65-107 | For finite operands and a non-zero exact value, the result has the sign of that value and the one ordinal no other number is nearer to, ties to even (section 4.3.1), infinity above the largest; such an ordinal exists. |
| `Fmaf.OneIsAnchored` | overlay/bazel/internal/windows-math-fixups.c:69-76 | The scale: 1.0 is the bit pattern 0x3F800000 and, in double, 0x3FF0000000000000; both are 2^1074 of the smallest double, and the smallest single is 2^925 of it. |
| `Fmaf.OneWidens` | overlay/bazel/internal/windows-math-fixups.c:70-72 | Widening the single 1.0 gives the double 1.0. |
| `Fmaf.OneIsUnitOfMul` | overlay/bazel/internal/windows-math-fixups.c:74-74 | Multiplying a double by 1.0 gives it back. |
| `Fmaf.ExactFmaInOnes` | overlay/bazel/internal/windows-math-fixups.c:69-96 | The exact value the theorems speak of, in units of which 1.0 has the value of its double, is the product of the widened operands plus the widened addend. |
| `Fmaf.OneIsUnitOfFmaf` | overlay/bazel/internal/windows-math-fixups.c:69-107 | In bit patterns, for every `y`, NaN and infinities included: `1.0 * y + -0.0` and `y * 1.0 + -0.0` are `y`. |
| `Fmaf.FmafAddsExactly` | overlay/bazel/internal/windows-math-fixups.c:69-107 | For every `z` but minus zero, `1.0 * 0.0 + z` is `z`. |
| `Fmaf.DoublingMovesExponent` | overlay/bazel/internal/windows-math-fixups.c:69-107 | `2.0 * y` has the exponent field of `y` plus one, for every normal `y`, and is infinity beyond the largest. |
| `Fmaf.TiesGoToEven` | overlay/bazel/internal/windows-math-fixups.c:96-107 | 1.0 and half a unit of its last place is 1.0; the number after 1.0 and the same half is the one after that. |
| `Fmaf.CancellationIsPlusZero` | overlay/bazel/internal/windows-math-fixups.c:75-75 | `1.0 * y - y` is plus zero. |
| `Fmaf.SpecialsInBits` | overlay/bazel/internal/windows-math-fixups.c:84-96 | Infinity times zero, infinity minus infinity and NaN operands give NaN; other infinite operands give the infinity of the right sign. |
| `Fmaf.SpecialOperands` | overlay/bazel/internal/windows-math-fixups.c:84-96 | With a NaN or an infinity among the operands the residual test falls through and the sum is already the answer. |
| `Fmaf.WidenHolds` | overlay/bazel/internal/windows-math-fixups.c:70-72 | Widening a finite float is exact and keeps the sign of zero. |
| `Fmaf.ProductIsRep` | overlay/bazel/internal/windows-math-fixups.c:63-64 | The product of any two binary32 magnitudes is a binary64 number. |
| `Fmaf.ProductHolds` | overlay/bazel/internal/windows-math-fixups.c:74-74 | The multiplication in binary64 is therefore exact and stays finite. |
| `Fmaf.AddHolds` | overlay/bazel/internal/windows-math-fixups.c:75-75 | While nothing overflows, an addition is the exact sum rounded once, with the sign of a zero sum as IEEE 754 has it. |
| `Fmaf.ResidualHolds` | overlay/bazel/internal/windows-math-fixups.c:77-82 | The six additions stay in the finite range, so the residual is the one of TwoSum. |
| `TwoSum.ResidualIsExact` | overlay/bazel/internal/windows-math-fixups.c:81-82 | Knuth's TwoSum: for any two numbers of any binary format, whichever is larger and subnormals included, the residual is exactly what the addition rounded away. |
| `TwoSum.AdditionErrorIsRep` | overlay/bazel/internal/windows-math-fixups.c:77-82 | The rounding error of an addition is a number, no larger than either operand. |
| `TwoSum.CancellingSumIsRep` | overlay/bazel/internal/windows-math-fixups.c:81-82 | Sterbenz: a sum smaller than both operands is exact. |
| `TwoSum.SumMinusLargerIsRep` | overlay/bazel/internal/windows-math-fixups.c:81-82 | Dekker: subtracting the larger operand from the rounded sum is exact. |
| `Fmaf.NudgeIsRoundOdd` | overlay/bazel/internal/windows-math-fixups.c:97-106 | Moving an even bit pattern one up or down, towards the exact value, is rounding to odd at 53 bits. |
| `Fmaf.BitsRoundTrip` | overlay/bazel/internal/windows-math-fixups.c:47-57 | Reading a double from the bits of a double gives it back. |
| `RoundToOdd.OddThenNearest` | overlay/bazel/internal/windows-math-fixups.c:59-68 | Round to odd in a format with at least two more significand bits, then to nearest: the same as rounding to nearest once, for every value. |
| `RoundToOdd.OddStaysOnSide` | overlay/bazel/internal/windows-math-fixups.c:65-67 | A value that is not a wide number and its odd rounding lie on the same side of every wide number with an even ordinal. |
| `RoundToOdd.NarrowMidpointIsEven` | overlay/bazel/internal/windows-math-fixups.c:59-61 | Half way between two narrow numbers is a wide number with an even ordinal, subnormal ones included. |
| `FloatGrid.RoundIsNearestEven` | overlay/bazel/internal/windows-math-fixups.c:96-107 | The rounding used in the specification is roundTiesToEven: no number is nearer, and a tie went to the even one. |
| `FloatGrid.NearestEvenIsUnique` | overlay/bazel/internal/windows-math-fixups.c:96-107 | That property determines the result. |
| `FloatGrid.GridDecodesFields` | overlay/bazel/internal/windows-math-fixups.c:97-100 | Numbers by ordinal agree with exponent and fraction fields of the interchange formats. |
| `Stores.VectorStoresTile` | overlay/Mojo/lib/KGENToLLVM/LLVMLoweringUtils.cpp:772-800 | The vector stores of a chunk tile `[idx, idx+size)`, end to end, and hold its bytes. |
| `Stores.VectorStoreWidths` | overlay/Mojo/lib/KGENToLLVM/LLVMLoweringUtils.cpp:791-799 | Every width is a power of two and each is smaller than the one before. |
| `Stores.VectorStoreCount` | overlay/Mojo/lib/KGENToLLVM/LLVMLoweringUtils.cpp:772-800 | There are as many stores as one bits in the size. |
| `Stores.TilesExecute` | overlay/Mojo/lib/KGENToLLVM/LLVMLoweringUtils.cpp:887-990 | Executing stores that tile a range replaces that range by what they hold and nothing else. |
| `Stores.TilesWriteOnce` | overlay/Mojo/lib/KGENToLLVM/LLVMLoweringUtils.cpp:887-990 | Stores that tile a range write each of its addresses once and no other address. |
| `StoreEmitter.Emitter.constructor` | overlay/Mojo/lib/KGENToLLVM/LLVMLoweringUtils.cpp:907-920 | Emission starts with no stores and no pending run. |
| `StoreEmitter.Emitter.Append` | overlay/Mojo/lib/KGENToLLVM/LLVMLoweringUtils.cpp:904-906 | Stores that carry on where the covered part ends extend it. |
| `StoreEmitter.Emitter.StoreChunks` | overlay/Mojo/lib/KGENToLLVM/LLVMLoweringUtils.cpp:927-930 | A short run is written in chunks of the SIMD width, exactly those. |
| `StoreEmitter.Emitter.Commit` | overlay/Mojo/lib/KGENToLLVM/LLVMLoweringUtils.cpp:921-940 | A pending run is written out as a memset if longer than eight SIMD widths and as chunks otherwise, and the run is then gone; a run always ends at the current index. |
| `StoreEmitter.Emitter.MaterializeStore` | overlay/Mojo/lib/KGENToLLVM/LLVMLoweringUtils.cpp:942-961 | The four cases of one chunk: the whole new state, and the covered part advanced by the chunk. |
| `StoreEmitter.Emitter.MaterializeChunk` | overlay/Mojo/lib/KGENToLLVM/LLVMLoweringUtils.cpp:986-987 | Data of one repeated byte goes on being one pending run. |
| `StoreEmitter.Emitter.MaterializePointer` | overlay/Mojo/lib/KGENToLLVM/LLVMLoweringUtils.cpp:969-985 | Data up to a pointer region, then the relocated pointer as the last store, with no run pending. |
| `StoreEmitter.EmitBlob` | overlay/Mojo/lib/KGENToLLVM/LLVMLoweringUtils.cpp:963-989 | For every blob, SIMD width of at least one and sorted, disjoint, in-range regions, the stores tile the blob and hold its image; no store is wider than the SIMD width and no memset is of eight widths or fewer; a region-free blob of one byte longer than that is a single memset. |
| `StoreEmitter.EmittedStoresAreACopy` | overlay/Mojo/lib/KGENToLLVM/LLVMLoweringUtils.cpp:886-990 | Executed on any memory, those stores leave a byte copy of the blob with relocated pointers overlaid, every byte written exactly once and none outside. |
| `StoreEmitter.InsideRegion` | overlay/Mojo/lib/KGENToLLVM/LLVMLoweringUtils.cpp:975-984 | The reference image holds the relocated pointer in every region. |
| `StoreEmitter.OutsideRegions` | overlay/Mojo/lib/KGENToLLVM/LLVMLoweringUtils.cpp:963-989 | The reference image holds the blob's own bytes everywhere else. |
| `BlobGraph.GetOrMaterialize` | overlay/Mojo/lib/KGENToLLVM/LLVMLoweringUtils.cpp:815-990 | One materialisation of any blob graph, cycles included, ends; it fails exactly when a stack blob other than the root is reachable; otherwise the blobs are exactly the reachable ones, and each non-global one gets stores that leave its image and point only at materialised blobs. |
| `BlobGraph.Walk.FollowPointers` | overlay/Mojo/lib/KGENToLLVM/LLVMLoweringUtils.cpp:852-873 | The recursive walk: what it adds is reachable and not on the stack, on success nothing it added points outside, on failure a stack blob is in the way. |
| `BlobGraph.ReachableBlobs` | overlay/Mojo/lib/KGENToLLVM/LLVMLoweringUtils.cpp:852-884 | From the root the walk finds exactly the reachable blobs, or reports exactly the indirect stack access. |
| `BlobGraph.WalkIsReachability` | overlay/Mojo/lib/KGENToLLVM/LLVMLoweringUtils.cpp:852-884 | A set that was reached from the root and is closed under pointers is the set of end points of paths. |
| `BlobGraph.StorePass` | overlay/Mojo/lib/KGENToLLVM/LLVMLoweringUtils.cpp:890-990 | Stores are emitted for exactly the materialised blobs that are not global, and every pointer lookup finds an entry. |
| `VariantPacker.Packer.constructor` | overlay/Mojo/lib/KGENToLLVM/LLVMLoweringUtils.cpp:624-645 | Zeroed storage words of the given widths. |
| `VariantPacker.Packer.Advance` | overlay/Mojo/lib/KGENToLLVM/LLVMLoweringUtils.cpp:513-524 | Move on by at most the rest of the current word; bits before the iterator plus the offset into its word are always the position. |
| `VariantPacker.Packer.AddPadding` | overlay/Mojo/lib/KGENToLLVM/LLVMLoweringUtils.cpp:528-534 | Pad to the next multiple of the alignment in bits; ends even across words of any widths. |
| `VariantPacker.Packer.StoreLeaf` | overlay/Mojo/lib/KGENToLLVM/LLVMLoweringUtils.cpp:557-582 | The bits of a leaf are written across word boundaries, all of them, and nothing already stored changes. |
| `VariantPacker.Packer.Walk` | overlay/Mojo/lib/KGENToLLVM/LLVMLoweringUtils.cpp:536-613 | With room for it, walking any tree of leaves and aggregates leaves the storage holding the serialised value and zeros after it, with the iterator at its end. |
| `VariantPacker.Packer.WalkAll` | overlay/Mojo/lib/KGENToLLVM/LLVMLoweringUtils.cpp:585-612 | The same for the parts of an array, struct or vector, in order. |
| `VariantPacker.StoreIntoWord` | overlay/Mojo/lib/KGENToLLVM/LLVMLoweringUtils.cpp:559-581 | One turn of the store loop: shifting, resizing and or-ing stores as many bits as the word has room for. |
| `VariantPacker.OrIntoZeros` | overlay/Mojo/lib/KGENToLLVM/LLVMLoweringUtils.cpp:564-578 | The shift, extend or truncate, shift, or sequence on one word puts the bits right after those already there. |
| `VariantLayout.LeavesAreDisjoint` | overlay/Mojo/lib/KGENToLLVM/LLVMLoweringUtils.cpp:536-613 | Leaf ranges lie between start and end, in order, without overlap. |
| `VariantLayout.LeavesReadBack` | overlay/Mojo/lib/KGENToLLVM/LLVMLoweringUtils.cpp:536-613 | Every leaf of the value can be read back bit for bit at its offset. |
| `UnionLowering.MaterializeUnion` | overlay/Mojo/lib/KGENToLLVM/LLVMLoweringUtils.cpp:615-699 | The struct made of the storage words has a head as wide as the representative and one byte for each tail element; every leaf reads back from the words, and from memory wherever its place is moved to. |
| `UnionMemory.StoreMember` | overlay/Mojo/lib/KGENToLLVM/LLVMLoweringUtils.cpp:446-486 | Lowering a union and storing a value of a member, end to end: apart from an empty payload or too large a head it succeeds exactly when the member's walk bits fit; leaves are in place, and the value reads back by the member's own layout if storing moves its leaves there. |
| `UnionMemory.LeafInMemoryIff` | overlay/Mojo/lib/KGENToLLVM/LLVMLoweringUtils.cpp:615-699 | All values of a member have a given leaf in memory from a given bit on if and only if the leaf's storage place is moved there: it is in the head's own bits, or behind the gap that the head leaves of its alloc size, or there is no gap. |
| `UnionMemory.ReadAsTypeIff` | overlay/Mojo/lib/KGENToLLVM/LLVMLoweringUtils.cpp:615-699 | All values of a member read back from memory by the member's own layout if and only if every leaf is moved to its layout offset, a condition on the types alone. |
| `UnionMemory.AbsorbedMovesToLayout` | overlay/Mojo/lib/KGENToLLVM/LLVMLoweringUtils.cpp:536-613 | That holds for every type that absorbs its padding under a head that fills its alloc size. |
| `UnionMemory.LeavesHaveSpans` | overlay/Mojo/lib/KGENToLLVM/LLVMLoweringUtils.cpp:536-613 | Where the leaves of a value are depends on its type alone. |
| `UnionMemory.OutsideLeavesIsZero` | overlay/Mojo/lib/KGENToLLVM/LLVMLoweringUtils.cpp:536-613 | Storage bits that belong to no leaf stay zero. |
| `TypedVariant.WalkMatchesLayoutIff` | overlay/Mojo/lib/KGENToLLVM/LLVMLoweringUtils.cpp:536-613 | The walk puts each leaf where the struct layout rule puts it if and only if every element or field with a leaf starts where the layout starts it, a predicate on the type alone (`Absorbed`). |
| `TypedVariant.WalkMatchesLayout` | overlay/Mojo/lib/KGENToLLVM/LLVMLoweringUtils.cpp:64-77 | So it does for every type without tail padding inside, and then ends at the alloc size. |
| `TypedVariant.FilledIsAbsorbed` | overlay/Mojo/lib/KGENToLLVM/LLVMLoweringUtils.cpp:64-77 | A type without tail padding inside takes its alloc size in the walk and absorbs its padding. |
| `TypedVariant.WalkEnds` | overlay/Mojo/lib/KGENToLLVM/LLVMLoweringUtils.cpp:536-613 | From every start, every value of a type takes the same number of bits: for arrays and vectors `(n-1)` strides at the element's alignment and one element. |
| `TypedVariant.LeaflessIsEmpty` | overlay/Mojo/lib/KGENToLLVM/LLVMLoweringUtils.cpp:536-613 | A type without leaves takes no bits in the walk and none in the layout. |
| `TypedVariant.FilledSize` | overlay/Mojo/lib/KGENToLLVM/LLVMLoweringUtils.cpp:51-79 | A type without tail padding inside has neither unused bits nor tail padding itself. |
| `TypedVariant.RegularFits` | overlay/Mojo/lib/KGENToLLVM/LLVMLoweringUtils.cpp:536-613 | If array elements are as large as their stride, the walk stays within the alloc size whatever the tail padding. |
| `LayoutExamples.TailPaddingMovesLeaves` | overlay/Mojo/lib/KGENToLLVM/LLVMLoweringUtils.cpp:536-613 | A struct with tail padding inside another: the walk packs the next byte into the padding, bit 40, where the layout has it at bit 64; the padding is not absorbed. |
| `LayoutExamples.LongDoubleArrayOverruns` | overlay/Mojo/lib/KGENToLLVM/LLVMLoweringUtils.cpp:60-63 | Arrays are sized by store size and walked by alignment: four 80-bit floats are walked to bit 464 of 384 allocated, two to bit 208 of 256. |
| `DataLayout.ComputeAlign` | overlay/Mojo/lib/KGENToLLVM/LLVMLoweringUtils.cpp:81-114 | The recursive query with its loop computes the alignment and the last most aligned leaf. |
| `DataLayout.ComputeSize` | overlay/Mojo/lib/KGENToLLVM/LLVMLoweringUtils.cpp:51-79 | The recursive query computes the size in bits. |
| `DataLayout.ComputeStructSize` | overlay/Mojo/lib/KGENToLLVM/LLVMLoweringUtils.cpp:67-77 | The struct loop: fields at their alignment, then rounded up to the strictest one. |
| `DataLayout.AlignIsPow2` | overlay/Mojo/lib/KGENToLLVM/LLVMLoweringUtils.cpp:81-114 | Alignments of all types are powers of two when those of the target are. |
| `DataLayout.StrictestIsPow2` | overlay/Mojo/lib/KGENToLLVM/LLVMLoweringUtils.cpp:98-112 | The alignment of a struct is at least that of each field. |
| `DataLayout.StructFollowsLastStrictest` | overlay/Mojo/lib/KGENToLLVM/LLVMLoweringUtils.cpp:98-112 | A struct has the alignment and the leaf of its last most aligned field, and the target's struct alignment if that is stricter. |
| `LayoutTable.Leaves` | overlay/Mojo/lib/KGENToLLVM/LLVMLoweringUtils.cpp:51-114 | In numbers, on a 64-bit target: bits, bytes, bytes in memory and alignment of a pointer, booleans, integers and floats of several widths. |
| `LayoutTable.Repeated` | overlay/Mojo/lib/KGENToLLVM/LLVMLoweringUtils.cpp:51-114 | A vector is as wide as the target makes it and aligned as its element; an array of three 24-bit integers has 72 bits. |
| `LayoutTable.PairsInNumbers` | overlay/Mojo/lib/KGENToLLVM/LLVMLoweringUtils.cpp:51-114 | By the queries themselves: a struct of a pointer and a byte has 128 bits and alignment 8, one of a byte and a word 64 and 4. |
| `LayoutTable.PairLayout` | overlay/Mojo/lib/KGENToLLVM/LLVMLoweringUtils.cpp:64-77 | A struct of any two fields: the second at the next multiple of its alignment, the whole rounded up to the stricter one. |
| `LayoutTable.StructAlignment` | overlay/Mojo/lib/KGENToLLVM/LLVMLoweringUtils.cpp:98-112 | A struct alignment of 8 makes a struct of one byte take eight bytes in memory and have 8 bits. |
| `LayoutTable.LastOfTheStrictest` | overlay/Mojo/lib/KGENToLLVM/LLVMLoweringUtils.cpp:98-112 | Of a float, an integer of the same alignment and a byte the integer is the leaf; an empty struct at the end takes the leaf away. |
| `LayoutTable.ElementOffsets` | overlay/Mojo/lib/KGENToLLVM/LLVMLoweringUtils.cpp:60-63 | Where the elements of arrays of 24-bit integers and booleans, and of a vector of booleans, are. |
| `DataLayout.StrictestLeafGivesAlignment` | overlay/Mojo/lib/KGENToLLVM/LLVMLoweringUtils.cpp:98-112 | The leaf reported with an alignment has that alignment, where structs add none of their own. |
| `StructConversion.LlvmOffsetsAreALayout` | overlay/Mojo/lib/KGENToLLVM/LLVMLoweringUtils.cpp:67-77 | Elements are aligned, each ends before the next begins, the last before the struct ends. |
| `UnionLowering.PayloadSize` | overlay/Mojo/lib/KGENToLLVM/LLVMLoweringUtils.cpp:138-156 | The widest member, in LLVM's or KGEN's layout, whichever is larger. |
| `UnionLowering.ReprType` | overlay/Mojo/lib/KGENToLLVM/LLVMLoweringUtils.cpp:158-186 | The last of the most aligned members' leaves that fill their storage, or i8; widened to an integer of the true alignment exactly where the leaf is less aligned and that integer has it. |
| `UnionLowering.LowerUnion` | overlay/Mojo/lib/KGENToLLVM/LLVMLoweringUtils.cpp:446-486 | The whole lowering: the empty struct or `{repr, tail}`; its alloc size is the payload rounded up to the alignment, the size assertion holds exactly when the alignment divides the payload; a leaf of a member without empty arrays is never larger than the payload, and a widened head exactly when its alignment exceeds the payload; a head that is aligned enough is one a member offers, or i8. |
| `LayoutTable.PointerUnion` | overlay/Mojo/lib/KGENToLLVM/LLVMLoweringUtils.cpp:446-486 | By the lowering itself: a pointer or a byte becomes `{ptr}`, of eight bytes. |
| `LayoutTable.BoolUnion` | overlay/Mojo/lib/KGENToLLVM/LLVMLoweringUtils.cpp:158-186 | A boolean does not fill its byte, so a byte heads its union. |
| `UnionLowering.WidenedAlloc` | overlay/Mojo/lib/KGENToLLVM/LLVMLoweringUtils.cpp:176-184 | A widened head is as large as it is aligned. |
| `LayoutExamples.EmptyArrayHeadIsTooLarge` | overlay/Mojo/lib/KGENToLLVM/LLVMLoweringUtils.cpp:473-478 | The union of no 64-bit integers and a byte: the head is the 64-bit integer, eight bytes for a payload of one. |
| `LayoutExamples.WidenedHeadIsTooLarge` | overlay/Mojo/lib/KGENToLLVM/LLVMLoweringUtils.cpp:473-478 | A byte with true alignment 4: the head is widened to four bytes for a payload of one. |
| `UnionLowering.LoweredAllocSize` | overlay/Mojo/lib/KGENToLLVM/LLVMLoweringUtils.cpp:468-484 | `{repr, tail}` has the payload rounded up to the representative's alignment as alloc size. |
| `UnionLowering.SizeAssertionHoldsIff` | overlay/Mojo/lib/KGENToLLVM/LLVMLoweringUtils.cpp:480-484 | The size assertion holds if and only if that alignment divides the payload. |
| `UnionLowering.StrictestLeafFits` | overlay/Mojo/lib/KGENToLLVM/LLVMLoweringUtils.cpp:81-114 | The leaf that gives a type its alignment is no larger than the type, without empty arrays. |
| `UnionLowering.MemberRepresentativeFits` | overlay/Mojo/lib/KGENToLLVM/LLVMLoweringUtils.cpp:158-186 | So a representative taken from a member is no larger than the payload. |
| `UnionLowering.StorageLength` | overlay/Mojo/lib/KGENToLLVM/LLVMLoweringUtils.cpp:623-645 | The storage words span the payload exactly when the representative fills its alloc size; otherwise they are short by the difference. |
| `UnionLowering.StorageFitsIff` | overlay/Mojo/lib/KGENToLLVM/LLVMLoweringUtils.cpp:615-651 | A member's values fit the storage if and only if its walk bits, plus what the representative falls short of its alloc size, fit the payload. |
| `UnionLowering.RegularMemberFits` | overlay/Mojo/lib/KGENToLLVM/LLVMLoweringUtils.cpp:615-651 | A representative that fills its alloc size leaves room for every regular member. |
| `UnionLowering.BoolVectorFits` | overlay/Mojo/lib/KGENToLLVM/LLVMLoweringUtils.cpp:138-156 | And for a boolean vector of any length, which KGEN sizes at a byte an element and LLVM at a bit. |
| `LayoutExamples.OddPayloadBreaksAssertion` | overlay/Mojo/lib/KGENToLLVM/LLVMLoweringUtils.cpp:446-486 | The union of a 64-bit integer and nine bytes: payload 9 and an eight-byte head are what the lowering picks, the lowered type is 16 bytes and the assertion fails. |
| `LayoutExamples.LongDoubleStorageIsShort` | overlay/Mojo/lib/KGENToLLVM/LLVMLoweringUtils.cpp:623-645 | The union of an 80-bit float and 32 bytes: the lowering picks the float as head, and 208 bits of storage remain for values that need 256. |
| `LayoutExamples.OddArrayOverrunsUnion` | overlay/Mojo/lib/KGENToLLVM/LLVMLoweringUtils.cpp:615-651 | The union of four 24-bit integers and a 32-bit one: 96 bits of storage for values that are walked to bit 120. |
| `StructConversion.FieldsLandIff` | overlay/Mojo/lib/KGENToLLVM/LLVMLoweringUtils.cpp:352-394 | For all resolved fields, whether KGEN and LLVM size and align them alike or not: LLVM places every field of the padded struct at its KGEN offset if and only if, field by field, padding and alignment bring LLVM's own position to it. |
| `StructConversion.AgreeingFieldsLandIff` | overlay/Mojo/lib/KGENToLLVM/LLVMLoweringUtils.cpp:361-381 | Where both layouts give each field the same size, that is so if and only if LLVM's alignment divides every KGEN offset. |
| `StructConversion.StricterFieldsFit` | overlay/Mojo/lib/KGENToLLVM/LLVMLoweringUtils.cpp:361-381 | That is so whenever KGEN aligns each field at least as strictly as LLVM. |
| `StructConversion.FieldsLandOnKgenOffsets` | overlay/Mojo/lib/KGENToLLVM/LLVMLoweringUtils.cpp:352-394 | Fields that land do so under the index cached for them, and the indices strictly increase. |
| `LayoutExamples.PackedFieldMoves` | overlay/Mojo/lib/KGENToLLVM/LLVMLoweringUtils.cpp:376-381 | A 32-bit field that KGEN packs at offset 1 gets no padding, and LLVM moves it to offset 4. |
| `LayoutExamples.BoolVectorShiftsFields` | overlay/Mojo/lib/KGENToLLVM/LLVMLoweringUtils.cpp:376-394 | Four booleans, four bytes to KGEN and one to LLVM: every KGEN offset suits LLVM, no padding is inserted, and the byte after them goes to offset 1 instead of 4. |
| `LayoutExamples.PackedStructGrows` | overlay/Mojo/lib/KGENToLLVM/LLVMLoweringUtils.cpp:396-415 | A word and a byte, total alignment 1: both fields land, KGEN has 5 bytes and LLVM 8. |
| `LayoutTable.ConvertInNumbers` | overlay/Mojo/lib/KGENToLLVM/LLVMLoweringUtils.cpp:343-418 | By the conversion itself: a word after a byte is padded by LLVM alone, a word that KGEN aligns to 16 gets 15 bytes before it and 12 after. |
| `StructConversion.BodyEnd` | overlay/Mojo/lib/KGENToLLVM/LLVMLoweringUtils.cpp:352-394 | Where the padded body ends for LLVM, whether its fields land or not. |
| `StructConversion.ConvertedHasKgenSizeIff` | overlay/Mojo/lib/KGENToLLVM/LLVMLoweringUtils.cpp:396-415 | For all resolved fields, the closed struct has KGEN's total size if and only if LLVM's alignment divides that size and LLVM, with the tail padding, ends less than one alignment below it. |
| `StructConversion.ConvertedHasKgenSize` | overlay/Mojo/lib/KGENToLLVM/LLVMLoweringUtils.cpp:396-415 | Where fields of agreed sizes land, the divisibility alone decides, and it holds whenever KGEN aligns the struct at least as strictly. |
| `StructConversion.CachedIndexNamesField` | overlay/Mojo/lib/KGENToLLVM/LLVMLoweringUtils.cpp:494-504 | A cached index names the element that is the field, for every resolved struct, and where its fields land, at the field's KGEN offset. |
| `StructConversion.IndexOfPrefix` | overlay/Mojo/lib/KGENToLLVM/LLVMLoweringUtils.cpp:382-390 | A cached index depends only on the fields up to it, so entries written before a failed conversion are right too. |
| `StructConversion.Converter.constructor` | overlay/Mojo/lib/KGENToLLVM/LLVMLoweringUtils.cpp:343-346 | The cache starts empty. |
| `StructConversion.Converter.ConvertField` | overlay/Mojo/lib/KGENToLLVM/LLVMLoweringUtils.cpp:352-394 | One field: padding if KGEN asks for more than LLVM gives, then the field; its index is cached; an entry that is already there is the same one, so the source's consistency assertion never fails. |
| `StructConversion.Converter.Convert` | overlay/Mojo/lib/KGENToLLVM/LLVMLoweringUtils.cpp:343-418 | Conversion succeeds exactly when every size and alignment is known; the result is the padded struct, every field is cached, no entry is lost and every entry in the cache is right for its struct. |
| `CAbiRewrite.NewParams` | overlay/Mojo/lib/KGENToLLVM/LowerKGENToLLVMRewriteCABIFns.cpp:168-189 | The new parameter list is the hidden pointer and then each argument's lanes; `byval` entries carry the position of their pointer. |
| `CAbiRewrite.ByValsPointAtPointers` | overlay/Mojo/lib/KGENToLLVM/LowerKGENToLLVMRewriteCABIFns.cpp:178-181 | There is an entry for exactly the `byval` arguments, and it names a pointer parameter. |
| `CAbiRewrite.Reconstruct` | overlay/Mojo/lib/KGENToLLVM/LowerKGENToLLVMRewriteCABIFns.cpp:44-97 | The second loop, reading types off the new function type, appends exactly the lanes of every argument and rebuilds each from its own. |
| `CAbiRewrite.AddLanes` | overlay/Mojo/lib/KGENToLLVM/LowerKGENToLLVMRewriteCABIFns.cpp:56-94 | The lanes of one argument, for each of the four ways it can travel. |
| `CAbiRewrite.RewriteBody` | overlay/Mojo/lib/KGENToLLVM/LowerKGENToLLVMRewriteCABIFns.cpp:206-224 | After append, erase and sret insertion the block arguments are the new parameters position by position. |
| `CAbiRewrite.Process` | overlay/Mojo/lib/KGENToLLVM/LowerKGENToLLVMRewriteCABIFns.cpp:150-237 | For every signature and any mix of classes: block arguments equal the new function type, each original value is read from its own position, the parameter at each position and each element of the result is the first or the second register its class names, `sret` and `byval` follow, and nothing changes when all are identities. |
| `CAbiRewrite.ArrivesInPlace` | overlay/Mojo/lib/KGENToLLVM/LowerKGENToLLVMRewriteCABIFns.cpp:168-189 | For every class, at an argument's position is its own type, a pointer, or its first register's type, followed by its second's. |
| `CAbiRewrite.PositionSteps` | overlay/Mojo/lib/KGENToLLVM/LowerKGENToLLVMRewriteCABIFns.cpp:168-189 | Positions start behind the hidden pointer and go on by two for a register pair and by one for anything else. |
| `CAbiMemory.RewriteByClasses` | overlay/Mojo/lib/KGENToLLVM/LowerKGENToLLVMRewriteCABIFns.cpp:150-237 | The rewrite executed, for every signature and any valid classes: a body that returns an argument gives a value exactly when the registers of both classes fit the value's slot, and then every data byte that both carry, whatever the other arguments are. |
| `CAbiMemory.ReturningAnArgumentGivesBack` | overlay/Mojo/lib/KGENToLLVM/LowerKGENToLLVMRewriteCABIFns.cpp:44-144 | The same for one argument, with what each block argument holds as the starting point. |
| `CAbiMemory.RebuiltKeeps` | overlay/Mojo/lib/KGENToLLVM/LowerKGENToLLVMRewriteCABIFns.cpp:44-97 | The rebuilt argument: as it came, loaded through its pointer, or stored from its registers, in their order and of their declared types, to a slot and loaded. |
| `CAbiMemory.ReturnedKeeps` | overlay/Mojo/lib/KGENToLLVM/LowerKGENToLLVMRewriteCABIFns.cpp:101-144 | The returned value: as it is, through the hidden pointer, or stored and reloaded as the class's register or struct of two. |
| `CAbiMemory.GatherScatter` | overlay/Mojo/lib/KGENToLLVM/LowerKGENToLLVMRewriteCABIFns.cpp:101-144 | Loading a struct into registers and storing it again keeps every byte that a field has, for any number of fields. |
| `CAbiMemory.PairStored` | overlay/Mojo/lib/KGENToLLVM/LowerKGENToLLVMRewriteCABIFns.cpp:66-85 | A register pair in memory: the bytes of the first from offset 0, those of the second at the second field's offset, the rest untouched. |
| `CAbiMemory.PairLoaded` | overlay/Mojo/lib/KGENToLLVM/LowerKGENToLLVMRewriteCABIFns.cpp:133-143 | Reloading a pair gives the first register the bytes at offset 0 and the second those at the second field's offset. |
| `CAbiMemory.PairCarries` | overlay/Mojo/lib/KGENToLLVM/LowerKGENToLLVMRewriteCABIFns.cpp:66-85 | So a pair carries exactly those bytes. |
| `Win64.StructRule` | overlay/Mojo/lib/KGENToLLVM/CABIWin64.cpp:67-100 | A struct of 1, 2, 4 or 8 bytes travels as the integer of exactly that size, any other by reference (never `byval`) or through `sret`; never in two registers. |
| `Win64.CoercionFitsSlot` | overlay/Mojo/lib/KGENToLLVM/LowerKGENToLLVMRewriteCABIFns.cpp:86-94 | The coerced integer is as large as the struct, so storing it never overruns the slot. |
| `Win64.ClassesAreValid` | overlay/Mojo/lib/KGENToLLVM/CABIWin64.cpp:35-61 | Every class has what the rewrite needs, and every argument exactly one lane. |
| `Win64.ComputeSignatureInfo` | overlay/Mojo/lib/KGENToLLVM/CABILowering.cpp:44-56 | Every argument is classified by its own type whatever its position; a missing result stays an identity. |
| `Win64.ArgumentClass` | overlay/Mojo/lib/KGENToLLVM/CABIWin64.cpp:35-100 | For every type: a scalar, pointer or vector stays as it is, a struct of 1, 2, 4 or 8 bytes becomes the integer of its size, any other and every array a pointer without `byval`; the class carries every byte. |
| `Win64.ReturnClass` | overlay/Mojo/lib/KGENToLLVM/CABIWin64.cpp:57-100 | For every result: no struct, no change, arrays included; a struct becomes the integer of its size, or nothing and a hidden pointer. |
| `Win64.NothingToDoIff` | overlay/Mojo/lib/KGENToLLVM/CABIWin64.cpp:35-100 | Nothing is rewritten if and only if there is no struct, and no array among the parameters. |
| `Win64.RewriteForWin64` | overlay/Mojo/lib/KGENToLLVM/LowerKGENToLLVMRewriteCABIFns.cpp:150-237 | Classification and rewrite in one: the new signature in terms of the old types alone, with one parameter for each argument after the hidden pointer and no `byval`; no change for a definition without structs and array parameters; and a body that returns an argument gives every data byte back, for every signature, position, value and set of data bytes. |
| `Win64.ReturningAnArgumentLosesNothing` | overlay/Mojo/lib/KGENToLLVM/LowerKGENToLLVMRewriteCABIFns.cpp:44-144 | The byte statement for one argument: no store or load goes out of bounds and no data byte is missing, because both classes carry them all. |
| `PopRewrites.RunsPreserveMeaningAndEnd` | overlay/Mojo/lib/POPDialect/POPOpsFolders.cpp:265-323 | Every run of the patterns, at any places and in any order, preserves the value or address under every environment and is no longer than the measure of its first expression. |
| `PopRewrites.StepRefinesAndShrinks` | overlay/Mojo/lib/POPDialect/POPOpsFolders.cpp:1006-1093 | One pattern applied anywhere keeps the type and the value and makes the measure smaller. |
| `PopRewrites.RootRefines` | overlay/Mojo/lib/POPDialect/POPOpsFolders.cpp:1602-1639 | One pattern at the root refines the expression. |
| `PopRewrites.Canonicalize` | overlay/Mojo/lib/POPDialect/POPOpsFolders.cpp:265-323 | Applying patterns until none applies ends, in a form no pattern applies to and that refines the input. |
| `PopRewrites.FindStep` | overlay/Mojo/lib/POPDialect/POPOpsFolders.cpp:1684-1709 | A step is found whenever there is one. |
| `PopRewrites.CastChainIsRedundantIff` | overlay/Mojo/lib/POPDialect/POPOpsFolders.cpp:1050-1092 | For integers of any widths and signedness, the middle cast changes no value if and only if it keeps all bits that are kept in the end, or the whole range of the first type. |
| `PopRewrites.GuardAgainstRedundancy` | overlay/Mojo/lib/POPDialect/POPOpsFolders.cpp:1050-1087 | The pattern bails out of every chain that is not redundant, and needlessly of exactly three kinds that are. |
| `PopRewrites.CastChainIsRedundant` | overlay/Mojo/lib/POPDialect/POPOpsFolders.cpp:1050-1092 | Whenever the pattern does not bail out, the middle cast changes no value. |
| `PopRewrites.UnguardedChainLosesSign` | overlay/Mojo/lib/POPDialect/POPOpsFolders.cpp:1069-1074 | Where the sign guard bails out, dropping the middle cast would change a value: 8-bit -1 through unsigned 16 bits. |
| `PopRewrites.CanonicalCasts` | overlay/Mojo/lib/POPDialect/POPOpsFolders.cpp:1050-1092 | No canonical form contains a chain of casts that only truncates, only extends with one sign, or ends in a copy. |
| `PopRewrites.ShiftIsDivision` | overlay/Mojo/lib/POPDialect/POPOpsFolders.cpp:277-320 | On an unsigned lane, the logical shift by the logarithm is the division. |
| `PopRewrites.CanonicalDivisions` | overlay/Mojo/lib/POPDialect/POPOpsFolders.cpp:265-323 | No canonical form contains an unsigned division by constant powers of two below half the range. |
| `PopRewrites.DivRefines` | overlay/Mojo/lib/POPDialect/POPOpsFolders.cpp:265-323 | The rewritten division has the same value lane by lane. |
| `PopRewrites.CastRefines` | overlay/Mojo/lib/POPDialect/POPOpsFolders.cpp:1006-1093 | The shortened cast chain has the same value lane by lane. |
| `PopRewrites.AdvanceTwice` | overlay/Mojo/lib/POPDialect/POPOpsFolders.cpp:1551-1568 | Two offsets in wrapping 64-bit addresses are one offset by the sum. |
| `PopRewrites.OffsetRefines` | overlay/Mojo/lib/POPDialect/POPOpsFolders.cpp:1602-1639 | Merged offsets, and an offset of a zero array index, give the same address. |
| `PopRewrites.CanonicalOffsets` | overlay/Mojo/lib/POPDialect/POPOpsFolders.cpp:1602-1639 | None contains an offset of a zero array index, or two constant offsets whose sum fits. |
| `PopRewrites.SelectRefines` | overlay/Mojo/lib/POPDialect/POPOpsFolders.cpp:1684-1709 | Skipping the inner of two selects on one condition gives the same value. |
| `PopRewrites.CanonicalSelects` | overlay/Mojo/lib/POPDialect/POPOpsFolders.cpp:1684-1709 | None contains a select with a select on its own condition in the true arm, or in the false arm below a plain true arm. |
| `PopRewrites.XOrRefines` | overlay/Mojo/lib/POPDialect/POPOpsFolders.cpp:1289-1309 | A select between false and true is an exclusive or with true, lane by lane. |
| `PopRewrites.CanonicalNots` | overlay/Mojo/lib/POPDialect/POPOpsFolders.cpp:1289-1309 | None contains a select between false and true. |
| `PopRewrites.OtherDivisionsStay` | overlay/Mojo/lib/POPDialect/POPOpsFolders.cpp:292-298 | No pattern applies to a signed division, or to one by a constant that has a lane which is no power of two or is half the range. |
| `PopLaws.EvalHasType` | overlay/Mojo/lib/POPDialect/POPOpsFolders.cpp:265-326 | Whatever value an expression has is one of its type. |
| `PopLaws.SelectTakesArm` | overlay/Mojo/lib/POPDialect/POPOpsFolders.cpp:1646-1660 | A select has the value of its second operand where the condition is true and of its third where it is false. |
| `PopLaws.SimdSelectTakesLanes` | overlay/Mojo/lib/POPDialect/POPOpsFolders.cpp:1237-1247 | The same lane by lane for `simd.select`, on integers and booleans. |
| `PopLaws.SelectInNumbers` | overlay/Mojo/lib/POPDialect/POPOpsFolders.cpp:1646-1660 | `select true, 1, 2` is 1 and `select false, 1, 2` is 2. |
| `PopLaws.XOrDiffers` | overlay/Mojo/lib/POPDialect/POPOpsFolders.cpp:1306-1307 | A lane of an exclusive or is set exactly where the operands differ. |
| `PopLaws.ElementAddress` | overlay/Mojo/lib/POPDialect/POPOpsFolders.cpp:1551-1568 | `offset` and `array.gep`: base plus index times element size while that does not wrap, and its remainder by 2^64 otherwise. |
| `PopLaws.ElementsApart` | overlay/Mojo/lib/POPDialect/POPOpsFolders.cpp:2201-2220 | Neighbouring elements are one element size apart, and index 0 is the base. |
| `PopLaws.OffsetInBytes` | overlay/Mojo/lib/POPDialect/POPOpsFolders.cpp:1551-1568 | An offset by `i` elements of `s` bytes is one by `s*i` single bytes, wrapping or not. |
| `PopLaws.AddressInNumbers` | overlay/Mojo/lib/POPDialect/POPOpsFolders.cpp:1551-1568 | Element 3 of eight-byte elements from address 100 is at 124, by either operation. |
| `PopLaws.DivisionDivides` | overlay/Mojo/lib/POPDialect/POPOpsFolders.cpp:325-327 | A division has a value unless a divisor lane is zero, and each lane is the truncating quotient of the integers: quotient times divisor plus a smaller remainder of the dividend's sign, except for the least integer by -1. |
| `PopLaws.DivisionInNumbers` | overlay/Mojo/lib/POPDialect/POPOpsFolders.cpp:325-327 | Lanes of -7/2, 249/2 and both shifts by one. |
| `PopLaws.ShiftRounds` | overlay/Mojo/lib/POPDialect/POPOpsFolders.cpp:434-436 | A shift right has a value exactly if every amount is below the width, and is division by the power of two, rounded down, under either signedness. |
| `PopLaws.ShiftRecovers` | overlay/Mojo/lib/POPDialect/POPOpsFolders.cpp:434-436 | On unsigned lanes it undoes multiplication by the power of two. |
| `PopLaws.CastKeepsIntegers` | overlay/Mojo/lib/POPDialect/POPOpsFolders.cpp:978-1002 | A cast keeps each integer that the target type has, and every other modulo the target's power of two. |
| `PopLaws.CastInNumbers` | overlay/Mojo/lib/POPDialect/POPOpsFolders.cpp:978-1002 | 200 to sixteen bits, unsigned and as -56, and 0x1C8 to eight. |
| `PopRewrites.NormalEverywhere` | overlay/Mojo/lib/POPDialect/POPOpsFolders.cpp:1006-1093 | If no pattern applies to an expression, none applies to any part of it. |
| `PopExpr.OperandRefines` | overlay/Mojo/lib/POPDialect/POPOpsFolders.cpp:1089-1091 | Replacing an operand by a refinement refines the whole expression. |
| `Reshape.Fold` | overlay/Mojo/lib/POPDialect/POPOpsFolders.cpp:758-824 | For power-of-two lane counts and either byte order, folding is refused exactly when the totals differ and otherwise keeps the bit string in memory order. |
| `Reshape.MergeLanes` | overlay/Mojo/lib/POPDialect/POPOpsFolders.cpp:789-803 | Merged lanes hold their concatenated bits in memory order. |
| `Reshape.CutLane` | overlay/Mojo/lib/POPDialect/POPOpsFolders.cpp:809-818 | The pieces of a lane concatenate to it. |
| `Reshape.MergeAll` | overlay/Mojo/lib/POPDialect/POPOpsFolders.cpp:786-804 | All groups of lanes merged. |
| `Reshape.CutAll` | overlay/Mojo/lib/POPDialect/POPOpsFolders.cpp:805-820 | All lanes cut. |
| `Reshape.LaneCountsGiveDivisibility` | overlay/Mojo/lib/POPDialect/POPOpsFolders.cpp:56-72 | The lane-count rule makes the narrower width divide the wider, by the ratio of the counts. |
| `Reshape.FlatInjective` | overlay/Mojo/lib/POPDialect/POPOpsFolders.cpp:758-824 | Lanes of one width are known from their bit string. |
| `Reshape.FoldThereAndBack` | overlay/Mojo/lib/POPDialect/POPOpsFolders.cpp:758-824 | Folding to another width and back gives the same lanes whenever it is not refused. |
| `Reshape.ThereAndBack` | overlay/Mojo/lib/POPDialect/POPOpsFolders.cpp:758-824 | Reshaping out and back is the identity. |
| `Reshape.FoldThroughTheMiddle` | overlay/Mojo/lib/POPDialect/POPOpsFolders.cpp:758-824 | Folding by way of a middle width is the direct fold, refusals included. |
| `Reshape.ThroughTheMiddle` | overlay/Mojo/lib/POPDialect/POPOpsFolders.cpp:758-824 | Reshaping through a middle width is reshaping directly. |
| `CpuTopology.Collect` | overlay/Support/lib/Threading/HWInfo.cpp:295-326 | The reading loop, with the record it leaves in place after an excluded processor. |
| `CpuTopology.CollectsAllowed` | overlay/Support/lib/Threading/HWInfo.cpp:295-326 | On well-formed text it collects exactly the allowed processors, in order. |
| `CpuTopology.OtherLinesDoNotMatter` | overlay/Support/lib/Threading/HWInfo.cpp:295-326 | Lines with other names change nothing. |
| `CpuTopology.ReadsStrictlyIff` | overlay/Support/lib/Threading/HWInfo.cpp:295-326 | The code agrees with a strict reader, which forgets the record after every core id, if and only if it rejects the text or every core id has its own processor and physical id since the one before. |
| `CpuTopology.ExcludedRecordLeavesItsSocket` | overlay/Support/lib/Threading/HWInfo.cpp:313-323 | Otherwise an excluded processor's socket is taken over by a following record that has none, which alone would be refused. |
| `CpuTopology.Sort` | overlay/Support/lib/Threading/HWInfo.cpp:327-327 | Sorted by socket, core, processor, and the same entries. |
| `CpuTopology.Build` | overlay/Support/lib/Threading/HWInfo.cpp:329-342 | Sorted entries are grouped: distinct increasing sockets, distinct increasing cores within each, and flattening gives the entries back. |
| `CpuTopology.Place` | overlay/Support/lib/Threading/HWInfo.cpp:333-341 | One turn of the building loop. |
| `CpuTopology.ExtendAppends` | overlay/Support/lib/Threading/HWInfo.cpp:333-341 | A turn appends its entry to the flattened topology. |
| `CpuTopology.ExtendKeepsGrouping` | overlay/Support/lib/Threading/HWInfo.cpp:333-341 | A turn on an entry no smaller than the last keeps sockets and cores distinct. |
| `CpuTopology.GetSystemInfo` | overlay/Support/lib/Threading/HWInfo.cpp:275-344 | The topology fails exactly on ill-formed values and otherwise flattens to the collected processors, once per entry, sorted; sockets, cores and CPU ids within each increase; on well-formed text those are the allowed ones. |
| `CpuTopology.CoresAreSorted` | overlay/Support/lib/Threading/HWInfo.cpp:327-342 | CPU ids increase within every core of the topology. |
| `CpuTopology.PinnedCpusAreAllowed` | overlay/Support/lib/Threading/HWInfo.cpp:495-532 | For any text that is accepted, every CPU a thread is pinned to is in the caller's affinity set. |
| `CpuTopology.PlacementOnTopologyIsFair` | overlay/Support/lib/Threading/HWInfo.cpp:495-532 | With one record per processor, usage counts of any two listed processors differ by at most one. |
| `CpuTopology.PlaceThreads` | overlay/Support/lib/Threading/HWInfo.cpp:275-344 | Reading the topology and placing threads, end to end: refused exactly on ill-formed text, no CPU exactly when nothing is collected, otherwise exactly the asked number of entries, every pinned one in the affinity set, and fair use if no processor is listed twice. |
| `ThreadPlacement.GetPreferredCpuIDs` | overlay/Support/lib/Threading/HWInfo.cpp:495-532 | With a CPU to place on, or nothing to place, the loop ends with exactly `numThreads` entries: a part of the first pass if enough, otherwise whole passes and then fewer unpinned entries than the next pass has CPUs. |
| `ThreadPlacement.CollectPass` | overlay/Support/lib/Threading/HWInfo.cpp:502-511 | One pass: the virtual cores of one index over all cores in order, capped. |
| `ThreadPlacement.NoCpuNeverEnds` | overlay/Support/lib/Threading/HWInfo.cpp:513-515 | With threads to place and no CPU, a turn of the loop leads back to its start. |
| `ThreadPlacement.PlacementIsUnique` | overlay/Support/lib/Threading/HWInfo.cpp:495-532 | The topology and the number of threads determine the placement. |
| `ThreadPlacement.PassesCount` | overlay/Support/lib/Threading/HWInfo.cpp:513-519 | After any number of passes a CPU has been used once per full round, and once more if its pass has come. |
| `ThreadPlacement.PlacementIsFair` | overlay/Support/lib/Threading/HWInfo.cpp:495-532 | With distinct ids, usage counts of any two CPUs differ by at most one. |
| `ThreadPlacement.SiblingsWait` | overlay/Support/lib/Threading/HWInfo.cpp:499-519 | In every prefix of a placement, a virtual core is used only if every virtual core of a smaller index is. |
| `ThreadPlacement.PinnedCpusAreListed` | overlay/Support/lib/Threading/HWInfo.cpp:495-532 | Whatever is not unpinned is a CPU of the topology. |
| `ThreadPlacement.AllPinnedIff` | overlay/Support/lib/Threading/HWInfo.cpp:520-527 | All threads are pinned exactly when they fit the first pass or make up rounds of all CPUs and whole passes of the first few indices. |
| `ThreadPlacement.RepeatsIff` | overlay/Support/lib/Threading/HWInfo.cpp:513-519 | Some CPU id is repeated if and only if there are as many threads as CPUs and one more first pass; the declaration promises it above the number of CPUs. |
| `ThreadPlacement.PassesLength` | overlay/Support/lib/Threading/HWInfo.cpp:513-519 | How many CPUs any number of passes takes: whole rounds, and then those of the indices that have come up again. |
| `ThreadPlacement.SocketsInOrder` | overlay/Support/lib/Threading/HWInfo.cpp:502-511 | Two sockets of two cores of two CPUs each: the first pass takes the first CPU of every core, socket by socket, and the second pass the second. |
| `ThreadPlacement.ThirdThreadIsUnpinned` | overlay/Support/lib/Threading/HWInfo.cpp:520-527 | Three threads on two cores: the third is unpinned although the declaration promises a repeated id. |
| `ManifestResource.BuildWindowsManifestResource` | overlay/Mojo/tools/mojo/Build/mojo-build.cpp:735-788 | The bytes: an empty record, then the manifest's record. |
| `ManifestResource.Writer.PutU16` | overlay/Mojo/tools/mojo/Build/mojo-build.cpp:753-756 | Least significant byte first. |
| `ManifestResource.Writer.PutU32` | overlay/Mojo/tools/mojo/Build/mojo-build.cpp:757-760 | Least significant word first. |
| `ManifestResource.Writer.PutHeader` | overlay/Mojo/tools/mojo/Build/mojo-build.cpp:761-777 | The sixteen words of a header. |
| `ManifestResource.Writer.PutData` | overlay/Mojo/tools/mojo/Build/mojo-build.cpp:785-786 | The data and its padding to four bytes. |
| `ManifestResource.LittleEndian` | overlay/Mojo/tools/mojo/Build/mojo-build.cpp:753-760 | Two and four bytes in numbers, least significant first. |
| `ManifestResource.RecordReadsBack` | overlay/Mojo/tools/mojo/Build/mojo-build.cpp:761-786 | A reader takes one record off the front and gets its fields and data, whatever follows. |
| `ManifestResource.ManifestReadsBack` | overlay/Mojo/tools/mojo/Build/mojo-build.cpp:735-788 | Reading the file gives the empty record and the manifest's own, type 24, id 1, memory flags 0x1030, language 1033 and zero versions, if and only if the manifest is shorter than 2^32 bytes; the length is a multiple of four. |

## Left out

- TypedVariant.WalkMatchesLayoutIff: vectors without leaves are taken to have no bits; a target's vector widths are a parameter here and could say otherwise.
- UnionLowering.LowerUnion: a representative larger than the payload makes the source form an array of negative length, which the model reports as no result.
- UnionMemory.StoreMember: a value that does not fit is reported as no result, where the source would step past its storage words; the source's path for a vector representative is left out, since the lowering never picks one; memory is little endian.
- CAbiRewrite.Process: the stores and loads of a rewritten body are recorded as how each value is rebuilt or handed over, and executed in `CAbiMemory`; alloca alignment is not modelled.
- CAbiMemory.RewriteByClasses: the byte statement is about a value that a body returns unchanged; call sites are not modelled.
- PopRewrites.RunsPreserveMeaningAndEnd: the one-use guard of the cast pattern is not modelled (a tree has no shared operands); dropping it only allows more runs.
- CpuTopology.CollectsAllowed: splitting text into lines and parsing decimal numbers are not modelled; a line is one of four kinds with a value that parsed or did not.
- Lane arithmetic of `div`, `shr` and `cast`: the functions the folders hand over to are not part of this model, which takes truncating division, arithmetic or logical shifts by signedness, and casts modulo 2^width.
- Floating-point cast chains: the pattern compares bit widths only and cannot tell formats of equal width apart.
- `index`, `bool` and address element types in casts and reshape, and float results of reshape: their width and representation come from code that is not part of this model.
- Agreement between separate materialisations of one memory space, and the cache in front of them.
- System V and AAPCS classifiers and call sites: the rewrite is proved for arbitrary classes instead.
- Alignment attributes on emitted loads and stores, allocation of the blobs, and creation of globals.
- The other folders and interpreters of the POP dialect: mostly lane-wise constant arithmetic that would add only easy members.
- Cgroup limits, macOS and Windows topology readers, CPU caches, semaphores, random numbers, debugger and crash support: operating-system calls.
- The `mojo` driver, linking, the execution engine, telemetry, configuration and Python discovery: plumbing and string handling.
- The file-locking helper: after a successful wait it runs without retaking the lock, so it does not establish mutual exclusion; the rest is file access.
