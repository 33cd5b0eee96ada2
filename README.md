# malloc-append in Dafny

A model of the append-only ("bump") allocator of `src/index.js`. The
allocator keeps all of its bookkeeping in one array of 32-bit words and hands
out byte offsets into it, never references.

Layout, in words:

- Words 0 and 66 are the header's boundary tags. Both hold 65, the header size.
- Word 2 is the free pointer. It holds the index of the single free block, or
  the sentinel 1, which means the arena is full.
- Data blocks start at word 68. A block at word `b` with `size` payload words
  has a leading tag at `b - 1` and a trailing tag at `b + size`.
- A tag holds `+size` for a free block and `-size` for a used one.
- The free block, when there is one, is always the last block. Its trailing
  tag is the last word of the arena.

The model has four modules:

- `Layout` (`layout.dfy`): the constants, the failure outcomes, and the
  byte/word arithmetic (`align`, `quadsToBytes`, `bytesToQuads`). It also
  holds the request normalisation of `alloc` and `calloc`.
- `Tags` (`tags.dfy`): the boundary-tag codec (`readSize`, `isFree`,
  `readListNode`, `writeFreeBlockSize`) and the header (`verifyHeader`,
  `writeInitialHeader`, `prepare`). Writes are methods over an `array<int>`,
  each specified by a function on its contents.
- `Integrity` (`integrity.dfy`): the two chain walks. `checkListIntegrity`
  and `inspect` are `while` loops proved equal to the recursive functions
  `Walk` and `InspectFrom`. This module also defines `Wf`, the structural
  invariant the allocator keeps. Under `Wf`, used blocks run end to end from
  word 68 up to the free pointer, and then come either one free block of at
  least 2 words or, when the free pointer is 1, nothing more.
- `Allocation` (`allocator.dfy`): the `Allocator` class. It holds the word
  array and `byteLength`.
  - `Alloc` and `Calloc` are specified through the function `Carve`, which
    gives the arena after a successful `alloc`.
  - `Free` and `SizeOf` are specified through `IsBlockAddress` and
    `ReadSize`. `Inspect` is specified through `InspectFrom`.
  - `Attach` models the constructor.

Errors the source throws become `Err(...)` outcomes. `checkListIntegrity`
returns `false` where the source throws. Running out of space is `Ok(0)`,
as in the source.

Two edge cases of the code are stated as lemmas rather than smoothed over:

- `Attach` accepts a fresh region of 71 words (284 bytes) or more. Where the
  source draws the line depends on whether its debug checks run. A
  production build accepts 69 and 71 words and refuses 70. A debug build
  needs 72. The model's choice at each length:
  - Under 276 bytes (69 words), the constructor's debug-only `assert:`
    refuses the region before anything is written. `Attach` does the same.
  - At 69 words the initial free block would have 0 words. That breaks
    `writeFreeBlockSize`'s `size !== 0` precondition, which is also
    debug-only. The model follows the debug build up to that point. The
    header tags and the free pointer are already written (`HeaderWritten`),
    and then `Attach` reports a construction error.
  - At 70 words the free block has 1 word. The integrity walk rejects it in
    both builds (`InitialTooSmall`), so `Attach` reports `Corrupt`, leaving
    the full initial header written.
  - At 71 words the free block has 2 words. The model accepts it, as a
    production build does (`InitialWf`). A debug build refuses it, because
    the walk calls `isFree`, whose assertion asks for at least 3 words.
- A split can leave a free block of only 2 words (`SplitCanLeaveTwoWords`).
  `isFree`'s debug assertion asks for at least 3 words. The invariant the code
  actually keeps is the integrity walk's bound of 2 words, and that is the
  bound `Wf` uses.

A region of exactly the overhead plus 16 bytes (73 words) does not serve
`alloc(1)`: its 4-word free block fails the test `block + 4 + 2 >= length`,
so `alloc(1)` returns 0 (`OverheadPlus16Refuses`). The smallest fresh region
that serves `alloc(1)` has 75 words, and that request takes the whole free
block (`SmallestRegionGrantsWholeBlock`).

`UsedBlocks` lists the blocks handed out so far: the blocks of the used chain
from word 68 to the free block. Every successful `alloc` or `calloc` appends
exactly its own block to that list and changes no word before the old free
block except the free pointer. `UsedBlocksDisjoint` proves that the blocks in
the list are used on both tags, in increasing order and pairwise disjoint.
So however many allocations a client makes, no two of the blocks handed out
overlap, and no later allocation alters an earlier block's tags.

## Model

| member | source | states |
|---|---|---|
| Layout.QuadsToBytes | src/index.js:333-335 | converting words to bytes and back gives the same word count |
| Layout.BytesToQuads | src/index.js:340-342 | the result is the byte count divided by 4, rounded down |
| Layout.Align | src/index.js:347-349 | the result is the least multiple of 8 that is at least `n` |
| Layout.NormalizeIsLeastAlignedBound | src/index.js:87-98 | `alloc` turns a request into the least multiple of 8 that is at least `n` and at least 16 bytes: an even word count of at least 4 |
| Layout.CallocSizeAgrees | src/index.js:153-160 | `calloc` normalises a request to the same size `alloc` would choose, and `alloc` keeps that size |
| Tags.ReadSize | src/index.js:372-383 | the result is the magnitude of the leading tag |
| Tags.IsFree | src/index.js:407-439 | a block is free exactly when it starts at word 65 or later and its leading tag is not negative |
| Tags.ReadListNode | src/index.js:354-366 | a free record whose offset is 4 times the block's word index and whose size is 4 times its leading tag |
| Tags.VerifyHeader | src/index.js:229-232 | a verified header reads as a 65-word block at word 1 from either of its tags |
| Tags.WriteFreeBlockSize | src/index.js:389-401 | both tags of the block hold `size`, and no other word changes |
| Tags.HeaderWritten | src/index.js:244-245 | after the header's tags and the free pointer are written, the header verifies and the free pointer is 68. No other word changes |
| Tags.WriteInitialHeader | src/index.js:237-248 | the arena becomes `InitialImage` of its old contents |
| Tags.Prepare | src/index.js:219-224 | the arena is kept when its header verifies and is initialised otherwise |
| Tags.InitialImageVerifies | src/index.js:229-248 | after the initial header is written, the header verifies and the free pointer is 68. A free block of `length - 69` words ends at the last word. Nothing outside those five words changes |
| Tags.PrepareIdempotent | src/index.js:219-232 | preparing makes the header verify, and preparing twice equals preparing once |
| Integrity.UsedBlockOk | src/index.js:290-298 | a used block that passes has both tags inside the arena, and its trailing tag records the same size as its leading tag |
| Integrity.FreeBlockOk | src/index.js:272-288 | a free block that passes has matching tags. For a free block of at least 2 words, it passes exactly when it runs to the last word and the free pointer names it |
| Integrity.CheckListIntegrity | src/index.js:253-298 | the loop returns exactly the value of the recursive walk `Walk` from word 68 |
| Integrity.ExtendChain | src/index.js:126-136 | a used chain survives writes outside its own words. A used block written right after it extends it by exactly that block |
| Integrity.ChainBlocksDisjoint | src/index.js:254-268 | the blocks of a used chain are used on both tags and lie inside the chain. Each one ends, with its trailing tag, before every later one starts |
| Integrity.UsedBlocksDisjoint | src/index.js:117-140 | in a well-formed arena, the blocks handed out so far are used on both tags, in increasing order and pairwise disjoint. All of them end before the free block when there is one |
| Integrity.ChainWalk | src/index.js:254-268 | the integrity walk passes over every chain of used blocks |
| Integrity.WfPassesIntegrity | src/index.js:80-85 | every well-formed arena passes `checkListIntegrity` |
| Integrity.Inspect | src/index.js:304-328 | the loop returns the header record and exactly the records of the recursive `InspectFrom` |
| Integrity.InspectContiguous | src/index.js:305-327 | in any successful inspection, records have at least 8 bytes. Each record starts 8 bytes after the previous one ends |
| Integrity.UsedNodesShape | src/index.js:318-324 | the records of a used chain are all `Used`, and the last one ends at the chain's last word |
| Integrity.ChainInspect | src/index.js:305-327 | inspecting from a used chain yields its records followed by the rest of the walk |
| Integrity.InspectWf | src/index.js:304-328 | inspecting a well-formed arena succeeds. Records start at byte 272 and end at the last word. All but the last are used. The last is free exactly when the free pointer is not 1, and then it sits at the free pointer |
| Integrity.InitialWf | src/index.js:237-248 | a freshly initialised arena of at least 71 words is well formed |
| Integrity.InitialTooSmall | src/index.js:256-260 | a freshly initialised 70-word arena fails the integrity walk |
| Allocation.Carve | src/index.js:117-138 | the arena after a carve has the same length (its meaning is stated by `CarveWf` and `CarveGrant`) |
| Allocation.ZeroFill | src/index.js:165-170 | exactly the `count` words from `from` on are 0, and every other word is unchanged |
| Allocation.PlaceUsedBlock | src/index.js:117-138 | a used block written at the free pointer, then a new tail free block or the sentinel, keeps the arena well formed. It appends exactly that block to the blocks handed out |
| Allocation.CarvedPayloadFree | src/index.js:153-171 | an arena that matches a carved arena everywhere except the requested payload words is well formed. Its blocks handed out are the old ones plus the carved block |
| Allocation.CarveWf | src/index.js:80-85 | `alloc` keeps the arena well formed, so it passes the integrity walk afterwards. It adds exactly the carved block to the blocks handed out |
| Allocation.ZeroFillWf | src/index.js:148-151 | `calloc` keeps the arena well formed, and its zeroing leaves the blocks handed out as the carve made them |
| Allocation.CarveGrant | src/index.js:117-140 | the block at the old free pointer is used on both tags. It gets exactly `m` words on a split and the whole free block otherwise. A split's new free block starts right after it, has at least 2 words and ends at the last word. Otherwise the free pointer becomes 1. No word changes except the free pointer, the block's two tags and the new free block's two tags |
| Allocation.ExhaustionIsPermanent | src/index.js:101-106 | once the free pointer is 1 no request fits. `Alloc` leaves the arena unchanged when nothing fits, so every later `alloc` returns 0 or a range error |
| Allocation.OverheadPlus16Refuses | src/index.js:107-112 | a fresh region of the overhead plus 16 bytes refuses `alloc(1)` |
| Allocation.SmallestRegionGrantsWholeBlock | src/index.js:133-138 | in a fresh 75-word region `alloc(1)` takes the whole 6-word free block and sets the sentinel |
| Allocation.SplitCanLeaveTwoWords | src/index.js:120-122 | in a fresh 77-word region `alloc(16)` leaves a free block of 2 words |
| Allocation.BlockAddress | src/index.js:140 | the byte offset of an even word index in the data area is 8-aligned and within [272, byteLength] |
| Allocation.Allocator.constructor | src/index.js:56-70 | the allocator holds the given array and length and is valid |
| Allocation.Allocator.CarveFreeBlock | src/index.js:117-138 | the arena becomes `Carve` of its old contents |
| Allocation.Allocator.ZeroWords | src/index.js:166-170 | the loop zeroes exactly the `count` words from `offset` on |
| Allocation.Allocator.Alloc | src/index.js:78-141 | a range error if the normalised size exceeds `byteLength`. Otherwise 0 with no change when there is no free block or it is too small. Otherwise the old free pointer in bytes, with the arena carved. A granted address is a block address, its size is at least the request, and it ends before the next free block. It is appended to the blocks handed out. No word before the old free block changes except the free pointer |
| Allocation.Allocator.Calloc | src/index.js:147-172 | the same outcomes as `alloc`. On success exactly the normalised number of bytes at the address are zero, not the whole granted block. The block is appended to the blocks handed out. No word before the old free block changes except the free pointer |
| Allocation.Allocator.Free | src/index.js:178-191 | a range error exactly for misaligned or out-of-range addresses, otherwise 0 and no state change |
| Allocation.Allocator.SizeOf | src/index.js:196-206 | a range error exactly for addresses no block can have, otherwise 4 times the magnitude of the leading tag |
| Allocation.Allocator.Inspect | src/index.js:211-213 | inspecting a valid allocator never fails. The header record is (free, 4, 260), followed by the records `InspectWf` describes |
| Allocation.AllocationsAreDisjoint | src/index.js:117-140 | two successive successful allocations are appended in order to the blocks handed out. The second starts after the first block's trailing tag. After the second, the first block is still used and still records at least the bytes asked for |
| Allocation.Attach | src/index.js:47-72 | below 276 bytes: a construction error, with the region unchanged. A fresh 69-word region: a construction error, with the header tags and free pointer written. `Corrupt` exactly for a fresh 70-word region, which is left with the initial header written, or for a verified region whose chain fails the integrity walk, which is left unchanged. Otherwise a valid allocator over the prepared arena |

## Left out

- Attach: the `Buffer`/`ArrayBuffer` dispatch, `byteOffset` arithmetic, default length and `Int32Array` view creation are not modelled. `Attach` takes an int array of `byteLength / 4` words.
- Attach: a region whose header verifies and whose chain passes the integrity walk is assumed to be one an allocator left behind, so well formed. A verified region whose walk fails is modelled: it gives `Corrupt` with the region unchanged. A region that passes the walk without being well formed is not modelled. One such region is the 69-word region a refused construction leaves behind. Its header verifies, so a second construction skips initialisation, the walk never runs, and the source succeeds.
- Alloc: requests above 2^31 - 8 are excluded. There `align` wraps around in 32-bit arithmetic, and the source would silently allocate 16 bytes.
- Calloc: the same 32-bit wrap of `align` is excluded for requests above 2^31 - 8.
- Attach: regions of 2^31 bytes or more are excluded. There `quadsToBytes` overflows 32 bits. Tag values are unbounded integers rather than 32-bit words.
- SizeOf: the debug-only postconditions of `readSize` (matching tags, a positive size) are not checked. For an address that is not a granted block it returns 4 times the magnitude of the word before it, as the production code does.
- IsFree: its debug-only assertions (non-zero size, free blocks of at least 3 words) are not checked, since the allocator can create 2-word free blocks. In a debug build they have two consequences the model does not follow:
  - construction over a fresh 71-word region is refused;
  - an `alloc` whose split leaves a 2-word free block (`SplitCanLeaveTwoWords`) throws in its post-check, after the carve is already written.
- ReadListNode: its debug-only precondition `block + 3 < length` is not required. It fails for exactly the 2-word free block a split can leave, which `inspect` reads.
- `trace:` messages and the text of error messages are logging only.
- The `typeof`/`isNaN` checks of `sizeOf` cannot arise with typed integers.
- The inert `height` and `pointers` fields of list nodes are not modelled.
- Attach: regions under 276 bytes and fresh 69-word regions are refused, as the debug-only checks on lines 69 and 392 require. A production build without those checks accepts both. A 69-word arena then has a 0-word free block, and every `alloc` on it returns 0. At 68 words every write stays inside the array and the walk does not run, so a production build accepts that region too. At 67 words or fewer it would also write outside the array.
- Out-of-range typed-array writes, which JavaScript silently ignores, are not modelled. They occur only for regions under 69 words, which `Attach` refuses.
- Concurrency and shared memory are not modelled. The allocator is single-threaded.
