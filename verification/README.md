# valloc in Dafny

A model of the first-fit heap allocator in `src/alloc.c`, with proofs about it.

The allocator takes memory from the operating system one 4096-byte page at a time (`sbrk`). It keeps an implicit list of blocks, each with a one-word header. The header holds the block size in bytes, a multiple of 16, and the allocated flag in bit 0. Word 0 of the heap is padding, so every payload is 16-byte aligned, and a sentinel header (size 0, flagged allocated) sits in the last word.

`valloc` works in four steps:

1. It rounds the request up, header included, to a multiple of 16.
2. It scans the blocks for the first free one that is *strictly* larger than that.
3. It splits that block into the allocation and a free remainder.
4. When nothing fits, it grows the heap by a page and tries again.

`vfree` coalesces the block with its free neighbours.

The model has six modules:

- **Header** (`header.dfy`) is the header codec: ALIGNED, block_get_size, block_is_allocated, block_create and block_is_last, written as arithmetic on unbounded naturals. It also defines the request rounding `RequestSize` and their round-trip laws.
- **Blocks** (`blocks.dfy`) is the heap as a sequence of `Block(size, isAllocated)` values with the sentinel left out. Every operation has a specification function on that sequence:
  - `FirstFit` for the scan;
  - `Split` for carving a block;
  - `Coalesce` for block_coalesce;
  - `Extended` for heap_extend;
  - `Grown`, `Growths`, `Placement` and `Allocated` for valloc's grow-and-retry cycle.

  The module also holds the lemmas about these functions: invariant preservation, size conservation, exact growth count, payload alignment and disjointness, and free-undoes-alloc.
- **Layout** (`layout.dfy`) is the heap as the C code stores it: a sequence of 64-bit words from `pbrk`, with a ghost list of header word indices. `Linked`/`Chain`/`HeapOK` say the headers chain through the words to the sentinel in the last word, and `View` decodes the words into the block sequence. The lemmas prove that each header write of valloc, block_coalesce and heap_extend moves the view exactly as the block-level function says. block_get_prev is the loop method `GetPrev`.
- **Alloc** (`heap.dfy`) holds class `Heap`, whose fields are the memory and the `pbrk != NULL` flag. heap_initialize, heap_extend, block_coalesce, valloc and vfree are its methods. They update the words one header at a time, as the C code does, and each one is proved to leave the heap invariant intact and its view equal to the block-level specification of the old view.
- **Truncation** (`truncation.dfy`) models valloc's `int aligned_size` as written (see Findings).
- **Scenario** (`scenario.dfy`) replays the calls of `src/main.c` on the block functions and on a `Heap` object.

Addresses are word indices from `pbrk`. A returned address `addr` stands for the byte pointer `pbrk + 8 * addr`, and `PayloadOffset` gives that byte offset for block `k`.

Two behaviours of the code are easy to misread:

- **Zero-byte requests.** The `size == 0` branch that returns NULL at src/alloc.c:131-134 suggests that a zero request was meant to return NULL. The code raises the request to 1 at :120-122, so that branch is dead, and valloc(0) allocates a 16-byte block (`Header.ZeroRequest`). The model follows the code.
- **Reuse after free.** One might expect a freed block to serve any smaller request. The code compares the *aligned* size, header included, with a strict `<` at :141. A block freed after valloc(100) is 112 bytes, and a new valloc(100) also needs 112 bytes, so it skips that block. It takes a later free block larger than 112 bytes if there is one, and otherwise grows the heap (`Blocks.ExactFitSkipped`). The property that does hold is `Blocks.ReuseAfterFree`: the freed space serves any request whose aligned size is below the block size.

## Model

| member | source | states |
|---|---|---|
| Header.Aligned | src/alloc.c:15 | ALIGNED(a) is a multiple of 16 with a <= r < a + 16 |
| Header.AlignedIsLeast | src/alloc.c:15 | ALIGNED(a) is the least multiple of 16 that is at least a |
| Header.RequestSize | src/alloc.c:120-123 | the block size for a request is 16-aligned, holds the request plus the header, is at least 16 and wastes less than 16 bytes |
| Header.ZeroRequest | src/alloc.c:120-123 | a request of 0 bytes gets the same 16-byte block as a request of 1 byte |
| Header.IsAllocated | src/alloc.c:26-28 | block_is_allocated reads bit 0 of the header; CreateRoundTrip and HeaderBits state what it returns for created and arbitrary words |
| Header.GetSize | src/alloc.c:22-24 | block_get_size clears the four low bits: a multiple of 16 within 16 below the word |
| Header.IsLast | src/alloc.c:41-43 | block_is_last: size 0 and the flag set; IsLastExactly and Blocks.Decode characterise it |
| Header.Create | src/alloc.c:35-39 | block_create sets bit 0 exactly when asked to (on an even size) and adds at most 1 |
| Header.CreateRoundTrip | src/alloc.c:22-39 | decoding a created header gives back its size and flag, and the header is clean |
| Header.HeaderBits | src/alloc.c:22-28 | a word is its size plus its four low bits, of which bit 0 is the flag |
| Header.DecodeRoundTrip | src/alloc.c:22-39 | re-creating a clean header from its decoded size and flag gives the same word |
| Header.IsLastExactly | src/alloc.c:41-43 | block_is_last holds for a created header exactly when it is block_create(0, 1) |
| Blocks.Decode | src/alloc.c:22-28 | a decoded header has a 16-aligned size, re-encodes to a clean word, and is Block(0, true) exactly for the sentinel |
| Blocks.WellFormed | src/alloc.c:15-70 | the block-level heap invariant: every block size is a positive multiple of 16 and no two free blocks are adjacent; InitialBlocks, SplitShape, CoalesceShape, ExtendedShape and AllocatedShape show every operation keeps it |
| Blocks.Fits | src/alloc.c:141 | the test of valloc's scan: a free block strictly larger than the aligned size; a block of exactly that size does not fit |
| Blocks.FirstFit | src/alloc.c:136-154 | the index found is a fitting block with no fitting block before it, and None means no block fits |
| Blocks.TotalConcat | src/alloc.c:30-33 | the bytes spanned by two runs of blocks add up |
| Blocks.Split | src/alloc.c:141-147 | the blocks after valloc carves a block: the allocated part of the aligned size, then a free remainder ending where the block ended; its properties are SplitShape and CoalesceUndoesSplit |
| Blocks.SplitShape | src/alloc.c:141-147 | splitting a fitting block keeps the invariant and the heap size, and leaves an allocated block of the aligned size followed by a non-empty free remainder |
| Blocks.Coalesce | src/alloc.c:55-70 | the blocks after block_coalesce: the block and its free neighbours become one free block of their total size; its properties are CoalesceShape and FreeAdjacentPair |
| Blocks.MergedSize | src/alloc.c:56-66 | the size block_coalesce computes: the block's own size plus that of a free next block and a free previous block; CoalesceShape and Layout.MergeReads tie it to the merged run |
| Blocks.CoalesceShape | src/alloc.c:55-70 | coalescing block k restores "no two free neighbours", keeps the heap size, and the merged size is the sum of the merged blocks |
| Blocks.FreeTail | src/alloc.c:107-116 | the last block before the sentinel is free, the case in which heap_extend merges the new page into it |
| Blocks.Extended | src/alloc.c:102-117 | the blocks after heap_extend: a free tail grows by a page, or a free page is appended; ExtendedIsCoalesce ties it to the code's own steps |
| Blocks.ExtendedIsCoalesce | src/alloc.c:102-117 | heap_extend's steps (the sentinel turned into a free page, then coalesced) give Extended |
| Blocks.ExtendedTail | src/alloc.c:107-116 | after heap_extend the trailing block is free and one page larger than the old free tail, and the blocks before it are unchanged |
| Blocks.ExtendedShape | src/alloc.c:102-117 | heap_extend keeps the invariant and adds exactly one page |
| Blocks.ExtendedFit | src/alloc.c:137-157 | after a growth round that follows a failed scan, something fits exactly when the free tail exceeds the request, and the tail is what fits |
| Blocks.Grown | src/alloc.c:136-157 | the grow-and-retry cycle ends with a block that fits |
| Blocks.Growths | src/alloc.c:156-157 | the number of heap_extend calls valloc makes; GrowthsExact gives its closed form |
| Blocks.Placement | src/alloc.c:136-154 | the index of the block valloc carves, the first fit after growth; GrownShape and AllocatedShape locate it |
| Blocks.Allocated | src/alloc.c:119-158 | the blocks valloc leaves: the split of the placement in the grown heap; AllocatedShape and FreeUndoesAlloc are its properties |
| Blocks.GrowthsExact | src/alloc.c:156-157 | when nothing fits, valloc grows the heap exactly (asz - free tail) / 4096 + 1 times |
| Blocks.GrownShape | src/alloc.c:136-157 | growing keeps the invariant and adds one page per round; without growth the blocks are unchanged, and with growth the fit is the last block and every block before it is an original one |
| Blocks.GrowStep | src/alloc.c:156-157 | one failed scan and one heap_extend leave valloc's eventual outcome unchanged and bring the free tail one page closer to the request |
| Blocks.FitFound | src/alloc.c:136-151 | a first fit found at i means no growth, placement at i, and the outcome is the split of block i |
| Blocks.AllocatedShape | src/alloc.c:119-158 | valloc keeps the invariant, adds one page per growth, places the request in the first fit of the grown heap as an allocated block of exactly the aligned size followed by a free remainder, and keeps every other block |
| Blocks.ReuseAfterFree | src/alloc.c:136-167 | after freeing a block, any aligned size below its size is served without growth, at or before the merged block |
| Blocks.ExactFitSkipped | src/alloc.c:123-141 | after valloc(100), valloc(3944) and vfree of the first, the freed 112-byte block does not fit a new valloc(100), nor does the 16-byte tail; the heap grows by one page and the request goes after the allocated block |
| Blocks.SkipGrowth | src/alloc.c:137-157 | after blocks none of which fits 112 bytes, a 16-byte free tail makes valloc grow once and serve the request from the grown tail |
| Blocks.FreeAdjacentPair | src/alloc.c:55-70 | freeing two adjacent allocated blocks between allocated ones leaves one free block of their combined size |
| Blocks.PayloadOffset | src/alloc.c:150 | the byte offset from pbrk of block k's payload, the address valloc returns; PayloadAligned and PayloadsDisjoint are its properties |
| Blocks.PayloadAligned | src/alloc.c:136-150 | every payload address is 16-byte aligned |
| Blocks.PayloadsDisjoint | src/alloc.c:142-150 | the payload of a block ends before the header of every later block |
| Blocks.CoalesceUndoesSplit | src/alloc.c:55-70 | coalescing the allocated half of a split gives back the blocks before the split |
| Blocks.FreeUndoesAlloc | src/alloc.c:119-167 | vfree of the block valloc just returned restores the heap valloc carved it from |
| Layout.Next | src/alloc.c:30-33 | block_get_next moves exactly the block's size in bytes and keeps header parity, and so payload alignment |
| Layout.HeapOK | src/alloc.c:85-117 | the heap invariant every operation keeps: the headers chain from word 1 to the sentinel in the last word, the heap is whole pages, and no two free blocks are adjacent |
| Layout.ViewAt | src/alloc.c:22-33 | block i of the view is the decoded header at hdrs[i], and the next header is its size in words further on |
| Layout.ViewSizes | src/alloc.c:22-24 | every block in the heap has a positive, 16-aligned size |
| Layout.Sorted | src/alloc.c:30-33 | headers lie in strictly increasing address order |
| Layout.IsLastAt | src/alloc.c:41-43 | block_is_last holds at a header of the chain exactly at the sentinel |
| Layout.HeaderOffset | src/alloc.c:30-33 | the header of block j is at byte 8 plus the sizes of the blocks before it |
| Layout.ChainCoversHeap | src/alloc.c:90-99 | padding word, blocks and sentinel fill the heap exactly |
| Layout.LinkedPrefix | src/alloc.c:103 | words appended by sbrk do not disturb the chain or its view |
| Layout.MergeReads | src/alloc.c:56-67 | the sizes and flags block_coalesce reads agree with the view, and the merged size spans exactly the headers from MergeLo to MergeHi |
| Layout.MergeHeaders | src/alloc.c:69 | block_coalesce's one header write relinks the chain past the absorbed headers, and the view loses them in favour of one free block |
| Layout.CoalesceWrites | src/alloc.c:55-70 | what block_coalesce writes: the header of the leftmost block of the merged run gets the merged size and a clear flag, no other word changes, and the absorbed headers leave the chain |
| Layout.MergeResult | src/alloc.c:55-70 | block_coalesce's write keeps the chain and gives the view Coalesce of the old view, with no two free neighbours |
| Layout.CoalesceResult | src/alloc.c:55-70 | the one header write of block_coalesce on a heap of whole pages is CoalesceWrites, keeps the heap invariant and gives the view Coalesce of the old view |
| Layout.FitsAt | src/alloc.c:141 | valloc's test on a header word is Fits on the decoded block |
| Layout.SplitPointInside | src/alloc.c:141-146 | the remainder header of a split lies strictly inside the fitting block |
| Layout.SplitWrites | src/alloc.c:142-146 | the exact state after valloc's two stores into the fitting free block k: its header becomes block_create(asz, 1), a free header for the remainder goes asz bytes further on inside the block, no other word changes, and the remainder's header joins the list after k |
| Layout.SplitResult | src/alloc.c:141-150 | valloc's two header writes keep the heap invariant, give the view Split of the old view, and the returned payload is that of the split block |
| Layout.PlacedAt | src/alloc.c:136-150 | the two header writes into the first fit keep the invariant, give the view Allocated of the old view with no growth and the placed block at the first fit, and keep every allocated block's words |
| Layout.GrowHeaders | src/alloc.c:103-114 | heap_extend's writes after sbrk make the old sentinel a free page and put a new sentinel in the new last word, which appends one free page to the view |
| Layout.PayloadsKept | src/alloc.c:142-146 | every block allocated before keeps its header and payload words: the stores of valloc and heap_extend never touch a live block |
| Layout.SplitKeepsPayloads | src/alloc.c:142-146 | valloc's two header writes lie inside the free block it splits, so every allocated block keeps its words |
| Layout.ExtendKeepsPayloads | src/alloc.c:103-116 | writes below the old sentinel at most to the header of a free block keep every allocated block's words |
| Layout.ExtendFrame | src/alloc.c:102-117 | what heap_extend leaves: the memory has grown, below the old sentinel only the header of a free tail can differ, and the header list is the old one, less the old sentinel's index when a free tail absorbs the new page, with the new sentinel appended |
| Layout.MergeAtTail | src/alloc.c:107-116 | the new page's block merges with the block before it exactly when that block is free, and never with a block after it |
| Layout.ExtendFrameOf | src/alloc.c:102-116 | one header write at the merged header, over memory that kept every word below the old sentinel, satisfies ExtendFrame and changes no other old word |
| Layout.ExtendWrites | src/alloc.c:107-116 | after heap_extend, below the old sentinel only the header of a free tail can differ, the header list is the old one, less the old sentinel's index when a free tail absorbs the new page, with the new sentinel appended, and allocated blocks keep their words |
| Layout.ExtendThenKeep | src/alloc.c:156-157 | allocated blocks survive a round of heap_extend followed by the retried valloc |
| Layout.GetPrev | src/alloc.c:45-53 | block_get_prev returns NULL exactly when the block is the start block, and otherwise the header whose successor is the block |
| Alloc.InitialBlocks | src/alloc.c:92-95 | the first heap is one free block of 4080 bytes, well formed, that with padding and sentinel fills one page |
| Alloc.Heap.Valid | src/alloc.c:20 | before the first valloc there is no heap (pbrk NULL); afterwards the memory satisfies HeapOK |
| Alloc.Heap.constructor | src/alloc.c:20 | the program starts with pbrk NULL and no heap |
| Alloc.Heap.Sbrk | src/alloc.c:103 | sbrk appends one page and returns the old break, keeping the words below it |
| Alloc.Heap.Initialize | src/alloc.c:85-100 | heap_initialize leaves one page holding the padding word, a free block of 4080 bytes and the sentinel in the last word |
| Alloc.Heap.MergeTarget | src/alloc.c:55-67 | the reads of block_coalesce: the header it will write is that of the leftmost block of the merged run, and the size it computes is the merged size |
| Alloc.Heap.CoalesceBlock | src/alloc.c:55-70 | block_coalesce writes only the merged header, drops the absorbed headers from the chain, keeps the invariant, and the new view is Coalesce of the old view |
| Alloc.Heap.AppendPage | src/alloc.c:102-114 | heap_extend up to its merge: one more page, the old sentinel turned into a free block of one page, a new sentinel in the new last word, the view extended by that free page, and no word below the old sentinel changed |
| Alloc.Heap.Extend | src/alloc.c:102-117 | heap_extend (AppendPage, then CoalesceBlock on the new block) grows the memory by one page, keeps the invariant, and the new view is Extended of the old view; below the old sentinel only the header of a free tail can change, the header list is the old one, less the old sentinel's index when a free tail absorbs the new page, with the new sentinel appended, and every allocated block keeps its words |
| Alloc.Heap.Valloc | src/alloc.c:119-158 | valloc sets the heap up on first use, keeps the invariant, leaves the view Allocated(before, RequestSize(size)) with the chosen block allocated at exactly the aligned size, returns its payload address, grows the memory by one page per growth round, and keeps the header and payload words of every block allocated before |
| Alloc.Heap.FindFit | src/alloc.c:136-154 | valloc's scan stops at the first fit, and reaches the sentinel exactly when nothing fits |
| Alloc.Heap.Place | src/alloc.c:136-157 | the scan, split and grow-and-retry cycle leave the view Allocated of the old view and return the payload of the placed block, with no growth only the split's header words change, and with or without growth every block allocated before keeps its words |
| Alloc.Heap.SplitBlock | src/alloc.c:141-150 | the split of the first fit writes the two headers and nothing else, keeps the invariant, leaves the view Allocated of the old view, returns the payload of the block, and keeps every allocated block's words |
| Alloc.Heap.Vfree | src/alloc.c:161-167 | vfree of the payload of block k writes one header, drops the absorbed headers, keeps the invariant, and the new view is Coalesce of the old view at k |
| Truncation.ToInt | src/alloc.c:123 | a size_t converted to int lies in the 32-bit signed range |
| Truncation.IntRoundTrip | src/alloc.c:123-142 | a 64-bit value survives int and back exactly when it is below 2^31 or within 2^31 of 2^64 |
| Truncation.AlignedSizeAsWritten | src/alloc.c:123-142 | the block size valloc uses as written equals the intended one exactly in those ranges |
| Truncation.FourGiBGetsSixteenBytes | src/alloc.c:123-142 | valloc(4 GiB) computes a 16-byte block instead of 4 GiB + 16 |
| Truncation.TwoGiBNeverFits | src/alloc.c:123-141 | for valloc(2 GiB) no heap block ever fits, so valloc keeps growing the heap and never finds a fit |
| Scenario.MainRequestSizes | src/main.c:7-20 | the program's requests get blocks of 112, 320, 512, 64, 272, 720, 3008 and 10016 bytes |
| Scenario.MainAllocations | src/main.c:7-9 | the first three allocations are carved from the front of the free tail at byte offsets 16, 128 and 448 |
| Scenario.MainFrees | src/main.c:11-13 | the three frees merge the heap back into its initial single free block |
| Scenario.FitTail | src/alloc.c:136-150 | on allocated blocks followed by a free tail larger than the request, valloc splits the tail without growth |
| Scenario.GrowTail | src/alloc.c:156-157 | on such a heap whose tail is too small, one heap_extend round makes the tail a page larger and leaves the outcome unchanged |
| Scenario.ReuseFirst | src/main.c:15 | valloc(50) on the merged heap takes a 64-byte block from its front |
| Scenario.ReuseSecond | src/main.c:16 | valloc(250) follows it with 272 bytes |
| Scenario.ReuseThird | src/main.c:17 | valloc(700) follows with 720 bytes |
| Scenario.ReuseFourth | src/main.c:18 | valloc(3000) follows with 3008 bytes, leaving a 16-byte free tail |
| Scenario.MainSmallGrowth | src/main.c:19 | the second valloc(50) grows the heap once and is placed in the grown tail |
| Scenario.MainLargeGrowth | src/main.c:20 | valloc(10000) grows the heap twice and leaves a 2224-byte free tail |
| Scenario.ReplayAllocations | src/main.c:7-9 | on a fresh Heap the three allocations return words 2, 16 and 56 within one page |
| Scenario.ReplayFrees | src/main.c:11-13 | the three vfree calls bring the Heap back to its initial block |
| Scenario.ReplayReuse | src/main.c:15-18 | the four allocations after that fit without growing the Heap |
| Scenario.ReplayGrowth | src/main.c:19-20 | the last two allocations leave four pages holding six allocated blocks and a 2224-byte free tail |
| Scenario.Replay | src/main.c:5-21 | the whole program ends with that four-page heap |

## Left out

- heap_check (src/alloc.c:72-83) and every `printf` call are output only, so they are not modelled.
- sbrk failure (it returns `(void*)-1`) is not modelled, because the source never checks for it. `Alloc.Heap.Sbrk` always succeeds and leaves the new words unspecified.
- Byte pointers are modelled as word indices from `pbrk`. The model assumes `pbrk` itself is 16-aligned; then payloads are 16-aligned because headers sit at odd word indices.
- Integers are unbounded. A 64-bit header or `size_t` wrap-around (a heap of 2^64 bytes, or `size + 8` overflowing) is not modelled.
- AlignedSizeAsWritten: requires `size + 24 < 2^64`, because the `size_t` wrap of `size + WORD_SIZE` is not modelled.
- Valloc: uses the intended block size RequestSize rather than the `int` truncation at src/alloc.c:123. Module Truncation models that truncation on its own.
- Vfree: requires `addr` to be the payload of a block of the heap, named by a ghost index. Freeing a block that is already free but still a block is covered. A pointer that is not a payload, or a block already merged into a neighbour, is undefined behaviour in C and is excluded.
- CoalesceBlock: requires the heap to have no two free neighbours except around the block. That is all vfree and heap_extend ever pass it.
- The `size == 0` branch at src/alloc.c:131-134 cannot be reached after `size` is raised to MIN_ALLOC, so it is left out.
- The `next_block &&` test at src/alloc.c:59 is always true, so it is left out.
- The tail call `valloc(size)` at src/alloc.c:157 recomputes the same aligned size on an already-initialized heap. It is modelled as the recursive call of `Alloc.Heap.Place`.
- Concurrency is not modelled: the source has a single unsynchronised global and no threads.

## Findings

| source | as written | input that shows it | evidently intended | confidence | as-written member | corrected member |
|---|---|---|---|---|---|---|
| src/alloc.c:123 | `int aligned_size = ALIGNED(size + WORD_SIZE)` truncates the 64-bit size to 32 bits. The size is then sign-extended back to a word in the comparison at :141 and in block_create at :142. | valloc(0x1_0000_0000) gets a 16-byte block, and valloc(0x8000_0000) never fits, so valloc keeps growing the heap and never finds a fit. | the block size is ALIGNED(size + 8) in full 64-bit width | not executed | Truncation.AlignedSizeAsWritten (counterexamples Truncation.FourGiBGetsSixteenBytes, Truncation.TwoGiBNeverFits) | Header.RequestSize (used by Alloc.Heap.Valloc; properties in Header.RequestSize and Blocks.AllocatedShape) |
