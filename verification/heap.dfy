/** The allocator's state and operations (src/alloc.c): the static `pbrk`
    and the memory it points to become the fields of one Heap object, and
    heap_initialize, heap_extend, block_coalesce, valloc and vfree become
    its methods, which update that memory one header word at a time as the
    C code does. Every method is proved against the block-level functions
    of module Blocks through the view of module Layout. */
module Alloc {
  import opened Header
  import opened Blocks
  import opened Layout

  /** The block sequence heap_initialize leaves: one free block filling the
      first page less the padding word and the sentinel. */
  function InitialBlocks(): (bs: seq<Block>)
    ensures WellFormed(bs) && Total(bs) + 2 * WORD_SIZE == PAGE_SIZE
  {
    TotalOne(Block(PAGE_SIZE - 2 * WORD_SIZE, false));
    [Block(PAGE_SIZE - 2 * WORD_SIZE, false)]
  }

  class Heap {
    /** The words from pbrk to the current program break. */
    var mem: seq<nat>
    /** `pbrk != NULL`: the heap has been set up. */
    var initialized: bool
    /** Word indices of the headers, in address order, sentinel last. */
    ghost var hdrs: seq<nat>

    ghost predicate Valid()
      reads this
    {
      if initialized then HeapOK(mem, hdrs) else mem == []
    }

    /** The heap's blocks, sentinel excluded. */
    ghost function Decoded(): seq<Block>
      reads this
      requires Linked(mem, hdrs)
    {
      View(mem, hdrs)
    }

    /** The program starts with `pbrk == NULL` and no heap. */
    constructor()
      ensures Valid() && !initialized && mem == []
    {
      mem := [];
      initialized := false;
      hdrs := [];
    }

    /** sbrk(PAGE_SIZE): one more page of memory past the old break, whose
        index is returned. What the new words hold is not specified. */
    method Sbrk() returns (prev: nat)
      modifies this`mem
      ensures prev == old(|mem|)
      ensures |mem| == old(|mem|) + PAGE_WORDS
      ensures mem[..old(|mem|)] == old(mem)
    {
      prev := |mem|;
      mem := mem + seq(PAGE_WORDS, _ => 0);
    }

    /** heap_initialize: take the first page, write a free header of
        PAGE_SIZE - 16 bytes at `pbrk + WORD_SIZE` and the sentinel in the
        last word of the page. */
    method Initialize()
      requires !initialized && mem == []
      modifies this
      ensures initialized && Valid()
      ensures |mem| == PAGE_WORDS && hdrs == [FIRST, PAGE_WORDS - 1]
      ensures Decoded() == InitialBlocks()
    {
      var start := Sbrk();
      initialized := true;
      var firstSize := PAGE_SIZE - 2 * WORD_SIZE;
      mem := mem[start + FIRST := Create(firstSize, false)];
      var lastAddr := start + PAGE_WORDS - 1;
      mem := mem[lastAddr := Create(0, true)];
      hdrs := [FIRST, lastAddr];
      CreateRoundTrip(firstSize, false);
      assert Next(mem, FIRST) == lastAddr;
      assert Decoded()[0] == InitialBlocks()[0];
    }

    /** block_coalesce's reads: the size of the block at word `block`, the
        `k`-th block, plus those of its free right and left neighbours,
        and the header word that will carry the merged block. */
    method MergeTarget(block: nat, ghost k: nat) returns (target: nat, blockSize: nat)
      requires Linked(mem, hdrs) && k < |hdrs| - 1 && block == hdrs[k]
      ensures target == hdrs[MergeLo(View(mem, hdrs), k)]
      ensures blockSize == MergedSize(View(mem, hdrs), k)
    {
      ghost var bs := View(mem, hdrs);
      MergeReads(mem, hdrs, k);
      blockSize := GetSize(mem[block]);
      var next := Next(mem, block);
      if !IsAllocated(mem[next]) {
        blockSize := blockSize + GetSize(mem[next]);
      }
      var prev := GetPrev(mem, hdrs, FIRST, block, 0, k);
      target := block;
      if prev.Some? && !IsAllocated(mem[prev.value]) {
        target := prev.value;
        blockSize := blockSize + GetSize(mem[prev.value]);
      }
    }

    /** block_coalesce: the block at word `block`, which is the `k`-th
        block, becomes one free block together with its free right and
        left neighbours; only the leftmost header of the merged run is
        written. The heap may hold free neighbours only around block `k`,
        and afterwards holds none. */
    method CoalesceBlock(block: nat, ghost k: nat)
      requires initialized && Chain(mem, hdrs) && |mem| % PAGE_WORDS == 0
      requires k < |hdrs| - 1 && block == hdrs[k]
      requires NoAdjacentFreeExcept(View(mem, hdrs), k)
      modifies this`mem, this`hdrs
      ensures Valid() && |mem| == old(|mem|)
      ensures Decoded() == Coalesce(old(Decoded()), k)
      ensures CoalesceWrites(old(mem), old(hdrs), k, mem, hdrs)
    {
      ghost var bs, m0, h0 := View(mem, hdrs), mem, hdrs;
      var target, blockSize := MergeTarget(block, k);
      mem := mem[target := Create(blockSize, false)];
      hdrs := h0[..MergeLo(bs, k) + 1] + h0[MergeHi(bs, k)..];
      CoalesceResult(m0, h0, k, target, blockSize, mem, hdrs);
    }

    /** heap_extend up to the merge: grow the heap by one page, walk to the
        sentinel and turn it into a free block of one page followed by a
        new sentinel in the new last word. The old sentinel's word is
        returned; no word before it changes. */
    method AppendPage() returns (block: nat)
      requires initialized && Valid()
      modifies this`mem, this`hdrs
      ensures initialized && Chain(mem, hdrs) && |mem| % PAGE_WORDS == 0
      ensures |mem| == old(|mem|) + PAGE_WORDS
      ensures hdrs == old(hdrs) + [|mem| - 1] && block == old(hdrs)[|old(hdrs)| - 1]
      ensures View(mem, hdrs) == old(Decoded()) + [Block(PAGE_SIZE, false)]
      ensures NoAdjacentFreeExcept(View(mem, hdrs), |old(hdrs)| - 1)
      ensures forall w :: 0 <= w < old(|mem|) - 1 ==> mem[w] == old(mem)[w]
    {
      ghost var bs, m0, h0 := Decoded(), mem, hdrs;
      var prev := Sbrk();
      ghost var grown := mem;
      LinkedPrefix(m0, grown, h0);
      block := FIRST;
      ghost var i := 0;
      while !IsLast(mem[block])
        invariant mem == grown && hdrs == h0
        invariant i < |h0| && block == h0[i]
        decreases |h0| - i
      {
        IsLastAt(mem, hdrs, i);
        block := Next(mem, block);
        i := i + 1;
      }
      IsLastAt(mem, hdrs, i);
      mem := mem[block := Create(PAGE_SIZE, false)];
      CreateRoundTrip(PAGE_SIZE, false);
      var last := Next(mem, block);
      mem := mem[last := Create(0, true)];
      hdrs := hdrs + [last];
      GrowHeaders(m0, h0, grown, mem, hdrs);
      AppendFreeExcept(bs, Block(PAGE_SIZE, false));
    }

    /** heap_extend: append a page with AppendPage, then coalesce the new
        free block with a free block before it. Only the header of the
        merged block and the words past the old sentinel change, so every
        allocated block keeps its payload. */
    method Extend()
      requires initialized && Valid()
      modifies this`mem, this`hdrs
      ensures Valid() && |mem| == old(|mem|) + PAGE_WORDS
      ensures Decoded() == Extended(old(Decoded()))
      ensures ExtendFrame(old(mem), old(hdrs), mem, hdrs)
      ensures PayloadsKept(old(mem), old(hdrs), mem)
    {
      ghost var bs, m0, h0 := Decoded(), mem, hdrs;
      var block := AppendPage();
      ghost var m2, h2 := mem, hdrs;
      CoalesceBlock(block, |h0| - 1);
      ExtendedIsCoalesce(bs);
      ExtendWrites(m0, h0, m2, h2, mem, hdrs);
    }

    /** valloc: the request is raised to MIN_ALLOC and aligned with room
        for the header, the heap is set up on first use, and the block is
        placed by Place. */
    method Valloc(size: nat) returns (addr: nat)
      requires Valid()
      modifies this
      ensures Valid() && initialized
      ensures var asz := RequestSize(size);
        var before := if old(initialized) then old(Decoded()) else InitialBlocks();
        && Decoded() == Allocated(before, asz)
        && Placement(before, asz) < |Decoded()|
        && Decoded()[Placement(before, asz)] == Block(asz, true)
        && addr * WORD_SIZE == PayloadOffset(Decoded(), Placement(before, asz))
        && |mem| == (if old(initialized) then old(|mem|) else PAGE_WORDS) + PAGE_WORDS * Growths(before, asz)
      ensures old(initialized) && Growths(old(Decoded()), RequestSize(size)) == 0 ==>
        SplitWrites(old(mem), old(hdrs), Placement(old(Decoded()), RequestSize(size)), RequestSize(size), mem, hdrs)
      ensures old(initialized) ==> PayloadsKept(old(mem), old(hdrs), mem)
    {
      var sz := size;
      if sz < MIN_ALLOC {
        sz := MIN_ALLOC;
      }
      var asz := Aligned(sz + WORD_SIZE);
      assert asz == RequestSize(size);
      ghost var before := if initialized then Decoded() else InitialBlocks();
      ghost var len := if initialized then |mem| else PAGE_WORDS;
      if !initialized {
        Initialize();
      }
      assert Decoded() == before && |mem| == len;
      addr := Place(asz);
    }

    /** valloc's scan: the headers are visited from the first one until
        a free block strictly larger than the aligned size `asz` or the
        sentinel is reached. The block found is the first fit, and the
        sentinel is reached exactly when no block fits. */
    method FindFit(asz: nat) returns (block: nat, ghost i: nat)
      requires initialized && Valid()
      ensures i < |hdrs| && block == hdrs[i]
      ensures FirstFit(Decoded(), asz) == if i < |hdrs| - 1 then Some(i) else None
    {
      ghost var bs := Decoded();
      block := FIRST;
      i := 0;
      while !IsLast(mem[block])
        invariant i < |hdrs| && block == hdrs[i]
        invariant forall j :: 0 <= j < i ==> !Fits(bs[j], asz)
        decreases |hdrs| - i
      {
        IsLastAt(mem, hdrs, i);
        FitsAt(mem, hdrs, i, asz);
        var blockSize := GetSize(mem[block]);
        var next := Next(mem, block);
        if !IsAllocated(mem[block]) && asz < blockSize {
          return;
        }
        block := next;
        i := i + 1;
      }
      IsLastAt(mem, hdrs, i);
    }

    /** The body of valloc once the heap exists: the first fit found by
        the scan is split into an allocated block of exactly the aligned
        size `asz` and a free remainder, and the payload address is
        returned. When the scan reaches the sentinel, the heap grows by a
        page and the request is retried; the retry `valloc(size)` finds the
        heap set up and computes the same `asz`, so it is the recursive
        call here. */
    method Place(asz: nat) returns (addr: nat)
      requires initialized && Valid() && asz > 0 && asz % DWORD_SIZE == 0
      modifies this`mem, this`hdrs
      ensures Valid()
      ensures var before := old(Decoded());
        && Decoded() == Allocated(before, asz)
        && Placement(before, asz) < |Decoded()|
        && Decoded()[Placement(before, asz)] == Block(asz, true)
        && addr * WORD_SIZE == PayloadOffset(Decoded(), Placement(before, asz))
        && |mem| == old(|mem|) + PAGE_WORDS * Growths(before, asz)
      ensures Growths(old(Decoded()), asz) == 0 ==>
        SplitWrites(old(mem), old(hdrs), Placement(old(Decoded()), asz), asz, mem, hdrs)
      ensures PayloadsKept(old(mem), old(hdrs), mem)
      decreases asz - TailFree(Decoded())
    {
      ghost var bs, m1, h1 := Decoded(), mem, hdrs;
      var block;
      ghost var i;
      block, i := FindFit(asz);
      if !IsLast(mem[block]) {
        IsLastAt(mem, hdrs, i);
        addr := SplitBlock(block, i, asz);
        return;
      }
      IsLastAt(mem, hdrs, i);
      GrowStep(bs, asz);
      Extend();
      ghost var m2, h2 := mem, hdrs;
      addr := Place(asz);
      ExtendThenKeep(m1, h1, m2, h2, mem);
    }

    /** valloc's split of the first fit, the `i`-th block at word `block`:
        its header becomes an allocated block of `asz` bytes and, unless the
        remainder would be empty, a free header for the remainder is written
        right after it. The payload address is returned. */
    method SplitBlock(block: nat, ghost i: nat, asz: nat) returns (addr: nat)
      requires initialized && Valid() && asz > 0 && asz % DWORD_SIZE == 0
      requires i < |hdrs| - 1 && block == hdrs[i]
      requires FirstFit(Decoded(), asz) == Some(i)
      modifies this`mem, this`hdrs
      ensures Valid()
      ensures var before := old(Decoded());
        && Growths(before, asz) == 0 && Placement(before, asz) == i
        && Decoded() == Allocated(before, asz)
        && i < |Decoded()| && Decoded()[i] == Block(asz, true)
        && addr * WORD_SIZE == PayloadOffset(Decoded(), i)
        && |mem| == old(|mem|)
      ensures SplitWrites(old(mem), old(hdrs), i, asz, mem, hdrs)
      ensures PayloadsKept(old(mem), old(hdrs), mem)
    {
      ghost var m1, h1 := mem, hdrs;
      FitsAt(mem, hdrs, i, asz);
      var blockSize := GetSize(mem[block]);
      var next := Next(mem, block);
      SplitPointInside(mem, hdrs, i, asz);
      mem := mem[block := Create(asz, true)];
      CreateRoundTrip(asz, true);
      var nextAlloc := Next(mem, block);
      assert nextAlloc == block + asz / WORD_SIZE < next;
      if nextAlloc != next {
        mem := mem[nextAlloc := Create(blockSize - asz, false)];
      }
      hdrs := h1[..i + 1] + [nextAlloc] + h1[i + 1..];
      PlacedAt(m1, h1, i, asz, mem, hdrs);
      addr := block + 1;
    }

    /** vfree: the header is the word before the payload address; the
        block is coalesced with its free neighbours. The address must be
        the payload of a block of the heap, here the `k`-th. */
    method Vfree(addr: nat, ghost k: nat)
      requires initialized && Valid()
      requires k < |Decoded()| && addr * WORD_SIZE == PayloadOffset(Decoded(), k)
      modifies this`mem, this`hdrs
      ensures Valid() && |mem| == old(|mem|)
      ensures Decoded() == Coalesce(old(Decoded()), k)
      ensures CoalesceWrites(old(mem), old(hdrs), k, mem, hdrs)
    {
      HeaderOffset(mem, hdrs, k);
      var block := addr - 1;
      CoalesceBlock(block, k);
    }
  }
}
