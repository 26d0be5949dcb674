/** The heap seen as the sequence of its blocks in address order, the
    terminal sentinel left out. Every operation of the allocator in
    src/alloc.c is specified here by its effect on this sequence: first-fit
    selection, splitting, coalescing, growth by one page, and the
    grow-and-retry cycle of valloc. */
module Blocks {
  import opened Header

  datatype Option<T> = None | Some(value: T)

  /** A decoded header: the block's size in bytes, header included, and
      its allocated flag. */
  datatype Block = Block(size: nat, isAllocated: bool)

  /** The block described by a header word. */
  function Decode(w: nat): (b: Block)
    ensures b.size % DWORD_SIZE == 0
    ensures Clean(w) ==> Create(b.size, b.isAllocated) == w
    ensures IsLast(w) <==> b == Block(0, true)
  {
    HeaderBits(w);
    Block(GetSize(w), IsAllocated(w))
  }

  /** The first-fit test of valloc: a free block strictly larger than the
      aligned request. A free block of exactly the aligned size does not
      fit. */
  predicate Fits(b: Block, asz: nat)
  {
    !b.isAllocated && asz < b.size
  }

  /** The index of the first block in address order that fits, if any. */
  function FirstFit(bs: seq<Block>, asz: nat): (r: Option<nat>)
    ensures r.Some? ==> r.value < |bs| && Fits(bs[r.value], asz)
    ensures r.Some? ==> forall j :: 0 <= j < r.value ==> !Fits(bs[j], asz)
    ensures r.None? ==> forall j :: 0 <= j < |bs| ==> !Fits(bs[j], asz)
  {
    if |bs| == 0 then None
    else if Fits(bs[0], asz) then Some(0)
    else
      match FirstFit(bs[1..], asz)
      case None => None
      case Some(k) => Some(k + 1)
  }

  /** The sum of the sizes of the blocks. */
  function Total(bs: seq<Block>): nat
  {
    if |bs| == 0 then 0 else Total(bs[..|bs| - 1]) + bs[|bs| - 1].size
  }

  lemma {:induction false} TotalConcat(a: seq<Block>, b: seq<Block>)
    ensures Total(a + b) == Total(a) + Total(b)
    decreases |b|
  {
    if |b| == 0 {
      assert a + b == a;
    } else {
      TotalConcat(a, b[..|b| - 1]);
      assert (a + b)[..|a + b| - 1] == a + b[..|b| - 1];
    }
  }

  /** Every block has a positive size that is a multiple of 16. */
  predicate SizesOK(bs: seq<Block>)
  {
    forall i :: 0 <= i < |bs| ==> bs[i].size > 0 && bs[i].size % DWORD_SIZE == 0
  }

  /** No two adjacent blocks are both free. */
  predicate NoAdjacentFree(bs: seq<Block>)
  {
    forall i :: 0 <= i < |bs| - 1 ==> bs[i].isAllocated || bs[i + 1].isAllocated
  }

  /** No two adjacent blocks are both free, except possibly next to block
      `k`: the state just before block `k` is coalesced. */
  predicate NoAdjacentFreeExcept(bs: seq<Block>, k: nat)
  {
    forall i :: 0 <= i < |bs| - 1 && i != k && i + 1 != k ==> bs[i].isAllocated || bs[i + 1].isAllocated
  }

  /** The heap-wide invariant on the block sequence. */
  predicate WellFormed(bs: seq<Block>)
  {
    SizesOK(bs) && NoAdjacentFree(bs)
  }

  /** The block sequence after valloc carves `asz` bytes out of block `k`:
      an allocated block of `asz` bytes followed by a free remainder that
      ends where block `k` ended. */
  function Split(bs: seq<Block>, k: nat, asz: nat): seq<Block>
    requires k < |bs| && Fits(bs[k], asz)
  {
    bs[..k] + [Block(asz, true), Block(bs[k].size - asz, false)] + bs[k + 1..]
  }

  lemma TotalSplice(a: seq<Block>, mid: seq<Block>, c: seq<Block>)
    ensures Total(a + mid + c) == Total(a) + Total(mid) + Total(c)
  {
    TotalConcat(a + mid, c);
    TotalConcat(a, mid);
  }

  lemma TotalOne(x: Block)
    ensures Total([x]) == x.size
  {
    assert [x][..0] == [];
  }

  lemma TotalTwo(x: Block, y: Block)
    ensures Total([x, y]) == x.size + y.size
  {
    assert [x, y][..1] == [x];
    TotalOne(x);
  }

  lemma TotalThree(x: Block, y: Block, z: Block)
    ensures Total([x, y, z]) == x.size + y.size + z.size
  {
    assert [x, y, z][..2] == [x, y];
    TotalTwo(x, y);
  }

  lemma SplitAt(bs: seq<Block>, k: nat, asz: nat, i: nat)
    requires k < |bs| && Fits(bs[k], asz)
    requires i < |Split(bs, k, asz)|
    ensures |Split(bs, k, asz)| == |bs| + 1
    ensures Split(bs, k, asz)[i] ==
      if i < k then bs[i]
      else if i == k then Block(asz, true)
      else if i == k + 1 then Block(bs[k].size - asz, false)
      else bs[i - 1]
  {
  }

  /** Splitting a fitting block keeps the invariant and the heap's total
      size, and the remainder is a non-empty free block. */
  lemma SplitShape(bs: seq<Block>, k: nat, asz: nat)
    requires WellFormed(bs) && k < |bs| && Fits(bs[k], asz)
    requires asz > 0 && asz % DWORD_SIZE == 0
    ensures WellFormed(Split(bs, k, asz))
    ensures Total(Split(bs, k, asz)) == Total(bs)
    ensures |Split(bs, k, asz)| == |bs| + 1
    ensures Split(bs, k, asz)[k] == Block(asz, true)
    ensures Split(bs, k, asz)[k + 1] == Block(bs[k].size - asz, false) && bs[k].size - asz > 0
  {
    SplitAt(bs, k, asz, k);
    SplitAt(bs, k, asz, k + 1);
    SplitSizes(bs, k, asz);
    SplitNoAdjacent(bs, k, asz);
    SplitTotal(bs, k, asz);
  }

  lemma SplitSizes(bs: seq<Block>, k: nat, asz: nat)
    requires SizesOK(bs) && k < |bs| && Fits(bs[k], asz)
    requires asz > 0 && asz % DWORD_SIZE == 0
    ensures SizesOK(Split(bs, k, asz))
  {
    var r := Split(bs, k, asz);
    assert bs[k].size % DWORD_SIZE == 0;
    WordsSplit(asz, bs[k].size);
    forall i | 0 <= i < |r|
      ensures r[i].size > 0 && r[i].size % DWORD_SIZE == 0
    {
      SplitAt(bs, k, asz, i);
    }
  }

  lemma SplitNoAdjacent(bs: seq<Block>, k: nat, asz: nat)
    requires NoAdjacentFree(bs) && k < |bs| && Fits(bs[k], asz)
    ensures NoAdjacentFree(Split(bs, k, asz))
  {
    var r := Split(bs, k, asz);
    forall i | 0 <= i < |r| - 1
      ensures r[i].isAllocated || r[i + 1].isAllocated
    {
      SplitAt(bs, k, asz, i);
      SplitAt(bs, k, asz, i + 1);
      if i == k + 1 {
        assert bs[k].isAllocated || bs[k + 1].isAllocated;
      } else if i > k + 1 {
        assert bs[i - 1].isAllocated || bs[i].isAllocated;
      }
    }
  }

  lemma SplitTotal(bs: seq<Block>, k: nat, asz: nat)
    requires k < |bs| && Fits(bs[k], asz)
    ensures Total(Split(bs, k, asz)) == Total(bs)
  {
    var x, y := Block(asz, true), Block(bs[k].size - asz, false);
    TotalTwo(x, y);
    SliceAround(bs, k);
    TotalReplace(bs[..k], [x, y], bs[k + 1..], bs[k]);
  }

  /** block_coalesce absorbs the following block when it exists and is
      free (the sentinel, flagged allocated, is never absorbed). */
  predicate NextFree(bs: seq<Block>, k: nat)
    requires k < |bs|
  {
    k + 1 < |bs| && !bs[k + 1].isAllocated
  }

  /** block_coalesce merges into the previous block when it exists and is
      free. */
  predicate PrevFree(bs: seq<Block>, k: nat)
    requires k < |bs|
  {
    k > 0 && !bs[k - 1].isAllocated
  }

  /** Index of the block that carries the merged header. */
  function MergeLo(bs: seq<Block>, k: nat): (lo: nat)
    requires k < |bs|
    ensures lo <= k && k - lo <= 1
  {
    if PrevFree(bs, k) then k - 1 else k
  }

  /** Index of the first block after the merged region. */
  function MergeHi(bs: seq<Block>, k: nat): (hi: nat)
    requires k < |bs|
    ensures k < hi <= |bs| && hi - k <= 2
  {
    if NextFree(bs, k) then k + 2 else k + 1
  }

  /** The size block_coalesce computes: the block's own size, plus the next
      block's if that is free, plus the previous block's if that is free. */
  function MergedSize(bs: seq<Block>, k: nat): nat
    requires k < |bs|
  {
    bs[k].size
    + (if NextFree(bs, k) then bs[k + 1].size else 0)
    + (if PrevFree(bs, k) then bs[k - 1].size else 0)
  }

  /** The block sequence after block_coalesce on block `k`: one free block
      replaces block `k` and its free neighbours. */
  function Coalesce(bs: seq<Block>, k: nat): seq<Block>
    requires k < |bs|
  {
    bs[..MergeLo(bs, k)] + [Block(MergedSize(bs, k), false)] + bs[MergeHi(bs, k)..]
  }

  lemma CoalesceAt(bs: seq<Block>, k: nat, i: nat)
    requires k < |bs|
    requires i < |Coalesce(bs, k)|
    ensures |Coalesce(bs, k)| == |bs| - (MergeHi(bs, k) - MergeLo(bs, k) - 1)
    ensures Coalesce(bs, k)[i] ==
      if i < MergeLo(bs, k) then bs[i]
      else if i == MergeLo(bs, k) then Block(MergedSize(bs, k), false)
      else bs[i - MergeLo(bs, k) - 1 + MergeHi(bs, k)]
  {
  }

  /** Coalescing block `k` restores "no two adjacent free blocks" and keeps
      the heap's total size; the merged size is the sum of the sizes of the
      blocks it replaces. */
  lemma CoalesceShape(bs: seq<Block>, k: nat)
    requires SizesOK(bs) && k < |bs| && NoAdjacentFreeExcept(bs, k)
    ensures WellFormed(Coalesce(bs, k))
    ensures Total(Coalesce(bs, k)) == Total(bs)
    ensures MergedSize(bs, k) == Total(bs[MergeLo(bs, k)..MergeHi(bs, k)])
  {
    CoalesceSizes(bs, k);
    CoalesceNoAdjacent(bs, k);
    CoalesceTotal(bs, k);
  }

  lemma CoalesceSizes(bs: seq<Block>, k: nat)
    requires SizesOK(bs) && k < |bs|
    ensures SizesOK(Coalesce(bs, k))
  {
    var r := Coalesce(bs, k);
    forall i | 0 <= i < |r|
      ensures r[i].size > 0 && r[i].size % DWORD_SIZE == 0
    {
      CoalesceAt(bs, k, i);
    }
  }

  lemma CoalesceNoAdjacent(bs: seq<Block>, k: nat)
    requires SizesOK(bs) && k < |bs| && NoAdjacentFreeExcept(bs, k)
    ensures NoAdjacentFree(Coalesce(bs, k))
  {
    var r := Coalesce(bs, k);
    forall i | 0 <= i < |r| - 1
      ensures r[i].isAllocated || r[i + 1].isAllocated
    {
      CoalescePair(bs, k, i);
    }
  }

  lemma CoalescePair(bs: seq<Block>, k: nat, i: nat)
    requires SizesOK(bs) && k < |bs| && NoAdjacentFreeExcept(bs, k)
    requires i + 1 < |Coalesce(bs, k)|
    ensures Coalesce(bs, k)[i].isAllocated || Coalesce(bs, k)[i + 1].isAllocated
  {
    var lo, hi := MergeLo(bs, k), MergeHi(bs, k);
    CoalesceAt(bs, k, i);
    CoalesceAt(bs, k, i + 1);
    if i + 1 < lo {
      assert bs[i].isAllocated || bs[i + 1].isAllocated;
    } else if i == lo {
      if hi == k + 2 {
        assert bs[k + 1].isAllocated || bs[k + 2].isAllocated;
      }
    } else if i > lo {
      var j := i - lo - 1 + hi;
      assert bs[j].isAllocated || bs[j + 1].isAllocated;
    }
  }

  lemma CoalesceTotal(bs: seq<Block>, k: nat)
    requires k < |bs|
    ensures Total(Coalesce(bs, k)) == Total(bs)
    ensures MergedSize(bs, k) == Total(bs[MergeLo(bs, k)..MergeHi(bs, k)])
  {
    var lo, hi := MergeLo(bs, k), MergeHi(bs, k);
    MidTotal(bs, k);
    SliceSplice(bs, lo, hi);
    TotalReplace(bs[..lo], bs[lo..hi], bs[hi..], Block(MergedSize(bs, k), false));
  }

  lemma SliceAround(bs: seq<Block>, k: nat)
    requires k < |bs|
    ensures bs[..k] + [bs[k]] + bs[k + 1..] == bs
  {
  }

  lemma SliceSplice(bs: seq<Block>, lo: nat, hi: nat)
    requires lo <= hi <= |bs|
    ensures bs[..lo] + bs[lo..hi] + bs[hi..] == bs
  {
  }

  /** Replacing a run of blocks by one block of their total size keeps the
      total. */
  lemma TotalReplace(a: seq<Block>, mid: seq<Block>, c: seq<Block>, m: Block)
    requires Total(mid) == m.size
    ensures Total(a + [m] + c) == Total(a + mid + c)
  {
    TotalSplice(a, mid, c);
    TotalSplice(a, [m], c);
    TotalOne(m);
  }

  lemma MidTotal(bs: seq<Block>, k: nat)
    requires k < |bs|
    ensures MergedSize(bs, k) == Total(bs[MergeLo(bs, k)..MergeHi(bs, k)])
  {
    var lo, hi := MergeLo(bs, k), MergeHi(bs, k);
    if hi - lo == 1 {
      assert bs[lo..hi] == [bs[k]];
      TotalOne(bs[k]);
    } else if hi - lo == 2 {
      assert bs[lo..hi] == [bs[lo], bs[lo + 1]];
      TotalTwo(bs[lo], bs[lo + 1]);
    } else {
      assert bs[lo..hi] == [bs[k - 1], bs[k], bs[k + 1]];
      TotalThree(bs[k - 1], bs[k], bs[k + 1]);
    }
  }

  /** The last block before the sentinel is free. */
  predicate FreeTail(bs: seq<Block>)
  {
    |bs| > 0 && !bs[|bs| - 1].isAllocated
  }

  /** The size of the trailing block when it is free, and 0 otherwise. */
  function TailFree(bs: seq<Block>): nat
  {
    if FreeTail(bs) then bs[|bs| - 1].size else 0
  }

  /** The block sequence after heap_extend: a free trailing block grows by
      one page, and otherwise a free block of one page is appended. */
  function Extended(bs: seq<Block>): seq<Block>
  {
    if FreeTail(bs) then
      bs[..|bs| - 1] + [Block(bs[|bs| - 1].size + PAGE_SIZE, false)]
    else
      bs + [Block(PAGE_SIZE, false)]
  }

  /** heap_extend's own steps give Extended: the old sentinel's place
      becomes a free block of one page, which block_coalesce merges with a
      free predecessor. */
  lemma ExtendedIsCoalesce(bs: seq<Block>)
    ensures Extended(bs) == Coalesce(bs + [Block(PAGE_SIZE, false)], |bs|)
  {
    var ext := bs + [Block(PAGE_SIZE, false)];
    var k := |bs|;
    assert !NextFree(ext, k);
    assert ext[..k] == bs;
    if PrevFree(ext, k) {
      assert ext[..k - 1] == bs[..|bs| - 1];
    }
  }

  /** heap_extend changes only the tail: the trailing block is free and one
      page larger than the free tail that preceded it, and every block
      before it is untouched. */
  lemma ExtendedTail(bs: seq<Block>)
    ensures |Extended(bs)| > 0
    ensures !Extended(bs)[|Extended(bs)| - 1].isAllocated
    ensures TailFree(Extended(bs)) == TailFree(bs) + PAGE_SIZE
    ensures Extended(bs)[..|Extended(bs)| - 1] == if FreeTail(bs) then bs[..|bs| - 1] else bs
  {
    var r := Extended(bs);
    assert r[..|r| - 1] == if FreeTail(bs) then bs[..|bs| - 1] else bs;
  }

  /** heap_extend keeps the invariant and adds one page to the heap. */
  lemma ExtendedShape(bs: seq<Block>)
    requires WellFormed(bs)
    ensures WellFormed(Extended(bs))
    ensures Total(Extended(bs)) == Total(bs) + PAGE_SIZE
  {
    var ext := bs + [Block(PAGE_SIZE, false)];
    assert SizesOK(ext);
    AppendFreeExcept(bs, Block(PAGE_SIZE, false));
    CoalesceShape(ext, |bs|);
    ExtendedIsCoalesce(bs);
    TotalConcat(bs, [Block(PAGE_SIZE, false)]);
    TotalOne(Block(PAGE_SIZE, false));
  }

  /** Appending a block can only break "no two adjacent free blocks" next
      to the appended block. */
  lemma AppendFreeExcept(bs: seq<Block>, b: Block)
    requires NoAdjacentFree(bs)
    ensures NoAdjacentFreeExcept(bs + [b], |bs|)
  {
    var ext := bs + [b];
    forall i | 0 <= i < |ext| - 1 && i != |bs| && i + 1 != |bs|
      ensures ext[i].isAllocated || ext[i + 1].isAllocated
    {
      assert bs[i].isAllocated || bs[i + 1].isAllocated;
    }
  }

  lemma NoFitBoundsTail(bs: seq<Block>, asz: nat)
    requires FirstFit(bs, asz).None?
    ensures TailFree(bs) <= asz
  {
    if |bs| > 0 {
      assert !Fits(bs[|bs| - 1], asz);
    }
  }

  /** The blocks after valloc's grow-and-retry cycle: heap_extend is
      repeated until some block fits. It terminates because each round
      makes the free tail one page larger. */
  function Grown(bs: seq<Block>, asz: nat): (r: seq<Block>)
    ensures FirstFit(r, asz).Some?
    decreases asz - TailFree(bs)
  {
    if FirstFit(bs, asz).Some? then bs
    else
      NoFitBoundsTail(bs, asz);
      Grown(Extended(bs), asz)
  }

  /** The number of heap_extend calls valloc makes for the request. */
  function Growths(bs: seq<Block>, asz: nat): nat
    decreases asz - TailFree(bs)
  {
    if FirstFit(bs, asz).Some? then 0
    else
      NoFitBoundsTail(bs, asz);
      1 + Growths(Extended(bs), asz)
  }

  /** Index of the block valloc carves the request from. */
  function Placement(bs: seq<Block>, asz: nat): nat
  {
    FirstFit(Grown(bs, asz), asz).value
  }

  /** The block sequence after valloc with aligned size `asz`. */
  function Allocated(bs: seq<Block>, asz: nat): seq<Block>
  {
    Split(Grown(bs, asz), Placement(bs, asz), asz)
  }

  /** After a round of heap_extend that still finds no fit, the only
      candidate is the grown tail: blocks before it are blocks of the old
      sequence, none of which fit. */
  lemma ExtendedFit(bs: seq<Block>, asz: nat)
    requires FirstFit(bs, asz).None?
    ensures FirstFit(Extended(bs), asz).Some? <==> TailFree(Extended(bs)) > asz
    ensures FirstFit(Extended(bs), asz).Some? ==>
      FirstFit(Extended(bs), asz).value == |Extended(bs)| - 1
  {
    var e := Extended(bs);
    ExtendedTail(bs);
    var n := |e| - 1;
    assert e[..n] <= bs;
    forall j | 0 <= j < n
      ensures !Fits(e[j], asz)
    {
      assert e[j] == e[..n][j] == bs[j];
    }
    if TailFree(e) > asz {
      assert Fits(e[n], asz);
    }
  }

  /** valloc extends the heap exactly as often as it must: when nothing
      fits, the free tail has to grow past the aligned request one page at
      a time. */
  lemma {:induction false} GrowthsExact(bs: seq<Block>, asz: nat)
    requires FirstFit(bs, asz).None?
    ensures TailFree(bs) <= asz
    ensures Growths(bs, asz) == (asz - TailFree(bs)) / PAGE_SIZE + 1
    decreases asz - TailFree(bs)
  {
    NoFitBoundsTail(bs, asz);
    ExtendedTail(bs);
    ExtendedFit(bs, asz);
    var e := Extended(bs);
    if FirstFit(e, asz).None? {
      GrowthsExact(e, asz);
    }
  }

  /** The grow-and-retry cycle keeps the invariant, adds one page per
      round, and when it grows at all the fit is the trailing block, every
      block before it being one of the original sequence. */
  lemma {:induction false} GrownShape(bs: seq<Block>, asz: nat)
    requires WellFormed(bs)
    ensures WellFormed(Grown(bs, asz))
    ensures Total(Grown(bs, asz)) == Total(bs) + PAGE_SIZE * Growths(bs, asz)
    ensures Growths(bs, asz) == 0 ==> Grown(bs, asz) == bs
    ensures Growths(bs, asz) > 0 ==>
      && Placement(bs, asz) == |Grown(bs, asz)| - 1
      && |Grown(bs, asz)| <= |bs| + 1
      && Grown(bs, asz)[..Placement(bs, asz)] <= bs
    decreases asz - TailFree(bs)
  {
    if FirstFit(bs, asz).None? {
      NoFitBoundsTail(bs, asz);
      ExtendedShape(bs);
      ExtendedTail(bs);
      ExtendedFit(bs, asz);
      var e := Extended(bs);
      GrownShape(e, asz);
      assert Grown(bs, asz) == Grown(e, asz);
      if FirstFit(e, asz).Some? {
        assert Grown(e, asz) == e;
      } else {
        var g := Grown(e, asz);
        var p := Placement(e, asz);
        assert |e| <= |bs| + 1;
        assert |g| <= |e| + 1;
        assert e[|e| - 1] == e[..|e|][|e| - 1];
        assert g[..p] <= e;
        assert !e[|e| - 1].isAllocated;
        GrownKeepsLength(e, asz);
        assert p == |e| - 1;
        assert g[..p] == e[..|e| - 1];
      }
    }
  }

  lemma {:induction false} GrownKeepsLength(bs: seq<Block>, asz: nat)
    requires FreeTail(bs)
    ensures |Grown(bs, asz)| == |bs|
    decreases asz - TailFree(bs)
  {
    if FirstFit(bs, asz).None? {
      NoFitBoundsTail(bs, asz);
      ExtendedTail(bs);
      GrownKeepsLength(Extended(bs), asz);
    }
  }

  /** One round of valloc's grow-and-retry cycle: when nothing fits,
      extending the heap leaves the eventual outcome unchanged, uses up one
      growth and brings the free tail one page closer to the request. */
  lemma GrowStep(bs: seq<Block>, asz: nat)
    requires FirstFit(bs, asz).None?
    ensures Grown(Extended(bs), asz) == Grown(bs, asz)
    ensures Placement(Extended(bs), asz) == Placement(bs, asz)
    ensures Allocated(Extended(bs), asz) == Allocated(bs, asz)
    ensures Growths(bs, asz) == 1 + Growths(Extended(bs), asz)
    ensures 0 <= asz - TailFree(bs)
    ensures asz - TailFree(Extended(bs)) < asz - TailFree(bs)
  {
    NoFitBoundsTail(bs, asz);
    ExtendedTail(bs);
  }

  /** Once the scan of valloc finds its first fit at `i` in `bs`, the
      outcome for the blocks `before` the cycle is the split of block `i`. */
  lemma FitFound(before: seq<Block>, bs: seq<Block>, asz: nat, i: nat)
    requires Grown(bs, asz) == Grown(before, asz)
    requires i < |bs| && Fits(bs[i], asz)
    requires forall j :: 0 <= j < i ==> !Fits(bs[j], asz)
    ensures FirstFit(bs, asz) == Some(i) && Growths(bs, asz) == 0
    ensures Placement(before, asz) == i
    ensures Allocated(before, asz) == Split(bs, i, asz)
  {
  }

  /** valloc's effect on the block sequence: the chosen block is the first
      fit of the grown sequence; it becomes an allocated block of exactly
      the aligned size followed by a free remainder, and every other block
      is kept. */
  lemma AllocatedShape(bs: seq<Block>, asz: nat)
    requires WellFormed(bs) && asz > 0 && asz % DWORD_SIZE == 0
    ensures WellFormed(Allocated(bs, asz))
    ensures Total(Allocated(bs, asz)) == Total(bs) + PAGE_SIZE * Growths(bs, asz)
    ensures var g, p := Grown(bs, asz), Placement(bs, asz);
      && p < |g| && Fits(g[p], asz)
      && (forall j :: 0 <= j < p ==> !Fits(g[j], asz))
      && |Allocated(bs, asz)| == |g| + 1
      && Allocated(bs, asz)[p] == Block(asz, true)
      && Allocated(bs, asz)[p + 1] == Block(g[p].size - asz, false)
      && Allocated(bs, asz)[..p] == g[..p]
      && Allocated(bs, asz)[p + 2..] == g[p + 1..]
  {
    GrownShape(bs, asz);
    var g, p := Grown(bs, asz), Placement(bs, asz);
    SplitShape(g, p, asz);
    var r := Split(g, p, asz);
    assert r[..p] == g[..p];
    assert r[p + 2..] == g[p + 1..];
  }

  /** Freeing an allocated block and then asking for an aligned size below
      its size is served from the freed space, without heap growth, at or
      before the merged block. */
  lemma ReuseAfterFree(bs: seq<Block>, k: nat, asz: nat)
    requires WellFormed(bs) && k < |bs| && bs[k].isAllocated && asz < bs[k].size
    ensures Growths(Coalesce(bs, k), asz) == 0
    ensures Placement(Coalesce(bs, k), asz) <= MergeLo(bs, k)
  {
    var c := Coalesce(bs, k);
    var lo := MergeLo(bs, k);
    CoalesceAt(bs, k, lo);
    assert Fits(c[lo], asz);
  }

  /** The strict first-fit test at work. valloc(100) and valloc(3944) on
      a fresh heap, then vfree of the first, leave a free 112-byte block,
      an allocated block and a 16-byte free tail. A new valloc(100) also
      needs ALIGNED(100 + 8) = 112 bytes, so the freed block is skipped
      although 100 is smaller than it; the tail is too small as well, and
      the heap grows by one page, from which the request is served. */
  lemma ExactFitSkipped()
    ensures RequestSize(100) == 112 && RequestSize(3944) == 3952
    ensures Allocated([Block(4080, false)], 112) == [Block(112, true), Block(3968, false)]
    ensures Allocated([Block(112, true), Block(3968, false)], 3952) ==
      [Block(112, true), Block(3952, true), Block(16, false)]
    ensures Coalesce([Block(112, true), Block(3952, true), Block(16, false)], 0) ==
      [Block(112, false), Block(3952, true), Block(16, false)]
    ensures FirstFit([Block(112, false), Block(3952, true), Block(16, false)], 112).None?
    ensures Growths([Block(112, false), Block(3952, true), Block(16, false)], 112) == 1
    ensures Allocated([Block(112, false), Block(3952, true), Block(16, false)], 112) ==
      [Block(112, false), Block(3952, true), Block(112, true), Block(4000, false)]
  {
    assert Aligned(108) == 112 && Aligned(3952) == 3952;
    SkipFirst();
    SkipSecond();
    SkipGrowth([Block(112, false), Block(3952, true)]);
    assert [Block(112, false), Block(3952, true)] + [Block(16, false)] ==
      [Block(112, false), Block(3952, true), Block(16, false)];
  }

  lemma SkipFirst()
    ensures Allocated([Block(4080, false)], 112) == [Block(112, true), Block(3968, false)]
  {
    var s0 := [Block(4080, false)];
    FitFound(s0, s0, 112, 0);
  }

  lemma SkipSecond()
    ensures Allocated([Block(112, true), Block(3968, false)], 3952) ==
      [Block(112, true), Block(3952, true), Block(16, false)]
  {
    var s1 := [Block(112, true), Block(3968, false)];
    FitFound(s1, s1, 3952, 1);
    assert s1[..1] == [s1[0]];
  }

  /** The tail of 16 bytes after blocks `pre` that do not fit 112 bytes
      grows by one page, which serves the request. */
  lemma SkipGrowth(pre: seq<Block>)
    requires forall j :: 0 <= j < |pre| ==> !Fits(pre[j], 112)
    ensures FirstFit(pre + [Block(16, false)], 112).None?
    ensures Growths(pre + [Block(16, false)], 112) == 1
    ensures Allocated(pre + [Block(16, false)], 112) == pre + [Block(112, true), Block(4000, false)]
  {
    var s3 := pre + [Block(16, false)];
    assert forall j :: 0 <= j < |s3| ==> !Fits(s3[j], 112);
    GrowStep(s3, 112);
    assert s3[..|pre|] == pre;
    var e := pre + [Block(4112, false)];
    assert Extended(s3) == e;
    assert e[..|pre|] == pre;
    FitFound(s3, e, 112, |pre|);
  }

  /** Freeing a block and then its allocated right-hand neighbour, both
      between allocated blocks (or the sentinel), leaves one free block
      whose size is the sum of the two. */
  lemma FreeAdjacentPair(bs: seq<Block>, k: nat)
    requires WellFormed(bs) && k + 1 < |bs|
    requires bs[k].isAllocated && bs[k + 1].isAllocated
    requires k == 0 || bs[k - 1].isAllocated
    requires k + 2 == |bs| || bs[k + 2].isAllocated
    ensures k + 1 < |Coalesce(bs, k)|
    ensures Coalesce(Coalesce(bs, k), k + 1) ==
      bs[..k] + [Block(bs[k].size + bs[k + 1].size, false)] + bs[k + 2..]
  {
    var c := Coalesce(bs, k);
    assert c == bs[..k] + [Block(bs[k].size, false)] + bs[k + 1..];
    assert c[k + 1] == bs[k + 1];
    assert c[..k] == bs[..k];
    assert c[k + 2..] == bs[k + 2..];
  }

  /** Byte offset from pbrk of the payload of block `k`: the padding word,
      the blocks before `k`, and the header of `k`. This is the address
      valloc returns for block `k` and the address vfree takes back. */
  function PayloadOffset(bs: seq<Block>, k: nat): nat
    requires k <= |bs|
  {
    2 * WORD_SIZE + Total(bs[..k])
  }

  lemma {:induction false} TotalAligned(bs: seq<Block>)
    requires SizesOK(bs)
    ensures Total(bs) % DWORD_SIZE == 0
  {
    if |bs| > 0 {
      TotalAligned(bs[..|bs| - 1]);
    }
  }

  /** Every payload address is 16-byte aligned. */
  lemma PayloadAligned(bs: seq<Block>, k: nat)
    requires SizesOK(bs) && k <= |bs|
    ensures PayloadOffset(bs, k) % DWORD_SIZE == 0
  {
    TotalAligned(bs[..k]);
  }

  /** Payloads never overlap: the payload of block `j` (its size less the
      header) ends before the header of any later block `k`. */
  lemma PayloadsDisjoint(bs: seq<Block>, j: nat, k: nat)
    requires j < k <= |bs|
    ensures PayloadOffset(bs, j) + bs[j].size <= PayloadOffset(bs, k)
  {
    TotalConcat(bs[..j + 1], bs[j + 1..k]);
    assert bs[..j + 1] + bs[j + 1..k] == bs[..k];
    assert bs[..j + 1][..j] == bs[..j];
  }

  /** Coalescing the allocated half of a split gives back the blocks
      before the split: the free remainder is merged back and, the split
      block having been free, its left neighbour is allocated. */
  lemma CoalesceUndoesSplit(bs: seq<Block>, k: nat, asz: nat)
    requires NoAdjacentFree(bs) && k < |bs| && Fits(bs[k], asz)
    ensures k < |Split(bs, k, asz)|
    ensures Coalesce(Split(bs, k, asz), k) == bs
  {
    var r := Split(bs, k, asz);
    SplitAt(bs, k, asz, k);
    SplitAt(bs, k, asz, k + 1);
    if k > 0 {
      SplitAt(bs, k, asz, k - 1);
      assert bs[k - 1].isAllocated;
    }
    assert MergeLo(r, k) == k && MergeHi(r, k) == k + 2;
    assert r[..k] == bs[..k] && r[k + 2..] == bs[k + 1..];
    assert bs[..k] + [bs[k]] + bs[k + 1..] == bs;
  }

  /** Freeing the block valloc just handed out gives back the block
      sequence valloc carved it from. */
  lemma FreeUndoesAlloc(bs: seq<Block>, asz: nat)
    requires WellFormed(bs) && asz > 0 && asz % DWORD_SIZE == 0
    ensures Placement(bs, asz) < |Allocated(bs, asz)|
    ensures Coalesce(Allocated(bs, asz), Placement(bs, asz)) == Grown(bs, asz)
  {
    GrownShape(bs, asz);
    CoalesceUndoesSplit(Grown(bs, asz), Placement(bs, asz), asz);
  }
}
