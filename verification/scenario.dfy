/** The calls of the demonstration program src/main.c, replayed on the
    block-level functions: three allocations, the three frees that merge
    the heap back into one free block, and six allocations of which the
    last two grow the heap by one and by two pages. Each phase states the
    block sequence valloc or vfree leaves and the payload offset valloc
    returns. */
module Scenario {
  import opened Header
  import opened Blocks
  import opened Alloc

  /** An allocated and a free block of `n` bytes. */
  function A(n: nat): Block { Block(n, true) }
  function F(n: nat): Block { Block(n, false) }

  /** The block sizes of the program's requests: the request plus the
      header word, rounded up to 16 bytes. */
  lemma MainRequestSizes()
    ensures RequestSize(100) == 112 && RequestSize(300) == 320 && RequestSize(500) == 512
    ensures RequestSize(50) == 64 && RequestSize(250) == 272
    ensures RequestSize(700) == 720 && RequestSize(3000) == 3008
    ensures RequestSize(10000) == 10016
  {
    assert Aligned(108) == 112 && Aligned(308) == 320 && Aligned(508) == 512;
    assert Aligned(58) == 64 && Aligned(258) == 272 && Aligned(708) == 720;
    assert Aligned(3008) == 3008 && Aligned(10008) == 10016;
  }

  /** valloc(100), valloc(300), valloc(500) on a fresh heap: each request
      is carved from the front of the free tail. */
  lemma MainAllocations()
    ensures Growths(InitialBlocks(), 112) == 0 && Placement(InitialBlocks(), 112) == 0
    ensures Allocated(InitialBlocks(), 112) == [A(112), F(3968)]
    ensures Growths([A(112), F(3968)], 320) == 0 && Placement([A(112), F(3968)], 320) == 1
    ensures Allocated([A(112), F(3968)], 320) == [A(112), A(320), F(3648)]
    ensures Growths([A(112), A(320), F(3648)], 512) == 0 && Placement([A(112), A(320), F(3648)], 512) == 2
    ensures Allocated([A(112), A(320), F(3648)], 512) == [A(112), A(320), A(512), F(3136)]
    ensures PayloadOffset([A(112), F(3968)], 0) == 16
    ensures PayloadOffset([A(112), A(320), F(3648)], 1) == 128
    ensures PayloadOffset([A(112), A(320), A(512), F(3136)], 2) == 448
  {
    FitFound(InitialBlocks(), InitialBlocks(), 112, 0);
    var s1 := [A(112), F(3968)];
    FitFound(s1, s1, 320, 1);
    var s2 := [A(112), A(320), F(3648)];
    FitFound(s2, s2, 512, 2);
    var s3 := [A(112), A(320), A(512), F(3136)];
    TotalOne(s1[0]);
    TotalTwo(s2[0], s2[1]);
    assert s2[..1] == [s1[0]];
    assert s3[..2] == [s2[0], s2[1]];
  }

  /** vfree(addr1), vfree(addr2), vfree(addr3): the first free merges with
      nothing, the second with its free left neighbour, and the third, whose
      payload at byte 448 is now that of block 1, with both neighbours. */
  lemma MainFrees()
    ensures Coalesce([A(112), A(320), A(512), F(3136)], 0) == [F(112), A(320), A(512), F(3136)]
    ensures PayloadOffset([F(112), A(320), A(512), F(3136)], 1) == 128
    ensures Coalesce([F(112), A(320), A(512), F(3136)], 1) == [F(432), A(512), F(3136)]
    ensures PayloadOffset([F(432), A(512), F(3136)], 1) == 448
    ensures Coalesce([F(432), A(512), F(3136)], 1) == [F(4080)]
    ensures [F(4080)] == InitialBlocks()
  {
    var s4 := [F(112), A(320), A(512), F(3136)];
    var s5 := [F(432), A(512), F(3136)];
    assert s4[..1] == [s4[0]] && s5[..1] == [s5[0]];
    TotalOne(s4[0]);
    TotalOne(s5[0]);
  }

  /** Blocks that are all allocated, followed by one free tail of `tail`
      bytes: the shape of the heap at every valloc of the program. */
  predicate TailOnly(pre: seq<Block>)
  {
    forall j :: 0 <= j < |pre| ==> pre[j].isAllocated
  }

  lemma SnocPrefix(pre: seq<Block>, b: Block)
    ensures (pre + [b])[..|pre|] == pre
  {
  }

  /** valloc on that shape when the request fits the tail: no growth, and
      the tail is split. */
  lemma FitTail(pre: seq<Block>, tail: nat, asz: nat)
    requires TailOnly(pre) && asz < tail
    ensures Growths(pre + [F(tail)], asz) == 0
    ensures Placement(pre + [F(tail)], asz) == |pre|
    ensures Allocated(pre + [F(tail)], asz) == pre + [A(asz), F(tail - asz)]
  {
    var bs := pre + [F(tail)];
    SnocPrefix(pre, F(tail));
    assert forall j :: 0 <= j < |pre| ==> !Fits(bs[j], asz);
    FitFound(bs, bs, asz, |pre|);
    SplitLast(pre, tail, asz);
  }

  lemma SplitLast(pre: seq<Block>, tail: nat, asz: nat)
    requires asz < tail
    ensures Split(pre + [F(tail)], |pre|, asz) == pre + [A(asz), F(tail - asz)]
  {
    var bs := pre + [F(tail)];
    assert bs[..|pre|] == pre && bs[|pre| + 1..] == [];
  }

  /** valloc on that shape when the request does not fit the tail: one
      round of heap_extend makes the tail a page larger and leaves the
      outcome unchanged. */
  lemma GrowTail(pre: seq<Block>, tail: nat, asz: nat)
    requires TailOnly(pre) && tail <= asz
    ensures Growths(pre + [F(tail)], asz) == 1 + Growths(pre + [F(tail + PAGE_SIZE)], asz)
    ensures Placement(pre + [F(tail)], asz) == Placement(pre + [F(tail + PAGE_SIZE)], asz)
    ensures Allocated(pre + [F(tail)], asz) == Allocated(pre + [F(tail + PAGE_SIZE)], asz)
  {
    NoFitTail(pre, tail, asz);
    ExtendTail(pre, tail);
    GrowStep(pre + [F(tail)], asz);
  }

  lemma NoFitTail(pre: seq<Block>, tail: nat, asz: nat)
    requires TailOnly(pre) && tail <= asz
    ensures FirstFit(pre + [F(tail)], asz).None?
  {
    var bs := pre + [F(tail)];
    assert forall j :: 0 <= j < |bs| ==> !Fits(bs[j], asz);
  }

  lemma ExtendTail(pre: seq<Block>, tail: nat)
    ensures Extended(pre + [F(tail)]) == pre + [F(tail + PAGE_SIZE)]
  {
    SnocPrefix(pre, F(tail));
  }

  /** valloc(50), valloc(250), valloc(700), valloc(3000) on the merged
      heap: each is served from its free tail without growth; the last
      leaves a free tail of 16 bytes. */
  lemma ReuseFirst()
    ensures Growths([F(4080)], 64) == 0
    ensures Allocated([F(4080)], 64) == [A(64), F(4016)]
  {
    FitTail([], 4080, 64);
    assert [] + [F(4080)] == [F(4080)];
  }

  lemma ReuseSecond()
    ensures Growths([A(64), F(4016)], 272) == 0
    ensures Allocated([A(64), F(4016)], 272) == [A(64), A(272), F(3744)]
  {
    FitTail([A(64)], 4016, 272);
    assert [A(64)] + [F(4016)] == [A(64), F(4016)];
  }

  lemma ReuseThird()
    ensures Growths([A(64), A(272), F(3744)], 720) == 0
    ensures Allocated([A(64), A(272), F(3744)], 720) == [A(64), A(272), A(720), F(3024)]
  {
    FitTail([A(64), A(272)], 3744, 720);
    assert [A(64), A(272)] + [F(3744)] == [A(64), A(272), F(3744)];
  }

  lemma ReuseFourth()
    ensures Growths([A(64), A(272), A(720), F(3024)], 3008) == 0
    ensures Allocated([A(64), A(272), A(720), F(3024)], 3008) == [A(64), A(272), A(720), A(3008), F(16)]
  {
    FitTail([A(64), A(272), A(720)], 3024, 3008);
    assert [A(64), A(272), A(720)] + [F(3024)] == [A(64), A(272), A(720), F(3024)];
  }

  /** valloc(50) with only 16 free bytes left grows the heap by one page,
      which merges with the free tail, and is served from it. */
  lemma MainSmallGrowth()
    ensures var s := [A(64), A(272), A(720), A(3008), F(16)];
      && Growths(s, 64) == 1 && Placement(s, 64) == 4
      && Allocated(s, 64) == [A(64), A(272), A(720), A(3008), A(64), F(4048)]
  {
    var pre := [A(64), A(272), A(720), A(3008)];
    GrowTail(pre, 16, 64);
    FitTail(pre, 4112, 64);
    assert pre + [F(16)] == [A(64), A(272), A(720), A(3008), F(16)];
  }

  /** valloc(10000) then grows the heap by two more pages: four pages end
      up in use. */
  lemma MainLargeGrowth()
    ensures var s := [A(64), A(272), A(720), A(3008), A(64), F(4048)];
      && Growths(s, 10016) == 2 && Placement(s, 10016) == 5
      && Allocated(s, 10016) == [A(64), A(272), A(720), A(3008), A(64), A(10016), F(2224)]
  {
    var pre := [A(64), A(272), A(720), A(3008), A(64)];
    LargeRounds(pre);
    FitTail(pre, 12240, 10016);
    assert pre + [F(4048)] == [A(64), A(272), A(720), A(3008), A(64), F(4048)];
    assert pre + [A(10016), F(2224)] == [A(64), A(272), A(720), A(3008), A(64), A(10016), F(2224)];
  }

  /** The two rounds of heap_extend that valloc(10000) needs. */
  lemma LargeRounds(pre: seq<Block>)
    requires TailOnly(pre)
    ensures Growths(pre + [F(4048)], 10016) == 2 + Growths(pre + [F(12240)], 10016)
    ensures Placement(pre + [F(4048)], 10016) == Placement(pre + [F(12240)], 10016)
    ensures Allocated(pre + [F(4048)], 10016) == Allocated(pre + [F(12240)], 10016)
  {
    GrowTail(pre, 4048, 10016);
    GrowTail(pre, 8144, 10016);
  }

  /** The first three allocations of the program on a fresh heap: they
      return the payloads at words 2, 16 and 56 (bytes 16, 128 and 448
      from pbrk) and leave one page holding the three blocks and a free
      tail. */
  method ReplayAllocations() returns (h: Heap, addr1: nat, addr2: nat, addr3: nat)
    ensures fresh(h) && h.Valid() && h.initialized
    ensures addr1 == 2 && addr2 == 16 && addr3 == 56
    ensures h.Decoded() == [A(112), A(320), A(512), F(3136)] && |h.mem| == PAGE_WORDS
  {
    MainRequestSizes();
    MainAllocations();
    h := new Heap();
    addr1 := h.Valloc(100);
    assert h.Decoded() == [A(112), F(3968)] && addr1 * WORD_SIZE == 16;
    assert |h.mem| == PAGE_WORDS;
    addr2 := h.Valloc(300);
    assert h.Decoded() == [A(112), A(320), F(3648)] && addr2 * WORD_SIZE == 128;
    assert |h.mem| == PAGE_WORDS;
    addr3 := h.Valloc(500);
  }

  /** The three frees of the program, in allocation order: the heap merges
      back into the single free block it started with. */
  method ReplayFrees(h: Heap, addr1: nat, addr2: nat, addr3: nat)
    requires h.Valid() && h.initialized
    requires addr1 == 2 && addr2 == 16 && addr3 == 56
    requires h.Decoded() == [A(112), A(320), A(512), F(3136)] && |h.mem| == PAGE_WORDS
    modifies h
    ensures h.Valid() && h.initialized
    ensures h.Decoded() == InitialBlocks() && |h.mem| == PAGE_WORDS
  {
    MainAllocations();
    MainFrees();
    h.Vfree(addr1, 0);
    assert h.Decoded() == [F(112), A(320), A(512), F(3136)];
    h.Vfree(addr2, 1);
    assert h.Decoded() == [F(432), A(512), F(3136)];
    h.Vfree(addr3, 1);
  }

  /** The next four allocations of the program on the merged heap: each
      fits the free tail, the heap does not grow, and a free tail of 16
      bytes is left. */
  method ReplayReuse(h: Heap)
    requires h.Valid() && h.initialized
    requires h.Decoded() == InitialBlocks() && |h.mem| == PAGE_WORDS
    modifies h
    ensures h.Valid() && h.initialized
    ensures h.Decoded() == [A(64), A(272), A(720), A(3008), F(16)]
    ensures |h.mem| == PAGE_WORDS
  {
    MainRequestSizes();
    ReuseFirst();
    var a := h.Valloc(50);
    assert h.Decoded() == [A(64), F(4016)] && |h.mem| == PAGE_WORDS;
    ReuseSecond();
    a := h.Valloc(250);
    assert h.Decoded() == [A(64), A(272), F(3744)] && |h.mem| == PAGE_WORDS;
    ReuseThird();
    a := h.Valloc(700);
    assert h.Decoded() == [A(64), A(272), A(720), F(3024)] && |h.mem| == PAGE_WORDS;
    ReuseFourth();
    a := h.Valloc(3000);
  }

  /** The last two allocations of the program: valloc(50) grows the heap
      by one page and valloc(10000) by two, leaving four pages whose blocks
      are the six allocations and a free tail of 2224 bytes. */
  method ReplayGrowth(h: Heap)
    requires h.Valid() && h.initialized
    requires h.Decoded() == [A(64), A(272), A(720), A(3008), F(16)] && |h.mem| == PAGE_WORDS
    modifies h
    ensures h.Valid() && h.initialized
    ensures h.Decoded() == [A(64), A(272), A(720), A(3008), A(64), A(10016), F(2224)]
    ensures |h.mem| == 4 * PAGE_WORDS
  {
    MainRequestSizes();
    MainSmallGrowth();
    var a := h.Valloc(50);
    assert h.Decoded() == [A(64), A(272), A(720), A(3008), A(64), F(4048)];
    assert |h.mem| == 2 * PAGE_WORDS;
    MainLargeGrowth();
    a := h.Valloc(10000);
  }

  /** The whole program: the heap ends as four pages holding the last six
      allocations and a free tail of 2224 bytes. */
  method Replay() returns (h: Heap)
    ensures fresh(h) && h.Valid() && h.initialized
    ensures h.Decoded() == [A(64), A(272), A(720), A(3008), A(64), A(10016), F(2224)]
    ensures |h.mem| == 4 * PAGE_WORDS
  {
    var addr1, addr2, addr3;
    h, addr1, addr2, addr3 := ReplayAllocations();
    ReplayFrees(h, addr1, addr2, addr3);
    ReplayReuse(h);
    ReplayGrowth(h);
  }
}
