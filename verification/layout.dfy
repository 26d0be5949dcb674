/** The heap as the allocator stores it: one sequence of 64-bit words,
    indexed from `pbrk`. Word 0 is padding; the first header is word 1
    (`pbrk + WORD_SIZE`); a header at word `h` has its payload at `h + 1`
    and the next header at `h + size / 8`. The ghost sequence `hdrs` lists
    the word indices of all headers in address order, the sentinel last;
    `Linked` says the words really chain that way, and `View` decodes the
    chain into the block sequence of module Blocks. */
module Layout {
  import opened Header
  import opened Blocks

  /** Word index of the first header, `pbrk + WORD_SIZE`. */
  const FIRST: nat := 1

  /** block_get_next: the header `size` bytes after the header at `b`.
      Headers keep their parity, so payloads keep their 16-byte alignment. */
  function Next(mem: seq<nat>, b: nat): (n: nat)
    requires b < |mem|
    ensures (n - b) * WORD_SIZE == GetSize(mem[b])
    ensures n % 2 == b % 2
  {
    b + GetSize(mem[b]) / WORD_SIZE
  }

  /** The headers `hdrs` chain through `mem` from the first header to a
      sentinel: each non-sentinel header is clean, has a positive size and
      leads to the next one; every header sits at an odd word index, that
      is at byte offset 8 modulo 16, so its payload is 16-aligned. */
  ghost predicate Linked(mem: seq<nat>, hdrs: seq<nat>)
  {
    && |hdrs| >= 1 && hdrs[0] == FIRST
    && (forall i :: 0 <= i < |hdrs| ==> hdrs[i] < |mem| && hdrs[i] % 2 == 1)
    && (forall i :: 0 <= i < |hdrs| - 1 ==>
          Clean(mem[hdrs[i]]) && GetSize(mem[hdrs[i]]) > 0 && hdrs[i + 1] == Next(mem, hdrs[i]))
    && mem[hdrs[|hdrs| - 1]] == Create(0, true)
  }

  /** The chain ends in the last word of the heap. */
  ghost predicate Chain(mem: seq<nat>, hdrs: seq<nat>)
  {
    Linked(mem, hdrs) && hdrs[|hdrs| - 1] == |mem| - 1
  }

  /** The decoded blocks, sentinel excluded. */
  ghost function View(mem: seq<nat>, hdrs: seq<nat>): (bs: seq<Block>)
    requires Linked(mem, hdrs)
    ensures |bs| == |hdrs| - 1
  {
    seq(|hdrs| - 1, i requires 0 <= i < |hdrs| - 1 => Decode(mem[hdrs[i]]))
  }

  /** The heap-wide invariant: a chain over whole pages whose blocks never
      have two free neighbours. */
  ghost predicate HeapOK(mem: seq<nat>, hdrs: seq<nat>)
  {
    Chain(mem, hdrs) && |mem| % PAGE_WORDS == 0 && NoAdjacentFree(View(mem, hdrs))
  }

  lemma ViewAt(mem: seq<nat>, hdrs: seq<nat>, i: nat)
    requires Linked(mem, hdrs) && i < |hdrs| - 1
    ensures View(mem, hdrs)[i] == Decode(mem[hdrs[i]])
    ensures mem[hdrs[i]] == Create(View(mem, hdrs)[i].size, View(mem, hdrs)[i].isAllocated)
    ensures hdrs[i + 1] - hdrs[i] == View(mem, hdrs)[i].size / WORD_SIZE
  {
  }

  /** Every decoded block has a positive size that is a multiple of 16. */
  lemma ViewSizes(mem: seq<nat>, hdrs: seq<nat>)
    requires Linked(mem, hdrs)
    ensures SizesOK(View(mem, hdrs))
  {
    var bs := View(mem, hdrs);
    forall i | 0 <= i < |bs|
      ensures bs[i].size > 0 && bs[i].size % DWORD_SIZE == 0
    {
      ViewAt(mem, hdrs, i);
    }
  }

  lemma {:induction false} HeadersIncrease(mem: seq<nat>, hdrs: seq<nat>, i: nat, j: nat)
    requires Linked(mem, hdrs) && i < j < |hdrs|
    ensures hdrs[i] < hdrs[j]
    decreases j - i
  {
    if j > i + 1 {
      HeadersIncrease(mem, hdrs, i, j - 1);
    }
  }

  /** Headers appear in strictly increasing address order. */
  lemma Sorted(mem: seq<nat>, hdrs: seq<nat>)
    requires Linked(mem, hdrs)
    ensures forall i, j :: 0 <= i < j < |hdrs| ==> hdrs[i] < hdrs[j]
  {
    forall i, j | 0 <= i < j < |hdrs|
      ensures hdrs[i] < hdrs[j]
    {
      HeadersIncrease(mem, hdrs, i, j);
    }
  }

  /** block_is_last holds at a header exactly when it is the sentinel. */
  lemma IsLastAt(mem: seq<nat>, hdrs: seq<nat>, i: nat)
    requires Linked(mem, hdrs) && i < |hdrs|
    ensures IsLast(mem[hdrs[i]]) <==> i == |hdrs| - 1
  {
  }

  /** The header at word `hdrs[j]` is at byte offset 8 plus the sizes of
      all blocks before it. */
  lemma {:induction false} HeaderOffset(mem: seq<nat>, hdrs: seq<nat>, j: nat)
    requires Linked(mem, hdrs) && j < |hdrs|
    ensures hdrs[j] * WORD_SIZE == WORD_SIZE + Total(View(mem, hdrs)[..j])
  {
    var bs := View(mem, hdrs);
    if j > 0 {
      HeaderOffset(mem, hdrs, j - 1);
      ViewAt(mem, hdrs, j - 1);
      assert bs[..j][..j - 1] == bs[..j - 1];
    }
  }

  /** The block sizes chain exactly from the first header to the sentinel
      in the last word: padding word, blocks and sentinel fill the heap. */
  lemma ChainCoversHeap(mem: seq<nat>, hdrs: seq<nat>)
    requires Chain(mem, hdrs)
    ensures |mem| * WORD_SIZE == 2 * WORD_SIZE + Total(View(mem, hdrs))
  {
    HeaderOffset(mem, hdrs, |hdrs| - 1);
    assert View(mem, hdrs)[..|hdrs| - 1] == View(mem, hdrs);
  }

  /** Words appended past the chain do not disturb it. */
  lemma LinkedPrefix(mem: seq<nat>, mem': seq<nat>, hdrs: seq<nat>)
    requires Linked(mem, hdrs) && |mem| <= |mem'| && mem'[..|mem|] == mem
    ensures Linked(mem', hdrs) && View(mem', hdrs) == View(mem, hdrs)
  {
    forall i | 0 <= i < |hdrs|
      ensures mem'[hdrs[i]] == mem[hdrs[i]]
    {
      assert mem'[hdrs[i]] == mem'[..|mem|][hdrs[i]];
    }
  }

  /** The state after valloc's two header writes into block `k`. */
  ghost predicate SplitWrites(mem: seq<nat>, hdrs: seq<nat>, k: nat, asz: nat, mem': seq<nat>, hdrs': seq<nat>)
  {
    && Linked(mem, hdrs) && k < |hdrs| - 1
    && !IsAllocated(mem[hdrs[k]]) && asz < GetSize(mem[hdrs[k]]) && asz > 0 && asz % DWORD_SIZE == 0
    && hdrs[k] + asz / WORD_SIZE < hdrs[k + 1]
    && mem' == mem[hdrs[k] := Create(asz, true)]
                  [hdrs[k] + asz / WORD_SIZE := Create(GetSize(mem[hdrs[k]]) - asz, false)]
    && hdrs' == hdrs[..k + 1] + [hdrs[k] + asz / WORD_SIZE] + hdrs[k + 1..]
  }

  /** A header other than `hdrs[k]` lies outside block `k`. */
  lemma OutsideBlock(mem: seq<nat>, hdrs: seq<nat>, k: nat, j: nat)
    requires Linked(mem, hdrs) && k < |hdrs| - 1 && j < |hdrs| && j != k
    ensures hdrs[j] < hdrs[k] || hdrs[k + 1] <= hdrs[j]
  {
    if j < k {
      HeadersIncrease(mem, hdrs, j, k);
    } else if j > k + 1 {
      HeadersIncrease(mem, hdrs, k + 1, j);
    }
  }

  lemma SplitIndex(mem: seq<nat>, hdrs: seq<nat>, k: nat, asz: nat, mem': seq<nat>, hdrs': seq<nat>, i: nat)
    requires SplitWrites(mem, hdrs, k, asz, mem', hdrs') && i < |hdrs'|
    ensures |hdrs'| == |hdrs| + 1 && |mem'| == |mem|
    ensures hdrs'[i] == if i <= k then hdrs[i] else if i == k + 1 then hdrs[k] + asz / WORD_SIZE else hdrs[i - 1]
    ensures i != k && i != k + 1 ==> mem'[hdrs'[i]] == mem[hdrs'[i]]
  {
    if i < k {
      OutsideBlock(mem, hdrs, k, i);
    } else if i > k + 1 {
      OutsideBlock(mem, hdrs, k, i - 1);
    }
  }

  lemma SplitStep(mem: seq<nat>, hdrs: seq<nat>, k: nat, asz: nat, mem': seq<nat>, hdrs': seq<nat>, i: nat)
    requires SplitWrites(mem, hdrs, k, asz, mem', hdrs') && i < |hdrs'| - 1
    ensures Clean(mem'[hdrs'[i]]) && GetSize(mem'[hdrs'[i]]) > 0 && hdrs'[i + 1] == Next(mem', hdrs'[i])
  {
    if i == k {
      SplitStepAllocated(mem, hdrs, k, asz, mem', hdrs');
    } else if i == k + 1 {
      SplitStepRemainder(mem, hdrs, k, asz, mem', hdrs');
    } else {
      SplitIndex(mem, hdrs, k, asz, mem', hdrs', i);
      SplitIndex(mem, hdrs, k, asz, mem', hdrs', i + 1);
    }
  }

  lemma SplitStepAllocated(mem: seq<nat>, hdrs: seq<nat>, k: nat, asz: nat, mem': seq<nat>, hdrs': seq<nat>)
    requires SplitWrites(mem, hdrs, k, asz, mem', hdrs')
    ensures Clean(mem'[hdrs'[k]]) && GetSize(mem'[hdrs'[k]]) == asz && hdrs'[k + 1] == Next(mem', hdrs'[k])
    ensures IsAllocated(mem'[hdrs'[k]])
  {
    SplitIndex(mem, hdrs, k, asz, mem', hdrs', k);
    SplitIndex(mem, hdrs, k, asz, mem', hdrs', k + 1);
    assert mem'[hdrs[k]] == Create(asz, true);
    CreateRoundTrip(asz, true);
  }

  lemma SplitStepRemainder(mem: seq<nat>, hdrs: seq<nat>, k: nat, asz: nat, mem': seq<nat>, hdrs': seq<nat>)
    requires SplitWrites(mem, hdrs, k, asz, mem', hdrs')
    ensures Clean(mem'[hdrs'[k + 1]]) && GetSize(mem'[hdrs'[k + 1]]) == GetSize(mem[hdrs[k]]) - asz
    ensures !IsAllocated(mem'[hdrs'[k + 1]])
    ensures hdrs'[k + 2] == Next(mem', hdrs'[k + 1])
  {
    var size := GetSize(mem[hdrs[k]]);
    var rest, n := size - asz, hdrs[k] + asz / WORD_SIZE;
    WordsSplit(asz, size);
    SplitIndex(mem, hdrs, k, asz, mem', hdrs', k + 1);
    SplitIndex(mem, hdrs, k, asz, mem', hdrs', k + 2);
    assert mem'[n] == Create(rest, false);
    CreateRoundTrip(rest, false);
    assert Next(mem', n) == n + rest / WORD_SIZE;
    assert hdrs[k + 1] == hdrs[k] + size / WORD_SIZE;
  }

  /** The two header writes of valloc's split: block `k` becomes an
      allocated block of `asz` bytes and a free header is written at the
      split point, which lies strictly inside block `k`, so the remainder
      ends exactly at the original next block. */
  lemma SplitHeaders(mem: seq<nat>, hdrs: seq<nat>, k: nat, asz: nat, mem': seq<nat>, hdrs': seq<nat>)
    requires SplitWrites(mem, hdrs, k, asz, mem', hdrs')
    ensures Linked(mem', hdrs') && hdrs'[|hdrs'| - 1] == hdrs[|hdrs| - 1] && |mem'| == |mem|
    ensures Fits(View(mem, hdrs)[k], asz)
    ensures View(mem', hdrs') == Split(View(mem, hdrs), k, asz)
  {
    SplitLinked(mem, hdrs, k, asz, mem', hdrs');
    SplitViewEq(mem, hdrs, k, asz, mem', hdrs');
  }

  lemma SplitLinked(mem: seq<nat>, hdrs: seq<nat>, k: nat, asz: nat, mem': seq<nat>, hdrs': seq<nat>)
    requires SplitWrites(mem, hdrs, k, asz, mem', hdrs')
    ensures Linked(mem', hdrs') && hdrs'[|hdrs'| - 1] == hdrs[|hdrs| - 1] && |mem'| == |mem|
  {
    SplitPlaces(mem, hdrs, k, asz, mem', hdrs');
    SplitSteps(mem, hdrs, k, asz, mem', hdrs');
    SplitIndex(mem, hdrs, k, asz, mem', hdrs', 0);
    SplitIndex(mem, hdrs, k, asz, mem', hdrs', |hdrs'| - 1);
  }

  lemma SplitPlaces(mem: seq<nat>, hdrs: seq<nat>, k: nat, asz: nat, mem': seq<nat>, hdrs': seq<nat>)
    requires SplitWrites(mem, hdrs, k, asz, mem', hdrs')
    ensures forall i :: 0 <= i < |hdrs'| ==> hdrs'[i] < |mem'| && hdrs'[i] % 2 == 1
  {
    EvenWords(asz);
    var at := hdrs[k] + asz / WORD_SIZE;
    OddAfterEven(hdrs[k], asz / WORD_SIZE);
    assert at < |mem| && at % 2 == 1;
    forall i | 0 <= i < |hdrs'|
      ensures hdrs'[i] < |mem'| && hdrs'[i] % 2 == 1
    {
      SplitIndex(mem, hdrs, k, asz, mem', hdrs', i);
    }
  }

  lemma OddAfterEven(a: nat, d: nat)
    requires a % 2 == 1 && d % 2 == 0
    ensures (a + d) % 2 == 1
  {
  }

  lemma SplitSteps(mem: seq<nat>, hdrs: seq<nat>, k: nat, asz: nat, mem': seq<nat>, hdrs': seq<nat>)
    requires SplitWrites(mem, hdrs, k, asz, mem', hdrs')
    ensures forall i :: 0 <= i < |hdrs'| - 1 ==>
      Clean(mem'[hdrs'[i]]) && GetSize(mem'[hdrs'[i]]) > 0 && hdrs'[i + 1] == Next(mem', hdrs'[i])
  {
    forall i | 0 <= i < |hdrs'| - 1
      ensures Clean(mem'[hdrs'[i]]) && GetSize(mem'[hdrs'[i]]) > 0 && hdrs'[i + 1] == Next(mem', hdrs'[i])
    {
      SplitStep(mem, hdrs, k, asz, mem', hdrs', i);
    }
  }

  lemma SplitViewEq(mem: seq<nat>, hdrs: seq<nat>, k: nat, asz: nat, mem': seq<nat>, hdrs': seq<nat>)
    requires SplitWrites(mem, hdrs, k, asz, mem', hdrs') && Linked(mem', hdrs')
    ensures Fits(View(mem, hdrs)[k], asz)
    ensures View(mem', hdrs') == Split(View(mem, hdrs), k, asz)
  {
    var bs, bs' := View(mem, hdrs), View(mem', hdrs');
    ViewAt(mem, hdrs, k);
    var sp := Split(bs, k, asz);
    SplitAt(bs, k, asz, 0);
    forall i | 0 <= i < |bs'|
      ensures bs'[i] == sp[i]
    {
      SplitViewAt(mem, hdrs, k, asz, mem', hdrs', i);
    }
  }

  lemma SplitViewAt(mem: seq<nat>, hdrs: seq<nat>, k: nat, asz: nat, mem': seq<nat>, hdrs': seq<nat>, i: nat)
    requires SplitWrites(mem, hdrs, k, asz, mem', hdrs') && Linked(mem', hdrs')
    requires i < |hdrs'| - 1
    ensures Fits(View(mem, hdrs)[k], asz)
    ensures View(mem', hdrs')[i] == Split(View(mem, hdrs), k, asz)[i]
  {
    var bs := View(mem, hdrs);
    ViewAt(mem, hdrs, k);
    SplitAt(bs, k, asz, i);
    if i == k {
      SplitStepAllocated(mem, hdrs, k, asz, mem', hdrs');
    } else if i == k + 1 {
      SplitStepRemainder(mem, hdrs, k, asz, mem', hdrs');
    } else {
      SplitIndex(mem, hdrs, k, asz, mem', hdrs', i);
      ViewAt(mem, hdrs, if i < k then i else i - 1);
    }
  }

  /** The state after block_coalesce's one header write. */
  ghost predicate MergeWrite(mem: seq<nat>, hdrs: seq<nat>, lo: nat, hi: nat, size: nat, mem': seq<nat>, hdrs': seq<nat>)
  {
    && Linked(mem, hdrs) && lo < hi < |hdrs|
    && size == (hdrs[hi] - hdrs[lo]) * WORD_SIZE
    && mem' == mem[hdrs[lo] := Create(size, false)]
    && hdrs' == hdrs[..lo + 1] + hdrs[hi..]
  }

  lemma MergeIndex(mem: seq<nat>, hdrs: seq<nat>, lo: nat, hi: nat, size: nat, mem': seq<nat>, hdrs': seq<nat>, i: nat)
    requires MergeWrite(mem, hdrs, lo, hi, size, mem', hdrs') && i < |hdrs'|
    ensures |hdrs'| == |hdrs| - (hi - lo - 1) && |mem'| == |mem|
    ensures hdrs'[i] == if i <= lo then hdrs[i] else hdrs[i - lo - 1 + hi]
    ensures i != lo ==> mem'[hdrs'[i]] == mem[hdrs'[i]]
  {
    if i < lo {
      HeadersIncrease(mem, hdrs, i, lo);
    } else if i > lo {
      HeadersIncrease(mem, hdrs, lo, i - lo - 1 + hi);
    }
  }

  lemma MergeStep(mem: seq<nat>, hdrs: seq<nat>, lo: nat, hi: nat, size: nat, mem': seq<nat>, hdrs': seq<nat>, i: nat)
    requires MergeWrite(mem, hdrs, lo, hi, size, mem', hdrs') && i < |hdrs'| - 1
    ensures Clean(mem'[hdrs'[i]]) && GetSize(mem'[hdrs'[i]]) > 0 && hdrs'[i + 1] == Next(mem', hdrs'[i])
  {
    if i == lo {
      MergeStepAt(mem, hdrs, lo, hi, size, mem', hdrs');
    } else {
      MergeIndex(mem, hdrs, lo, hi, size, mem', hdrs', i);
      MergeIndex(mem, hdrs, lo, hi, size, mem', hdrs', i + 1);
    }
  }

  lemma MergeStepAt(mem: seq<nat>, hdrs: seq<nat>, lo: nat, hi: nat, size: nat, mem': seq<nat>, hdrs': seq<nat>)
    requires MergeWrite(mem, hdrs, lo, hi, size, mem', hdrs')
    ensures lo + 1 < |hdrs'|
    ensures Clean(mem'[hdrs'[lo]]) && GetSize(mem'[hdrs'[lo]]) == size && size > 0
    ensures !IsAllocated(mem'[hdrs'[lo]]) && hdrs'[lo + 1] == Next(mem', hdrs'[lo])
  {
    MergeIndex(mem, hdrs, lo, hi, size, mem', hdrs', lo);
    MergeIndex(mem, hdrs, lo, hi, size, mem', hdrs', lo + 1);
    HeadersIncrease(mem, hdrs, lo, hi);
    var d := hdrs[hi] - hdrs[lo];
    assert d % 2 == 0;
    WordsEven(d);
    CreateRoundTrip(size, false);
    assert Next(mem', hdrs[lo]) == hdrs[lo] + d;
  }

  /** The one header write of block_coalesce: the header at `hdrs[lo]`
      becomes a free block reaching to `hdrs[hi]`; the headers in between
      stop being part of the chain. */
  lemma MergeHeaders(mem: seq<nat>, hdrs: seq<nat>, lo: nat, hi: nat, size: nat, mem': seq<nat>, hdrs': seq<nat>)
    requires MergeWrite(mem, hdrs, lo, hi, size, mem', hdrs')
    ensures Linked(mem', hdrs') && hdrs'[|hdrs'| - 1] == hdrs[|hdrs| - 1] && |mem'| == |mem|
    ensures View(mem', hdrs') == View(mem, hdrs)[..lo] + [Block(size, false)] + View(mem, hdrs)[hi..]
  {
    forall i | 0 <= i < |hdrs'|
      ensures hdrs'[i] < |mem'| && hdrs'[i] % 2 == 1
    {
      MergeIndex(mem, hdrs, lo, hi, size, mem', hdrs', i);
    }
    forall i | 0 <= i < |hdrs'| - 1
      ensures Clean(mem'[hdrs'[i]]) && GetSize(mem'[hdrs'[i]]) > 0 && hdrs'[i + 1] == Next(mem', hdrs'[i])
    {
      MergeStep(mem, hdrs, lo, hi, size, mem', hdrs', i);
    }
    MergeIndex(mem, hdrs, lo, hi, size, mem', hdrs', 0);
    MergeIndex(mem, hdrs, lo, hi, size, mem', hdrs', |hdrs'| - 1);
    assert Linked(mem', hdrs');
    MergeViewEq(mem, hdrs, lo, hi, size, mem', hdrs');
  }

  lemma MergeViewEq(mem: seq<nat>, hdrs: seq<nat>, lo: nat, hi: nat, size: nat, mem': seq<nat>, hdrs': seq<nat>)
    requires MergeWrite(mem, hdrs, lo, hi, size, mem', hdrs') && Linked(mem', hdrs')
    ensures View(mem', hdrs') == View(mem, hdrs)[..lo] + [Block(size, false)] + View(mem, hdrs)[hi..]
  {
    var bs, bs' := View(mem, hdrs), View(mem', hdrs');
    var want := bs[..lo] + [Block(size, false)] + bs[hi..];
    MergeIndex(mem, hdrs, lo, hi, size, mem', hdrs', 0);
    assert |bs'| == |want|;
    forall i | 0 <= i < |bs'|
      ensures bs'[i] == want[i]
    {
      MergeIndex(mem, hdrs, lo, hi, size, mem', hdrs', i);
      if i < lo {
        ViewAt(mem, hdrs, i);
      } else if i > lo {
        ViewAt(mem, hdrs, i - lo - 1 + hi);
      } else {
        MergeStepAt(mem, hdrs, lo, hi, size, mem', hdrs');
      }
    }
  }

  /** What block_coalesce reads: the neighbours' flags and sizes in the
      words agree with the view, and the merged run spans exactly the
      words from the header at MergeLo to the header at MergeHi. */
  lemma MergeReads(mem: seq<nat>, hdrs: seq<nat>, k: nat)
    requires Linked(mem, hdrs) && k < |hdrs| - 1
    ensures var bs := View(mem, hdrs);
      && GetSize(mem[hdrs[k]]) == bs[k].size
      && (!IsAllocated(mem[hdrs[k + 1]]) <==> NextFree(bs, k))
      && (NextFree(bs, k) ==> GetSize(mem[hdrs[k + 1]]) == bs[k + 1].size)
      && (k > 0 ==> (!IsAllocated(mem[hdrs[k - 1]]) <==> PrevFree(bs, k)))
      && (PrevFree(bs, k) ==> GetSize(mem[hdrs[k - 1]]) == bs[k - 1].size)
      && MergedSize(bs, k) == (hdrs[MergeHi(bs, k)] - hdrs[MergeLo(bs, k)]) * WORD_SIZE
  {
    var bs := View(mem, hdrs);
    ViewAt(mem, hdrs, k);
    ViewSizes(mem, hdrs);
    if k + 1 < |bs| {
      ViewAt(mem, hdrs, k + 1);
    }
    if k > 0 {
      ViewAt(mem, hdrs, k - 1);
    }
  }

  /** The state after block_coalesce on block `k`: the header of the
      merged run is rewritten as one free block and the headers it absorbs
      leave the chain. */
  ghost predicate CoalesceWrites(mem: seq<nat>, hdrs: seq<nat>, k: nat, mem': seq<nat>, hdrs': seq<nat>)
    requires Linked(mem, hdrs) && k < |hdrs| - 1
  {
    var bs := View(mem, hdrs);
    && mem' == mem[hdrs[MergeLo(bs, k)] := Create(MergedSize(bs, k), false)]
    && hdrs' == hdrs[..MergeLo(bs, k) + 1] + hdrs[MergeHi(bs, k)..]
  }

  /** block_coalesce's one header write, at the leftmost block of the
      merged run, keeps the heap invariant on a heap of whole pages. */
  lemma CoalesceResult(mem: seq<nat>, hdrs: seq<nat>, k: nat, target: nat, size: nat, mem': seq<nat>, hdrs': seq<nat>)
    requires Chain(mem, hdrs) && |mem| % PAGE_WORDS == 0 && k < |hdrs| - 1
    requires NoAdjacentFreeExcept(View(mem, hdrs), k)
    requires target == hdrs[MergeLo(View(mem, hdrs), k)] && size == MergedSize(View(mem, hdrs), k)
    requires mem' == mem[target := Create(size, false)]
    requires hdrs' == hdrs[..MergeLo(View(mem, hdrs), k) + 1] + hdrs[MergeHi(View(mem, hdrs), k)..]
    ensures HeapOK(mem', hdrs') && |mem'| == |mem|
    ensures View(mem', hdrs') == Coalesce(View(mem, hdrs), k)
    ensures CoalesceWrites(mem, hdrs, k, mem', hdrs')
  {
    MergeResult(mem, hdrs, k, mem', hdrs');
  }

  /** The header write of block_coalesce restores the heap invariant, and
      the new view is the block-level Coalesce. */
  lemma MergeResult(mem: seq<nat>, hdrs: seq<nat>, k: nat, mem': seq<nat>, hdrs': seq<nat>)
    requires Chain(mem, hdrs) && k < |hdrs| - 1
    requires NoAdjacentFreeExcept(View(mem, hdrs), k)
    requires CoalesceWrites(mem, hdrs, k, mem', hdrs')
    ensures Chain(mem', hdrs') && |mem'| == |mem|
    ensures NoAdjacentFree(View(mem', hdrs'))
    ensures View(mem', hdrs') == Coalesce(View(mem, hdrs), k)
  {
    var bs := View(mem, hdrs);
    MergeReads(mem, hdrs, k);
    MergeHeaders(mem, hdrs, MergeLo(bs, k), MergeHi(bs, k), MergedSize(bs, k), mem', hdrs');
    ViewSizes(mem, hdrs);
    CoalesceShape(bs, k);
  }

  /** valloc's first-fit test on the words is Fits on the view. */
  lemma FitsAt(mem: seq<nat>, hdrs: seq<nat>, i: nat, asz: nat)
    requires Linked(mem, hdrs) && i < |hdrs| - 1
    ensures Fits(View(mem, hdrs)[i], asz) <==> !IsAllocated(mem[hdrs[i]]) && asz < GetSize(mem[hdrs[i]])
  {
  }

  /** The split point of a fitting block lies strictly inside it. */
  lemma SplitPointInside(mem: seq<nat>, hdrs: seq<nat>, k: nat, asz: nat)
    requires Linked(mem, hdrs) && k < |hdrs| - 1
    requires asz < GetSize(mem[hdrs[k]]) && asz % DWORD_SIZE == 0
    ensures hdrs[k] + asz / WORD_SIZE < hdrs[k + 1]
  {
    assert hdrs[k + 1] == Next(mem, hdrs[k]);
  }

  /** valloc's two header writes into the first fit `k` restore the heap
      invariant; the new view is the block-level Split, and the header
      keeps its index, so the returned payload is that of block `k`. */
  lemma SplitResult(mem: seq<nat>, hdrs: seq<nat>, k: nat, asz: nat, mem': seq<nat>, hdrs': seq<nat>)
    requires HeapOK(mem, hdrs) && k < |hdrs| - 1
    requires !IsAllocated(mem[hdrs[k]]) && asz < GetSize(mem[hdrs[k]])
    requires asz > 0 && asz % DWORD_SIZE == 0
    requires hdrs[k] + asz / WORD_SIZE < hdrs[k + 1]
    requires mem' == mem[hdrs[k] := Create(asz, true)]
                        [hdrs[k] + asz / WORD_SIZE := Create(GetSize(mem[hdrs[k]]) - asz, false)]
    requires hdrs' == hdrs[..k + 1] + [hdrs[k] + asz / WORD_SIZE] + hdrs[k + 1..]
    ensures SplitWrites(mem, hdrs, k, asz, mem', hdrs')
    ensures HeapOK(mem', hdrs') && |mem'| == |mem|
    ensures View(mem', hdrs') == Split(View(mem, hdrs), k, asz)
    ensures (hdrs[k] + 1) * WORD_SIZE == PayloadOffset(View(mem', hdrs'), k)
  {
    assert hdrs[k + 1] == Next(mem, hdrs[k]);
    assert SplitWrites(mem, hdrs, k, asz, mem', hdrs');
    SplitKeepsHeap(mem, hdrs, k, asz, mem', hdrs');
    SplitPayload(mem, hdrs, k, asz, mem', hdrs');
  }

  lemma SplitKeepsHeap(mem: seq<nat>, hdrs: seq<nat>, k: nat, asz: nat, mem': seq<nat>, hdrs': seq<nat>)
    requires SplitWrites(mem, hdrs, k, asz, mem', hdrs') && HeapOK(mem, hdrs)
    ensures HeapOK(mem', hdrs') && |mem'| == |mem|
    ensures View(mem', hdrs') == Split(View(mem, hdrs), k, asz)
  {
    SplitHeaders(mem, hdrs, k, asz, mem', hdrs');
    ViewSizes(mem, hdrs);
    SplitShape(View(mem, hdrs), k, asz);
  }

  lemma SplitPayload(mem: seq<nat>, hdrs: seq<nat>, k: nat, asz: nat, mem': seq<nat>, hdrs': seq<nat>)
    requires SplitWrites(mem, hdrs, k, asz, mem', hdrs') && Linked(mem', hdrs')
    ensures k <= |View(mem', hdrs')|
    ensures (hdrs[k] + 1) * WORD_SIZE == PayloadOffset(View(mem', hdrs'), k)
  {
    SplitIndex(mem, hdrs, k, asz, mem', hdrs', k);
    HeaderOffset(mem', hdrs', k);
  }

  /** Every block allocated in `mem` keeps its words, header and payload,
      in `mem'`: what a caller stored in a live block survives. */
  ghost predicate PayloadsKept(mem: seq<nat>, hdrs: seq<nat>, mem': seq<nat>)
    requires Linked(mem, hdrs)
  {
    forall j :: 0 <= j < |hdrs| - 1 && IsAllocated(mem[hdrs[j]]) ==>
      && hdrs[j] < hdrs[j + 1] <= |mem'|
      && mem'[hdrs[j]..hdrs[j + 1]] == mem[hdrs[j]..hdrs[j + 1]]
  }

  lemma SliceAgree(mem: seq<nat>, mem': seq<nat>, lo: nat, hi: nat)
    requires lo <= hi <= |mem| && hi <= |mem'|
    requires forall w :: lo <= w < hi ==> mem'[w] == mem[w]
    ensures mem'[lo..hi] == mem[lo..hi]
  {
  }

  /** valloc's split writes only inside the free block `k`, so every
      allocated block keeps its words. */
  lemma SplitKeepsPayloads(mem: seq<nat>, hdrs: seq<nat>, k: nat, asz: nat, mem': seq<nat>, hdrs': seq<nat>)
    requires SplitWrites(mem, hdrs, k, asz, mem', hdrs')
    ensures PayloadsKept(mem, hdrs, mem')
  {
    forall j | 0 <= j < |hdrs| - 1 && IsAllocated(mem[hdrs[j]])
      ensures hdrs[j] < hdrs[j + 1] <= |mem'|
      ensures mem'[hdrs[j]..hdrs[j + 1]] == mem[hdrs[j]..hdrs[j + 1]]
    {
      HeadersIncrease(mem, hdrs, j, j + 1);
      OutsideBlock(mem, hdrs, k, j);
      OutsideBlock(mem, hdrs, j, k);
      SliceAgree(mem, mem', hdrs[j], hdrs[j + 1]);
    }
  }

  /** heap_extend's writes below the old sentinel touch at most the header
      of block `k`, which is free or the sentinel itself, so every
      allocated block keeps its words. */
  lemma ExtendKeepsPayloads(mem: seq<nat>, hdrs: seq<nat>, k: nat, mem': seq<nat>)
    requires Chain(mem, hdrs) && k < |hdrs| && |mem| <= |mem'|
    requires k < |hdrs| - 1 ==> !IsAllocated(mem[hdrs[k]])
    requires forall w :: 0 <= w < |mem| - 1 && w != hdrs[k] ==> mem'[w] == mem[w]
    ensures PayloadsKept(mem, hdrs, mem')
  {
    Sorted(mem, hdrs);
    forall j | 0 <= j < |hdrs| - 1 && IsAllocated(mem[hdrs[j]])
      ensures hdrs[j] < hdrs[j + 1] <= |mem'|
      ensures mem'[hdrs[j]..hdrs[j + 1]] == mem[hdrs[j]..hdrs[j + 1]]
    {
      OutsideBlock(mem, hdrs, j, k);
      SliceAgree(mem, mem', hdrs[j], hdrs[j + 1]);
    }
  }

  /** The state after heap_extend: the memory has grown, below the old
      sentinel only the header of a free tail can differ, and the header
      list is the old one, less the old sentinel's index when a free tail
      absorbs the new page, with the new sentinel appended. */
  ghost predicate ExtendFrame(mem: seq<nat>, hdrs: seq<nat>, mem': seq<nat>, hdrs': seq<nat>)
    requires Linked(mem, hdrs)
  {
    && |mem| <= |mem'|
    && hdrs' == (if FreeTail(View(mem, hdrs)) then hdrs[..|hdrs| - 1] else hdrs) + [|mem'| - 1]
    && forall w :: 0 <= w < |mem| - 1 ==>
         mem'[w] == mem[w] || (FreeTail(View(mem, hdrs)) && w == hdrs[|hdrs| - 2])
  }

  /** What heap_extend's final block_coalesce leaves: below the old
      sentinel only the header of a free tail can change, the header list
      is the old one, less the old sentinel's index when a free tail absorbs
      the new page, with the new sentinel appended, and every allocated
      block keeps its words. */
  lemma ExtendWrites(m0: seq<nat>, h0: seq<nat>, m2: seq<nat>, h2: seq<nat>, m3: seq<nat>, h3: seq<nat>)
    requires HeapOK(m0, h0) && Chain(m2, h2) && |m0| <= |m2|
    requires h2 == h0 + [|m2| - 1] && View(m2, h2) == View(m0, h0) + [Block(PAGE_SIZE, false)]
    requires forall w :: 0 <= w < |m0| - 1 ==> m2[w] == m0[w]
    requires CoalesceWrites(m2, h2, |h0| - 1, m3, h3)
    ensures ExtendFrame(m0, h0, m3, h3)
    ensures PayloadsKept(m0, h0, m3)
  {
    var bs, ext, k := View(m0, h0), View(m2, h2), |h0| - 1;
    var lo := if FreeTail(bs) then k - 1 else k;
    MergeAtTail(bs, ext);
    assert h2[lo] == h0[lo];
    DropAndAppend(h0, |m2| - 1, lo);
    ExtendFrameOf(m0, h0, m2, m3, h3, lo, Create(MergedSize(ext, k), false));
    if lo < k {
      ViewAt(m0, h0, lo);
    }
    ExtendKeepsPayloads(m0, h0, lo, m3);
  }

  /** The merge heap_extend asks for: the new page's block is last, so
      it merges with the block before it exactly when that is free. */
  lemma MergeAtTail(bs: seq<Block>, ext: seq<Block>)
    requires ext == bs + [Block(PAGE_SIZE, false)]
    ensures MergeLo(ext, |bs|) == (if FreeTail(bs) then |bs| - 1 else |bs|)
    ensures MergeHi(ext, |bs|) == |bs| + 1
  {
    if |bs| > 0 {
      assert ext[|bs| - 1] == bs[|bs| - 1];
    }
  }

  /** The header list of heap_extend: the old list up to the merged
      header, then the new sentinel. */
  lemma DropAndAppend(h0: seq<nat>, x: nat, lo: nat)
    requires lo + 1 == |h0| || lo + 2 == |h0|
    ensures (h0 + [x])[..lo + 1] + (h0 + [x])[|h0|..] == h0[..lo + 1] + [x]
  {
    var h := h0 + [x];
    assert h[|h0|..] == [x];
    assert h[..lo + 1] == h0[..lo + 1];
  }

  /** One header write at `h0[lo]` over a memory that kept every word
      below the old sentinel: the frame of heap_extend. */
  lemma ExtendFrameOf(m0: seq<nat>, h0: seq<nat>, m2: seq<nat>, m3: seq<nat>, h3: seq<nat>, lo: nat, v: nat)
    requires Linked(m0, h0) && h0[|h0| - 1] == |m0| - 1
    requires lo == if FreeTail(View(m0, h0)) then |h0| - 2 else |h0| - 1
    requires |m0| <= |m2| && forall w :: 0 <= w < |m0| - 1 ==> m2[w] == m0[w]
    requires h0[lo] < |m2| && m3 == m2[h0[lo] := v]
    requires h3 == h0[..lo + 1] + [|m2| - 1]
    ensures ExtendFrame(m0, h0, m3, h3)
    ensures forall w :: 0 <= w < |m0| - 1 && w != h0[lo] ==> m3[w] == m0[w]
  {
    assert h0[..|h0|] == h0;
  }

  /** The allocated blocks survive a round of heap_extend followed by
      whatever keeps the allocated blocks of the extended heap: extending
      keeps the header indices of all blocks but a free tail. */
  lemma ExtendThenKeep(m0: seq<nat>, h0: seq<nat>, m1: seq<nat>, h1: seq<nat>, m2: seq<nat>)
    requires Linked(m0, h0) && Linked(m1, h1) && ExtendFrame(m0, h0, m1, h1)
    requires PayloadsKept(m0, h0, m1) && PayloadsKept(m1, h1, m2)
    ensures PayloadsKept(m0, h0, m2)
  {
    forall j | 0 <= j < |h0| - 1 && IsAllocated(m0[h0[j]])
      ensures h0[j] < h0[j + 1] <= |m2|
      ensures m2[h0[j]..h0[j + 1]] == m0[h0[j]..h0[j + 1]]
    {
      ViewAt(m0, h0, j);
      assert h1[j] == h0[j] && h1[j + 1] == h0[j + 1];
      assert m1[h0[j]..h0[j + 1]][0] == m1[h1[j]];
    }
  }

  /** The return of valloc from its scan: the words after the two header
      writes into the first fit `k` hold the block-level outcome Allocated
      of the blocks before, with no growth, and the payload returned is
      that of block `k`; every allocated block keeps its words. */
  lemma PlacedAt(mem: seq<nat>, hdrs: seq<nat>, k: nat, asz: nat, mem': seq<nat>, hdrs': seq<nat>)
    requires HeapOK(mem, hdrs) && k < |hdrs| - 1
    requires !IsAllocated(mem[hdrs[k]]) && asz < GetSize(mem[hdrs[k]])
    requires FirstFit(View(mem, hdrs), asz) == Some(k)
    requires asz > 0 && asz % DWORD_SIZE == 0
    requires hdrs[k] + asz / WORD_SIZE < hdrs[k + 1]
    requires mem' == mem[hdrs[k] := Create(asz, true)]
                        [hdrs[k] + asz / WORD_SIZE := Create(GetSize(mem[hdrs[k]]) - asz, false)]
    requires hdrs' == hdrs[..k + 1] + [hdrs[k] + asz / WORD_SIZE] + hdrs[k + 1..]
    ensures HeapOK(mem', hdrs') && |mem'| == |mem|
    ensures Growths(View(mem, hdrs), asz) == 0 && Placement(View(mem, hdrs), asz) == k
    ensures View(mem', hdrs') == Allocated(View(mem, hdrs), asz)
    ensures k < |View(mem', hdrs')| && View(mem', hdrs')[k] == Block(asz, true)
    ensures (hdrs[k] + 1) * WORD_SIZE == PayloadOffset(View(mem', hdrs'), k)
    ensures SplitWrites(mem, hdrs, k, asz, mem', hdrs')
    ensures PayloadsKept(mem, hdrs, mem')
  {
    var bs := View(mem, hdrs);
    ViewAt(mem, hdrs, k);
    ViewSizes(mem, hdrs);
    SplitResult(mem, hdrs, k, asz, mem', hdrs');
    AllocatedShape(bs, asz);
    SplitKeepsPayloads(mem, hdrs, k, asz, mem', hdrs');
  }

  /** heap_extend's two header writes after sbrk: the old sentinel becomes
      a free block of one page and a new sentinel goes in the new last
      word. */
  lemma GrowHeaders(mem: seq<nat>, hdrs: seq<nat>, grown: seq<nat>, mem': seq<nat>, hdrs': seq<nat>)
    requires Chain(mem, hdrs)
    requires |grown| == |mem| + PAGE_WORDS && grown[..|mem|] == mem
    requires mem' == grown[|mem| - 1 := Create(PAGE_SIZE, false)][|mem| - 1 + PAGE_WORDS := Create(0, true)]
    requires hdrs' == hdrs + [|mem| - 1 + PAGE_WORDS]
    ensures Chain(mem', hdrs')
    ensures View(mem', hdrs') == View(mem, hdrs) + [Block(PAGE_SIZE, false)]
    ensures forall w :: 0 <= w < |mem| - 1 ==> mem'[w] == mem[w]
  {
    assert forall w :: 0 <= w < |mem| - 1 ==> mem'[w] == grown[..|mem|][w];
    LinkedPrefix(mem, grown, hdrs);
    Sorted(mem, hdrs);
    var last := |mem| - 1;
    forall j | 0 <= j < |hdrs| - 1
      ensures mem'[hdrs[j]] == grown[hdrs[j]]
    {
      assert hdrs[j] < last;
    }
    CreateRoundTrip(PAGE_SIZE, false);
    assert Next(mem', last) == last + PAGE_WORDS;
    forall i | 0 <= i < |hdrs'| - 1
      ensures Clean(mem'[hdrs'[i]]) && GetSize(mem'[hdrs'[i]]) > 0 && hdrs'[i + 1] == Next(mem', hdrs'[i])
    {
      if i < |hdrs| - 1 {
        assert hdrs'[i] == hdrs[i] && hdrs'[i + 1] == hdrs[i + 1];
      }
    }
    assert Linked(mem', hdrs');
    var bs, bs' := View(mem, hdrs), View(mem', hdrs');
    var want := bs + [Block(PAGE_SIZE, false)];
    forall i | 0 <= i < |bs'|
      ensures bs'[i] == want[i]
    {
      if i < |bs| {
        ViewAt(mem, hdrs, i);
        ViewAt(grown, hdrs, i);
      }
    }
  }

  /** block_get_prev: a forward scan from `start` that returns the header
      whose successor is `block`, or none when `block` is `start` itself.
      The scan terminates because `block` lies on the chain at or after
      `start`. */
  method GetPrev(mem: seq<nat>, ghost hdrs: seq<nat>, start: nat, block: nat, ghost i0: nat, ghost k: nat)
    returns (prev: Option<nat>)
    requires Linked(mem, hdrs) && i0 <= k < |hdrs|
    requires start == hdrs[i0] && block == hdrs[k]
    ensures prev.None? <==> block == start
    ensures prev.None? <==> k == i0
    ensures prev.Some? ==> k > 0 && prev.value == hdrs[k - 1] && Next(mem, prev.value) == block
  {
    Sorted(mem, hdrs);
    prev := None;
    var curr := start;
    ghost var j := i0;
    while curr != block
      invariant i0 <= j <= k && curr == hdrs[j]
      invariant prev == if j == i0 then None else Some(hdrs[j - 1])
      decreases k - j
    {
      prev := Some(curr);
      curr := Next(mem, curr);
      j := j + 1;
    }
  }
}
