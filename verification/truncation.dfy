/** valloc stores its aligned block size in a C `int` (src/alloc.c:123)
    although the request is a 64-bit `size_t`. The conversion keeps the low
    32 bits as a two's-complement number, and in `aligned_size < block_size`
    and in block_create the int is converted back to a 64-bit word, which
    sign-extends it. This module models that path as written, shows two
    requests on which it departs from the intended block size RequestSize,
    and states exactly which requests it gets right. The rest of the model
    uses RequestSize. */
module Truncation {
  import opened Header
  import opened Blocks

  /** 2^64, the range of `size_t` and of a header word. */
  const WORD_MODULUS: nat := 0x1_0000_0000_0000_0000
  /** 2^32, the range of a 32-bit `int`. */
  const INT_MODULUS: nat := 0x1_0000_0000
  /** 2^31, one past the largest `int`. */
  const INT_LIMIT: nat := 0x8000_0000

  /** Conversion of a `size_t` value to `int`: its low 32 bits read as a
      two's-complement number. */
  function ToInt(a: nat): (i: int)
    ensures -(INT_LIMIT as int) <= i < INT_LIMIT
  {
    var t := a % INT_MODULUS;
    if t < INT_LIMIT then t else t - INT_MODULUS
  }

  /** Conversion of an `int` to a 64-bit word: a negative value wraps
      modulo 2^64. */
  function ToWord(i: int): (w: nat)
    requires -(WORD_MODULUS as int) <= i < WORD_MODULUS
  {
    if i >= 0 then i else i + WORD_MODULUS
  }

  /** A 64-bit value survives the trip through `int` and back exactly when
      it is below 2^31 or within 2^31 of 2^64, where sign extension undoes
      the truncation. */
  lemma IntRoundTrip(a: nat)
    requires a < WORD_MODULUS
    ensures ToWord(ToInt(a)) == a <==> a < INT_LIMIT || a >= WORD_MODULUS - INT_LIMIT
  {
    var q, t := a / INT_MODULUS, a % INT_MODULUS;
    assert a == q * INT_MODULUS + t;
    if a < INT_LIMIT {
      assert q == 0;
    } else if a >= WORD_MODULUS - INT_LIMIT {
      assert q == INT_MODULUS - 1;
    }
  }

  /** The block size valloc compares and writes, as written: the aligned
      size of the bumped request goes through `int` and back to a word. It
      equals the intended RequestSize exactly when that is below 2^31 or
      within 2^31 of 2^64. */
  function AlignedSizeAsWritten(size: nat): (r: nat)
    requires size + WORD_SIZE + DWORD_SIZE < WORD_MODULUS
    ensures r < WORD_MODULUS
    ensures r == RequestSize(size) <==>
      RequestSize(size) < INT_LIMIT || RequestSize(size) >= WORD_MODULUS - INT_LIMIT
  {
    IntRoundTrip(RequestSize(size));
    ToWord(ToInt(RequestSize(size)))
  }

  /** A request of 4 GiB is served by a 16-byte block: the truncation drops
      bit 32 of the intended 4 GiB + 16. */
  lemma FourGiBGetsSixteenBytes()
    ensures RequestSize(0x1_0000_0000) == 0x1_0000_0010
    ensures AlignedSizeAsWritten(0x1_0000_0000) == DWORD_SIZE
  {
    assert RequestSize(0x1_0000_0000) == Aligned(0x1_0000_0008);
    assert ToInt(0x1_0000_0010) == 16;
  }

  /** A request of 2 GiB never fits: the truncated size is negative, and
      sign-extended it exceeds every block the heap can hold, so valloc
      keeps extending the heap. */
  lemma TwoGiBNeverFits(b: Block)
    requires b.size < WORD_MODULUS - INT_LIMIT
    ensures RequestSize(INT_LIMIT) == INT_LIMIT + DWORD_SIZE
    ensures !Fits(b, AlignedSizeAsWritten(INT_LIMIT))
  {
    assert RequestSize(INT_LIMIT) == Aligned(INT_LIMIT + WORD_SIZE);
    assert ToInt(INT_LIMIT + DWORD_SIZE) == -(INT_LIMIT as int) + DWORD_SIZE;
  }
}
