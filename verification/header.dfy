/** The one-word block header of the allocator (src/alloc.c): a byte size
    that is a multiple of 16, with the allocated flag in bit 0 of the same
    word, and the rounding rule that turns a request into a block size.
    The bit operations of the source are written arithmetically on
    unbounded naturals: `(w >> 4) << 4` is `w / 16 * 16`, `w & 1` is
    `w % 2`, and `s | a` with `a` in {0, 1} sets bit 0 of `s` when `a` is 1. */
module Header {
  /** A word is 64 bits, eight bytes; all sizes are in bytes. */
  const WORD_SIZE: nat := 8
  /** Payload alignment granularity and size granularity, 2 * WORD_SIZE
      (written as a literal so that products with it stay linear). */
  const DWORD_SIZE: nat := 16
  /** The unit by which the heap grows. */
  const PAGE_SIZE: nat := 4096
  /** The smallest request the allocator serves (0 is bumped to this). */
  const MIN_ALLOC: nat := 1
  /** Words in one page, PAGE_SIZE / WORD_SIZE. */
  const PAGE_WORDS: nat := 512

  /** ALIGNED(a): `a` itself when its low four bits are clear, otherwise
      the next multiple of 16 above it. It is the least multiple of 16 that
      is at least `a` (see AlignedIsLeast). */
  function Aligned(a: nat): (r: nat)
    ensures r % DWORD_SIZE == 0
    ensures a <= r < a + DWORD_SIZE
  {
    if a != a / 16 * 16 then (a / 16 + 1) * 16 else a
  }

  lemma AlignedIsLeast(a: nat, m: nat)
    requires m % DWORD_SIZE == 0 && a <= m
    ensures Aligned(a) <= m
  {
  }

  /** valloc's block size for a request of `size` bytes: the request is
      raised to MIN_ALLOC, one header word is added and the sum is rounded
      up with ALIGNED. The block always has room for the request after its
      header. */
  function RequestSize(size: nat): (asz: nat)
    ensures asz % DWORD_SIZE == 0
    ensures asz >= size + WORD_SIZE && asz >= MIN_ALLOC + WORD_SIZE
    ensures asz < (if size < MIN_ALLOC then MIN_ALLOC else size) + WORD_SIZE + DWORD_SIZE
  {
    Aligned((if size < MIN_ALLOC then MIN_ALLOC else size) + WORD_SIZE)
  }

  /** A request of 0 bytes is served exactly like a request of 1 byte, by a
      16-byte block. */
  lemma ZeroRequest()
    ensures RequestSize(0) == RequestSize(MIN_ALLOC) == DWORD_SIZE
  {
  }

  /** block_get_size: the header with its four low bits cleared. */
  function GetSize(w: nat): (r: nat)
    ensures r % DWORD_SIZE == 0
    ensures r <= w < r + DWORD_SIZE
  {
    w / 16 * 16
  }

  /** block_is_allocated: bit 0 of the header. */
  function IsAllocated(w: nat): bool
  {
    w % 2 == 1
  }

  /** block_create: `size | is_allocated`. Every call site passes 0 or 1 as
      the flag, which is a bool here. */
  function Create(size: nat, isAllocated: bool): (w: nat)
    ensures size <= w <= size + 1
    ensures IsAllocated(w) == (isAllocated || size % 2 == 1)
  {
    if isAllocated && size % 2 == 0 then size + 1 else size
  }

  /** block_is_last: the terminal sentinel has size 0 and the flag set. */
  predicate IsLast(w: nat)
  {
    GetSize(w) == 0 && IsAllocated(w)
  }

  /** A header whose bits 1 to 3 are clear, as every header the allocator
      writes is. */
  predicate Clean(w: nat)
  {
    w % DWORD_SIZE < 2
  }

  /** Encoding then decoding gives back the size and the flag. */
  lemma CreateRoundTrip(size: nat, isAllocated: bool)
    requires size % DWORD_SIZE == 0
    ensures GetSize(Create(size, isAllocated)) == size
    ensures IsAllocated(Create(size, isAllocated)) == isAllocated
    ensures Clean(Create(size, isAllocated))
  {
  }

  /** A header word is its size plus its four low bits, of which bit 0 is
      the allocated flag. */
  lemma HeaderBits(w: nat)
    ensures w == GetSize(w) + w % DWORD_SIZE
    ensures GetSize(w) % 2 == 0
    ensures IsAllocated(w) <==> (w % DWORD_SIZE) % 2 == 1
  {
    var q, r := w / 16, w % 16;
    var h, b := r / 2, r % 2;
    assert r == 2 * h + b;
    assert GetSize(w) == 2 * (8 * q);
    assert w == 2 * (8 * q + h) + b;
    assert w % 2 == b;
  }

  /** The words of a 16-byte multiple `b` split at a smaller 16-byte
      multiple `a` are the words of `a` and of the rest. */
  lemma WordsSplit(a: nat, b: nat)
    requires a % DWORD_SIZE == 0 && b % DWORD_SIZE == 0 && a <= b
    ensures (b - a) % DWORD_SIZE == 0
    ensures a / WORD_SIZE + (b - a) / WORD_SIZE == b / WORD_SIZE
  {
    var p, q := a / 16, b / 16;
    assert a == 16 * p && b == 16 * q;
    assert b - a == 16 * (q - p);
    assert a / 8 == 2 * p && b / 8 == 2 * q && (b - a) / 8 == 2 * (q - p);
  }

  /** A 16-byte multiple is an even number of words, and an even number
      of words is a 16-byte multiple. */
  lemma EvenWords(a: nat)
    requires a % DWORD_SIZE == 0
    ensures (a / WORD_SIZE) % 2 == 0
  {
    var p := a / 16;
    assert a == 16 * p && a / 8 == 2 * p;
  }

  lemma WordsEven(d: nat)
    requires d % 2 == 0
    ensures (d * WORD_SIZE) % DWORD_SIZE == 0 && (d * WORD_SIZE) / WORD_SIZE == d
  {
    var m := d / 2;
    assert d == 2 * m && d * 8 == 16 * m;
  }

  /** Decoding then encoding gives back a clean header word. */
  lemma DecodeRoundTrip(w: nat)
    requires Clean(w)
    ensures Create(GetSize(w), IsAllocated(w)) == w
  {
    HeaderBits(w);
  }

  /** Among encoded headers, block_is_last holds exactly for
      block_create(0, 1). */
  lemma IsLastExactly(size: nat, isAllocated: bool)
    requires size % DWORD_SIZE == 0
    ensures IsLast(Create(size, isAllocated)) <==> size == 0 && isAllocated
  {
    CreateRoundTrip(size, isAllocated);
  }
}
