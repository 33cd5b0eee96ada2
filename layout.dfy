/**
 * Word layout constants of the append-only allocator and the byte/word
 * arithmetic it uses to normalise requests.
 *
 * The arena is a sequence of 32-bit words. Word 0 and word 66 are the
 * header's boundary tags (both 65), word 2 is the free pointer, and the
 * first data block starts at word 68 (its leading tag is word 67).
 */
module Layout {

  const HeaderSizeInQuads: int := 1 + 64
  const HeaderOffsetInQuads: int := 1
  const TrailerPointerOffsetInQuads: int := HeaderOffsetInQuads + 1

  const PointerSizeInQuads: int := 1
  const PointerOverheadInQuads: int := 2

  const MinFreeableSizeInQuads: int := 3
  const FirstBlockOffsetInQuads: int := HeaderOffsetInQuads + HeaderSizeInQuads + PointerOverheadInQuads

  const MinFreeableSizeInBytes: int := 16
  const FirstBlockOffsetInBytes: int := FirstBlockOffsetInQuads * 4
  const OverheadInBytes: int := (FirstBlockOffsetInQuads + 1) * 4

  const AlignmentInBytes: int := 8

  /** Largest request whose `+ 7` still fits in a signed 32-bit integer. */
  const MaxRequest: int := 0x7FFF_FFFF - 7
  const MinRequest: int := -0x8000_0000

  /** The failures the allocator raises as exceptions. */
  datatype Error =
    | ConstructionRange   // region too small to hold an initial free block
    | AllocationRange     // normalised request larger than the region
    | AddressRange        // misaligned or out-of-range address
    | Corrupt             // the block chain failed its integrity walk

  datatype Result<+T> = Ok(value: T) | Err(error: Error)

  /** A word count as a byte count (`num << 2`). */
  function QuadsToBytes(q: int): (r: int)
    ensures BytesToQuads(r) == q
  {
    q * 4
  }

  /** A byte count as a word count, rounding down (`num >> 2`). */
  function BytesToQuads(b: int): (r: int)
    ensures 4 * r <= b < 4 * r + 4
  {
    b / 4
  }

  /**
   * `(value + 7) & ~7` on a 32-bit value without overflow: the value rounded
   * down to a multiple of 8 after adding 7, that is, rounded up to 8.
   */
  function Align(n: int): (r: int)
    requires MinRequest <= n <= MaxRequest
    ensures r % AlignmentInBytes == 0
    ensures n <= r < n + AlignmentInBytes
    ensures r <= MaxRequest
  {
    ((n + 7) / 8) * 8
  }

  /** The size `alloc` actually carves for a request of `n` bytes. */
  function Normalize(n: int): (r: int)
    requires MinRequest <= n <= MaxRequest
  {
    var aligned := Align(n);
    if aligned < MinFreeableSizeInBytes then MinFreeableSizeInBytes else aligned
  }

  /** The request size `calloc` computes before delegating to `alloc`. */
  function CallocSize(n: int): (r: int)
    requires MinRequest <= n <= MaxRequest
  {
    if n < MinFreeableSizeInBytes then MinFreeableSizeInBytes else Align(n)
  }

  /**
   * `alloc` turns every request into the least multiple of 8 that is at
   * least the request and at least 16 bytes, i.e. an even word count of
   * at least 4.
   */
  lemma NormalizeIsLeastAlignedBound(n: int)
    requires MinRequest <= n <= MaxRequest
    ensures Normalize(n) % AlignmentInBytes == 0
    ensures Normalize(n) >= n && Normalize(n) >= MinFreeableSizeInBytes
    ensures Normalize(n) - AlignmentInBytes < n || Normalize(n) == MinFreeableSizeInBytes
    ensures (Normalize(n) / 4) % 2 == 0 && Normalize(n) / 4 >= 4
    ensures QuadsToBytes(Normalize(n) / 4) == Normalize(n)
    ensures Normalize(n) <= MaxRequest
  {
    var k := (n + 7) / 8;
    assert Align(n) == 8 * k;
    if Align(n) >= MinFreeableSizeInBytes {
      assert Normalize(n) / 4 == 2 * k;
    }
  }

  /**
   * `calloc` normalises with its own code; it asks `alloc` for the same
   * size `alloc` would have chosen, and `alloc` keeps that size unchanged.
   */
  lemma CallocSizeAgrees(n: int)
    requires MinRequest <= n <= MaxRequest
    ensures CallocSize(n) == Normalize(n)
    ensures Normalize(CallocSize(n)) == CallocSize(n)
  {
    if n < MinFreeableSizeInBytes {
      assert Align(n) <= MinFreeableSizeInBytes;
    }
  }
}
