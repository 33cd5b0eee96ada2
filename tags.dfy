/**
 * Boundary tags and the arena header.
 *
 * A block starting at word `b` with payload size `size` carries one tag in
 * word `b - 1` and one in word `b + size`; the tag is `+size` for a free
 * block and `-size` for a used one. The header is itself tagged as a block
 * of 65 words starting at word 1, which is how an initialised arena is
 * recognised.
 */
module Tags {
  import opened Layout

  datatype Kind = Free | Used

  /** One record of an inspection: kind, byte offset and byte size. */
  datatype ListNode = ListNode(kind: Kind, offset: int, size: int)

  /** The payload size, in words, recorded in the leading tag of block `b`. */
  function ReadSize(s: seq<int>, b: int): (r: int)
    requires 1 <= b <= |s|
    ensures r >= 0
    ensures r == s[b - 1] || r == -s[b - 1]
  {
    if s[b - 1] < 0 then -s[b - 1] else s[b - 1]
  }

  /**
   * Whether block `b` is free: never for a position inside the header,
   * otherwise exactly when its leading tag is not negative.
   */
  function IsFree(s: seq<int>, b: int): (r: bool)
    requires b < |s|
    ensures r ==> HeaderSizeInQuads <= b && s[b - 1] >= 0
    ensures !r ==> b < HeaderSizeInQuads || s[b - 1] < 0
  {
    if b < HeaderSizeInQuads then false else s[b - 1] >= 0
  }

  /** The record `inspect` produces for a free block (and for the header). */
  function ReadListNode(s: seq<int>, b: int): (r: ListNode)
    requires 1 <= b <= |s|
    ensures r.kind == Free && r.offset == QuadsToBytes(b) && BytesToQuads(r.offset) == b
    ensures r.size == QuadsToBytes(s[b - 1])
  {
    ListNode(Free, QuadsToBytes(b), QuadsToBytes(s[b - 1]))
  }

  /**
   * The header's two tags both hold the header size: the header reads as a
   * 65-word block at word 1 from either of its ends.
   */
  predicate VerifyHeader(s: seq<int>): (r: bool)
    ensures r ==>
      && |s| > HeaderOffsetInQuads + HeaderSizeInQuads
      && ReadSize(s, HeaderOffsetInQuads) == HeaderSizeInQuads
      && ReadSize(s, HeaderOffsetInQuads + HeaderSizeInQuads + 1) == HeaderSizeInQuads
  {
    && |s| > HeaderOffsetInQuads + HeaderSizeInQuads
    && s[HeaderOffsetInQuads - 1] == HeaderSizeInQuads
    && s[HeaderOffsetInQuads + HeaderSizeInQuads] == HeaderSizeInQuads
  }

  /** Writes `size` into both tags of block `block`. */
  method WriteFreeBlockSize(a: array<int>, size: int, block: int)
    requires 1 <= block <= a.Length && size != 0
    requires 0 <= block + size < a.Length
    modifies a
    ensures a[block - 1] == size && a[block + size] == size
    ensures a[..] == old(a[..])[block - 1 := size][block + size := size]
  {
    a[block - 1] := size;
    a[block + size] := size;
  }

  /**
   * The arena after the first two steps of writing the initial header: the
   * header's tags and the free pointer on the first block. This is what is
   * left when the third step, the free block's tags, is refused.
   */
  function HeaderWritten(s: seq<int>): (r: seq<int>)
    requires |s| > HeaderOffsetInQuads + HeaderSizeInQuads
    ensures |r| == |s| && VerifyHeader(r)
    ensures r[TrailerPointerOffsetInQuads] == FirstBlockOffsetInQuads
    ensures forall i :: 0 <= i < |s| && i !in {0, 2, 66} ==> r[i] == s[i]
  {
    s[HeaderOffsetInQuads - 1 := HeaderSizeInQuads]
     [HeaderOffsetInQuads + HeaderSizeInQuads := HeaderSizeInQuads]
     [TrailerPointerOffsetInQuads := FirstBlockOffsetInQuads]
  }

  /**
   * The arena after the initial header is written: header tags, the free
   * pointer on the first block, and one free block over the rest.
   */
  function InitialImage(s: seq<int>): (r: seq<int>)
    requires |s| >= FirstBlockOffsetInQuads + 2
  {
    var blockSize := |s| - (HeaderOffsetInQuads + HeaderSizeInQuads + PointerOverheadInQuads + PointerSizeInQuads);
    s[HeaderOffsetInQuads - 1 := HeaderSizeInQuads]
     [HeaderOffsetInQuads + HeaderSizeInQuads := HeaderSizeInQuads]
     [TrailerPointerOffsetInQuads := FirstBlockOffsetInQuads]
     [FirstBlockOffsetInQuads - 1 := blockSize]
     [FirstBlockOffsetInQuads + blockSize := blockSize]
  }

  method WriteInitialHeader(a: array<int>)
    requires a.Length >= FirstBlockOffsetInQuads + 2
    modifies a
    ensures a[..] == InitialImage(old(a[..]))
  {
    var header := HeaderOffsetInQuads;
    var headerSize := HeaderSizeInQuads;
    var block := FirstBlockOffsetInQuads;
    var blockSize := a.Length - (header + headerSize + PointerOverheadInQuads + PointerSizeInQuads);
    WriteFreeBlockSize(a, headerSize, header);
    a[TrailerPointerOffsetInQuads] := block;
    WriteFreeBlockSize(a, blockSize, block);
  }

  /** The arena after `prepare`: kept when its header verifies, else initialised. */
  function Prepared(s: seq<int>): (r: seq<int>)
    requires VerifyHeader(s) || |s| >= FirstBlockOffsetInQuads + 2
  {
    if VerifyHeader(s) then s else InitialImage(s)
  }

  method Prepare(a: array<int>)
    requires VerifyHeader(a[..]) || a.Length >= FirstBlockOffsetInQuads + 2
    modifies a
    ensures a[..] == Prepared(old(a[..]))
  {
    if !VerifyHeader(a[..]) {
      WriteInitialHeader(a);
    }
  }

  /**
   * Writing the initial header makes the header verify, points the free
   * pointer at word 68 and records a free block of `length - 69` words
   * whose trailing tag is the last word.
   */
  lemma InitialImageVerifies(s: seq<int>)
    requires |s| >= FirstBlockOffsetInQuads + 2
    ensures var r := InitialImage(s);
      && |r| == |s|
      && VerifyHeader(r)
      && r[TrailerPointerOffsetInQuads] == FirstBlockOffsetInQuads
      && r[FirstBlockOffsetInQuads - 1] == |s| - 69 == r[|s| - 1]
      && forall i :: 0 <= i < |s| && i !in {0, 2, 66, 67, |s| - 1} ==> r[i] == s[i]
  {
  }

  /** Preparing an arena makes its header verify, and preparing twice is preparing once. */
  lemma PrepareIdempotent(s: seq<int>)
    requires VerifyHeader(s) || |s| >= FirstBlockOffsetInQuads + 2
    ensures VerifyHeader(Prepared(s))
    ensures Prepared(Prepared(s)) == Prepared(s)
    ensures VerifyHeader(s) ==> Prepared(s) == s
  {
    if !VerifyHeader(s) {
      InitialImageVerifies(s);
    }
  }
}
