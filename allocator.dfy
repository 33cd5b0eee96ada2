/**
 * The allocation engine: carving used blocks from the front of the single
 * free block, zero-filling for `calloc`, and the validated no-op `free`.
 *
 * `Carve` states what a successful `alloc` does to the arena; the lemmas
 * below it prove that the result is still well formed, what size the
 * caller is granted, and that earlier blocks are left alone.
 */
module Allocation {
  import opened Layout
  import opened Tags
  import opened Integrity

  /**
   * `alloc` goes ahead only when there is a free block and it leaves room
   * for `m` payload words and a trailing tag before the last word.
   */
  predicate Fits(s: seq<int>, m: int)
    requires |s| > TrailerPointerOffsetInQuads
  {
    var block := s[TrailerPointerOffsetInQuads];
    block != HeaderOffsetInQuads && block + m + PointerOverheadInQuads < |s|
  }

  /**
   * The arena after `alloc` carves `m` words from the free block: either a
   * used block of `m` words followed by a new free block, or, when what
   * would remain is under 3 words, the whole free block marked used and the
   * free pointer set to the sentinel.
   */
  function Carve(s: seq<int>, m: int): (r: seq<int>)
    requires Wf(s) && 0 <= m && Fits(s, m)
    ensures |r| == |s|
  {
    var block := s[TrailerPointerOffsetInQuads];
    var blockSize := |s| - (block + PointerSizeInQuads);
    var remaining := blockSize - (m + PointerSizeInQuads);
    if remaining >= MinFreeableSizeInQuads then
      var second := block + m + PointerOverheadInQuads;
      var secondSize := |s| - (second + PointerSizeInQuads);
      s[block - 1 := -m]
       [block + m := -m]
       [second - 1 := secondSize]
       [second + secondSize := secondSize]
       [TrailerPointerOffsetInQuads := second]
    else
      s[block - 1 := -blockSize]
       [block + blockSize := -blockSize]
       [TrailerPointerOffsetInQuads := HeaderOffsetInQuads]
  }

  /** `s` with `count` words from `from` on set to zero. */
  function ZeroFill(s: seq<int>, from: int, count: int): (r: seq<int>)
    ensures |r| == |s|
    ensures forall i :: 0 <= i < |s| ==> r[i] == if from <= i < from + count then 0 else s[i]
  {
    seq(|s|, i requires 0 <= i < |s| => if from <= i < from + count then 0 else s[i])
  }

  /**
   * Writing a used block of `size` words at the free pointer of a
   * well-formed arena, followed either by a new free block at `next` or by
   * nothing (the sentinel), and changing no other word before the new
   * block, gives a well-formed arena.
   */
  lemma PlaceUsedBlock(s: seq<int>, t: seq<int>, size: int)
    requires Wf(s) && s[TrailerPointerOffsetInQuads] != HeaderOffsetInQuads
    requires |t| == |s|
    requires var b := s[TrailerPointerOffsetInQuads];
      && size >= PointerOverheadInQuads && b + size < |s|
      && t[b - 1] == -size && t[b + size] == -size
      && (forall i :: 0 <= i < b - 1 && i != TrailerPointerOffsetInQuads ==> t[i] == s[i])
      && var next := t[TrailerPointerOffsetInQuads];
         || (next == HeaderOffsetInQuads && b + size == |s| - 1)
         || (next == b + size + PointerOverheadInQuads && next % 2 == 0 && FreeTail(t, next))
    ensures Wf(t)
    ensures UsedBlocks(t) == UsedBlocks(s) + [s[TrailerPointerOffsetInQuads]]
  {
    var b := s[TrailerPointerOffsetInQuads];
    ExtendChain(s, t, FirstBlockOffsetInQuads, b, size);
    assert VerifyHeader(t) by {
      assert t[0] == s[0] && t[HeaderOffsetInQuads + HeaderSizeInQuads] == s[HeaderOffsetInQuads + HeaderSizeInQuads];
    }
  }

  /**
   * Any arena that agrees with the carved one outside the new block's first
   * `m` payload words is well formed; in particular the carved arena itself
   * and the carved arena after zero-filling.
   */
  lemma CarvedPayloadFree(s: seq<int>, m: int, c: seq<int>, t: seq<int>)
    requires Wf(s) && Fits(s, m) && m >= 2 && m % 2 == 0
    requires c == Carve(s, m)
    requires |t| == |s|
    requires forall i :: 0 <= i < |t| && !(s[TrailerPointerOffsetInQuads] <= i < s[TrailerPointerOffsetInQuads] + m) ==> t[i] == c[i]
    ensures Wf(t)
    ensures UsedBlocks(t) == UsedBlocks(s) + [s[TrailerPointerOffsetInQuads]]
  {
    var b := s[TrailerPointerOffsetInQuads];
    CarveGrant(s, m);
    var size := ReadSize(c, b);
    assert t[b - 1] == c[b - 1] && t[b + size] == c[b + size];
    assert t[TrailerPointerOffsetInQuads] == c[TrailerPointerOffsetInQuads];
    if c[TrailerPointerOffsetInQuads] != HeaderOffsetInQuads {
      var next := b + size + PointerOverheadInQuads;
      assert t[next - 1] == c[next - 1] && t[|s| - 1] == c[|s| - 1];
      assert FreeTail(t, next);
    }
    PlaceUsedBlock(s, t, size);
  }

  /**
   * Carving keeps the arena well formed (the `post:` check of `alloc`) and
   * adds exactly the carved block to the blocks handed out.
   */
  lemma CarveWf(s: seq<int>, m: int)
    requires Wf(s) && Fits(s, m) && m >= 2 && m % 2 == 0
    ensures Wf(Carve(s, m))
    ensures UsedBlocks(Carve(s, m)) == UsedBlocks(s) + [s[TrailerPointerOffsetInQuads]]
  {
    CarvedPayloadFree(s, m, Carve(s, m), Carve(s, m));
  }

  /**
   * Zero-filling the carved block's requested words keeps the arena well
   * formed and leaves the blocks handed out as the carve made them.
   */
  lemma ZeroFillWf(s: seq<int>, m: int)
    requires Wf(s) && Fits(s, m) && m >= 2 && m % 2 == 0
    ensures Wf(ZeroFill(Carve(s, m), s[TrailerPointerOffsetInQuads], m))
    ensures UsedBlocks(ZeroFill(Carve(s, m), s[TrailerPointerOffsetInQuads], m)) ==
            UsedBlocks(s) + [s[TrailerPointerOffsetInQuads]]
  {
    CarvedPayloadFree(s, m, Carve(s, m), ZeroFill(Carve(s, m), s[TrailerPointerOffsetInQuads], m));
  }

  /**
   * What the caller of a successful `alloc` gets: the block at the old free
   * pointer, marked used on both tags, of exactly `m` words when the free
   * block is split and of the whole free block otherwise; the next free
   * block (if any) starts right after it; the free block left behind has at
   * least 2 words; nothing before the carved block except the free pointer
   * changes, and no word at all changes except the free pointer, the carved
   * block's two tags and the new free block's two tags.
   */
  lemma CarveGrant(s: seq<int>, m: int)
    requires Wf(s) && Fits(s, m) && m >= 2
    ensures var b := s[TrailerPointerOffsetInQuads];
      var r := Carve(s, m);
      var size := ReadSize(r, b);
      var split := |s| - (b + PointerSizeInQuads) - (m + PointerSizeInQuads) >= MinFreeableSizeInQuads;
      && size >= m
      && r[b - 1] == -size && b + size < |r| && r[b + size] == -size
      && (split ==> size == m && r[TrailerPointerOffsetInQuads] == b + size + PointerOverheadInQuads)
      && (split ==> r[b + size + 1] == |s| - (b + size + PointerOverheadInQuads + PointerSizeInQuads) == r[|s| - 1])
      && (split ==> r[b + size + 1] >= PointerOverheadInQuads)
      && (!split ==> size == |s| - (b + PointerSizeInQuads) && r[TrailerPointerOffsetInQuads] == HeaderOffsetInQuads)
      && (forall i :: 0 <= i < b - 1 && i != TrailerPointerOffsetInQuads ==> r[i] == s[i])
    ensures var b := s[TrailerPointerOffsetInQuads];
      var r := Carve(s, m);
      var size := ReadSize(r, b);
      forall i :: 0 <= i < |s| && i !in {TrailerPointerOffsetInQuads, b - 1, b + size, b + size + 1, |s| - 1} ==>
        r[i] == s[i]
  {
  }

  /**
   * Once the free pointer holds the sentinel nothing fits any more, so every
   * later `alloc` returns 0: memory is never reclaimed.
   */
  lemma ExhaustionIsPermanent(s: seq<int>, m: int)
    requires |s| > TrailerPointerOffsetInQuads && s[TrailerPointerOffsetInQuads] == HeaderOffsetInQuads
    ensures !Fits(s, m)
  {
  }

  /**
   * A region of exactly the overhead plus 16 bytes (73 words) refuses even
   * `alloc(1)`: its 4-word free block is not more than 4 + 1 words.
   */
  lemma OverheadPlus16Refuses(s: seq<int>)
    requires |s| == 73
    ensures !Fits(InitialImage(s), Normalize(1) / 4)
  {
    InitialImageVerifies(s);
  }

  /**
   * The smallest fresh region that serves `alloc(1)` has 75 words; it grants
   * the whole 6-word free block and sets the sentinel.
   */
  lemma SmallestRegionGrantsWholeBlock(s: seq<int>)
    requires |s| == 75
    ensures Wf(InitialImage(s)) && Fits(InitialImage(s), Normalize(1) / 4)
    ensures var r := Carve(InitialImage(s), Normalize(1) / 4);
      r[TrailerPointerOffsetInQuads] == HeaderOffsetInQuads && ReadSize(r, FirstBlockOffsetInQuads) == 6
  {
    InitialWf(s);
    InitialImageVerifies(s);
  }

  /**
   * Splitting can leave a free block of 2 words: in a fresh 77-word region
   * `alloc(16)` splits the 8-word free block into 4 used words and a 2-word
   * free block, below the 3 words `isFree` asserts for free blocks.
   */
  lemma SplitCanLeaveTwoWords(s: seq<int>)
    requires |s| == 77
    ensures Wf(InitialImage(s)) && Fits(InitialImage(s), 4)
    ensures var r := Carve(InitialImage(s), 4);
      r[TrailerPointerOffsetInQuads] == 74 && r[73] == 2 && r[76] == 2
  {
    InitialWf(s);
    InitialImageVerifies(s);
  }

  /** An address `free` and `sizeOf` accept: 8-aligned and in [272, byteLength]. */
  predicate IsBlockAddress(address: int, byteLength: int)
  {
    address % AlignmentInBytes == 0 && FirstBlockOffsetInBytes <= address <= byteLength
  }

  /** The byte offset of a block at an even word index inside the arena is a block address. */
  lemma BlockAddress(block: int, byteLength: int)
    requires block % 2 == 0 && FirstBlockOffsetInQuads <= block < BytesToQuads(byteLength)
    ensures IsBlockAddress(QuadsToBytes(block), byteLength)
  {
    assert QuadsToBytes(block) == 8 * (block / 2);
  }

  class Allocator {
    const arr: array<int>
    const byteLength: int

    ghost predicate Valid()
      reads arr
    {
      && OverheadInBytes <= byteLength <= 0x7FFF_FFFF
      && arr.Length == BytesToQuads(byteLength)
      && Wf(arr[..])
    }

    constructor (a: array<int>, byteLength: int)
      requires OverheadInBytes <= byteLength <= 0x7FFF_FFFF
      requires a.Length == BytesToQuads(byteLength) && Wf(a[..])
      ensures arr == a && this.byteLength == byteLength
      ensures Valid()
    {
      arr := a;
      this.byteLength := byteLength;
    }

    /** The tag writes of `alloc`: split the free block, or grant all of it. */
    method CarveFreeBlock(minimumSize: int)
      requires Wf(arr[..]) && 0 <= minimumSize && Fits(arr[..], minimumSize)
      modifies arr
      ensures arr[..] == Carve(old(arr[..]), minimumSize)
    {
      ghost var before := arr[..];
      var block := arr[TrailerPointerOffsetInQuads];
      var blockSize := arr.Length - (block + PointerSizeInQuads);
      var remaining := blockSize - (minimumSize + PointerSizeInQuads);
      if remaining >= MinFreeableSizeInQuads {
        var second := block + minimumSize + PointerOverheadInQuads;
        var secondSize := arr.Length - (second + PointerSizeInQuads);
        arr[block - 1] := -minimumSize;
        arr[block + minimumSize] := -minimumSize;
        arr[second - 1] := secondSize;
        arr[second + secondSize] := secondSize;
        arr[TrailerPointerOffsetInQuads] := second;
        assert arr[..] == before[block - 1 := -minimumSize][block + minimumSize := -minimumSize]
                                [second - 1 := secondSize][second + secondSize := secondSize]
                                [TrailerPointerOffsetInQuads := second];
      } else {
        arr[block - 1] := -blockSize;
        arr[block + blockSize] := -blockSize;
        arr[TrailerPointerOffsetInQuads] := HeaderOffsetInQuads;
        assert arr[..] == before[block - 1 := -blockSize][block + blockSize := -blockSize]
                                [TrailerPointerOffsetInQuads := HeaderOffsetInQuads];
      }
    }

    /** The zeroing loop of `calloc`: `count` words from `offset` on become 0. */
    method ZeroWords(offset: int, count: int)
      requires 0 <= offset && 0 <= count && offset + count <= arr.Length
      modifies arr
      ensures arr[..] == ZeroFill(old(arr[..]), offset, count)
    {
      ghost var before := arr[..];
      var i := 0;
      while i < count
        invariant 0 <= i <= count
        invariant arr[..] == ZeroFill(before, offset, i)
      {
        arr[offset + i] := 0;
        i := i + 1;
      }
    }

    /**
     * `alloc`: a range error for requests larger than the region, 0 when
     * the free block cannot hold the normalised size, otherwise the byte
     * offset of the old free block with the arena carved.
     */
    method Alloc(n: int) returns (r: Result<int>)
      requires Valid()
      requires MinRequest <= n <= MaxRequest
      modifies arr
      ensures Valid()
      ensures Normalize(n) > byteLength ==>
        r == Err(AllocationRange) && arr[..] == old(arr[..])
      ensures Normalize(n) <= byteLength && !Fits(old(arr[..]), Normalize(n) / 4) ==>
        r == Ok(0) && arr[..] == old(arr[..])
      ensures Normalize(n) <= byteLength && Fits(old(arr[..]), Normalize(n) / 4) ==>
        && r == Ok(QuadsToBytes(old(arr[TrailerPointerOffsetInQuads])))
        && arr[..] == Carve(old(arr[..]), Normalize(n) / 4)
      ensures r.Ok? && r.value != 0 ==>
        && IsBlockAddress(r.value, byteLength)
        && QuadsToBytes(ReadSize(arr[..], BytesToQuads(r.value))) >= Normalize(n)
        && (arr[TrailerPointerOffsetInQuads] == HeaderOffsetInQuads ||
            r.value + QuadsToBytes(ReadSize(arr[..], BytesToQuads(r.value))) < QuadsToBytes(arr[TrailerPointerOffsetInQuads]))
      ensures r.Ok? && r.value != 0 ==>
        UsedBlocks(arr[..]) == old(UsedBlocks(arr[..])) + [BytesToQuads(r.value)]
      ensures forall i :: 0 <= i < old(arr[TrailerPointerOffsetInQuads]) - 1 && i != TrailerPointerOffsetInQuads ==>
        arr[i] == old(arr[i])
    {
      var numberOfBytes := Align(n);
      if numberOfBytes < MinFreeableSizeInBytes {
        numberOfBytes := MinFreeableSizeInBytes;
      } else if numberOfBytes > byteLength {
        return Err(AllocationRange);
      }
      NormalizeIsLeastAlignedBound(n);

      var minimumSize := BytesToQuads(numberOfBytes);
      var block := arr[TrailerPointerOffsetInQuads];
      if block == HeaderOffsetInQuads {
        return Ok(0);
      }
      var blockSize := arr.Length - (block + PointerSizeInQuads);
      if block + minimumSize + PointerOverheadInQuads >= arr.Length {
        return Ok(0);
      }
      assert ReadSize(arr[..], block) == blockSize;

      ghost var before := arr[..];
      CarveWf(before, minimumSize);
      CarveGrant(before, minimumSize);
      CarveFreeBlock(minimumSize);
      BlockAddress(block, byteLength);
      return Ok(QuadsToBytes(block));
    }

    /**
     * `calloc`: `alloc` of the normalised size, then the first
     * `Normalize(n)` bytes of the granted block set to zero.
     */
    method Calloc(n: int) returns (r: Result<int>)
      requires Valid()
      requires MinRequest <= n <= MaxRequest
      modifies arr
      ensures Valid()
      ensures Normalize(n) > byteLength ==>
        r == Err(AllocationRange) && arr[..] == old(arr[..])
      ensures Normalize(n) <= byteLength && !Fits(old(arr[..]), Normalize(n) / 4) ==>
        r == Ok(0) && arr[..] == old(arr[..])
      ensures Normalize(n) <= byteLength && Fits(old(arr[..]), Normalize(n) / 4) ==>
        && r == Ok(QuadsToBytes(old(arr[TrailerPointerOffsetInQuads])))
        && arr[..] == ZeroFill(Carve(old(arr[..]), Normalize(n) / 4),
                               old(arr[TrailerPointerOffsetInQuads]), Normalize(n) / 4)
      ensures r.Ok? && r.value != 0 ==>
        forall i :: BytesToQuads(r.value) <= i < BytesToQuads(r.value) + Normalize(n) / 4 ==> arr[i] == 0
      ensures r.Ok? && r.value != 0 ==>
        UsedBlocks(arr[..]) == old(UsedBlocks(arr[..])) + [BytesToQuads(r.value)]
      ensures forall i :: 0 <= i < old(arr[TrailerPointerOffsetInQuads]) - 1 && i != TrailerPointerOffsetInQuads ==>
        arr[i] == old(arr[i])
    {
      var numberOfBytes := n;
      if numberOfBytes < MinFreeableSizeInBytes {
        numberOfBytes := MinFreeableSizeInBytes;
      } else {
        numberOfBytes := Align(numberOfBytes);
      }
      CallocSizeAgrees(n);
      NormalizeIsLeastAlignedBound(n);
      assert numberOfBytes == Normalize(n);

      ghost var before := arr[..];
      r := Alloc(numberOfBytes);
      if r.Err? || r.value == 0 {
        return;
      }
      var offset := BytesToQuads(r.value);
      var limit := numberOfBytes / 4;
      ZeroFillWf(before, limit);
      ZeroWords(offset, limit);
    }

    /** `free`: a range error for addresses no block can have, otherwise 0 and no change. */
    method Free(address: int) returns (r: Result<int>)
      requires Valid()
      ensures r.Err? <==> !IsBlockAddress(address, byteLength)
      ensures r.Err? ==> r.error == AddressRange
      ensures r.Ok? ==> r.value == 0
    {
      if address % AlignmentInBytes != 0 {
        return Err(AddressRange);
      }
      if address < FirstBlockOffsetInBytes || address > byteLength {
        return Err(AddressRange);
      }
      return Ok(0);
    }

    /** `sizeOf`: the byte size recorded in the leading tag of the block at `address`. */
    method SizeOf(address: int) returns (r: Result<int>)
      requires Valid()
      ensures r.Err? <==> !IsBlockAddress(address, byteLength)
      ensures r.Err? ==> r.error == AddressRange
      ensures r.Ok? ==> r.value == QuadsToBytes(ReadSize(arr[..], BytesToQuads(address)))
    {
      if address < FirstBlockOffsetInBytes || address > byteLength {
        return Err(AddressRange);
      }
      if address % AlignmentInBytes != 0 {
        return Err(AddressRange);
      }
      return Ok(QuadsToBytes(ReadSize(arr[..], BytesToQuads(address))));
    }

    /** `inspect` on this allocator's arena; it never fails on a valid arena. */
    method Inspect() returns (r: Result<Inspection>)
      requires Valid()
      ensures r.Ok? && InspectFrom(arr[..], FirstBlockOffsetInQuads).Ok?
      ensures r.value.header == ListNode(Kind.Free, 4, QuadsToBytes(HeaderSizeInQuads))
      ensures r.value.blocks == InspectFrom(arr[..], FirstBlockOffsetInQuads).value
    {
      InspectWf(arr[..]);
      r := Integrity.Inspect(arr);
    }
  }

  /**
   * Two successive successful allocations hand out disjoint blocks: both are
   * appended, in order, to the blocks handed out; the second starts after
   * the first one's trailing tag; and the second allocation leaves the
   * first block's tags alone, so it still records at least the bytes asked
   * for.
   */
  method AllocationsAreDisjoint(x: Allocator, n1: int, n2: int) returns (a1: Result<int>, a2: Result<int>)
    requires x.Valid()
    requires MinRequest <= n1 <= MaxRequest && MinRequest <= n2 <= MaxRequest
    modifies x.arr
    ensures x.Valid()
    ensures a1.Ok? && a1.value != 0 && a2.Ok? && a2.value != 0 ==>
      && UsedBlocks(x.arr[..]) == old(UsedBlocks(x.arr[..])) + [BytesToQuads(a1.value), BytesToQuads(a2.value)]
      && IsBlockAddress(a1.value, x.byteLength)
      && x.arr[BytesToQuads(a1.value) - 1] < 0
      && QuadsToBytes(ReadSize(x.arr[..], BytesToQuads(a1.value))) >= Normalize(n1)
      && a1.value + QuadsToBytes(ReadSize(x.arr[..], BytesToQuads(a1.value))) < a2.value
  {
    ghost var start := x.arr[..];
    a1 := x.Alloc(n1);
    ghost var mid := x.arr[..];
    a2 := x.Alloc(n2);
    if a1.Ok? && a1.value != 0 && a2.Ok? && a2.value != 0 {
      var b1 := BytesToQuads(a1.value);
      var size1 := ReadSize(mid, b1);
      assert x.arr[b1 - 1] == mid[b1 - 1];
      assert UsedBlocks(start) + [b1] + [BytesToQuads(a2.value)] ==
             UsedBlocks(start) + [b1, BytesToQuads(a2.value)];
    }
  }

  /**
   * Construction: the region must be at least the fixed overhead, is
   * initialised unless its header already verifies, and must then pass the
   * integrity walk. A region whose header verifies and whose chain passes
   * the walk is expected to be one an allocator left behind.
   */
  method Attach(a: array<int>, byteLength: int) returns (r: Result<Allocator>)
    requires 0 <= byteLength <= 0x7FFF_FFFF && a.Length == BytesToQuads(byteLength)
    requires VerifyHeader(a[..]) && Walk(a[..], FirstBlockOffsetInQuads) ==> Wf(a[..])
    modifies a
    ensures r.Err? <==>
      || byteLength < OverheadInBytes
      || (!old(VerifyHeader(a[..])) && a.Length < FirstBlockOffsetInQuads + 3)
      || (old(VerifyHeader(a[..])) && !old(Walk(a[..], FirstBlockOffsetInQuads)))
    ensures byteLength < OverheadInBytes ==> r == Err(ConstructionRange) && a[..] == old(a[..])
    ensures OverheadInBytes <= byteLength && !old(VerifyHeader(a[..])) && a.Length == FirstBlockOffsetInQuads + 1 ==>
      r == Err(ConstructionRange) && a[..] == HeaderWritten(old(a[..]))
    ensures r.Err? ==> r.error == ConstructionRange || r.error == Corrupt
    ensures r.Err? ==>
      (r.error == Corrupt <==>
        && OverheadInBytes <= byteLength
        && (|| (!old(VerifyHeader(a[..])) && a.Length == FirstBlockOffsetInQuads + 2)
            || (old(VerifyHeader(a[..])) && !old(Walk(a[..], FirstBlockOffsetInQuads)))))
    ensures r == Err(Corrupt) ==> a[..] == Prepared(old(a[..]))
    ensures r.Ok? ==>
      && fresh(r.value) && r.value.arr == a && r.value.byteLength == byteLength
      && r.value.Valid()
      && a[..] == Prepared(old(a[..]))
  {
    if byteLength < OverheadInBytes {
      return Err(ConstructionRange);
    }
    if !VerifyHeader(a[..]) && a.Length < FirstBlockOffsetInQuads + 2 {
      // The header tags and the free pointer are written; the initial free
      // block would have 0 words, which the tag writer refuses.
      WriteFreeBlockSize(a, HeaderSizeInQuads, HeaderOffsetInQuads);
      a[TrailerPointerOffsetInQuads] := FirstBlockOffsetInQuads;
      return Err(ConstructionRange);
    }
    ghost var original := a[..];
    Prepare(a);
    var ok := CheckListIntegrity(a);
    if !VerifyHeader(original) {
      if a.Length == FirstBlockOffsetInQuads + 2 {
        InitialTooSmall(original);
      } else {
        InitialWf(original);
      }
    }
    if VerifyHeader(original) && ok {
      WfPassesIntegrity(a[..]);
    }
    if !ok {
      return Err(Corrupt);
    }
    var allocator := new Allocator(a, byteLength);
    return Ok(allocator);
  }
}
