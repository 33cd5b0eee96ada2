/**
 * The block chain: the integrity walk, the inspection walk, and the
 * structural invariant the allocator keeps.
 *
 * Both walks start at the first block (word 68) and step from a block at
 * `b` with payload `size` to the next block at `b + size + 2`, stopping once
 * the cursor reaches the last word of the arena.
 */
module Integrity {
  import opened Layout
  import opened Tags

  datatype Inspection = Inspection(header: ListNode, blocks: seq<ListNode>)

  /** Both tags of the block at `b` exist and are equal. */
  predicate TagsMatch(s: seq<int>, b: int, size: int)
    requires 1 <= b <= |s| && 0 <= size
  {
    b + size < |s| && s[b - 1] == s[b + size]
  }

  /**
   * The check on a used block: its tags match, so the trailing tag, read
   * from the block that would follow it, gives back the same size.
   */
  predicate UsedBlockOk(s: seq<int>, b: int, size: int): (r: bool)
    requires 1 <= b <= |s| && 0 <= size
    ensures r ==> b + size < |s| && ReadSize(s, b + size + 1) == ReadSize(s, b)
  {
    TagsMatch(s, b, size)
  }

  /**
   * The check on a free block: its tags match, it is the last block of the
   * arena, and the free pointer names it.
   */
  predicate FreeBlockOk(s: seq<int>, b: int, size: int): (r: bool)
    requires 1 <= b <= |s| && 0 <= size && |s| > TrailerPointerOffsetInQuads
    ensures r ==> b + size < |s| && ReadSize(s, b + size + 1) == ReadSize(s, b)
    ensures FirstBlockOffsetInQuads <= b && s[b - 1] == size && size >= PointerOverheadInQuads ==>
      (r <==> FreeTail(s, b) && s[TrailerPointerOffsetInQuads] == b)
  {
    && TagsMatch(s, b, size)
    && b + size + PointerSizeInQuads == |s|
    && s[TrailerPointerOffsetInQuads] == b
  }

  /**
   * The integrity walk from the block at `b`: true when every block it
   * visits passes, false where the walk raises a corruption error.
   */
  function Walk(s: seq<int>, b: int): bool
    requires 1 <= b
    decreases |s| - b
  {
    if b >= |s| - PointerSizeInQuads then true
    else
      var size := ReadSize(s, b);
      if size < PointerOverheadInQuads || size >= |s| - FirstBlockOffsetInQuads then false
      else if IsFree(s, b) then
        FreeBlockOk(s, b, size) && Walk(s, b + size + PointerOverheadInQuads)
      else
        UsedBlockOk(s, b, size) && Walk(s, b + size + PointerOverheadInQuads)
  }

  /** `checkListIntegrity`: reports `false` exactly where the source throws. */
  method CheckListIntegrity(a: array<int>) returns (ok: bool)
    ensures ok == Walk(a[..], FirstBlockOffsetInQuads)
  {
    var block := FirstBlockOffsetInQuads;
    while block < a.Length - PointerSizeInQuads
      invariant FirstBlockOffsetInQuads <= block
      invariant Walk(a[..], FirstBlockOffsetInQuads) == Walk(a[..], block)
      decreases a.Length - block
    {
      var size := ReadSize(a[..], block);
      if size < PointerOverheadInQuads || size >= a.Length - FirstBlockOffsetInQuads {
        return false;
      } else if IsFree(a[..], block) {
        if !FreeBlockOk(a[..], block, size) {
          return false;
        }
      } else {
        if !UsedBlockOk(a[..], block, size) {
          return false;
        }
      }
      block := block + size + PointerOverheadInQuads;
    }
    return true;
  }

  /**
   * The blocks from `b` up to (not including) `e` are used blocks with
   * matching tags and at least two payload words, laid end to end.
   */
  ghost predicate UsedChain(s: seq<int>, b: int, e: int)
    decreases e - b
  {
    && FirstBlockOffsetInQuads <= b <= e <= |s| + 1
    && (b < e ==>
          var size := -s[b - 1];
          && size >= PointerOverheadInQuads
          && b + size < |s|
          && s[b + size] == s[b - 1]
          && UsedChain(s, b + size + PointerOverheadInQuads, e))
  }

  /** The free block at `fp` has at least two words and runs to the last word. */
  ghost predicate FreeTail(s: seq<int>, fp: int)
  {
    && FirstBlockOffsetInQuads <= fp <= |s|
    && s[fp - 1] >= PointerOverheadInQuads
    && fp + s[fp - 1] + PointerSizeInQuads == |s|
    && s[|s| - 1] == s[fp - 1]
  }

  /**
   * The allocator's invariant: a verified header, then used blocks from
   * word 68, then either the single free block named by the (even) free
   * pointer, or, when the free pointer holds the sentinel 1, nothing.
   */
  ghost predicate Wf(s: seq<int>)
  {
    && |s| >= OverheadInBytes / 4
    && VerifyHeader(s)
    && var fp := s[TrailerPointerOffsetInQuads];
       || (fp == HeaderOffsetInQuads && UsedChain(s, FirstBlockOffsetInQuads, |s| + 1))
       || (fp % 2 == 0 && UsedChain(s, FirstBlockOffsetInQuads, fp) && FreeTail(s, fp))
  }

  /**
   * A chain survives any change outside its own words, and one more used
   * block written right after it extends it.
   */
  lemma {:induction false} ExtendChain(s: seq<int>, t: seq<int>, b: int, e: int, size: int)
    requires UsedChain(s, b, e)
    requires |t| == |s|
    requires forall i :: b - 1 <= i < e - 1 ==> t[i] == s[i]
    requires size >= PointerOverheadInQuads && e + size < |t|
    requires t[e - 1] == -size && t[e + size] == -size
    ensures UsedChain(t, b, e + size + PointerOverheadInQuads)
    ensures ChainBlocks(t, b, e + size + PointerOverheadInQuads) == ChainBlocks(s, b, e) + [e]
    decreases e - b
  {
    var end := e + size + PointerOverheadInQuads;
    if b < e {
      var size0 := -s[b - 1];
      var next := b + size0 + PointerOverheadInQuads;
      ExtendChain(s, t, next, e, size);
      assert ChainBlocks(t, b, end) == [b] + ChainBlocks(t, next, end);
      assert [b] + (ChainBlocks(s, next, e) + [e]) == ([b] + ChainBlocks(s, next, e)) + [e];
    } else {
      assert UsedChain(t, end, end);
      assert ChainBlocks(t, e, end) == [e] + ChainBlocks(t, end, end);
    }
  }

  /** The starting words of the blocks of a used chain, in arena order. */
  ghost function ChainBlocks(s: seq<int>, b: int, e: int): seq<int>
    requires UsedChain(s, b, e)
    decreases e - b
  {
    if b == e then []
    else [b] + ChainBlocks(s, b - s[b - 1] + PointerOverheadInQuads, e)
  }

  /**
   * Every block of a used chain is marked used on both tags and lies inside
   * the chain, and the blocks are pairwise disjoint: each one's trailing tag
   * comes before the leading tag of every later one.
   */
  lemma {:induction false} ChainBlocksDisjoint(s: seq<int>, b: int, e: int)
    requires UsedChain(s, b, e)
    ensures forall i :: 0 <= i < |ChainBlocks(s, b, e)| ==>
      var bi := ChainBlocks(s, b, e)[i];
      && b <= bi < e && s[bi - 1] < 0
      && bi + ReadSize(s, bi) + PointerOverheadInQuads <= e
      && s[bi + ReadSize(s, bi)] == s[bi - 1]
    ensures forall i, j :: 0 <= i < j < |ChainBlocks(s, b, e)| ==>
      ChainBlocks(s, b, e)[i] + ReadSize(s, ChainBlocks(s, b, e)[i]) + PointerOverheadInQuads <= ChainBlocks(s, b, e)[j]
    decreases e - b
  {
    if b < e {
      var next := b - s[b - 1] + PointerOverheadInQuads;
      ChainBlocksDisjoint(s, next, e);
      var rest := ChainBlocks(s, next, e);
      var bs := ChainBlocks(s, b, e);
      assert bs == [b] + rest;
      assert forall i :: 0 < i < |bs| ==> bs[i] == rest[i - 1];
    }
  }

  /** The integrity walk passes over a chain of used blocks. */
  lemma {:induction false} ChainWalk(s: seq<int>, b: int, e: int)
    requires UsedChain(s, b, e)
    requires Walk(s, e)
    ensures Walk(s, b)
    decreases e - b
  {
    if b < e {
      var size := -s[b - 1];
      ChainWalk(s, b + size + PointerOverheadInQuads, e);
    }
  }

  /** Where the used chain of a well-formed arena ends: the free block, or past the last word. */
  ghost function UsedEnd(s: seq<int>): int
    requires Wf(s)
  {
    if s[TrailerPointerOffsetInQuads] == HeaderOffsetInQuads then |s| + 1
    else s[TrailerPointerOffsetInQuads]
  }

  /** The blocks handed out so far: the starting words of the used chain. */
  ghost function UsedBlocks(s: seq<int>): seq<int>
    requires Wf(s)
  {
    ChainBlocks(s, FirstBlockOffsetInQuads, UsedEnd(s))
  }

  /**
   * In a well-formed arena the blocks handed out so far are used on both
   * tags, in increasing order, pairwise disjoint, and all before the free
   * block when there is one.
   */
  lemma UsedBlocksDisjoint(s: seq<int>)
    requires Wf(s)
    ensures forall i :: 0 <= i < |UsedBlocks(s)| ==>
      var bi := UsedBlocks(s)[i];
      && FirstBlockOffsetInQuads <= bi < |s| && s[bi - 1] < 0
      && bi + ReadSize(s, bi) < |s|
      && s[bi + ReadSize(s, bi)] == s[bi - 1]
      && (s[TrailerPointerOffsetInQuads] != HeaderOffsetInQuads ==>
            bi + ReadSize(s, bi) + PointerOverheadInQuads <= s[TrailerPointerOffsetInQuads])
    ensures forall i, j :: 0 <= i < j < |UsedBlocks(s)| ==>
      UsedBlocks(s)[i] + ReadSize(s, UsedBlocks(s)[i]) + PointerOverheadInQuads <= UsedBlocks(s)[j]
  {
    ChainBlocksDisjoint(s, FirstBlockOffsetInQuads, UsedEnd(s));
  }

  /** A well-formed arena passes `checkListIntegrity`. */
  lemma WfPassesIntegrity(s: seq<int>)
    requires Wf(s)
    ensures Walk(s, FirstBlockOffsetInQuads)
  {
    var fp := s[TrailerPointerOffsetInQuads];
    if fp == HeaderOffsetInQuads {
      ChainWalk(s, FirstBlockOffsetInQuads, |s| + 1);
    } else {
      var size := s[fp - 1];
      assert Walk(s, fp + size + PointerOverheadInQuads);
      assert Walk(s, fp);
      ChainWalk(s, FirstBlockOffsetInQuads, fp);
    }
  }

  /** The inspection walk from the block at `b`; `Err(Corrupt)` where the source throws. */
  function InspectFrom(s: seq<int>, b: int): Result<seq<ListNode>>
    requires 1 <= b
    decreases |s| - b
  {
    if b >= |s| - PointerSizeInQuads then Ok([])
    else
      var size := ReadSize(s, b);
      if size < PointerOverheadInQuads || size >= |s| then Err(Corrupt)
      else
        var node := if IsFree(s, b) then ReadListNode(s, b)
                    else ListNode(Used, QuadsToBytes(b), QuadsToBytes(size));
        var rest := InspectFrom(s, b + size + PointerOverheadInQuads);
        if rest.Err? then rest else Ok([node] + rest.value)
  }

  /** The records found so far, in front of what the rest of the walk yields. */
  function Prepend(found: seq<ListNode>, rest: Result<seq<ListNode>>): Result<seq<ListNode>>
  {
    if rest.Err? then rest else Ok(found + rest.value)
  }

  /** `inspect`: the header record and one record per block, in arena order. */
  method Inspect(a: array<int>) returns (r: Result<Inspection>)
    requires a.Length >= HeaderOffsetInQuads
    ensures r.Err? <==> InspectFrom(a[..], FirstBlockOffsetInQuads).Err?
    ensures r.Ok? ==>
      && r.value.header == ReadListNode(a[..], HeaderOffsetInQuads)
      && r.value.blocks == InspectFrom(a[..], FirstBlockOffsetInQuads).value
  {
    ghost var s := a[..];
    var blocks: seq<ListNode> := [];
    var header := ReadListNode(a[..], HeaderOffsetInQuads);
    var block := FirstBlockOffsetInQuads;
    PrependNothing(InspectFrom(s, block));
    while block < a.Length - PointerSizeInQuads
      invariant FirstBlockOffsetInQuads <= block
      invariant InspectFrom(s, FirstBlockOffsetInQuads) == Prepend(blocks, InspectFrom(s, block))
      decreases a.Length - block
    {
      var size := ReadSize(a[..], block);
      if size < PointerOverheadInQuads || size >= a.Length {
        return Err(Corrupt);
      }
      var node := if IsFree(a[..], block) then ReadListNode(a[..], block)
                  else ListNode(Used, QuadsToBytes(block), QuadsToBytes(size));
      assert InspectFrom(s, block) == Prepend([node], InspectFrom(s, block + size + PointerOverheadInQuads));
      PrependAssoc(blocks, [node], InspectFrom(s, block + size + PointerOverheadInQuads));
      blocks := blocks + [node];
      block := block + size + PointerOverheadInQuads;
    }
    return Ok(Inspection(header, blocks));
  }

  /**
   * Whatever arena it walks, a successful inspection lists blocks of at
   * least 8 bytes laid end to end: each record starts 8 bytes (two tags)
   * after the previous one ends.
   */
  lemma {:induction false} InspectContiguous(s: seq<int>, b: int)
    requires 1 <= b
    requires InspectFrom(s, b).Ok?
    ensures var ns := InspectFrom(s, b).value;
      && (|ns| > 0 ==> ns[0].offset == QuadsToBytes(b))
      && (forall i :: 0 <= i < |ns| ==> ns[i].size >= 8)
      && (forall i :: 0 <= i < |ns| - 1 ==> ns[i + 1].offset == ns[i].offset + ns[i].size + 8)
    decreases |s| - b
  {
    if b < |s| - PointerSizeInQuads {
      var size := ReadSize(s, b);
      InspectContiguous(s, b + size + PointerOverheadInQuads);
    }
  }

  /** The records `inspect` produces for a chain of used blocks. */
  ghost function UsedNodes(s: seq<int>, b: int, e: int): seq<ListNode>
    requires UsedChain(s, b, e)
    decreases e - b
  {
    if b == e then []
    else
      var size := -s[b - 1];
      [ListNode(Used, QuadsToBytes(b), QuadsToBytes(size))] + UsedNodes(s, b + size + PointerOverheadInQuads, e)
  }

  /**
   * Records of a used chain are all `Used`, and when the chain is not empty
   * the last one ends at the chain's last word.
   */
  lemma {:induction false} UsedNodesShape(s: seq<int>, b: int, e: int)
    requires UsedChain(s, b, e)
    ensures var ns := UsedNodes(s, b, e);
      && (forall i :: 0 <= i < |ns| ==> ns[i].kind == Used)
      && (b < e ==> |ns| > 0 && ns[|ns| - 1].offset + ns[|ns| - 1].size == QuadsToBytes(e - 2))
    decreases e - b
  {
    if b < e {
      var size := -s[b - 1];
      var next := b + size + PointerOverheadInQuads;
      UsedNodesShape(s, next, e);
      var node := ListNode(Used, QuadsToBytes(b), QuadsToBytes(size));
      var rest := UsedNodes(s, next, e);
      var ns := UsedNodes(s, b, e);
      assert ns == [node] + rest;
      if next == e {
        assert ns == [node];
      } else {
        assert ns[|ns| - 1] == rest[|rest| - 1];
      }
    }
  }

  /** Inspecting from the start of a used chain yields its records, then the rest. */
  lemma {:induction false} ChainInspect(s: seq<int>, b: int, e: int)
    requires UsedChain(s, b, e)
    ensures InspectFrom(s, b) == Prepend(UsedNodes(s, b, e), InspectFrom(s, e))
    decreases e - b
  {
    if b < e {
      var size := -s[b - 1];
      var next := b + size + PointerOverheadInQuads;
      ChainInspect(s, next, e);
      var node := ListNode(Used, QuadsToBytes(b), QuadsToBytes(size));
      assert ReadSize(s, b) == size && !IsFree(s, b);
      assert InspectFrom(s, b) == Prepend([node], InspectFrom(s, next));
      PrependAssoc([node], UsedNodes(s, next, e), InspectFrom(s, e));
    } else {
      PrependNothing(InspectFrom(s, e));
    }
  }

  lemma PrependAssoc(p: seq<ListNode>, q: seq<ListNode>, r: Result<seq<ListNode>>)
    ensures Prepend(p, Prepend(q, r)) == Prepend(p + q, r)
  {
    if r.Ok? {
      assert p + (q + r.value) == (p + q) + r.value;
    }
  }

  lemma PrependNothing(r: Result<seq<ListNode>>)
    ensures Prepend([], r) == r
  {
    if r.Ok? {
      assert [] + r.value == r.value;
    }
  }

  /**
   * Inspecting a well-formed arena succeeds: the records start at byte 272,
   * the last ends at the arena's last word, every record but the last is
   * used, and the last is free exactly when the free pointer names it.
   */
  lemma InspectWf(s: seq<int>)
    requires Wf(s)
    ensures InspectFrom(s, FirstBlockOffsetInQuads).Ok?
    ensures var ns := InspectFrom(s, FirstBlockOffsetInQuads).value;
      && |ns| >= 1
      && ns[0].offset == FirstBlockOffsetInBytes
      && ns[|ns| - 1].offset + ns[|ns| - 1].size == QuadsToBytes(|s| - 1)
      && (forall i :: 0 <= i < |ns| - 1 ==> ns[i].kind == Used)
      && (ns[|ns| - 1].kind == Free <==> s[TrailerPointerOffsetInQuads] != HeaderOffsetInQuads)
      && (s[TrailerPointerOffsetInQuads] != HeaderOffsetInQuads ==>
            ns[|ns| - 1].offset == QuadsToBytes(s[TrailerPointerOffsetInQuads]))
  {
    var fp := s[TrailerPointerOffsetInQuads];
    if fp == HeaderOffsetInQuads {
      assert InspectFrom(s, |s| + 1) == Ok([]);
      ChainInspect(s, FirstBlockOffsetInQuads, |s| + 1);
      UsedNodesShape(s, FirstBlockOffsetInQuads, |s| + 1);
      assert UsedNodes(s, FirstBlockOffsetInQuads, |s| + 1) + [] == UsedNodes(s, FirstBlockOffsetInQuads, |s| + 1);
      assert InspectFrom(s, FirstBlockOffsetInQuads).value == UsedNodes(s, FirstBlockOffsetInQuads, |s| + 1);
    } else {
      var size := s[fp - 1];
      assert InspectFrom(s, fp + size + PointerOverheadInQuads) == Ok([]);
      assert IsFree(s, fp) && ReadSize(s, fp) == size;
      assert [ReadListNode(s, fp)] + [] == [ReadListNode(s, fp)];
      assert InspectFrom(s, fp) == Ok([ReadListNode(s, fp)]);
      ChainInspect(s, FirstBlockOffsetInQuads, fp);
      UsedNodesShape(s, FirstBlockOffsetInQuads, fp);
      var ns := InspectFrom(s, FirstBlockOffsetInQuads).value;
      assert ns == UsedNodes(s, FirstBlockOffsetInQuads, fp) + [ReadListNode(s, fp)];
      assert ns[|ns| - 1] == ReadListNode(s, fp);
    }
    InspectContiguous(s, FirstBlockOffsetInQuads);
  }

  /** A freshly initialised arena of at least 71 words is well formed. */
  lemma InitialWf(s: seq<int>)
    requires |s| >= FirstBlockOffsetInQuads + 3
    ensures Wf(InitialImage(s))
  {
    InitialImageVerifies(s);
    var r := InitialImage(s);
    assert UsedChain(r, FirstBlockOffsetInQuads, FirstBlockOffsetInQuads);
  }

  /**
   * At 70 words the initial free block has a single word, which the
   * integrity walk rejects, so constructing over such a region fails.
   */
  lemma InitialTooSmall(s: seq<int>)
    requires |s| == FirstBlockOffsetInQuads + 2
    ensures !Walk(InitialImage(s), FirstBlockOffsetInQuads)
  {
    InitialImageVerifies(s);
  }
}
