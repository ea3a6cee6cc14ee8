/*
 * What each allocator operation does to the block sequence
 * (malloclab-handout/mm.c): free turns a block free, coalesce merges it
 * with its free neighbours, extend_heap adds a free block at the end,
 * place takes a free block whole or splits it in two.
 *
 * Used(B) is what a program calling the allocator sees: the address
 * and size of every allocated block, in address order.
 */
module MmBlocks {
  import opened MmCodec
  import opened MmHeap
  import opened MmTiles
  import opened MmSteps

  /* ---------- sizes of runs of blocks ---------- */

  /** The sum of the sizes of a run of blocks. */
  function SizeSum(W: seq<Blk>): nat {
    if |W| == 0 then 0 else SizeSum(W[..|W| - 1]) + W[|W| - 1].size
  }

  /** Blocks that follow each other without a gap. */
  predicate Adjacent(W: seq<Blk>) {
    forall k :: 0 < k < |W| ==> Abuts(W, k)
  }

  /** A run of adjacent blocks spans the sum of their sizes. */
  lemma {:induction false} SizeSumSpan(W: seq<Blk>)
    requires |W| > 0 && Adjacent(W)
    ensures End(W[|W| - 1]) == W[0].bp + SizeSum(W)
    decreases |W|
  {
    if |W| > 1 {
      var n := |W| - 1;
      forall k | 0 < k < n
        ensures Abuts(W[..n], k)
      {
        assert Abuts(W, k);
      }
      SizeSumSpan(W[..n]);
      assert W[..n][n - 1] == W[n - 1];
      assert Abuts(W, n);
    }
  }

  /** A window of tiled blocks is a run of adjacent blocks. */
  lemma WindowAdjacent(B: seq<Blk>, top: nat, i: nat, j: nat)
    requires Tiled(B, top) && i < j <= |B|
    ensures Adjacent(B[i..j])
  {
    var W := B[i..j];
    forall k | 0 < k < |W|
      ensures Abuts(W, k)
    {
      assert W[k - 1] == B[i + k - 1] && W[k] == B[i + k];
      assert Abuts(B, i + k);
    }
  }

  /* ---------- the allocated blocks ---------- */

  /** The payload address and size of a block. */
  datatype Extent = Extent(bp: nat, size: nat)

  /** The extent of a block if its allocated bit is `alloc`. */
  function Taken(b: Blk, alloc: bool): seq<Extent> {
    if b.alloc == alloc then [Extent(b.bp, b.size)] else []
  }

  /** The extents of the blocks whose allocated bit is `alloc`, in address order. */
  function Extents(B: seq<Blk>, alloc: bool): seq<Extent> {
    if |B| == 0 then [] else Extents(B[..|B| - 1], alloc) + Taken(B[|B| - 1], alloc)
  }

  /** What the program holds: the extent of every allocated block. */
  function Used(B: seq<Blk>): seq<Extent> {
    Extents(B, true)
  }

  lemma {:induction false} ExtentsAppend(P: seq<Blk>, Q: seq<Blk>, alloc: bool)
    ensures Extents(P + Q, alloc) == Extents(P, alloc) + Extents(Q, alloc)
    decreases |Q|
  {
    if |Q| > 0 {
      var n := |Q| - 1;
      assert (P + Q)[..|P + Q| - 1] == P + Q[..n];
      ExtentsAppend(P, Q[..n], alloc);
    } else {
      assert P + Q == P;
    }
  }

  lemma UsedAppend(P: seq<Blk>, Q: seq<Blk>)
    ensures Used(P + Q) == Used(P) + Used(Q)
  {
    ExtentsAppend(P, Q, true);
  }

  lemma ExtentsOne(b: Blk, alloc: bool)
    ensures Extents([b], alloc) == Taken(b, alloc)
  {
    assert [b][..0] == [];
  }

  /** The allocated blocks around position k. */
  lemma UsedAround(B: seq<Blk>, k: nat)
    requires k < |B|
    ensures Used(B) == Used(B[..k]) + Taken(B[k], true) + Used(B[k + 1..])
  {
    assert B == B[..k] + [B[k]] + B[k + 1..];
    ExtentsAppend(B[..k] + [B[k]], B[k + 1..], true);
    ExtentsAppend(B[..k], [B[k]], true);
    ExtentsOne(B[k], true);
  }

  /** The allocated blocks of a sequence with a window replaced. */
  lemma UsedSplice(B: seq<Blk>, i: nat, j: nat, W: seq<Blk>)
    requires i <= j <= |B|
    ensures Used(Splice(B, i, j, W)) == Used(B[..i]) + Used(W) + Used(B[j..])
    ensures Used(B) == Used(B[..i]) + Used(B[i..j]) + Used(B[j..])
  {
    UsedAppend(B[..i] + W, B[j..]);
    UsedAppend(B[..i], W);
    assert B == B[..i] + B[i..j] + B[j..];
    UsedAppend(B[..i] + B[i..j], B[j..]);
    UsedAppend(B[..i], B[i..j]);
  }

  /** A run of free blocks holds no allocated block. */
  lemma UsedNone(W: seq<Blk>)
    requires forall x :: 0 <= x < |W| ==> !W[x].alloc
    ensures Used(W) == []
  {
    ExtentsNone(W, true);
  }

  lemma {:induction false} ExtentsNone(W: seq<Blk>, alloc: bool)
    requires forall x :: 0 <= x < |W| ==> W[x].alloc != alloc
    ensures Extents(W, alloc) == []
    decreases |W|
  {
    if |W| > 0 {
      ExtentsNone(W[..|W| - 1], alloc);
    }
  }

  /** Changing a block's prev-alloc bit leaves the allocated blocks alone. */
  lemma UsedPrev(B: seq<Blk>, k: nat, prevAlloc: bool)
    requires k < |B|
    ensures Used(B[k := B[k].(prevAlloc := prevAlloc)]) == Used(B)
  {
    UsedAround(B, k);
    UsedAround(B[k := B[k].(prevAlloc := prevAlloc)], k);
    assert B[k := B[k].(prevAlloc := prevAlloc)][..k] == B[..k];
    assert B[k := B[k].(prevAlloc := prevAlloc)][k + 1..] == B[k + 1..];
  }

  /* ---------- free ---------- */

  /** The blocks after free(ptr) writes the header and footer of block k, before coalescing. */
  function Freed(B: seq<Blk>, k: nat): (r: seq<Blk>)
    requires k < |B|
    ensures |r| == |B| && !r[k].alloc
    ensures r[k].bp == B[k].bp && r[k].size == B[k].size && r[k].prevAlloc == B[k].prevAlloc
    ensures forall x {:trigger r[x]} :: 0 <= x < |B| && x != k ==> r[x] == B[x]
  {
    B[k := B[k].(alloc := false)]
  }

  /** Freeing block k takes exactly its address and size out of the allocated blocks. */
  lemma FreedUsed(B: seq<Blk>, k: nat)
    requires k < |B| && B[k].alloc
    ensures Used(B) == Used(B[..k]) + [Extent(B[k].bp, B[k].size)] + Used(B[k + 1..])
    ensures Used(Freed(B, k)) == Used(B[..k]) + Used(B[k + 1..])
  {
    UsedAround(B, k);
    UsedAround(Freed(B, k), k);
    assert Freed(B, k)[..k] == B[..k] && Freed(B, k)[k + 1..] == B[k + 1..];
  }

  /* ---------- coalesce ---------- */

  /** The first block coalesce merges: the free block t or its free predecessor. */
  function MergeFrom(B: seq<Blk>, t: nat): (i: nat)
    requires t < |B|
    ensures i == t || (i == t - 1 && t > 0 && !B[t - 1].alloc)
    ensures i == t ==> t == 0 || B[t - 1].alloc
  {
    if t > 0 && !B[t - 1].alloc then t - 1 else t
  }

  /** The block after the last one coalesce merges: past t or past its free successor. */
  function MergeTo(B: seq<Blk>, t: nat): (j: nat)
    requires t < |B|
    ensures j == t + 1 || (j == t + 2 && t + 1 < |B| && !B[t + 1].alloc)
    ensures j == t + 1 ==> t + 1 == |B| || B[t + 1].alloc
    ensures j <= |B|
  {
    if t + 1 < |B| && !B[t + 1].alloc then t + 2 else t + 1
  }

  /** The single free block that replaces blocks i up to j: the first address, the sizes summed. */
  function Merged(B: seq<Blk>, i: nat, j: nat): Blk
    requires i < j <= |B|
  {
    Blk(B[i].bp, SizeSum(B[i..j]), false, B[i].prevAlloc)
  }

  /** The block after position k, if any, with its prev-alloc bit set to the given value. */
  function SetPrevOfNext(B: seq<Blk>, k: nat, prevAlloc: bool): (r: seq<Blk>)
    ensures |r| == |B|
    ensures forall x {:trigger r[x]} :: 0 <= x < |B| && x != k + 1 ==> r[x] == B[x]
    ensures k + 1 < |B| ==> r[k + 1] == B[k + 1].(prevAlloc := prevAlloc)
  {
    if k + 1 < |B| then B[k + 1 := B[k + 1].(prevAlloc := prevAlloc)] else B
  }

  lemma UsedPrevOfNext(B: seq<Blk>, k: nat, prevAlloc: bool)
    ensures Used(SetPrevOfNext(B, k, prevAlloc)) == Used(B)
  {
    if k + 1 < |B| {
      UsedPrev(B, k + 1, prevAlloc);
    }
  }

  /**
   * The blocks after coalesce(bp) for the free block t: t and its free
   * neighbours become one free block at the lowest of their addresses,
   * and the block after it learns that its predecessor is free.
   */
  function Coalesced(B: seq<Blk>, t: nat): seq<Blk>
    requires t < |B|
  {
    var i, j := MergeFrom(B, t), MergeTo(B, t);
    SetPrevOfNext(Splice(B, i, j, [Merged(B, i, j)]), i, false)
  }

  /** The merged block covers the bytes of the blocks it replaces. */
  lemma MergedTiles(B: seq<Blk>, top: nat, i: nat, j: nat)
    requires Tiled(B, top) && i < j <= |B|
    ensures End(Merged(B, i, j)) == End(B[j - 1])
    ensures TilesFrom([Merged(B, i, j)], B[i].bp, End(B[j - 1]))
  {
    WindowAdjacent(B, top, i, j);
    SizeSumSpan(B[i..j]);
    assert B[i..j][0] == B[i] && B[i..j][j - i - 1] == B[j - 1];
    Sorted2(B, top, i, j - 1);
  }

  /** A later block ends no earlier than an earlier one starts, with room for a whole block. */
  lemma Sorted2(B: seq<Blk>, top: nat, i: nat, j: nat)
    requires Tiled(B, top) && i <= j < |B|
    ensures B[i].bp + B[i].size <= End(B[j])
  {
    if i < j {
      Sorted(B, top, i, j);
    }
  }

  /** Changing prev-alloc bits keeps the tiling. */
  lemma TiledPrevOfNext(B: seq<Blk>, top: nat, k: nat, prevAlloc: bool)
    requires Tiled(B, top)
    ensures Tiled(SetPrevOfNext(B, k, prevAlloc), top)
  {
    var C := SetPrevOfNext(B, k, prevAlloc);
    forall x | 0 < x < |C|
      ensures Abuts(C, x)
    {
      assert Abuts(B, x);
    }
  }

  /** coalesce keeps the blocks tiling the heap. */
  lemma CoalescedTiled(B: seq<Blk>, top: nat, t: nat)
    requires Tiled(B, top) && t < |B|
    ensures Tiled(Coalesced(B, t), top)
  {
    var i, j := MergeFrom(B, t), MergeTo(B, t);
    MergedTiles(B, top, i, j);
    SpliceTiled(B, top, i, j, [Merged(B, i, j)]);
    TiledPrevOfNext(Splice(B, i, j, [Merged(B, i, j)]), top, i, false);
  }

  /** Coalescing a free block only merges free blocks: the allocated blocks stay as they were. */
  lemma CoalescedUsed(B: seq<Blk>, t: nat)
    requires t < |B| && !B[t].alloc
    ensures Used(Coalesced(B, t)) == Used(B)
  {
    var i, j := MergeFrom(B, t), MergeTo(B, t);
    var M := Merged(B, i, j);
    UsedSplice(B, i, j, [M]);
    UsedNone(B[i..j]);
    ExtentsOne(M, true);
    UsedPrevOfNext(Splice(B, i, j, [M]), i, false);
  }

  /** The blocks after coalescing, position by position. */
  lemma CoalescedAt(B: seq<Blk>, t: nat, k: nat)
    requires t < |B|
    ensures var i, j := MergeFrom(B, t), MergeTo(B, t);
      |Coalesced(B, t)| == |B| - (j - i) + 1
    ensures var i, j, C := MergeFrom(B, t), MergeTo(B, t), Coalesced(B, t);
      && C[i] == Merged(B, i, j)
      && (k < i ==> C[k] == B[k])
      && (k == i + 1 < |C| ==> C[k] == B[j].(prevAlloc := false))
      && (i + 1 < k < |C| ==> C[k] == B[k + j - i - 1])
  {
  }

  /** What the tags of B say when they are right with block t counted as allocated. */
  lemma HiddenTags(B: seq<Blk>, t: nat, x: nat)
    requires t < |B| && Marked(Hide(B, t)) && x < |B|
    ensures B[x].prevAlloc == (x == 0 || x - 1 == t || B[x - 1].alloc)
    ensures x > 0 ==> x - 1 == t || x == t || B[x - 1].alloc || B[x].alloc
  {
    var H := Hide(B, t);
    assert PrevOk(H, x);
    if x > 0 {
      MarkedApart(H, x);
    }
  }

  /** After coalescing, every prev-alloc bit tells the truth. */
  lemma CoalescedPrevOk(B: seq<Blk>, t: nat, k: nat)
    requires t < |B| && !B[t].alloc && Marked(Hide(B, t))
    requires k < |Coalesced(B, t)|
    ensures PrevOk(Coalesced(B, t), k)
  {
    var i, j := MergeFrom(B, t), MergeTo(B, t);
    CoalescedAt(B, t, k);
    if k < i {
      HiddenTags(B, t, k);
      if k > 0 {
        CoalescedAt(B, t, k - 1);
      }
    } else if k == i {
      HiddenTags(B, t, i);
      if i > 0 {
        CoalescedAt(B, t, i - 1);
      }
    } else if k == i + 1 {
    } else {
      CoalescedAt(B, t, k - 1);
      HiddenTags(B, t, k + j - i - 1);
    }
  }

  /** After coalescing, no two free blocks touch. */
  lemma CoalescedApart(B: seq<Blk>, t: nat, k: nat)
    requires t < |B| && !B[t].alloc && Marked(Hide(B, t))
    requires 0 < k < |Coalesced(B, t)|
    ensures Coalesced(B, t)[k - 1].alloc || Coalesced(B, t)[k].alloc
  {
    var i, j := MergeFrom(B, t), MergeTo(B, t);
    CoalescedAt(B, t, k);
    CoalescedAt(B, t, k - 1);
    if k < i {
      HiddenTags(B, t, k);
    } else if k == i {
      HiddenTags(B, t, i);
    } else if k == i + 1 {
      if j == t + 2 {
        HiddenTags(B, t, t + 2);
      }
    } else {
      HiddenTags(B, t, k + j - i - 1);
    }
  }

  /**
   * coalesce leaves the block tags right: if they were right with the
   * new free block t counted as allocated, they are right afterwards,
   * and the epilogue's prev-alloc bit must be cleared exactly when the
   * merged block is the last one.
   */
  lemma CoalescedMarked(B: seq<Blk>, t: nat)
    requires t < |B| && !B[t].alloc && Marked(Hide(B, t))
    ensures Marked(Coalesced(B, t))
    ensures LastAlloc(Coalesced(B, t)) == (LastAlloc(Hide(B, t)) && MergeTo(B, t) < |B|)
  {
    var C := Coalesced(B, t);
    forall k | 0 <= k < |C|
      ensures PrevOk(C, k)
    {
      CoalescedPrevOk(B, t, k);
    }
    forall k | 0 <= k < |C|
      ensures C[k].alloc || C[k].prevAlloc
    {
      CoalescedPrevOk(B, t, k);
      if k > 0 {
        CoalescedApart(B, t, k);
      }
    }
    CoalescedAt(B, t, |C| - 1);
  }

  /** A single block is merged into itself. */
  lemma SizeSumOne(b: Blk)
    ensures SizeSum([b]) == b.size
  {
    assert [b][..0] == [];
  }

  /** Coalescing a block with allocated neighbours only clears its successor's prev-alloc bit. */
  lemma CoalescedAlone(B: seq<Blk>, t: nat)
    requires t < |B| && !B[t].alloc
    requires (t == 0 || B[t - 1].alloc) && (t + 1 == |B| || B[t + 1].alloc)
    ensures Coalesced(B, t) == SetPrevOfNext(B, t, false)
  {
    assert B[t..t + 1] == [B[t]];
    SizeSumOne(B[t]);
    assert Merged(B, t, t + 1) == B[t];
    SpliceOne(B, t, B[t]);
    assert B[t := B[t]] == B;
  }

  /* ---------- extend_heap ---------- */

  /** The blocks after extend_heap adds a free block of the given size at address top. */
  function Extended(B: seq<Blk>, top: nat, size: nat): (r: seq<Blk>)
    ensures |r| == |B| + 1 && r[..|B|] == B
    ensures r[|B|] == Blk(top, size, false, LastAlloc(B))
  {
    B + [Blk(top, size, false, LastAlloc(B))]
  }

  /** A new free block at the end is tagged right once counted as allocated. */
  lemma ExtendedMarked(B: seq<Blk>, top: nat, size: nat)
    requires Marked(B)
    ensures Marked(Hide(Extended(B, top, size), |B|))
    ensures LastAlloc(Hide(Extended(B, top, size), |B|))
  {
    var H := Hide(Extended(B, top, size), |B|);
    forall k | 0 <= k < |H|
      ensures PrevOk(H, k)
    {
      if k < |B| {
        assert PrevOk(B, k);
      }
    }
    forall k | 0 <= k < |H|
      ensures H[k].alloc || H[k].prevAlloc
    {
      if k < |B| {
        assert B[k].alloc || B[k].prevAlloc;
      }
    }
  }

  /** Growing the heap hands out nothing. */
  lemma ExtendedUsed(B: seq<Blk>, top: nat, size: nat)
    ensures Used(Extended(B, top, size)) == Used(B)
  {
    var b := Blk(top, size, false, LastAlloc(B));
    ExtentsAppend(B, [b], true);
    ExtentsOne(b, true);
  }

  /** The block coalesce builds after extend_heap: the new block, merged with a free last block. */
  lemma ExtendedMerge(B: seq<Blk>, top: nat, size: nat)
    ensures var E := Extended(B, top, size);
      var i, j := MergeFrom(E, |B|), MergeTo(E, |B|);
      j == |E| && Merged(E, i, j).size == size + (if LastAlloc(B) then 0 else B[|B| - 1].size)
  {
    var E := Extended(B, top, size);
    if LastAlloc(B) {
      assert E[|B|..|B| + 1] == [E[|B|]];
      SizeSumOne(E[|B|]);
    } else {
      var W := E[|B| - 1..|B| + 1];
      assert W[..1] == [B[|B| - 1]];
      SizeSumOne(B[|B| - 1]);
    }
  }

  /* ---------- place ---------- */

  /** The size of the block place hands out: the request, or the whole block when the rest would be too small. */
  function Granted(csize: nat, asize: nat): (s: nat)
    requires asize <= csize
    ensures asize <= s <= csize
    ensures s == asize || csize - asize < MIN_FREE_SIZE
  {
    if csize - asize >= MIN_FREE_SIZE then asize else csize
  }

  /**
   * The blocks after place(bp, asize) on the free block k: when at least
   * a minimum block would be left over, the block splits into an
   * allocated block of asize bytes and a free remainder; otherwise it is
   * allocated whole and its successor learns that.
   */
  function Placed(B: seq<Blk>, k: nat, asize: nat): seq<Blk>
    requires k < |B| && asize <= B[k].size
  {
    var b := B[k];
    if b.size - asize >= MIN_FREE_SIZE then
      Splice(B, k, k + 1, [Blk(b.bp, asize, true, b.prevAlloc), Blk(b.bp + asize, b.size - asize, false, true)])
    else
      SetPrevOfNext(B[k := Blk(b.bp, b.size, true, true)], k, true)
  }

  /** The two blocks place splits a free block into. */
  function Split(b: Blk, asize: nat): seq<Blk>
    requires asize <= b.size
  {
    [Blk(b.bp, asize, true, b.prevAlloc), Blk(b.bp + asize, b.size - asize, false, true)]
  }

  /** The block place hands out whole. */
  function Whole(b: Blk): Blk {
    Blk(b.bp, b.size, true, true)
  }

  lemma PlacedForm(B: seq<Blk>, k: nat, asize: nat)
    requires k < |B| && asize <= B[k].size
    ensures B[k].size - asize >= MIN_FREE_SIZE ==> Placed(B, k, asize) == Splice(B, k, k + 1, Split(B[k], asize))
    ensures B[k].size - asize < MIN_FREE_SIZE ==> Placed(B, k, asize) == SetPrevOfNext(B[k := Whole(B[k])], k, true)
  {
  }

  /** place keeps the blocks tiling the heap. */
  lemma PlacedTiled(B: seq<Blk>, top: nat, k: nat, asize: nat)
    requires Tiled(B, top) && k < |B| && asize <= B[k].size
    requires asize % 8 == 0 && asize >= MIN_FREE_SIZE
    ensures Tiled(Placed(B, k, asize), top)
  {
    PlacedForm(B, k, asize);
    if B[k].size - asize >= MIN_FREE_SIZE {
      SplitTiles(B[k], asize);
      SpliceTiled(B, top, k, k + 1, Split(B[k], asize));
    } else {
      WholeTiled(B, top, k);
    }
  }

  lemma SplitTiles(b: Blk, asize: nat)
    requires BlockShape(b) && asize <= b.size && b.size - asize >= MIN_FREE_SIZE
    requires asize % 8 == 0 && asize >= MIN_FREE_SIZE
    ensures TilesFrom(Split(b, asize), b.bp, End(b))
  {
  }

  lemma WholeTiled(B: seq<Blk>, top: nat, k: nat)
    requires Tiled(B, top) && k < |B|
    ensures Tiled(SetPrevOfNext(B[k := Whole(B[k])], k, true), top)
  {
    SpliceOne(B, k, Whole(B[k]));
    SpliceTiled(B, top, k, k + 1, [Whole(B[k])]);
    TiledPrevOfNext(B[k := Whole(B[k])], top, k, true);
  }

  /** The blocks after place, position by position. */
  lemma PlacedAt(B: seq<Blk>, k: nat, asize: nat, x: nat)
    requires k < |B| && asize <= B[k].size
    ensures var P, b := Placed(B, k, asize), B[k];
      if b.size - asize >= MIN_FREE_SIZE then
        && |P| == |B| + 1
        && P[k] == Blk(b.bp, asize, true, b.prevAlloc)
        && P[k + 1] == Blk(b.bp + asize, b.size - asize, false, true)
        && (x < k ==> P[x] == B[x])
        && (k + 1 < x < |P| ==> P[x] == B[x - 1])
      else
        && |P| == |B|
        && P[k] == Blk(b.bp, b.size, true, true)
        && (k + 1 < |B| ==> P[k + 1] == B[k + 1].(prevAlloc := true))
        && (x < |B| && x != k && x != k + 1 ==> P[x] == B[x])
  {
  }

  /** After place, every prev-alloc bit tells the truth and no two free blocks touch. */
  lemma PlacedMarked(B: seq<Blk>, k: nat, asize: nat)
    requires Marked(B) && k < |B| && !B[k].alloc && asize <= B[k].size
    ensures Marked(Placed(B, k, asize))
    ensures LastAlloc(Placed(B, k, asize)) == if k + 1 == |B| then B[k].size - asize < MIN_FREE_SIZE else LastAlloc(B)
  {
    var P := Placed(B, k, asize);
    var split := B[k].size - asize >= MIN_FREE_SIZE;
    assert PrevOk(B, k);
    if k > 0 {
      assert B[k - 1].alloc;
    }
    if k + 1 < |B| {
      assert PrevOk(B, k + 1);
    }
    forall x | 0 <= x < |P|
      ensures PrevOk(P, x)
    {
      PlacedAt(B, k, asize, x);
      if x > 0 {
        PlacedAt(B, k, asize, x - 1);
      }
      if split {
        if x < k {
          assert PrevOk(B, x);
        } else if k + 1 < x {
          assert PrevOk(B, x - 1);
          if x - 1 > k + 1 {
            PlacedAt(B, k, asize, x - 1);
          }
        }
      } else if x != k && x != k + 1 {
        assert PrevOk(B, x);
      }
    }
    forall x | 0 <= x < |P|
      ensures P[x].alloc || P[x].prevAlloc
    {
      PlacedAt(B, k, asize, x);
      if split {
        if x < k {
          assert B[x].alloc || B[x].prevAlloc;
        } else if k + 1 < x {
          assert B[x - 1].alloc || B[x - 1].prevAlloc;
        }
      } else if x != k && x != k + 1 {
        assert B[x].alloc || B[x].prevAlloc;
      }
    }
    PlacedAt(B, k, asize, |P| - 1);
  }

  /** place hands out exactly one extent: the block's address with the granted size. */
  lemma PlacedUsed(B: seq<Blk>, k: nat, asize: nat)
    requires k < |B| && !B[k].alloc && asize <= B[k].size
    ensures Used(B) == Used(B[..k]) + Used(B[k + 1..])
    ensures Used(Placed(B, k, asize)) == Used(B[..k]) + [Extent(B[k].bp, Granted(B[k].size, asize))] + Used(B[k + 1..])
  {
    UsedAround(B, k);
    PlacedForm(B, k, asize);
    if B[k].size - asize >= MIN_FREE_SIZE {
      SplitUsed(B, k, asize);
    } else {
      WholeUsed(B, k);
    }
  }

  lemma SplitUsed(B: seq<Blk>, k: nat, asize: nat)
    requires k < |B| && asize <= B[k].size
    ensures Used(Splice(B, k, k + 1, Split(B[k], asize))) == Used(B[..k]) + [Extent(B[k].bp, asize)] + Used(B[k + 1..])
  {
    var W := Split(B[k], asize);
    UsedSplice(B, k, k + 1, W);
    ExtentsTwo(W[0], W[1], true);
    assert [W[0], W[1]] == W;
  }

  lemma ExtentsTwo(a: Blk, b: Blk, alloc: bool)
    ensures Extents([a, b], alloc) == Taken(a, alloc) + Taken(b, alloc)
  {
    assert [a, b][..1] == [a];
    ExtentsOne(a, alloc);
  }

  lemma WholeUsed(B: seq<Blk>, k: nat)
    requires k < |B|
    ensures Used(SetPrevOfNext(B[k := Whole(B[k])], k, true)) == Used(B[..k]) + [Extent(B[k].bp, B[k].size)] + Used(B[k + 1..])
  {
    var A := Whole(B[k]);
    UsedPrevOfNext(B[k := A], k, true);
    UsedAround(B[k := A], k);
    assert B[k := A][..k] == B[..k] && B[k := A][k + 1..] == B[k + 1..];
  }
}
