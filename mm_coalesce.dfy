/*
 * coalesce(bp) of malloclab-handout/mm.c, step by step: the states
 * between its writes and the proofs that each write keeps the heap
 * readable, ending in a consistent heap whose blocks are Coalesced.
 */
module MmCoalesce {
  import opened MmCodec
  import opened MmHeap
  import opened MmLinks
  import opened MmTiles
  import opened MmSteps
  import opened MmBlocks

  /** What insert(bp, size) needs: link words at bp, at the list's dummy and at its first node. */
  predicate CanInsert(m: seq<u32>, bp: nat, size: nat) {
    var d := Dummy(ListIndex(size));
    HasFields(m, d) && HasFields(m, bp) && FIRST_BP <= bp < MAX_HEAP_SIZE && HasFields(m, NextOf(m, d))
  }

  /** The words after insert(bp, size). */
  function Inserted(m: seq<u32>, bp: nat, size: nat): (r: seq<u32>)
    requires CanInsert(m, bp, size)
    ensures |r| == |m|
  {
    InsertWords(m, Dummy(ListIndex(size)), bp, NextOf(m, Dummy(ListIndex(size))))
  }

  /** The words after case 1 of coalesce(bp) on a block of the given size. */
  function NoneWords(m: seq<u32>, bp: nat, size: nat): (r: seq<u32>)
    requires CanInsert(m, bp, size) && bp + size >= 4 && (bp + size - 4) / 4 < |m|
  {
    var m1 := Inserted(m, bp, size);
    var next := (bp + size - 4) / 4;
    m1[next := SetPrevFree(m1[next])]
  }

  /**
   * The state coalesce starts from: block t is free but on no list and
   * its successor's prev-alloc bit still says allocated; with t counted
   * as allocated, the heap is consistent.
   */
  ghost predicate Pending(m: seq<u32>, B: seq<Blk>, L: seq<seq<nat>>, t: nat) {
    var ok := t < |B| && !B[t].alloc && Inv(m, B, L, Hide(B, t)) && Marked(Hide(B, t))
      && EpilogueOk(m[|m| - 1], LastAlloc(Hide(B, t)));
    ok
  }

  /** The header after block t: its successor's, or the epilogue when t is the last block. */
  lemma ReadNext(m: seq<u32>, B: seq<Blk>, t: nat)
    requires Shape(m, B) && t < |B|
    ensures Stop(B[t]) < |m| && Stop(B[t]) == (B[t].bp + B[t].size - 4) / 4
    ensures t + 1 < |B| ==> Stop(B[t]) == HdrW(B[t + 1].bp) && Stop(B[t]) < |m| - 1
    ensures t + 1 == |B| ==> Stop(B[t]) == |m| - 1
  {
    assert BlockOk(m, B[t]);
    if t + 1 < |B| {
      assert BlockOk(m, B[t + 1]);
      BlockWords(B[t + 1]);
      assert Abuts(B, t + 1);
    }
  }

  /** Two adjacent nodes of a list, or a node and its dummy, differ. */
  lemma NeighbourApart(m: seq<u32>, L: seq<seq<nat>>, c: nat, j: nat)
    requires ListsOk(m, L) && c < LIST_NUM && j < |L[c]|
    ensures Before(Dummy(c), L[c], j) != L[c][j]
  {
    ListSimple(m, L, c);
    if j > 0 {
      assert Differ(L[c], j - 1, j);
    }
  }

  /**
   * SET_PREV_ALLOC or SET_PREV_FREE on the header after block k: the
   * successor's header, or the epilogue when k is the last block.
   */
  lemma NextBitStep(m: seq<u32>, B: seq<Blk>, L: seq<seq<nat>>, H: seq<Blk>, k: nat, prevAlloc: bool)
    requires Inv(m, B, L, H) && k < |B|
    ensures Stop(B[k]) < |m| && Stop(B[k]) == (B[k].bp + B[k].size - 4) / 4
    ensures var nh := Stop(B[k]);
      Inv(m[nh := WithPrev(m[nh], prevAlloc)], SetPrevOfNext(B, k, prevAlloc), L, SetPrevOfNext(H, k, prevAlloc))
    ensures k + 1 < |B| ==> Stop(B[k]) < |m| - 1
    ensures k + 1 == |B| ==> Stop(B[k]) == |m| - 1
  {
    ReadNext(m, B, k);
    var nh := Stop(B[k]);
    var m' := m[nh := WithPrev(m[nh], prevAlloc)];
    if k + 1 < |B| {
      PrevStep(m, B, L, H, k + 1, prevAlloc);
      var h := HdrW(B[k + 1].bp);
      SameInv(m[h := WithPrev(m[h], prevAlloc)], B[k + 1 := B[k + 1].(prevAlloc := prevAlloc)], L, H[k + 1 := H[k + 1].(prevAlloc := prevAlloc)],
        m', SetPrevOfNext(B, k, prevAlloc), SetPrevOfNext(H, k, prevAlloc));
    } else {
      EpilogueStep(m, B, L, H, WithPrev(m[|m| - 1], prevAlloc));
      SameInv(m[|m| - 1 := WithPrev(m[|m| - 1], prevAlloc)], B, L, H, m', SetPrevOfNext(B, k, prevAlloc), SetPrevOfNext(H, k, prevAlloc));
    }
  }

  /** What case 1 of coalesce writes: the block onto its list, then its successor's prev-alloc bit cleared. */
  lemma MergeNoneOk(m: seq<u32>, B: seq<Blk>, L: seq<seq<nat>>, t: nat)
    requires Pending(m, B, L, t)
    requires (t == 0 || B[t - 1].alloc) && (t + 1 == |B| || B[t + 1].alloc)
    ensures CanInsert(m, B[t].bp, B[t].size) && B[t].bp + B[t].size >= 4 && Stop(B[t]) < |m|
    ensures Consistent(NoneWords(m, B[t].bp, B[t].size), Coalesced(B, t), Push(L, ListIndex(B[t].size), B[t].bp))
  {
    assert BlockOk(m, B[t]);
    assert Lone(m, B, L, t);
    InsertShown(m, B, L, t);
    var m1, L1 := Inserted(m, B[t].bp, B[t].size), Push(L, ListIndex(B[t].size), B[t].bp);
    NoneTail(m1, B, L1, t);
    var nh := Stop(B[t]);
    SameHeap(m1[nh := SetPrevFree(m1[nh])], Coalesced(B, t), L1, NoneWords(m, B[t].bp, B[t].size), Coalesced(B, t));
  }

  /** The second write of case 1: the successor's prev-alloc bit cleared. */
  lemma NoneTail(m: seq<u32>, B: seq<Blk>, L: seq<seq<nat>>, t: nat)
    requires Shown(m, B, L) && t < |B| && !B[t].alloc && Marked(Hide(B, t))
    requires (t == 0 || B[t - 1].alloc) && (t + 1 == |B| || B[t + 1].alloc)
    requires EpilogueOk(m[|m| - 1], LastAlloc(Hide(B, t)))
    ensures Stop(B[t]) < |m|
    ensures Consistent(m[Stop(B[t]) := SetPrevFree(m[Stop(B[t])])], Coalesced(B, t), L)
  {
    ReadNext(m, B, t);
    var nh := Stop(B[t]);
    var m2 := m[nh := WithPrev(m[nh], false)];
    var C := Coalesced(B, t);
    NoneTags(m, m2, B, t);
    NextBitStep(m, B, L, B, t, false);
    CoalescedAlone(B, t);
    SameInv(m2, SetPrevOfNext(B, t, false), L, SetPrevOfNext(B, t, false), m2, C, C);
    Settled(m2, C, L);
    SameHeap(m2, C, L, m[nh := SetPrevFree(m[nh])], C);
  }

  /** After case 1 the tags hold: the merged block is block t itself, its successor told that it is free. */
  lemma NoneTags(m: seq<u32>, m2: seq<u32>, B: seq<Blk>, t: nat)
    requires t < |B| && !B[t].alloc && Marked(Hide(B, t))
    requires (t == 0 || B[t - 1].alloc) && (t + 1 == |B| || B[t + 1].alloc)
    requires |m2| == |m| > 0 && EpilogueOk(m[|m| - 1], LastAlloc(Hide(B, t)))
    requires t + 1 < |B| ==> m2[|m| - 1] == m[|m| - 1]
    requires t + 1 == |B| ==> m2[|m| - 1] == WithPrev(m[|m| - 1], false)
    ensures Marked(Coalesced(B, t)) && EpilogueOk(m2[|m2| - 1], LastAlloc(Coalesced(B, t)))
  {
    CoalescedMarked(B, t);
    TagsAfter(m, m2, B, t, Coalesced(B, t));
  }

  /** Inv is about values: equal words and blocks keep it. */
  lemma SameInv(m: seq<u32>, B: seq<Blk>, L: seq<seq<nat>>, H: seq<Blk>, m': seq<u32>, B': seq<Blk>, H': seq<Blk>)
    requires Inv(m, B, L, H) && m' == m && B' == B && H' == H
    ensures Inv(m', B', L, H')
  {
  }

  /** Consistent is about values: equal words and blocks are equally consistent. */
  lemma SameHeap(m: seq<u32>, B: seq<Blk>, L: seq<seq<nat>>, m': seq<u32>, B': seq<Blk>)
    requires Consistent(m, B, L) && m' == m && B' == B
    ensures Consistent(m', B', L)
  {
  }

  /** The epilogue after a coalesce-like step: unchanged unless the last block was rewritten. */
  lemma TagsAfter(m: seq<u32>, m2: seq<u32>, B: seq<Blk>, t: nat, C: seq<Blk>)
    requires t < |B| && |m| == |m2| > 0 && EpilogueOk(m[|m| - 1], LastAlloc(Hide(B, t)))
    requires t + 1 < |B| ==> m2[|m| - 1] == m[|m| - 1]
    requires t + 1 == |B| ==> m2[|m| - 1] == WithPrev(m[|m| - 1], false)
    requires LastAlloc(C) == (LastAlloc(Hide(B, t)) && t + 1 < |B|)
    ensures EpilogueOk(m2[|m2| - 1], LastAlloc(C))
  {
  }

  /** The tags after a merge that leaves the epilogue word as it was. */
  lemma TagsKept(m: seq<u32>, m1: seq<u32>, B: seq<Blk>, t: nat)
    requires t < |B| && !B[t].alloc && Marked(Hide(B, t))
    requires |m1| == |m| > 0 && m1[|m| - 1] == m[|m| - 1] && EpilogueOk(m[|m| - 1], LastAlloc(Hide(B, t)))
    requires MergeTo(B, t) < |B| || !LastAlloc(Hide(B, t))
    ensures Marked(Coalesced(B, t)) && EpilogueOk(m1[|m1| - 1], LastAlloc(Coalesced(B, t)))
  {
    CoalescedMarked(B, t);
    LastSame(m1, m);
  }

  /** Two heaps of one length that agree on the epilogue word. */
  lemma LastSame(m': seq<u32>, m: seq<u32>)
    requires |m'| == |m| > 0 && m'[|m| - 1] == m[|m| - 1]
    ensures m'[|m'| - 1] == m[|m| - 1]
  {
  }

  /** The invariant with exactly block i hidden in the view, as one fact. */
  predicate Lone(m: seq<u32>, C: seq<Blk>, L: seq<seq<nat>>, i: nat) {
    var ok := i < |C| && Inv(m, C, L, Hide(C, i));
    ok
  }

  /** The invariant with no block hidden in the view, as one fact. */
  predicate Shown(m: seq<u32>, B: seq<Blk>, L: seq<seq<nat>>) {
    var ok := Inv(m, B, L, B);
    ok
  }

  /** Between operations no block is hidden: the invariant and the tags make the heap consistent. */
  lemma Settled(m: seq<u32>, B: seq<Blk>, L: seq<seq<nat>>)
    requires Shown(m, B, L) && Marked(B) && EpilogueOk(m[|m| - 1], LastAlloc(B))
    ensures Consistent(m, B, L)
  {
  }

  /* ---------- the merging cases ---------- */

  /** What delete(bp) needs: link words at bp and at its two neighbours, and a predecessor other than bp. */
  predicate CanDelete(m: seq<u32>, bp: nat) {
    HasFields(m, bp) && HasFields(m, PrevOf(m, bp)) && HasFields(m, NextOf(m, bp)) && PrevOf(m, bp) != bp
  }

  /** The words after delete(bp). */
  function Deleted(m: seq<u32>, bp: nat): (r: seq<u32>)
    requires CanDelete(m, bp)
    ensures |r| == |m|
  {
    DeleteWords(m, bp, PrevOf(m, bp), NextOf(m, bp))
  }

  /** What writing a free block's header and footer needs: a well-formed size and both words in the heap. */
  predicate CanTag(m: seq<u32>, bp: nat, size: nat, prev: nat) {
    bp >= 8 && size >= 8 && size % 8 == 0 && size < MAX_HEAP_SIZE && IsPrevBit(prev) && (bp + size - 8) / 4 < |m|
  }

  /** The words after PUT(HDRP(bp), PACK(size, prev, 0)) and then PUT(FTRP(bp), PACK(size, 0, 0)). */
  function Tagged(m: seq<u32>, bp: nat, size: nat, prev: nat): (r: seq<u32>)
    requires CanTag(m, bp, size, prev)
    ensures |r| == |m|
  {
    m[HdrW(bp) := Pack(size, prev, 0)][(bp + size - 8) / 4 := Pack(size, 0, 0)]
  }

  /** The view while coalesce merges blocks i up to j: those blocks counted as allocated. */
  function Veiled(B: seq<Blk>, i: nat, j: nat): (H: seq<Blk>)
    ensures |H| == |B|
    ensures forall x {:trigger H[x]} :: 0 <= x < |B| ==> H[x] == if i <= x < j then B[x].(alloc := true) else B[x]
  {
    seq(|B|, x requires 0 <= x < |B| => if i <= x < j then B[x].(alloc := true) else B[x])
  }

  lemma HideVeiled(B: seq<Blk>, t: nat)
    requires t < |B|
    ensures Hide(B, t) == Veiled(B, t, t + 1)
  {
  }

  /** Hiding the block next to a hidden window widens the window. */
  lemma VeiledGrow(B: seq<Blk>, i: nat, j: nat, k: nat)
    requires i < j <= |B| && k < |B| && (k == j || k + 1 == i)
    ensures var lo, hi := if k < i then k else i, if k < i then j else j + 1;
      Veiled(B, i, j)[k := B[k].(alloc := true)] == Veiled(B, lo, hi)
  {
  }

  /** Merging a hidden window leaves the merged block hidden. */
  lemma VeiledSplice(B: seq<Blk>, i: nat, j: nat, M: Blk)
    requires i < j <= |B|
    ensures Splice(Veiled(B, i, j), i, j, Hidden([M])) == Hide(Splice(B, i, j, [M]), i)
  {
  }

  /** A block the view shows free is on the list of its class. */
  lemma NodeAt(m: seq<u32>, B: seq<Blk>, L: seq<seq<nat>>, H: seq<Blk>, k: nat) returns (c: nat, p: nat)
    requires Inv(m, B, L, H) && k < |B| && !H[k].alloc
    ensures c == ListIndex(B[k].size) && c < LIST_NUM && p < |L[c]| && L[c][p] == B[k].bp
    ensures FindBlock(B, B[k].bp) == k
  {
    c := ListIndex(B[k].size);
    assert H[k] == B[k];
    FreeSeqAround(H, k, c);
    assert ClassOk(H, L, c);
    assert B[k].bp in multiset(FreeSeq(H, c));
    assert B[k].bp in multiset(L[c]);
    p :| 0 <= p < |L[c]| && L[c][p] == B[k].bp;
    TiledAscending(B, 4 * |m|);
    FindBlockAt(B, k);
  }

  /**
   * delete on a free neighbour of the window being merged: the
   * neighbour leaves its list and joins the window.
   */
  lemma UnlinkStep(m: seq<u32>, B: seq<Blk>, L: seq<seq<nat>>, i: nat, j: nat, k: nat) returns (L': seq<seq<nat>>)
    requires i < j <= |B| && Inv(m, B, L, Veiled(B, i, j))
    requires k < |B| && !B[k].alloc && (k == j || k + 1 == i)
    ensures CanDelete(m, B[k].bp)
    ensures var lo, hi := if k < i then k else i, if k < i then j else j + 1;
      Inv(Deleted(m, B[k].bp), B, L', Veiled(B, lo, hi))
    ensures Deleted(m, B[k].bp)[|m| - 1] == m[|m| - 1]
  {
    var H := Veiled(B, i, j);
    var c, p := NodeAt(m, B, L, H, k);
    DeleteStep(m, B, L, H, c, p);
    NeighbourApart(m, L, c, p);
    L' := Unlink(L, c, p);
    var lo, hi := if k < i then k else i, if k < i then j else j + 1;
    VeiledGrow(B, i, j, k);
    var n := DeleteWords(m, L[c][p], Before(Dummy(c), L[c], p), After(Dummy(c), L[c], p));
    SameInv(n, B, L', H[k := H[k].(alloc := true)], Deleted(m, B[k].bp), B, Veiled(B, lo, hi));
  }

  /** The merged block's new header and footer describe it, inside the window's words. */
  lemma MergedWords(m: seq<u32>, B: seq<Blk>, i: nat, j: nat)
    requires Shape(m, B) && i < j <= |B|
    ensures var M := Merged(B, i, j);
      && TilesFrom([M], B[i].bp, End(B[j - 1])) && CanTag(m, M.bp, M.size, PrevBit(M.prevAlloc))
    ensures var M := Merged(B, i, j);
      var m' := Tagged(m, M.bp, M.size, PrevBit(M.prevAlloc));
      && Heads(m', [M])
      && (forall x :: 0 <= x < |m| && !InWindow(B, i, j, x) ==> m'[x] == m[x])
  {
    var M := Merged(B, i, j);
    MergedTiles(B, 4 * |m|, i, j);
    assert BlockShape(M);
    BlockWords(M);
    assert BlockShape(B[i]) && BlockShape(B[j - 1]);
    var m' := Tagged(m, M.bp, M.size, PrevBit(M.prevAlloc));
    assert BlockOk(m', M);
  }

  /**
   * The merged block's header and footer written: the window becomes one
   * free block, still hidden in the view.
   */
  lemma MergeRetile(m: seq<u32>, B: seq<Blk>, L: seq<seq<nat>>, i: nat, j: nat)
    requires i < j <= |B| && Inv(m, B, L, Veiled(B, i, j))
    ensures var M := Merged(B, i, j); CanTag(m, M.bp, M.size, PrevBit(M.prevAlloc))
    ensures var M := Merged(B, i, j);
      var m' := Tagged(m, M.bp, M.size, PrevBit(M.prevAlloc));
      Lone(m', Splice(B, i, j, [M]), L, i) && m'[|m| - 1] == m[|m| - 1]
  {
    var M := Merged(B, i, j);
    MergedWords(m, B, i, j);
    var m' := Tagged(m, M.bp, M.size, PrevBit(M.prevAlloc));
    RetileStep(m, B, L, Veiled(B, i, j), i, j, [M], m');
    VeiledSplice(B, i, j, M);
  }

  /** Counting block i as allocated and then as it is changes nothing. */
  lemma HideShow(C: seq<Blk>, i: nat)
    requires i < |C|
    ensures Hide(C, i)[i := C[i]] == C
  {
  }

  /** insert(bp, size) on the one hidden free block i: the view shows every block as it is. */
  lemma InsertShown(m: seq<u32>, C: seq<Blk>, L: seq<seq<nat>>, i: nat)
    requires Lone(m, C, L, i) && !C[i].alloc
    ensures CanInsert(m, C[i].bp, C[i].size)
    ensures var n := Inserted(m, C[i].bp, C[i].size);
      Shown(n, C, Push(L, ListIndex(C[i].size), C[i].bp)) && n[|m| - 1] == m[|m| - 1]
  {
    var c := ListIndex(C[i].size);
    InsertStep(m, C, L, Hide(C, i), i);
    HideShow(C, i);
    var n := Inserted(m, C[i].bp, C[i].size);
    SameInv(n, C, Push(L, c, C[i].bp), Hide(C, i)[i := C[i]], n, C, C);
  }

  /** insert(bp, size) on the one hidden free block i, with the tags right: the heap is consistent. */
  lemma InsertSettles(m: seq<u32>, C: seq<Blk>, L: seq<seq<nat>>, i: nat)
    requires Lone(m, C, L, i) && !C[i].alloc
    requires Marked(C) && EpilogueOk(m[|m| - 1], LastAlloc(C))
    ensures CanInsert(m, C[i].bp, C[i].size)
    ensures Consistent(Inserted(m, C[i].bp, C[i].size), C, Push(L, ListIndex(C[i].size), C[i].bp))
  {
    InsertShown(m, C, L, i);
    LastSame(Inserted(m, C[i].bp, C[i].size), m);
    Settled(Inserted(m, C[i].bp, C[i].size), C, Push(L, ListIndex(C[i].size), C[i].bp));
  }

  /* ---------- the common tail of cases 2 to 4 ---------- */

  /** What the last writes of cases 2 to 4 need: room for the merged block's tags, then for its insertion. */
  predicate CanMergeTail(m: seq<u32>, bp: nat, size: nat, prev: nat) {
    CanTag(m, bp, size, prev) && CanInsert(Tagged(m, bp, size, prev), bp, size)
  }

  /** The words after the merged block's header and footer are written and it is put on its list. */
  function MergeTail(m: seq<u32>, bp: nat, size: nat, prev: nat): seq<u32>
    requires CanMergeTail(m, bp, size, prev)
  {
    Inserted(Tagged(m, bp, size, prev), bp, size)
  }

  /** The header of block k, and its footer if it is free, as the words show them. */
  lemma ReadBlock(m: seq<u32>, B: seq<Blk>, k: nat)
    requires Shape(m, B) && k < |B|
    ensures HdrW(B[k].bp) < |m| && Describes(m[HdrW(B[k].bp)], B[k])
    ensures !B[k].alloc ==> FtrW(B[k]) < |m| && FootsOf(m[FtrW(B[k])], B[k])
  {
    assert BlockOk(m, B[k]);
    BlockWords(B[k]);
  }

  /**
   * The state the common tail starts from: blocks i up to j hidden and
   * unlisted, and the tags right for the block they merge into.
   */
  predicate Merging(m: seq<u32>, B: seq<Blk>, L: seq<seq<nat>>, i: nat, j: nat) {
    var ok := i < j <= |B| && Inv(m, B, L, Veiled(B, i, j))
      && Marked(Splice(B, i, j, [Merged(B, i, j)]))
      && EpilogueOk(m[|m| - 1], LastAlloc(Splice(B, i, j, [Merged(B, i, j)])));
    ok
  }

  /** The common tail done: the merged block written and inserted, and the heap consistent with the blocks C. */
  predicate TailDone(m: seq<u32>, bp: nat, s: nat, p: nat, C: seq<Blk>, L': seq<seq<nat>>) {
    var ok := CanMergeTail(m, bp, s, p) && Consistent(MergeTail(m, bp, s, p), C, L');
    ok
  }

  /**
   * With blocks i up to j hidden and unlisted and the tags right for the
   * merged result, writing the merged block's header and footer and
   * inserting it leaves the heap consistent, with the blocks C.
   */
  lemma TailOk(m: seq<u32>, B: seq<Blk>, L: seq<seq<nat>>, i: nat, j: nat) returns (L': seq<seq<nat>>)
    requires Merging(m, B, L, i, j)
    ensures TailDone(m, B[i].bp, Merged(B, i, j).size, PrevBit(B[i].prevAlloc), Splice(B, i, j, [Merged(B, i, j)]), L')
  {
    var M := Merged(B, i, j);
    var C := Splice(B, i, j, [M]);
    MergeRetile(m, B, L, i, j);
    var m2 := Tagged(m, M.bp, M.size, PrevBit(M.prevAlloc));
    assert C[i] == M;
    LastSame(m2, m);
    InsertSettles(m2, C, L, i);
    L' := Push(L, ListIndex(M.size), M.bp);
  }

  /** TailDone depends on its arguments only. */
  lemma TailSame(m: seq<u32>, bp: nat, s: nat, p: nat, bp': nat, s': nat, p': nat, C: seq<Blk>, L': seq<seq<nat>>)
    requires TailDone(m, bp, s, p, C, L') && bp == bp' && s == s' && p == p'
    ensures TailDone(m, bp', s', p', C, L')
  {
  }

  /* ---------- case 2: the next block is free ---------- */

  /** NEXT_BLKP(bp) for a block of the given size. */
  function NextBp(bp: nat, size: nat): nat {
    bp + size
  }

  /** What case 2 needs to unlink the next block and read its header. */
  predicate NextReads(m: seq<u32>, bp: nat, size: nat) {
    var ok := NextBp(bp, size) >= 4 && CanDelete(m, NextBp(bp, size)) && HdrW(NextBp(bp, size)) < |m|;
    ok
  }

  /** What case 2 reads and writes needs. */
  predicate CanNext(m: seq<u32>, bp: nat, size: nat) {
    var ok := NextReads(m, bp, size)
      && CanMergeTail(Deleted(m, NextBp(bp, size)), bp, size + GetSize(Deleted(m, NextBp(bp, size))[HdrW(NextBp(bp, size))]), 2);
    ok
  }

  /**
   * The words after case 2 of coalesce(bp) on a block of the given size:
   * the next block leaves its list, bp's header and footer take the
   * summed size, and bp goes on the list for that size.
   */
  function NextWords(m: seq<u32>, bp: nat, size: nat): seq<u32>
    requires CanNext(m, bp, size)
  {
    var m1 := Deleted(m, NextBp(bp, size));
    MergeTail(m1, bp, size + GetSize(m1[HdrW(NextBp(bp, size))]), 2)
  }

  /** Case 2 on the blocks: t and t + 1 merge, and the block after them already knows its predecessor is free. */
  lemma NextMerged(B: seq<Blk>, t: nat)
    requires t + 1 < |B| && !B[t].alloc && !B[t + 1].alloc && Marked(Hide(B, t))
    requires t == 0 || B[t - 1].alloc
    ensures MergeFrom(B, t) == t && MergeTo(B, t) == t + 2
    ensures Merged(B, t, t + 2) == Blk(B[t].bp, B[t].size + B[t + 1].size, false, true)
    ensures Coalesced(B, t) == Splice(B, t, t + 2, [Merged(B, t, t + 2)])
  {
    HiddenTags(B, t, t);
    assert B[t..t + 2][..1] == [B[t]];
    SizeSumOne(B[t]);
    var S := Splice(B, t, t + 2, [Merged(B, t, t + 2)]);
    if t + 2 < |B| {
      HiddenTags(B, t, t + 2);
      assert S[t + 1] == B[t + 2];
      assert S[t + 1 := S[t + 1].(prevAlloc := false)] == S;
    }
  }

  /** After the first write of case 2, delete(NEXT_BLKP(bp)): what the reads and the common tail need. */
  predicate NextReady(m: seq<u32>, B: seq<Blk>, L1: seq<seq<nat>>, t: nat) {
    var ok := t + 1 < |B| && NextReads(m, B[t].bp, B[t].size)
      && B[t].size + GetSize(Deleted(m, NextBp(B[t].bp, B[t].size))[HdrW(NextBp(B[t].bp, B[t].size))]) == Merged(B, t, t + 2).size
      && PrevBit(B[t].prevAlloc) == 2
      && Merging(Deleted(m, NextBp(B[t].bp, B[t].size)), B, L1, t, t + 2);
    ok
  }

  /** The first write of case 2: the next block unlinked, joining t in the hidden window. */
  lemma NextUnlink(m: seq<u32>, B: seq<Blk>, L: seq<seq<nat>>, t: nat) returns (L1: seq<seq<nat>>)
    requires Pending(m, B, L, t) && t + 1 < |B| && !B[t + 1].alloc
    ensures B[t + 1].bp == NextBp(B[t].bp, B[t].size) && CanDelete(m, B[t + 1].bp)
    ensures var m1 := Deleted(m, B[t + 1].bp);
      Inv(m1, B, L1, Veiled(B, t, t + 2)) && m1[|m| - 1] == m[|m| - 1]
    ensures var m1 := Deleted(m, B[t + 1].bp);
      HdrW(B[t + 1].bp) < |m| && GetSize(m1[HdrW(B[t + 1].bp)]) == B[t + 1].size
  {
    assert Abuts(B, t + 1);
    HideVeiled(B, t);
    SameInv(m, B, L, Hide(B, t), m, B, Veiled(B, t, t + 1));
    L1 := UnlinkStep(m, B, L, t, t + 1, t + 1);
    ReadBlock(Deleted(m, B[t + 1].bp), B, t + 1);
  }

  /** After delete(NEXT_BLKP(bp)) the common tail can start. */
  lemma NextStage(m: seq<u32>, B: seq<Blk>, L: seq<seq<nat>>, t: nat) returns (L1: seq<seq<nat>>)
    requires Pending(m, B, L, t) && (t == 0 || B[t - 1].alloc) && t + 1 < |B| && !B[t + 1].alloc
    ensures NextReady(m, B, L1, t)
  {
    NextMerged(B, t);
    L1 := NextUnlink(m, B, L, t);
    var m1 := Deleted(m, B[t + 1].bp);
    assert t + 2 == |B| ==> !LastAlloc(Hide(B, t));
    TagsKept(m, m1, B, t);
  }

  /** The words of case 2 are those of delete(NEXT_BLKP(bp)) followed by the common tail. */
  lemma NextBridge(m: seq<u32>, bp: nat, size: nat, m1: seq<u32>, s: nat, C: seq<Blk>, L': seq<seq<nat>>)
    requires NextReads(m, bp, size) && m1 == Deleted(m, NextBp(bp, size)) && s == size + GetSize(m1[HdrW(NextBp(bp, size))])
    requires TailDone(m1, bp, s, 2, C, L')
    ensures CanNext(m, bp, size) && Consistent(NextWords(m, bp, size), C, L')
  {
  }

  /** From the state after delete(NEXT_BLKP(bp)), the common tail finishes case 2. */
  lemma NextFinish(m: seq<u32>, B: seq<Blk>, L1: seq<seq<nat>>, t: nat) returns (L': seq<seq<nat>>)
    requires NextReady(m, B, L1, t)
    ensures CanNext(m, B[t].bp, B[t].size)
    ensures Consistent(NextWords(m, B[t].bp, B[t].size), Splice(B, t, t + 2, [Merged(B, t, t + 2)]), L')
  {
    var m1 := Deleted(m, NextBp(B[t].bp, B[t].size));
    var s := B[t].size + GetSize(m1[HdrW(NextBp(B[t].bp, B[t].size))]);
    L' := TailOk(m1, B, L1, t, t + 2);
    assert s == Merged(B, t, t + 2).size && PrevBit(B[t].prevAlloc) == 2;
    TailSame(m1, B[t].bp, Merged(B, t, t + 2).size, PrevBit(B[t].prevAlloc), B[t].bp, s, 2, Splice(B, t, t + 2, [Merged(B, t, t + 2)]), L');
    NextBridge(m, B[t].bp, B[t].size, m1, s, Splice(B, t, t + 2, [Merged(B, t, t + 2)]), L');
  }

  /** Case 2 of coalesce leaves the heap consistent, its blocks Coalesced. */
  lemma NextOk(m: seq<u32>, B: seq<Blk>, L: seq<seq<nat>>, t: nat) returns (L': seq<seq<nat>>)
    requires Pending(m, B, L, t) && (t == 0 || B[t - 1].alloc) && t + 1 < |B| && !B[t + 1].alloc
    ensures CanNext(m, B[t].bp, B[t].size)
    ensures Consistent(NextWords(m, B[t].bp, B[t].size), Coalesced(B, t), L')
  {
    var L1 := NextStage(m, B, L, t);
    L' := NextFinish(m, B, L1, t);
    NextMerged(B, t);
    SameHeap(NextWords(m, B[t].bp, B[t].size), Splice(B, t, t + 2, [Merged(B, t, t + 2)]), L',
      NextWords(m, B[t].bp, B[t].size), Coalesced(B, t));
  }

  /* ---------- case 3: the previous block is free ---------- */

  /** PREV_BLKP(bp) can be read: the previous block's footer, just below bp's header, holds a size no larger than bp. */
  predicate PrevAt(m: seq<u32>, bp: nat) {
    var ok := bp >= 8 && (bp - 8) / 4 < |m| && GetSize(m[(bp - 8) / 4]) <= bp;
    ok
  }

  /** PREV_BLKP(bp): bp less the size in the previous block's footer. */
  function PrevBp(m: seq<u32>, bp: nat): nat
    requires PrevAt(m, bp)
  {
    bp - GetSize(m[(bp - 8) / 4])
  }

  /** What the first two writes of case 3 need. */
  predicate PrevCutOk(m: seq<u32>, bp: nat, size: nat) {
    var ok := PrevAt(m, bp) && CanDelete(m, PrevBp(m, bp)) && NextBp(bp, size) >= 4 && (NextBp(bp, size) - 4) / 4 < |m|;
    ok
  }

  /** The words after delete(PREV_BLKP(bp)) and then SET_PREV_FREE(HDRP(NEXT_BLKP(bp))). */
  function PrevCut(m: seq<u32>, bp: nat, size: nat): (r: seq<u32>)
    requires PrevCutOk(m, bp, size)
    ensures |r| == |m|
  {
    var m1 := Deleted(m, PrevBp(m, bp));
    var nh := (NextBp(bp, size) - 4) / 4;
    m1[nh := SetPrevFree(m1[nh])]
  }

  /** What case 3 reads and writes needs. */
  predicate CanPrev(m: seq<u32>, bp: nat, size: nat) {
    var ok := PrevCutOk(m, bp, size) && PrevAt(PrevCut(m, bp, size), bp)
      && (var m2 := PrevCut(m, bp, size);
          var p := PrevBp(m2, bp);
          p >= 4 && HdrW(p) < |m2| && CanMergeTail(m2, p, size + GetSize(m2[HdrW(p)]), GetPrevAlloc(m2[HdrW(p)])));
    ok
  }

  /**
   * The words after case 3 of coalesce(bp) on a block of the given size:
   * the previous block leaves its list, the next header learns that bp
   * is free, and the previous block's header and footer take the summed
   * size, its own prev-alloc bit kept, before it goes on the list for
   * that size.
   */
  function PrevWords(m: seq<u32>, bp: nat, size: nat): seq<u32>
    requires CanPrev(m, bp, size)
  {
    var m2 := PrevCut(m, bp, size);
    var p := PrevBp(m2, bp);
    MergeTail(m2, p, size + GetSize(m2[HdrW(p)]), GetPrevAlloc(m2[HdrW(p)]))
  }

  /** Case 3 on the blocks: t - 1 and t merge, and the block after them learns that its predecessor is free. */
  lemma PrevMerged(B: seq<Blk>, t: nat)
    requires 0 < t < |B| && !B[t].alloc && !B[t - 1].alloc
    requires t + 1 == |B| || B[t + 1].alloc
    ensures MergeFrom(B, t) == t - 1 && MergeTo(B, t) == t + 1
    ensures var B' := SetPrevOfNext(B, t, false);
      Merged(B', t - 1, t + 1) == Blk(B[t - 1].bp, B[t - 1].size + B[t].size, false, B[t - 1].prevAlloc)
    ensures var B' := SetPrevOfNext(B, t, false);
      Coalesced(B, t) == Splice(B', t - 1, t + 1, [Merged(B', t - 1, t + 1)])
  {
    var B' := SetPrevOfNext(B, t, false);
    assert B'[t - 1..t + 1] == B[t - 1..t + 1];
    assert B[t - 1..t + 1][..1] == [B[t - 1]];
    SizeSumOne(B[t - 1]);
    var M := Merged(B, t - 1, t + 1);
    var S := Splice(B, t - 1, t + 1, [M]);
    var R := Splice(B', t - 1, t + 1, [M]);
    forall k | 0 <= k < |R|
      ensures SetPrevOfNext(S, t - 1, false)[k] == R[k]
    {
      if k >= t {
        assert S[k] == B[k + 1] && R[k] == B'[k + 1];
      }
    }
  }

  /** Setting the prev-alloc bit just after the hidden window commutes with hiding it. */
  lemma VeiledPrevOfNext(B: seq<Blk>, i: nat, j: nat, prevAlloc: bool)
    requires 0 < j
    ensures SetPrevOfNext(Veiled(B, i, j), j - 1, prevAlloc) == Veiled(SetPrevOfNext(B, j - 1, prevAlloc), i, j)
  {
  }

  /** The first write of case 3: the previous block, found through its footer, unlinked and joining t in the hidden window. */
  lemma PrevUnlink(m: seq<u32>, B: seq<Blk>, L: seq<seq<nat>>, t: nat) returns (L1: seq<seq<nat>>)
    requires Pending(m, B, L, t) && t > 0 && !B[t - 1].alloc
    ensures PrevAt(m, B[t].bp) && PrevBp(m, B[t].bp) == B[t - 1].bp && CanDelete(m, B[t - 1].bp)
    ensures var m1 := Deleted(m, B[t - 1].bp);
      Inv(m1, B, L1, Veiled(B, t - 1, t + 1)) && m1[|m| - 1] == m[|m| - 1]
  {
    assert Abuts(B, t);
    ReadBlock(m, B, t - 1);
    HideVeiled(B, t);
    SameInv(m, B, L, Hide(B, t), m, B, Veiled(B, t, t + 1));
    L1 := UnlinkStep(m, B, L, t, t + 1, t - 1);
  }

  /** The second write of case 3: the header after the window learns that the window is free. */
  lemma PrevCutInv(m: seq<u32>, B: seq<Blk>, L1: seq<seq<nat>>, t: nat)
    requires 0 < t < |B| && Inv(m, B, L1, Veiled(B, t - 1, t + 1))
    ensures Stop(B[t]) < |m| && Stop(B[t]) == (B[t].bp + B[t].size - 4) / 4
    ensures var nh := Stop(B[t]);
      Inv(m[nh := SetPrevFree(m[nh])], SetPrevOfNext(B, t, false), L1, Veiled(SetPrevOfNext(B, t, false), t - 1, t + 1))
    ensures t + 1 < |B| ==> Stop(B[t]) < |m| - 1
    ensures t + 1 == |B| ==> Stop(B[t]) == |m| - 1
  {
    NextBitStep(m, B, L1, Veiled(B, t - 1, t + 1), t, false);
    VeiledPrevOfNext(B, t - 1, t + 1, false);
    var nh := Stop(B[t]);
    SameInv(m[nh := WithPrev(m[nh], false)], SetPrevOfNext(B, t, false), L1, SetPrevOfNext(Veiled(B, t - 1, t + 1), t, false),
      m[nh := SetPrevFree(m[nh])], SetPrevOfNext(B, t, false), Veiled(SetPrevOfNext(B, t, false), t - 1, t + 1));
  }

  /** After the first two writes of case 3 the tags are right for the merged blocks. */
  lemma PrevTags(m: seq<u32>, m2: seq<u32>, B: seq<Blk>, t: nat)
    requires 0 < t < |B| && !B[t].alloc && !B[t - 1].alloc && (t + 1 == |B| || B[t + 1].alloc)
    requires Marked(Hide(B, t)) && |m2| == |m| > 0 && EpilogueOk(m[|m| - 1], LastAlloc(Hide(B, t)))
    requires t + 1 < |B| ==> m2[|m| - 1] == m[|m| - 1]
    requires t + 1 == |B| ==> m2[|m| - 1] == WithPrev(m[|m| - 1], false)
    ensures var B' := SetPrevOfNext(B, t, false);
      var C := Splice(B', t - 1, t + 1, [Merged(B', t - 1, t + 1)]);
      Marked(C) && EpilogueOk(m2[|m2| - 1], LastAlloc(C))
  {
    CoalescedMarked(B, t);
    PrevMerged(B, t);
    TagsAfter(m, m2, B, t, Coalesced(B, t));
  }

  /** After delete(PREV_BLKP(bp)) and SET_PREV_FREE: what the reads and the common tail need. */
  predicate PrevReady(m: seq<u32>, B: seq<Blk>, L1: seq<seq<nat>>, t: nat) {
    var ok := 0 < t < |B| && PrevCutOk(m, B[t].bp, B[t].size) && PrevAt(PrevCut(m, B[t].bp, B[t].size), B[t].bp)
      && (var m2 := PrevCut(m, B[t].bp, B[t].size);
          var p := PrevBp(m2, B[t].bp);
          var B' := SetPrevOfNext(B, t, false);
          && p == B'[t - 1].bp && p >= 4 && HdrW(p) < |m2|
          && B[t].size + GetSize(m2[HdrW(p)]) == Merged(B', t - 1, t + 1).size
          && GetPrevAlloc(m2[HdrW(p)]) == PrevBit(B'[t - 1].prevAlloc)
          && Merging(m2, B', L1, t - 1, t + 1));
    ok
  }

  /** The first two writes of case 3 as one step on the words: the window hidden, the next header told. */
  lemma PrevCutWords(m: seq<u32>, B: seq<Blk>, L1: seq<seq<nat>>, t: nat)
    requires 0 < t < |B| && PrevAt(m, B[t].bp) && PrevBp(m, B[t].bp) == B[t - 1].bp && CanDelete(m, B[t - 1].bp)
    requires Inv(Deleted(m, B[t - 1].bp), B, L1, Veiled(B, t - 1, t + 1)) && Deleted(m, B[t - 1].bp)[|m| - 1] == m[|m| - 1]
    ensures PrevCutOk(m, B[t].bp, B[t].size)
    ensures var m2, B' := PrevCut(m, B[t].bp, B[t].size), SetPrevOfNext(B, t, false);
      && Inv(m2, B', L1, Veiled(B', t - 1, t + 1))
      && (t + 1 < |B| ==> m2[|m| - 1] == m[|m| - 1])
      && (t + 1 == |B| ==> m2[|m| - 1] == WithPrev(m[|m| - 1], false))
  {
    var m1 := Deleted(m, B[t - 1].bp);
    PrevCutInv(m1, B, L1, t);
    var nh := Stop(B[t]);
    var B' := SetPrevOfNext(B, t, false);
    SameInv(m1[nh := SetPrevFree(m1[nh])], B', L1, Veiled(B', t - 1, t + 1), PrevCut(m, B[t].bp, B[t].size), B', Veiled(B', t - 1, t + 1));
  }

  /** PREV_BLKP(bp) read again after the first two writes: the previous block's footer and header still describe it. */
  lemma PrevReads(m: seq<u32>, B: seq<Blk>, t: nat)
    requires Shape(m, B) && 0 < t < |B| && !B[t - 1].alloc
    ensures PrevAt(m, B[t].bp) && PrevBp(m, B[t].bp) == B[t - 1].bp && B[t - 1].bp >= 4 && HdrW(B[t - 1].bp) < |m|
    ensures GetSize(m[HdrW(B[t - 1].bp)]) == B[t - 1].size && GetPrevAlloc(m[HdrW(B[t - 1].bp)]) == PrevBit(B[t - 1].prevAlloc)
  {
    assert Abuts(B, t);
    ReadBlock(m, B, t - 1);
  }

  /** The first two writes of case 3 leave the heap ready for the common tail. */
  lemma PrevStage(m: seq<u32>, B: seq<Blk>, L: seq<seq<nat>>, t: nat) returns (L1: seq<seq<nat>>)
    requires Pending(m, B, L, t) && t > 0 && !B[t - 1].alloc && (t + 1 == |B| || B[t + 1].alloc)
    ensures PrevReady(m, B, L1, t)
  {
    L1 := PrevUnlink(m, B, L, t);
    PrevCutWords(m, B, L1, t);
    var m2, B' := PrevCut(m, B[t].bp, B[t].size), SetPrevOfNext(B, t, false);
    assert B'[t - 1] == B[t - 1] && B'[t] == B[t];
    PrevReads(m2, B', t);
    PrevMerged(B, t);
    PrevTags(m, m2, B, t);
    assert PrevCutOk(m, B[t].bp, B[t].size);
    assert PrevAt(m2, B[t].bp);
    var p := PrevBp(m2, B[t].bp);
    assert p == B'[t - 1].bp;
    assert p >= 4 && HdrW(p) < |m2|;
    assert B[t].size + GetSize(m2[HdrW(p)]) == Merged(B', t - 1, t + 1).size;
    assert GetPrevAlloc(m2[HdrW(p)]) == PrevBit(B'[t - 1].prevAlloc);
    assert Merging(m2, B', L1, t - 1, t + 1);
  }

  /** The words of case 3 are those of its first two writes followed by the common tail. */
  lemma PrevBridge(m: seq<u32>, bp: nat, size: nat, m2: seq<u32>, p: nat, s: nat, a: nat, C: seq<Blk>, L': seq<seq<nat>>)
    requires PrevCutOk(m, bp, size) && m2 == PrevCut(m, bp, size) && PrevAt(m2, bp) && p == PrevBp(m2, bp)
    requires p >= 4 && HdrW(p) < |m2| && s == size + GetSize(m2[HdrW(p)]) && a == GetPrevAlloc(m2[HdrW(p)])
    requires TailDone(m2, p, s, a, C, L')
    ensures CanPrev(m, bp, size) && Consistent(PrevWords(m, bp, size), C, L')
  {
  }

  /** From the state after the first two writes of case 3, the common tail finishes it. */
  lemma PrevFinish(m: seq<u32>, B: seq<Blk>, L1: seq<seq<nat>>, t: nat) returns (L': seq<seq<nat>>)
    requires PrevReady(m, B, L1, t)
    ensures CanPrev(m, B[t].bp, B[t].size)
    ensures var B' := SetPrevOfNext(B, t, false);
      Consistent(PrevWords(m, B[t].bp, B[t].size), Splice(B', t - 1, t + 1, [Merged(B', t - 1, t + 1)]), L')
  {
    var B' := SetPrevOfNext(B, t, false);
    var m2 := PrevCut(m, B[t].bp, B[t].size);
    var p := PrevBp(m2, B[t].bp);
    var s := B[t].size + GetSize(m2[HdrW(p)]);
    var a := GetPrevAlloc(m2[HdrW(p)]);
    var C := Splice(B', t - 1, t + 1, [Merged(B', t - 1, t + 1)]);
    L' := TailOk(m2, B', L1, t - 1, t + 1);
    TailSame(m2, B'[t - 1].bp, Merged(B', t - 1, t + 1).size, PrevBit(B'[t - 1].prevAlloc), p, s, a, C, L');
    PrevBridge(m, B[t].bp, B[t].size, m2, p, s, a, C, L');
  }

  /** Case 3 of coalesce leaves the heap consistent, its blocks Coalesced. */
  lemma PrevOk(m: seq<u32>, B: seq<Blk>, L: seq<seq<nat>>, t: nat) returns (L': seq<seq<nat>>)
    requires Pending(m, B, L, t) && t > 0 && !B[t - 1].alloc && (t + 1 == |B| || B[t + 1].alloc)
    ensures CanPrev(m, B[t].bp, B[t].size)
    ensures Consistent(PrevWords(m, B[t].bp, B[t].size), Coalesced(B, t), L')
    ensures PrevBp(PrevCut(m, B[t].bp, B[t].size), B[t].bp) == B[t - 1].bp
  {
    var L1 := PrevStage(m, B, L, t);
    L' := PrevFinish(m, B, L1, t);
    PrevMerged(B, t);
    var B' := SetPrevOfNext(B, t, false);
    SameHeap(PrevWords(m, B[t].bp, B[t].size), Splice(B', t - 1, t + 1, [Merged(B', t - 1, t + 1)]), L',
      PrevWords(m, B[t].bp, B[t].size), Coalesced(B, t));
  }

  /* ---------- case 4: both neighbours are free ---------- */

  /** What delete(NEXT_BLKP(bp)) and then delete(PREV_BLKP(bp)) need. */
  predicate BothCutOk(m: seq<u32>, bp: nat, size: nat) {
    var ok := CanDelete(m, NextBp(bp, size)) && PrevAt(Deleted(m, NextBp(bp, size)), bp)
      && CanDelete(Deleted(m, NextBp(bp, size)), PrevBp(Deleted(m, NextBp(bp, size)), bp));
    ok
  }

  /** The words after delete(NEXT_BLKP(bp)) and then delete(PREV_BLKP(bp)). */
  function BothCut(m: seq<u32>, bp: nat, size: nat): (r: seq<u32>)
    requires BothCutOk(m, bp, size)
    ensures |r| == |m|
  {
    var m1 := Deleted(m, NextBp(bp, size));
    Deleted(m1, PrevBp(m1, bp))
  }

  /** What case 4 reads and unlinks needs. */
  predicate BothReads(m: seq<u32>, bp: nat, size: nat) {
    var ok := BothCutOk(m, bp, size) && NextBp(bp, size) >= 4 && HdrW(NextBp(bp, size)) < |m|
      && PrevAt(m, bp) && PrevBp(m, bp) >= 4 && HdrW(PrevBp(m, bp)) < |m| && PrevAt(BothCut(m, bp, size), bp);
    ok
  }

  /** The size case 4 gives the merged block: bp's own and both neighbours', read from their headers. */
  function BothSize(m: seq<u32>, bp: nat, size: nat): nat
    requires BothReads(m, bp, size)
  {
    size + GetSize(m[HdrW(NextBp(bp, size))]) + GetSize(m[HdrW(PrevBp(m, bp))])
  }

  /** What case 4 reads and writes needs. */
  predicate CanBoth(m: seq<u32>, bp: nat, size: nat) {
    var ok := BothReads(m, bp, size)
      && (var m2, p0 := BothCut(m, bp, size), PrevBp(m, bp);
          CanMergeTail(m2, PrevBp(m2, bp), BothSize(m, bp, size), GetPrevAlloc(m[HdrW(p0)])));
    ok
  }

  /**
   * The words after case 4 of coalesce(bp) on a block of the given size:
   * the sizes of both neighbours and the previous block's prev-alloc bit
   * read first, both neighbours unlinked, and the previous block's header
   * and footer written with the summed size before it goes on its list.
   */
  function BothWords(m: seq<u32>, bp: nat, size: nat): seq<u32>
    requires CanBoth(m, bp, size)
  {
    var p0 := PrevBp(m, bp);
    var s := BothSize(m, bp, size);
    var a := GetPrevAlloc(m[HdrW(p0)]);
    var m2 := BothCut(m, bp, size);
    MergeTail(m2, PrevBp(m2, bp), s, a)
  }

  /** Case 4 on the blocks: t - 1, t and t + 1 merge, and the block after them already knows its predecessor is free. */
  lemma BothMerged(B: seq<Blk>, t: nat)
    requires 0 < t && t + 1 < |B| && !B[t - 1].alloc && !B[t].alloc && !B[t + 1].alloc && Marked(Hide(B, t))
    ensures MergeFrom(B, t) == t - 1 && MergeTo(B, t) == t + 2
    ensures Merged(B, t - 1, t + 2) == Blk(B[t - 1].bp, B[t - 1].size + B[t].size + B[t + 1].size, false, B[t - 1].prevAlloc)
    ensures Coalesced(B, t) == Splice(B, t - 1, t + 2, [Merged(B, t - 1, t + 2)])
  {
    var W := B[t - 1..t + 2];
    assert W[0] == B[t - 1] && W[1] == B[t] && W[2] == B[t + 1];
    assert W[..2][..1] == [W[0]];
    SizeSumOne(W[0]);
    assert SizeSum(W[..2]) == B[t - 1].size + B[t].size;
    var S := Splice(B, t - 1, t + 2, [Merged(B, t - 1, t + 2)]);
    if t + 2 < |B| {
      HiddenTags(B, t, t + 2);
      assert S[t] == B[t + 2];
      assert S[t := S[t].(prevAlloc := false)] == S;
    }
  }

  /** The second delete of case 4: the previous block, found through its footer, joins the window. */
  lemma BothUnlinkPrev(m: seq<u32>, B: seq<Blk>, L1: seq<seq<nat>>, t: nat) returns (L2: seq<seq<nat>>)
    requires 0 < t && t + 1 < |B| && !B[t - 1].alloc && Inv(m, B, L1, Veiled(B, t, t + 2))
    ensures PrevAt(m, B[t].bp) && PrevBp(m, B[t].bp) == B[t - 1].bp && CanDelete(m, B[t - 1].bp)
    ensures var m2 := Deleted(m, B[t - 1].bp);
      Inv(m2, B, L2, Veiled(B, t - 1, t + 2)) && m2[|m| - 1] == m[|m| - 1]
  {
    PrevReads(m, B, t);
    L2 := UnlinkStep(m, B, L1, t, t + 2, t - 1);
  }

  /** After both deletes of case 4: what the reads found. */
  predicate BothFacts(m: seq<u32>, B: seq<Blk>, t: nat) {
    var ok := 0 < t && t + 1 < |B| && BothReads(m, B[t].bp, B[t].size)
      && (var m2, p0 := BothCut(m, B[t].bp, B[t].size), PrevBp(m, B[t].bp);
          && PrevBp(m2, B[t].bp) == B[t - 1].bp
          && BothSize(m, B[t].bp, B[t].size) == Merged(B, t - 1, t + 2).size
          && GetPrevAlloc(m[HdrW(p0)]) == PrevBit(B[t - 1].prevAlloc));
    ok
  }

  /** After both deletes of case 4: what the reads and the common tail need. */
  predicate BothReady(m: seq<u32>, B: seq<Blk>, L2: seq<seq<nat>>, t: nat) {
    var ok := BothFacts(m, B, t) && Merging(BothCut(m, B[t].bp, B[t].size), B, L2, t - 1, t + 2);
    ok
  }

  /** Both deletes of case 4 as one step on the words: the three blocks hidden and unlisted. */
  lemma BothCutWords(m: seq<u32>, B: seq<Blk>, L: seq<seq<nat>>, t: nat) returns (L2: seq<seq<nat>>)
    requires Pending(m, B, L, t) && 0 < t && t + 1 < |B| && !B[t - 1].alloc && !B[t + 1].alloc
    ensures BothCutOk(m, B[t].bp, B[t].size)
    ensures var m2 := BothCut(m, B[t].bp, B[t].size);
      && Inv(m2, B, L2, Veiled(B, t - 1, t + 2)) && m2[|m| - 1] == m[|m| - 1]
      && PrevAt(m2, B[t].bp) && PrevBp(m2, B[t].bp) == B[t - 1].bp
  {
    var L1 := NextUnlink(m, B, L, t);
    var m1 := Deleted(m, B[t + 1].bp);
    L2 := BothUnlinkPrev(m1, B, L1, t);
    var m2 := Deleted(m1, B[t - 1].bp);
    PrevReads(m2, B, t);
    assert NextBp(B[t].bp, B[t].size) == B[t + 1].bp;
  }

  /** What case 4 reads before its writes: the sizes of both neighbours and the previous block's prev-alloc bit. */
  lemma BothRead(m: seq<u32>, B: seq<Blk>, t: nat)
    requires Shape(m, B) && 0 < t && t + 1 < |B| && !B[t - 1].alloc
    ensures NextBp(B[t].bp, B[t].size) == B[t + 1].bp >= 4 && HdrW(B[t + 1].bp) < |m|
    ensures GetSize(m[HdrW(B[t + 1].bp)]) == B[t + 1].size
    ensures PrevAt(m, B[t].bp) && PrevBp(m, B[t].bp) == B[t - 1].bp && B[t - 1].bp >= 4 && HdrW(B[t - 1].bp) < |m|
    ensures GetSize(m[HdrW(B[t - 1].bp)]) == B[t - 1].size && GetPrevAlloc(m[HdrW(B[t - 1].bp)]) == PrevBit(B[t - 1].prevAlloc)
  {
    PrevReads(m, B, t);
    assert Abuts(B, t + 1);
    ReadBlock(m, B, t + 1);
  }

  /** The reads and both deletes of case 4 leave the heap ready for the common tail. */
  lemma BothStage(m: seq<u32>, B: seq<Blk>, L: seq<seq<nat>>, t: nat) returns (L2: seq<seq<nat>>)
    requires Pending(m, B, L, t) && 0 < t && t + 1 < |B| && !B[t - 1].alloc && !B[t + 1].alloc
    ensures BothReady(m, B, L2, t)
  {
    BothMerged(B, t);
    L2 := BothCutWords(m, B, L, t);
    BothRead(m, B, t);
    var m2 := BothCut(m, B[t].bp, B[t].size);
    TagsKept(m, m2, B, t);
    assert BothReads(m, B[t].bp, B[t].size);
    assert BothSize(m, B[t].bp, B[t].size) == Merged(B, t - 1, t + 2).size;
    assert BothFacts(m, B, t);
    assert Merging(m2, B, L2, t - 1, t + 2);
  }

  /** The words of case 4 are its reads and deletes followed by the common tail. */
  lemma BothTail(m: seq<u32>, bp: nat, size: nat, C: seq<Blk>, L': seq<seq<nat>>)
    requires BothReads(m, bp, size)
    requires var m2, p0 := BothCut(m, bp, size), PrevBp(m, bp);
      TailDone(m2, PrevBp(m2, bp), BothSize(m, bp, size), GetPrevAlloc(m[HdrW(p0)]), C, L')
    ensures CanBoth(m, bp, size) && Consistent(BothWords(m, bp, size), C, L')
  {
  }

  /** Case 4's common tail, stated with the blocks, is the tail of its words. */
  lemma BothBridge(m: seq<u32>, B: seq<Blk>, t: nat, C: seq<Blk>, L': seq<seq<nat>>)
    requires BothFacts(m, B, t)
    requires TailDone(BothCut(m, B[t].bp, B[t].size), B[t - 1].bp, Merged(B, t - 1, t + 2).size, PrevBit(B[t - 1].prevAlloc), C, L')
    ensures CanBoth(m, B[t].bp, B[t].size) && Consistent(BothWords(m, B[t].bp, B[t].size), C, L')
  {
    var m2 := BothCut(m, B[t].bp, B[t].size);
    TailSame(m2, B[t - 1].bp, Merged(B, t - 1, t + 2).size, PrevBit(B[t - 1].prevAlloc), PrevBp(m2, B[t].bp),
      BothSize(m, B[t].bp, B[t].size),
      GetPrevAlloc(m[HdrW(PrevBp(m, B[t].bp))]), C, L');
    BothTail(m, B[t].bp, B[t].size, C, L');
  }

  /** From the state after both deletes of case 4, the common tail finishes it. */
  lemma BothFinish(m: seq<u32>, B: seq<Blk>, L2: seq<seq<nat>>, t: nat) returns (L': seq<seq<nat>>)
    requires BothReady(m, B, L2, t)
    ensures CanBoth(m, B[t].bp, B[t].size)
    ensures Consistent(BothWords(m, B[t].bp, B[t].size), Splice(B, t - 1, t + 2, [Merged(B, t - 1, t + 2)]), L')
  {
    L' := TailOk(BothCut(m, B[t].bp, B[t].size), B, L2, t - 1, t + 2);
    BothBridge(m, B, t, Splice(B, t - 1, t + 2, [Merged(B, t - 1, t + 2)]), L');
  }

  /** Case 4 of coalesce leaves the heap consistent, its blocks Coalesced. */
  lemma BothOk(m: seq<u32>, B: seq<Blk>, L: seq<seq<nat>>, t: nat) returns (L': seq<seq<nat>>)
    requires Pending(m, B, L, t) && 0 < t && t + 1 < |B| && !B[t - 1].alloc && !B[t + 1].alloc
    ensures CanBoth(m, B[t].bp, B[t].size)
    ensures Consistent(BothWords(m, B[t].bp, B[t].size), Coalesced(B, t), L')
    ensures PrevBp(BothCut(m, B[t].bp, B[t].size), B[t].bp) == B[t - 1].bp
  {
    var L2 := BothStage(m, B, L, t);
    L' := BothFinish(m, B, L2, t);
    BothMerged(B, t);
    SameHeap(BothWords(m, B[t].bp, B[t].size), Splice(B, t - 1, t + 2, [Merged(B, t - 1, t + 2)]), L',
      BothWords(m, B[t].bp, B[t].size), Coalesced(B, t));
  }

  /* ---------- the four cases together ---------- */

  /**
   * What coalesce(bp) reads before it chooses a case: bp's size and
   * prev-alloc bit from its header, and the allocated bit of the header
   * after the block (the epilogue's, for the last block).
   */
  lemma CoalesceReads(m: seq<u32>, B: seq<Blk>, L: seq<seq<nat>>, t: nat)
    requires Pending(m, B, L, t)
    ensures B[t].bp >= 4 && HdrW(B[t].bp) < |m| && GetSize(m[HdrW(B[t].bp)]) == B[t].size
    ensures GetPrevAlloc(m[HdrW(B[t].bp)]) == PrevBit(t == 0 || B[t - 1].alloc)
    ensures NextBp(B[t].bp, B[t].size) >= 4 && HdrW(NextBp(B[t].bp, B[t].size)) < |m|
    ensures GetAlloc(m[HdrW(NextBp(B[t].bp, B[t].size))]) == AllocBit(t + 1 == |B| || B[t + 1].alloc)
  {
    ReadBlock(m, B, t);
    assert MmHeap.PrevOk(Hide(B, t), t);
    ReadNext(m, B, t);
    if t + 1 < |B| {
      ReadBlock(m, B, t + 1);
    }
  }
}
