/*
 * free, extend_heap and place of malloclab-handout/mm.c on the words:
 * the states before and after their writes, and the proofs that the
 * heap stays consistent with the expected blocks.
 */
module MmOps {
  import opened MmCodec
  import opened MmHeap
  import opened MmLinks
  import opened MmTiles
  import opened MmSteps
  import opened MmBlocks
  import opened MmCoalesce

  /* ---------- free ---------- */

  /** p is the payload address of a block the program holds. */
  predicate Holds(B: seq<Blk>, p: nat) {
    var k := FindBlock(B, p);
    k >= 0 && B[k].alloc
  }

  /** free takes exactly the freed block's extent out of what the program holds. */
  lemma FreeUsed(B: seq<Blk>, k: nat)
    requires k < |B| && B[k].alloc
    ensures Used(B) == Used(B[..k]) + [Extent(B[k].bp, B[k].size)] + Used(B[k + 1..])
    ensures Used(Coalesced(Freed(B, k), k)) == Used(B[..k]) + Used(B[k + 1..])
  {
    FreedUsed(B, k);
    CoalescedUsed(Freed(B, k), k);
  }

  /** Freeing the allocated block k is merging the window of block k alone. */
  lemma FreedMerge(B: seq<Blk>, k: nat)
    requires k < |B| && B[k].alloc
    ensures Veiled(B, k, k + 1) == B
    ensures Splice(B, k, k + 1, [Merged(B, k, k + 1)]) == Freed(B, k)
    ensures Hide(Freed(B, k), k) == B
  {
    SizeSumOne(B[k]);
    assert B[k..k + 1] == [B[k]];
    assert Merged(B, k, k + 1) == Freed(B, k)[k];
  }

  /** The tags of the heap before free still hold with the freed block hidden. */
  lemma FreedTags(B: seq<Blk>, k: nat)
    requires k < |B| && B[k].alloc && Marked(B)
    ensures Marked(Hide(Freed(B, k), k)) && LastAlloc(Hide(Freed(B, k), k)) == LastAlloc(B)
  {
    FreedMerge(B, k);
  }

  /**
   * free(ptr) on the allocated block k reads its size and prev-alloc bit
   * from the header; rewriting its header and footer as a free block
   * leaves the state coalesce starts from, with the blocks Freed(B, k).
   */
  lemma FreeOk(m: seq<u32>, B: seq<Blk>, L: seq<seq<nat>>, k: nat)
    requires Consistent(m, B, L) && k < |B| && B[k].alloc
    ensures B[k].bp >= 4 && HdrW(B[k].bp) < |m|
    ensures GetSize(m[HdrW(B[k].bp)]) == B[k].size && GetPrevAlloc(m[HdrW(B[k].bp)]) == PrevBit(B[k].prevAlloc)
    ensures CanTag(m, B[k].bp, B[k].size, PrevBit(B[k].prevAlloc))
    ensures Pending(Tagged(m, B[k].bp, B[k].size, PrevBit(B[k].prevAlloc)), Freed(B, k), L, k)
  {
    ReadBlock(m, B, k);
    assert Shown(m, B, L) && Marked(B) && EpilogueOk(m[|m| - 1], LastAlloc(B)) && Stop(B[k]) < |m| by {
      assert Tags(m, B);
      assert BlockOk(m, B[k]);
    }
    FreePending(m, B, L, k);
  }

  /** The tagging step of free, from the invariant with nothing hidden. */
  lemma FreePending(m: seq<u32>, B: seq<Blk>, L: seq<seq<nat>>, k: nat)
    requires Shown(m, B, L) && Marked(B) && EpilogueOk(m[|m| - 1], LastAlloc(B))
    requires k < |B| && B[k].alloc && B[k].bp + B[k].size >= 4 && Stop(B[k]) < |m|
    ensures CanTag(m, B[k].bp, B[k].size, PrevBit(B[k].prevAlloc))
    ensures Pending(Tagged(m, B[k].bp, B[k].size, PrevBit(B[k].prevAlloc)), Freed(B, k), L, k)
  {
    FreeRetile(m, B, L, k);
    FreedTags(B, k);
    TaggedLast(m, B[k].bp, B[k].size, PrevBit(B[k].prevAlloc), LastAlloc(B));
    PendingIntro(Tagged(m, B[k].bp, B[k].size, PrevBit(B[k].prevAlloc)), Freed(B, k), L, k);
  }

  /** The state coalesce starts from, assembled from its parts. */
  lemma PendingIntro(m: seq<u32>, B: seq<Blk>, L: seq<seq<nat>>, t: nat)
    requires t < |B| && !B[t].alloc && Lone(m, B, L, t) && Marked(Hide(B, t))
    requires EpilogueOk(m[|m| - 1], LastAlloc(Hide(B, t)))
    ensures Pending(m, B, L, t)
  {
  }

  /** The header and footer written: the block is free in B and hidden in the view. */
  lemma FreeRetile(m: seq<u32>, B: seq<Blk>, L: seq<seq<nat>>, k: nat)
    requires Shown(m, B, L) && k < |B| && B[k].alloc
    ensures CanTag(m, B[k].bp, B[k].size, PrevBit(B[k].prevAlloc))
    ensures var m' := Tagged(m, B[k].bp, B[k].size, PrevBit(B[k].prevAlloc));
      Lone(m', Freed(B, k), L, k)
  {
    FreedMerge(B, k);
    var M := Merged(B, k, k + 1);
    assert M.bp == B[k].bp && M.size == B[k].size && M.prevAlloc == B[k].prevAlloc;
    assert Inv(m, B, L, Veiled(B, k, k + 1));
    MergeRetile(m, B, L, k, k + 1);
    var m' := Tagged(m, B[k].bp, B[k].size, PrevBit(B[k].prevAlloc));
    assert Tagged(m, M.bp, M.size, PrevBit(M.prevAlloc)) == m';
    assert Lone(m', Freed(B, k), L, k);
  }

  /** A free block's header and footer lie below the epilogue word. */
  lemma TaggedLast(m: seq<u32>, bp: nat, size: nat, prev: nat, last: bool)
    requires CanTag(m, bp, size, prev) && (bp + size - 4) / 4 < |m| && EpilogueOk(m[|m| - 1], last)
    ensures var m' := Tagged(m, bp, size, prev); EpilogueOk(m'[|m'| - 1], last)
  {
    var m' := Tagged(m, bp, size, prev);
    assert m'[|m| - 1] == m[|m| - 1];
  }

  /* ---------- extend_heap ---------- */

  /** The words mem_sbrk adds: fresh memory, here zero. */
  function Zeros(n: nat): (z: seq<u32>)
    ensures |z| == n && forall i :: 0 <= i < n ==> z[i] == 0
  {
    seq(n, i => 0)
  }

  /** The bytes extend_heap(words) asks for: an even number of words. */
  function ExtendSize(words: nat): (size: nat)
    ensures size % 8 == 0 && 4 * words <= size <= 4 * words + 4
  {
    if words % 2 == 1 then (words + 1) * WSIZE else words * WSIZE
  }

  /** What extend_heap needs of the grown heap: an old epilogue and room for the new block. */
  predicate CanExtend(m: seq<u32>, size: nat) {
    |m| >= 2 && size >= MIN_FREE_SIZE && size % 8 == 0 && 4 * |m| + size < MAX_HEAP_SIZE
  }

  /**
   * The words after extend_heap grows the heap m by size bytes: the old
   * epilogue becomes the new block's header, keeping its prev-alloc
   * bit; then the footer, and the new epilogue PACK(0, 2, 1).
   */
  function ExtendWords(m: seq<u32>, size: nat): (r: seq<u32>)
    requires CanExtend(m, size)
    ensures |r| == |m| + size / 4 && 4 * |r| == 4 * |m| + size
  {
    var m1 := m + Zeros(size / 4);
    var m2 := Tagged(m1, 4 * |m|, size, GetPrevAlloc(m[|m| - 1]));
    m2[|m1| - 1 := Pack(0, 2, 1)]
  }

  /** The blocks end on an 8-byte boundary at or past the first block's address. */
  lemma TopAligned(B: seq<Blk>, top: nat)
    requires Tiled(B, top)
    ensures top % 8 == 0 && top >= FIRST_BP
  {
    if |B| > 0 {
      assert BlockShape(B[|B| - 1]);
    }
  }

  /** The words extend_heap leaves, one by one. */
  lemma ExtendWordsAt(m: seq<u32>, size: nat)
    requires CanExtend(m, size)
    ensures var m' := ExtendWords(m, size);
      && m'[|m| - 1] == Pack(size, GetPrevAlloc(m[|m| - 1]), 0)
      && m'[|m'| - 2] == Pack(size, 0, 0)
      && m'[|m'| - 1] == Pack(0, 2, 1)
      && (forall x :: 0 <= x < |m| - 1 ==> m'[x] == m[x])
  {
    var m1 := m + Zeros(size / 4);
    assert HdrW(4 * |m|) == |m| - 1 && (4 * |m| + size - 8) / 4 == |m1| - 2;
    forall x | 0 <= x < |m| - 1
      ensures ExtendWords(m, size)[x] == m[x]
    {
      assert m1[x] == m[x];
    }
  }

  /** Where the new block's header, footer and the new epilogue lie. */
  lemma ExtendIndices(n: nat, size: nat, n': nat)
    requires n >= 1 && size % 8 == 0 && size >= MIN_FREE_SIZE && n' == n + size / 4
    ensures 4 * n + size == 4 * n'
    ensures (4 * n - 4) / 4 == n - 1 && (4 * n + size - 8) / 4 == n' - 2 && (4 * n + size - 4) / 4 == n' - 1
  {
    assert size == 4 * (size / 4);
    assert 4 * n + size - 8 == 4 * (n' - 2) && 4 * n + size - 4 == 4 * (n' - 1);
  }

  /** The new block's header and footer describe it, given the words extend_heap leaves. */
  lemma ExtendBlock(m: seq<u32>, m': seq<u32>, size: nat, last: bool)
    requires CanExtend(m, size) && (4 * |m|) % 8 == 0 && 4 * |m| >= FIRST_BP && |m'| == |m| + size / 4
    requires m'[|m| - 1] == Pack(size, PrevBit(last), 0) && m'[|m'| - 2] == Pack(size, 0, 0)
    ensures var b := Blk(4 * |m|, size, false, last);
      BlockShape(b) && End(b) == 4 * |m'| && BlockOk(m', b)
  {
    var b := Blk(4 * |m|, size, false, last);
    ExtendIndices(|m|, size, |m'|);
    assert HdrW(b.bp) == |m| - 1 && FtrW(b) == |m'| - 2 && Stop(b) == |m'| - 1;
    FreeTags(b);
  }

  /** The header and footer words of a free block describe it. */
  lemma FreeTags(b: Blk)
    requires b.size % 8 == 0 && b.size < MAX_HEAP_SIZE && !b.alloc
    ensures Describes(Pack(b.size, PrevBit(b.prevAlloc), 0), b) && FootsOf(Pack(b.size, 0, 0), b)
  {
  }

  /**
   * extend_heap grows the heap by a new free block after the last one,
   * and leaves the state coalesce starts from, with the blocks Extended.
   */
  lemma ExtendOk(m: seq<u32>, B: seq<Blk>, L: seq<seq<nat>>, size: nat)
    requires Consistent(m, B, L) && CanExtend(m, size)
    ensures GetPrevAlloc(m[|m| - 1]) == PrevBit(LastAlloc(B))
    ensures Pending(ExtendWords(m, size), Extended(B, 4 * |m|, size), L, |B|)
  {
    assert Shown(m, B, L) && Marked(B) && EpilogueOk(m[|m| - 1], LastAlloc(B)) && Tiled(B, 4 * |m|) by {
      assert Tags(m, B);
    }
    TopAligned(B, 4 * |m|);
    ExtendWordsAt(m, size);
    ExtendPending(m, ExtendWords(m, size), B, L, size);
  }

  /** The new block added after the last one, hidden, with the words extend_heap leaves. */
  lemma ExtendPending(m: seq<u32>, m': seq<u32>, B: seq<Blk>, L: seq<seq<nat>>, size: nat)
    requires Shown(m, B, L) && Marked(B) && EpilogueOk(m[|m| - 1], LastAlloc(B))
    requires CanExtend(m, size) && (4 * |m|) % 8 == 0 && 4 * |m| >= FIRST_BP && |m'| == |m| + size / 4
    requires m'[|m| - 1] == Pack(size, GetPrevAlloc(m[|m| - 1]), 0) && m'[|m'| - 2] == Pack(size, 0, 0)
    requires m'[|m'| - 1] == Pack(0, 2, 1) && forall x :: 0 <= x < |m| - 1 ==> m'[x] == m[x]
    ensures Pending(m', Extended(B, 4 * |m|, size), L, |B|)
  {
    var b := Blk(4 * |m|, size, false, LastAlloc(B));
    ExtendBlock(m, m', size, LastAlloc(B));
    ExtendStep(m, B, L, B, m', b);
    ExtendedMarked(B, 4 * |m|, size);
    var E := Extended(B, 4 * |m|, size);
    assert E == B + [b];
    assert Hide(E, |B|) == B + [b.(alloc := true)];
    assert Lone(m', E, L, |B|);
    PendingIntro(m', E, L, |B|);
  }

  /**
   * After extend_heap the last block is the free block coalesce returns:
   * the new block, merged with the old last block if that was free.
   */
  lemma ExtendedLast(B: seq<Blk>, top: nat, size: nat)
    ensures var E := Extended(B, top, size);
      var C := Coalesced(E, |B|);
      && |C| > 0 && C[|C| - 1].bp == E[MergeFrom(E, |B|)].bp && !C[|C| - 1].alloc
      && C[|C| - 1].size == size + (if LastAlloc(B) then 0 else B[|B| - 1].size)
  {
    ExtendedMerge(B, top, size);
  }

  /** What the heap looks like after extend_heap and its coalesce, in terms of the blocks before. */
  lemma ExtendedAfter(B: seq<Blk>, top: nat, size: nat)
    ensures var E := Extended(B, top, size);
      var C := Coalesced(E, |B|);
      && |C| > 0 && C[|C| - 1].bp == E[MergeFrom(E, |B|)].bp && !C[|C| - 1].alloc
      && C[|C| - 1].size == size + (if LastAlloc(B) then 0 else B[|B| - 1].size)
      && Used(C) == Used(B)
  {
    var E := Extended(B, top, size);
    ExtendedLast(B, top, size);
    ExtendedUsed(B, top, size);
    CoalescedUsed(E, |B|);
  }

  /** No block of a consistent heap sits at address 0, the NULL the allocator returns on failure. */
  lemma BlockAddr(m: seq<u32>, B: seq<Blk>, L: seq<seq<nat>>, k: nat)
    requires Consistent(m, B, L) && k < |B|
    ensures B[k].bp >= FIRST_BP && B[k].size >= MIN_FREE_SIZE && B[k].size % 8 == 0
    ensures B[k].bp % 8 == 0 && B[k].bp + B[k].size <= 4 * |m|
  {
    assert Shape(m, B);
    assert BlockShape(B[k]);
  }
}
