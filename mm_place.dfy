/*
 * place(bp, asize) of malloclab-handout/mm.c, step by step: the free
 * block leaves its list, then either splits into an allocated block and
 * a free remainder that goes back on a list, or is handed out whole and
 * its successor's prev-alloc bit is set. Each case ends in a consistent
 * heap whose blocks are Placed.
 */
module MmPlace {
  import opened MmCodec
  import opened MmHeap
  import opened MmLinks
  import opened MmTiles
  import opened MmSteps
  import opened MmBlocks
  import opened MmCoalesce

  /** What place needs before its case split: bp can be unlinked and its header lies in the heap. */
  predicate PlaceReads(m: seq<u32>, bp: nat) {
    var ok := bp >= 8 && CanDelete(m, bp) && HdrW(bp) < |m|;
    ok
  }

  /** The size of the free block a split leaves behind. */
  function Rest(csize: nat, asize: nat): nat
    requires asize <= csize
  {
    csize - asize
  }

  /** What the split's three header writes need: both header words and the remainder's footer in the heap. */
  predicate CanCarve(m: seq<u32>, bp: nat, asize: nat, csize: nat, prev: nat) {
    var ok := bp >= 8 && HdrW(bp) < |m| && asize % 8 == 0 && asize < MAX_HEAP_SIZE && IsPrevBit(prev) && asize <= csize
      && CanTag(m, NextBp(bp, asize), Rest(csize, asize), 2);
    ok
  }

  /**
   * The split's header writes: bp's header says allocated with asize
   * bytes, then the remainder's header and footer say free.
   */
  function Carved(m: seq<u32>, bp: nat, asize: nat, csize: nat, prev: nat): (r: seq<u32>)
    requires CanCarve(m, bp, asize, csize, prev)
    ensures |r| == |m|
  {
    var r := Tagged(m[HdrW(bp) := Pack(asize, prev, 1)], NextBp(bp, asize), Rest(csize, asize), 2);
    r
  }

  /** What the split case needs: room for the remainder's header and footer, then for its insertion. */
  predicate CanSplit(m: seq<u32>, bp: nat, asize: nat, csize: nat, prev: nat) {
    var ok := PlaceReads(m, bp) && CanCarve(Deleted(m, bp), bp, asize, csize, prev)
      && CanInsert(Carved(Deleted(m, bp), bp, asize, csize, prev), NextBp(bp, asize), Rest(csize, asize));
    ok
  }

  /**
   * The words after the split case of place on a free block of csize
   * bytes: the block is unlinked, its first asize bytes become an
   * allocated block, and the rest a free block, tagged and inserted.
   */
  function SplitWords(m: seq<u32>, bp: nat, asize: nat, csize: nat, prev: nat): seq<u32>
    requires CanSplit(m, bp, asize, csize, prev)
  {
    Inserted(Carved(Deleted(m, bp), bp, asize, csize, prev), NextBp(bp, asize), Rest(csize, asize))
  }

  /** What the whole-block case needs: the header after the block lies in the heap. */
  predicate CanWhole(m: seq<u32>, bp: nat, csize: nat) {
    var ok := PlaceReads(m, bp) && csize % 8 == 0 && csize < MAX_HEAP_SIZE && HdrW(NextBp(bp, csize)) < |m|;
    ok
  }

  /**
   * The words after the whole-block case of place: the block is
   * unlinked, its header marks it allocated, and the next header's
   * prev-alloc bit is set.
   */
  function WholeWords(m: seq<u32>, bp: nat, csize: nat): seq<u32>
    requires CanWhole(m, bp, csize)
  {
    var m2 := Deleted(m, bp)[HdrW(bp) := Pack(csize, 2, 1)];
    var h := HdrW(NextBp(bp, csize));
    m2[h := SetPrevAlloc(m2[h])]
  }

  /** place's first reads: the header of free block k gives its size and its prev-alloc bit. */
  lemma PlaceHeader(m: seq<u32>, B: seq<Blk>, L: seq<seq<nat>>, k: nat)
    requires Consistent(m, B, L) && k < |B|
    ensures HdrW(B[k].bp) < |m|
    ensures GetSize(m[HdrW(B[k].bp)]) == B[k].size && GetPrevAlloc(m[HdrW(B[k].bp)]) == PrevBit(B[k].prevAlloc)
  {
    ReadBlock(m, B, k);
  }

  /**
   * delete(bp) on a listed free block: the heap is as before with block
   * k hidden and off its list, and bp's header still reads as block k.
   */
  lemma PlaceUnlink(m: seq<u32>, B: seq<Blk>, L: seq<seq<nat>>, k: nat) returns (L1: seq<seq<nat>>)
    requires Consistent(m, B, L) && k < |B| && !B[k].alloc
    ensures PlaceReads(m, B[k].bp)
    ensures var h := HdrW(B[k].bp);
      GetSize(m[h]) == B[k].size && GetPrevAlloc(m[h]) == PrevBit(B[k].prevAlloc)
    ensures Lone(Deleted(m, B[k].bp), B, L1, k) && Deleted(m, B[k].bp)[|m| - 1] == m[|m| - 1]
  {
    assert Inv(m, B, L, B);
    ReadBlock(m, B, k);
    var c, p := NodeAt(m, B, L, B, k);
    DeleteStep(m, B, L, B, c, p);
    NeighbourApart(m, L, c, p);
    L1 := Unlink(L, c, p);
    var n := DeleteWords(m, L[c][p], Before(Dummy(c), L[c], p), After(Dummy(c), L[c], p));
    SameInv(n, B, L1, B[k := B[k].(alloc := true)], Deleted(m, B[k].bp), B, Hide(B, k));
  }

  /** The allocated half of a split, counted as allocated, is itself. */
  lemma SplitHidden(B: seq<Blk>, k: nat, asize: nat)
    requires k < |B| && asize <= B[k].size
    ensures Splice(Hide(B, k), k, k + 1, Hidden(Split(B[k], asize))) == Hide(Splice(B, k, k + 1, Split(B[k], asize)), k + 1)
  {
  }

  /** The words the split writes, in order, inside the block's own words. */
  lemma SplitIndices(b: Blk, asize: nat)
    requires BlockShape(b) && asize % 8 == 0 && asize >= MIN_FREE_SIZE && asize <= b.size && b.size - asize >= MIN_FREE_SIZE
    ensures HdrW(b.bp) < HdrW(NextBp(b.bp, asize)) < FtrW(b) < Stop(b)
    ensures (NextBp(b.bp, asize) + Rest(b.size, asize) - 8) / 4 == FtrW(b)
    ensures Rest(b.size, asize) % 8 == 0 && NextBp(b.bp, asize) >= 8
  {
    var W := Split(b, asize);
    assert BlockShape(W[0]) && BlockShape(W[1]);
    BlockWords(W[0]);
    BlockWords(W[1]);
  }

  /** Words holding the split's three tags describe the two blocks of Split, which tile the old block. */
  lemma SplitBlocks(m: seq<u32>, b: Blk, asize: nat, rest: u32)
    requires BlockShape(b) && asize % 8 == 0 && asize >= MIN_FREE_SIZE && asize <= b.size && b.size - asize >= MIN_FREE_SIZE
    requires b.size < MAX_HEAP_SIZE && rest == Rest(b.size, asize) && Stop(b) < |m|
    requires m[HdrW(b.bp)] == Pack(asize, PrevBit(b.prevAlloc), 1)
    requires m[HdrW(NextBp(b.bp, asize))] == Pack(rest, 2, 0)
    requires m[FtrW(b)] == Pack(rest, 0, 0)
    ensures TilesFrom(Split(b, asize), b.bp, End(b)) && Heads(m, Split(b, asize))
  {
    var W := Split(b, asize);
    SplitTiles(b, asize);
    SplitIndices(b, asize);
    assert W[1].bp == NextBp(b.bp, asize) && W[1].size == rest && FtrW(W[1]) == FtrW(b) && Stop(W[1]) == Stop(b);
    assert Describes(m[HdrW(b.bp)], W[0]);
    assert BlockOk(m, W[0]);
    assert Describes(m[HdrW(W[1].bp)], W[1]) && FootsOf(m[FtrW(W[1])], W[1]);
    assert BlockOk(m, W[1]);
  }

  /**
   * The split's header writes on a block the words describe: the two
   * blocks of Split are described and tile the old block, and no word
   * outside it changes.
   */
  lemma SplitWrites(m: seq<u32>, b: Blk, asize: nat)
    requires BlockOk(m, b) && !b.alloc && 4 * |m| < MAX_HEAP_SIZE
    requires asize % 8 == 0 && asize >= MIN_FREE_SIZE && asize <= b.size && b.size - asize >= MIN_FREE_SIZE
    ensures CanCarve(m, b.bp, asize, b.size, PrevBit(b.prevAlloc))
    ensures var m' := Carved(m, b.bp, asize, b.size, PrevBit(b.prevAlloc));
      && TilesFrom(Split(b, asize), b.bp, End(b)) && Heads(m', Split(b, asize))
      && (forall x :: 0 <= x < |m| && !(HdrW(b.bp) <= x < Stop(b)) ==> m'[x] == m[x])
  {
    SplitIndices(b, asize);
    var p := PrevBit(b.prevAlloc);
    var hA, hB, f := HdrW(b.bp), HdrW(NextBp(b.bp, asize)), FtrW(b);
    var rest: u32 := Rest(b.size, asize);
    assert CanCarve(m, b.bp, asize, b.size, p);
    var m' := Carved(m, b.bp, asize, b.size, p);
    assert m' == m[hA := Pack(asize, p, 1)][hB := Pack(rest, 2, 0)][f := Pack(rest, 0, 0)];
    SplitBlocks(m', b, asize, rest);
  }

  /** Block k of a readable heap is described by the words, within the heap's bound. */
  lemma LoneBlock(m: seq<u32>, B: seq<Blk>, L: seq<seq<nat>>, k: nat)
    requires Lone(m, B, L, k)
    ensures BlockOk(m, B[k]) && 4 * |m| < MAX_HEAP_SIZE && Inv(m, B, L, Hide(B, k))
  {
    assert Inv(m, B, L, Hide(B, k));
    assert Heads(m, B);
  }

  /**
   * The split's header writes: the allocated block's header, then the
   * remainder's header and footer. The window becomes the two blocks of
   * Split, with the remainder hidden.
   */
  lemma SplitRetile(m: seq<u32>, B: seq<Blk>, L: seq<seq<nat>>, k: nat, asize: nat)
    requires Lone(m, B, L, k) && !B[k].alloc && asize % 8 == 0 && asize >= MIN_FREE_SIZE
    requires asize <= B[k].size && B[k].size - asize >= MIN_FREE_SIZE
    ensures CanCarve(m, B[k].bp, asize, B[k].size, PrevBit(B[k].prevAlloc))
    ensures var m' := Carved(m, B[k].bp, asize, B[k].size, PrevBit(B[k].prevAlloc));
      Lone(m', Splice(B, k, k + 1, Split(B[k], asize)), L, k + 1) && m'[|m| - 1] == m[|m| - 1]
  {
    var b := B[k];
    LoneBlock(m, B, L, k);
    SplitWrites(m, b, asize);
    var m' := Carved(m, b.bp, asize, b.size, PrevBit(b.prevAlloc));
    RetileStep(m, B, L, Hide(B, k), k, k + 1, Split(b, asize), m');
    SplitHidden(B, k, asize);
  }

  /** The heap's tags, out of Consistent. */
  lemma TagsOf(m: seq<u32>, B: seq<Blk>, L: seq<seq<nat>>)
    requires Consistent(m, B, L)
    ensures |m| > 0 && Marked(B) && EpilogueOk(m[|m| - 1], LastAlloc(B))
  {
    assert Tags(m, B);
  }

  /** delete(bp) and the three header writes of the split: the remainder is the one hidden block. */
  lemma SplitStage(m: seq<u32>, B: seq<Blk>, L: seq<seq<nat>>, k: nat, asize: nat) returns (L1: seq<seq<nat>>)
    requires Consistent(m, B, L) && k < |B| && !B[k].alloc && asize % 8 == 0 && asize >= MIN_FREE_SIZE
    requires asize <= B[k].size && B[k].size - asize >= MIN_FREE_SIZE
    ensures PlaceReads(m, B[k].bp) && CanCarve(Deleted(m, B[k].bp), B[k].bp, asize, B[k].size, PrevBit(B[k].prevAlloc))
    ensures var m3 := Carved(Deleted(m, B[k].bp), B[k].bp, asize, B[k].size, PrevBit(B[k].prevAlloc));
      Lone(m3, Splice(B, k, k + 1, Split(B[k], asize)), L1, k + 1) && m3[|m| - 1] == m[|m| - 1]
  {
    var b := B[k];
    L1 := PlaceUnlink(m, B, L, k);
    var m1 := Deleted(m, b.bp);
    SplitRetile(m1, B, L1, k, asize);
  }

  /** After the split, every prev-alloc bit tells the truth and the epilogue word already fits. */
  lemma SplitTags(m: seq<u32>, B: seq<Blk>, L: seq<seq<nat>>, k: nat, asize: nat)
    requires Consistent(m, B, L) && k < |B| && !B[k].alloc
    requires asize <= B[k].size && B[k].size - asize >= MIN_FREE_SIZE
    ensures var C := Splice(B, k, k + 1, Split(B[k], asize));
      && k + 1 < |C| && C[k + 1] == Blk(NextBp(B[k].bp, asize), Rest(B[k].size, asize), false, true)
      && Marked(C) && EpilogueOk(m[|m| - 1], LastAlloc(C))
  {
    PlacedForm(B, k, asize);
    TagsOf(m, B, L);
    PlacedMarked(B, k, asize);
  }

  /** The split's words are its header writes followed by insert. */
  lemma SplitBridge(m: seq<u32>, bp: nat, asize: nat, csize: nat, prev: nat, C: seq<Blk>, L': seq<seq<nat>>)
    requires PlaceReads(m, bp) && CanCarve(Deleted(m, bp), bp, asize, csize, prev)
    requires CanInsert(Carved(Deleted(m, bp), bp, asize, csize, prev), NextBp(bp, asize), Rest(csize, asize))
    requires Consistent(Inserted(Carved(Deleted(m, bp), bp, asize, csize, prev), NextBp(bp, asize), Rest(csize, asize)), C, L')
    ensures CanSplit(m, bp, asize, csize, prev) && Consistent(SplitWords(m, bp, asize, csize, prev), C, L')
  {
  }

  /** insert(bp, size) on the one hidden free block i, named by its address and size. */
  lemma InsertAt(m: seq<u32>, C: seq<Blk>, L: seq<seq<nat>>, i: nat, bp: nat, size: nat)
    requires Lone(m, C, L, i) && C[i] == Blk(bp, size, false, true)
    requires Marked(C) && |m| > 0 && EpilogueOk(m[|m| - 1], LastAlloc(C))
    ensures CanInsert(m, bp, size) && Consistent(Inserted(m, bp, size), C, Push(L, ListIndex(size), bp))
  {
    InsertSettles(m, C, L, i);
  }

  /** The split case of place leaves the heap consistent, its blocks Placed. */
  lemma SplitOk(m: seq<u32>, B: seq<Blk>, L: seq<seq<nat>>, k: nat, asize: nat) returns (L': seq<seq<nat>>)
    requires Consistent(m, B, L) && k < |B| && !B[k].alloc && asize % 8 == 0 && asize >= MIN_FREE_SIZE
    requires asize <= B[k].size && B[k].size - asize >= MIN_FREE_SIZE
    ensures CanSplit(m, B[k].bp, asize, B[k].size, PrevBit(B[k].prevAlloc))
    ensures Consistent(SplitWords(m, B[k].bp, asize, B[k].size, PrevBit(B[k].prevAlloc)), Placed(B, k, asize), L')
  {
    var b, p := B[k], PrevBit(B[k].prevAlloc);
    var L1 := SplitStage(m, B, L, k, asize);
    var m3 := Carved(Deleted(m, b.bp), b.bp, asize, b.size, p);
    var C := Splice(B, k, k + 1, Split(b, asize));
    SplitTags(m, B, L, k, asize);
    LastSame(m3, m);
    InsertAt(m3, C, L1, k + 1, NextBp(b.bp, asize), Rest(b.size, asize));
    L' := Push(L1, ListIndex(Rest(b.size, asize)), NextBp(b.bp, asize));
    SplitBridge(m, b.bp, asize, b.size, p, C, L');
    PlacedForm(B, k, asize);
  }

  /** The whole block's header write: block k becomes Whole, shown as it is. */
  lemma WholeRetile(m: seq<u32>, B: seq<Blk>, L: seq<seq<nat>>, k: nat)
    requires Lone(m, B, L, k) && !B[k].alloc
    ensures B[k].bp >= 8 && HdrW(B[k].bp) < |m| && B[k].size < MAX_HEAP_SIZE
    ensures var m' := m[HdrW(B[k].bp) := Pack(B[k].size, 2, 1)];
      Shown(m', B[k := Whole(B[k])], L) && m'[|m| - 1] == m[|m| - 1]
  {
    var b := B[k];
    var A := Whole(b);
    assert BlockOk(m, b);
    BlockWords(b);
    var m' := m[HdrW(b.bp) := Pack(b.size, 2, 1)];
    assert BlockOk(m', A);
    RetileStep(m, B, L, Hide(B, k), k, k + 1, [A], m');
    SpliceOne(B, k, A);
    SpliceOne(Hide(B, k), k, A);
    assert Hidden([A]) == [A];
  }

  /** The three writes of the whole-block case: the heap shows the blocks as place leaves them. */
  lemma WholeStage(m: seq<u32>, B: seq<Blk>, L: seq<seq<nat>>, k: nat) returns (L1: seq<seq<nat>>)
    requires Consistent(m, B, L) && k < |B| && !B[k].alloc
    ensures CanWhole(m, B[k].bp, B[k].size)
    ensures var m' := WholeWords(m, B[k].bp, B[k].size);
      && Shown(m', SetPrevOfNext(B[k := Whole(B[k])], k, true), L1)
      && |m'| == |m| && |m| > 0
      && (k + 1 < |B| ==> m'[|m| - 1] == m[|m| - 1])
      && (k + 1 == |B| ==> m'[|m| - 1] == SetPrevAlloc(m[|m| - 1]))
  {
    var b := B[k];
    L1 := PlaceUnlink(m, B, L, k);
    var m1 := Deleted(m, b.bp);
    WholeRetile(m1, B, L1, k);
    var m2 := Deleted(m, b.bp)[HdrW(b.bp) := Pack(b.size, 2, 1)];
    var A := B[k := Whole(b)];
    assert Inv(m2, A, L1, A);
    NextBitStep(m2, A, L1, A, k, true);
    var nh := Stop(A[k]);
    assert nh == Stop(b) by { assert A[k] == Whole(b); }
    WholeForm(m, b);
    var P := SetPrevOfNext(A, k, true);
    SameInv(m2[nh := WithPrev(m2[nh], true)], P, L1, P, WholeWords(m, b.bp, b.size), P, P);
  }

  /** The words of the whole-block case, with the next header written as the word after the block. */
  lemma WholeForm(m: seq<u32>, b: Blk)
    requires PlaceReads(m, b.bp) && BlockShape(b) && b.size < MAX_HEAP_SIZE && Stop(b) < |m|
    ensures CanWhole(m, b.bp, b.size)
    ensures var m2 := Deleted(m, b.bp)[HdrW(b.bp) := Pack(b.size, 2, 1)];
      WholeWords(m, b.bp, b.size) == m2[Stop(b) := WithPrev(m2[Stop(b)], true)]
  {
  }

  /** The whole-block case of place leaves the heap consistent, its blocks Placed. */
  lemma WholeOk(m: seq<u32>, B: seq<Blk>, L: seq<seq<nat>>, k: nat, asize: nat) returns (L': seq<seq<nat>>)
    requires Consistent(m, B, L) && k < |B| && !B[k].alloc
    requires asize <= B[k].size && B[k].size - asize < MIN_FREE_SIZE
    ensures CanWhole(m, B[k].bp, B[k].size)
    ensures Consistent(WholeWords(m, B[k].bp, B[k].size), Placed(B, k, asize), L')
  {
    L' := WholeStage(m, B, L, k);
    var m' := WholeWords(m, B[k].bp, B[k].size);
    PlacedForm(B, k, asize);
    TagsOf(m, B, L);
    PlacedMarked(B, k, asize);
    if k + 1 < |B| {
      LastSame(m', m);
    }
    Settled(m', Placed(B, k, asize), L');
  }
}
