/*
 * One step of an allocator operation at a time (malloclab-handout/mm.c).
 *
 * In the middle of free, coalesce, place and extend_heap a block can be
 * free without being on any list: it has just been freed, taken off its
 * list to be merged or split, or just been created.  The view H is the
 * block sequence B with such blocks counted as allocated; between steps
 * the lists hold exactly the free blocks of H.  Each lemma here takes
 * one primitive write of the source (delete, insert, rewriting the
 * headers and footers of a window of blocks, setting a prev-alloc bit,
 * rewriting the epilogue, growing the heap) and shows the invariant
 * survives it with the expected new B, lists and view.
 */
module MmSteps {
  import opened MmCodec
  import opened MmHeap
  import opened MmLinks
  import opened MmTiles

  /** H is B with some free blocks counted as allocated. */
  predicate Hides(H: seq<Blk>, B: seq<Blk>) {
    |H| == |B| && forall k {:trigger H[k]} :: 0 <= k < |B| ==> H[k] == B[k] || H[k] == B[k].(alloc := true)
  }

  /** The invariant between two writes of an operation. */
  predicate Inv(m: seq<u32>, B: seq<Blk>, L: seq<seq<nat>>, H: seq<Blk>) {
    Shape(m, B) && ListsOk(m, L) && Hides(H, B) && Members(H, L)
  }

  /** Block t counted as allocated. */
  function Hide(B: seq<Blk>, t: nat): (H: seq<Blk>)
    requires t < |B|
    ensures Hides(H, B) && H[t].alloc
  {
    B[t := B[t].(alloc := true)]
  }

  /** The blocks of W, all counted as allocated. */
  function Hidden(W: seq<Blk>): (r: seq<Blk>)
    ensures |r| == |W| && forall x {:trigger r[x]} :: 0 <= x < |W| ==> r[x] == W[x].(alloc := true)
  {
    seq(|W|, x requires 0 <= x < |W| => W[x].(alloc := true))
  }

  /* ---------- counting free blocks ---------- */

  lemma FreeSeqOne(b: Blk, c: nat)
    ensures FreeSeq([b], c) == Slot(b, c)
  {
    assert [b][..0] == [];
  }

  /** The free blocks of a class around position k. */
  lemma FreeSeqAround(B: seq<Blk>, k: nat, c: nat)
    requires k < |B|
    ensures FreeSeq(B, c) == FreeSeq(B[..k], c) + Slot(B[k], c) + FreeSeq(B[k + 1..], c)
  {
    assert B == B[..k] + [B[k]] + B[k + 1..];
    FreeSeqAppend(B[..k] + [B[k]], B[k + 1..], c);
    FreeSeqAppend(B[..k], [B[k]], c);
    FreeSeqOne(B[k], c);
  }

  /** Replacing a block by one with the same slot keeps the free blocks of a class. */
  lemma BagSame(B: seq<Blk>, k: nat, b: Blk, c: nat)
    requires k < |B| && Slot(B[k], c) == Slot(b, c)
    ensures FreeSeq(B[k := b], c) == FreeSeq(B, c)
  {
    FreeSeqAround(B, k, c);
    FreeSeqAround(B[k := b], k, c);
    assert B[k := b][..k] == B[..k] && B[k := b][k + 1..] == B[k + 1..];
  }

  /** Replacing a block outside a class by a free one of the class adds its address. */
  lemma BagAdd(B: seq<Blk>, k: nat, b: Blk, c: nat)
    requires k < |B| && Slot(B[k], c) == [] && Slot(b, c) == [b.bp]
    ensures multiset(FreeSeq(B[k := b], c)) == multiset(FreeSeq(B, c)) + multiset{b.bp}
  {
    FreeSeqAround(B, k, c);
    FreeSeqAround(B[k := b], k, c);
    assert B[k := b][..k] == B[..k] && B[k := b][k + 1..] == B[k + 1..];
  }

  /** Replacing a window without free blocks of a class by another keeps the free blocks of the class. */
  lemma SpliceNone(B: seq<Blk>, i: nat, j: nat, W: seq<Blk>, c: nat)
    requires i <= j <= |B| && FreeSeq(B[i..j], c) == [] && FreeSeq(W, c) == []
    ensures FreeSeq(Splice(B, i, j, W), c) == FreeSeq(B, c)
  {
    assert B == B[..i] + B[i..j] + B[j..];
    FreeSeqAppend(B[..i] + B[i..j], B[j..], c);
    FreeSeqAppend(B[..i], B[i..j], c);
    FreeSeqAppend(B[..i] + W, B[j..], c);
    FreeSeqAppend(B[..i], W, c);
  }

  /** A run of allocated blocks has no free blocks. */
  lemma {:induction false} FreeSeqNone(W: seq<Blk>, c: nat)
    requires forall x :: 0 <= x < |W| ==> W[x].alloc
    ensures FreeSeq(W, c) == []
    decreases |W|
  {
    if |W| > 0 {
      FreeSeqNone(W[..|W| - 1], c);
    }
  }

  /** Adding the same element to two multisets keeps them equal or different. */
  lemma Cancel(X: multiset<nat>, Y: multiset<nat>, p: nat)
    requires X + multiset{p} == Y + multiset{p}
    ensures X == Y
  {
    assert X == (X + multiset{p}) - multiset{p};
    assert Y == (Y + multiset{p}) - multiset{p};
  }

  /** Taking node j out of a list takes one copy of it out of the list's multiset. */
  lemma RemoveBag(l: seq<nat>, j: nat)
    requires j < |l|
    ensures multiset(Remove(l, j)) + multiset{l[j]} == multiset(l)
  {
    assert l == l[..j] + [l[j]] + l[j + 1..];
  }

  /* ---------- what the invariant gives ---------- */

  /** Every listed node is a block, a free one of its list's class in the view. */
  lemma InvNodes(m: seq<u32>, B: seq<Blk>, L: seq<seq<nat>>, H: seq<Blk>)
    requires Inv(m, B, L, H)
    ensures NodesOutside(B, L, 0, 0)
  {
    MembersListed(H, L);
    ListedOutside(H, B, 4 * |m|, L, 0, 0);
  }

  /** A block the view counts as allocated is on no list. */
  lemma HiddenUnlisted(B: seq<Blk>, top: nat, L: seq<seq<nat>>, H: seq<Blk>, k: nat)
    requires Tiled(B, top) && Hides(H, B) && |L| == LIST_NUM && Members(H, L)
    requires k < |B| && H[k].alloc
    ensures Unlisted(L, B[k].bp)
  {
    TiledAscending(B, top);
    assert Ascending(H);
    FindBlockAt(H, k);
    MembersListed(H, L);
    forall c, j | 0 <= c < |L| && 0 <= j < |L[c]|
      ensures L[c][j] != B[k].bp
    {
      if L[c][j] == B[k].bp {
        ListedNode(H, L, c, j);
      }
    }
  }

  /** Lists whose link words are unchanged stay well formed, even in a grown heap. */
  lemma ListsFrame(m: seq<u32>, n: seq<u32>, L: seq<seq<nat>>)
    requires ListsOk(m, L) && |n| >= |m|
    requires forall x :: 0 <= x < |m| && !OffLists(L, x) ==> n[x] == m[x]
    ensures ListsOk(n, L)
  {
    forall c | 0 <= c < LIST_NUM
      ensures Linked(n, Dummy(c), L[c])
    {
      DummyBelow(c);
      forall j | 0 <= j < |L[c]|
        ensures KeptLinks(m, n, L[c][j])
      {
        var p := L[c][j];
        assert !OffLists(L, p / 4) && !OffLists(L, p / 4 + 1);
      }
      assert !OffLists(L, Dummy(c) / 4) && !OffLists(L, Dummy(c) / 4 + 1);
      LinkedFrame(m, n, Dummy(c), L[c]);
    }
  }

  /* ---------- delete ---------- */

  /** The class of a listed node after it is unlinked. */
  lemma DeleteClass(H: seq<Blk>, l: seq<nat>, j: nat, k: nat)
    requires j < |l| && k < |H| && !H[k].alloc && H[k].bp == l[j]
    requires multiset(l) == multiset(FreeSeq(H, ListIndex(H[k].size)))
    ensures multiset(Remove(l, j)) == multiset(FreeSeq(H[k := H[k].(alloc := true)], ListIndex(H[k].size)))
  {
    var c := ListIndex(H[k].size);
    var H' := H[k := H[k].(alloc := true)];
    BagAdd(H', k, H[k], c);
    assert H'[k := H[k]] == H;
    RemoveBag(l, j);
    Cancel(multiset(Remove(l, j)), multiset(FreeSeq(H', c)), l[j]);
  }

  /** Another class after a listed node is unlinked. */
  lemma DeleteOtherClass(H: seq<Blk>, l: seq<nat>, k: nat, c2: nat)
    requires k < |H| && ListIndex(H[k].size) != c2
    requires multiset(l) == multiset(FreeSeq(H, c2))
    ensures multiset(l) == multiset(FreeSeq(H[k := H[k].(alloc := true)], c2))
  {
    BagSame(H, k, H[k].(alloc := true), c2);
  }

  /** The view after a listed node is unlinked still holds exactly the listed blocks. */
  lemma DeleteMembers(H: seq<Blk>, L: seq<seq<nat>>, c: nat, j: nat, k: nat)
    requires |L| == LIST_NUM && Members(H, L) && c < LIST_NUM && j < |L[c]|
    requires k < |H| && !H[k].alloc && H[k].bp == L[c][j] && ListIndex(H[k].size) == c
    ensures Members(H[k := H[k].(alloc := true)], Unlink(L, c, j))
  {
    var L', H' := Unlink(L, c, j), H[k := H[k].(alloc := true)];
    forall c2 | 0 <= c2 < LIST_NUM
      ensures ClassOk(H', L', c2)
    {
      assert ClassOk(H, L, c2);
      if c2 == c {
        DeleteClass(H, L[c], j, k);
      } else {
        DeleteOtherClass(H, L[c2], k, c2);
      }
    }
  }

  /**
   * delete(p) for node j of list c: the neighbours read from p's words
   * are the list neighbours, and afterwards p's block is free but
   * unlisted while everything else stays.
   */
  lemma DeleteStep(m: seq<u32>, B: seq<Blk>, L: seq<seq<nat>>, H: seq<Blk>, c: nat, j: nat)
    requires Inv(m, B, L, H) && c < LIST_NUM && j < |L[c]|
    ensures HasFields(m, L[c][j]) && HasFields(m, Before(Dummy(c), L[c], j)) && HasFields(m, After(Dummy(c), L[c], j))
    ensures NextOf(m, L[c][j]) == After(Dummy(c), L[c], j) && PrevOf(m, L[c][j]) == Before(Dummy(c), L[c], j)
    ensures var k := FindBlock(B, L[c][j]);
      0 <= k < |B| && !B[k].alloc && H[k] == B[k] && ListIndex(B[k].size) == c
    ensures var n := DeleteWords(m, L[c][j], Before(Dummy(c), L[c], j), After(Dummy(c), L[c], j));
      var k := FindBlock(B, L[c][j]);
      0 <= k < |B| && Inv(n, B, Unlink(L, c, j), H[k := H[k].(alloc := true)]) && n[|m| - 1] == m[|m| - 1]
  {
    var d, p := Dummy(c), L[c][j];
    DeleteOk(m, L, c, j);
    InvNodes(m, B, L, H);
    DeleteFree(m, B, L, c, d, j, Before(d, L[c], j), After(d, L[c], j));
    DeleteShape(m, B, p, Before(d, L[c], j), After(d, L[c], j));
    DeleteView(B, 4 * |m|, L, H, c, j);
  }

  /** The block of an unlinked node: free, of the list's class, and hidden afterwards. */
  lemma DeleteView(B: seq<Blk>, top: nat, L: seq<seq<nat>>, H: seq<Blk>, c: nat, j: nat)
    requires Tiled(B, top) && Hides(H, B) && |L| == LIST_NUM && Members(H, L) && c < LIST_NUM && j < |L[c]|
    ensures var k := FindBlock(B, L[c][j]);
      && 0 <= k < |B| && !B[k].alloc && H[k] == B[k] && ListIndex(B[k].size) == c
      && Hides(H[k := H[k].(alloc := true)], B) && Members(H[k := H[k].(alloc := true)], Unlink(L, c, j))
  {
    TiledAscending(B, top);
    assert Ascending(H);
    MembersListed(H, L);
    ListedNode(H, L, c, j);
    FindSame(H, B, L[c][j]);
    var k := FindBlock(B, L[c][j]);
    DeleteMembers(H, L, c, j, k);
  }

  /* ---------- insert ---------- */

  /** One class of the view after a hidden block is pushed on its list. */
  lemma InsertClass(H: seq<Blk>, b: Blk, l: seq<nat>, l': seq<nat>, k: nat, c2: nat)
    requires k < |H| && H[k].alloc && !b.alloc
    requires multiset(l) == multiset(FreeSeq(H, c2))
    requires l' == if c2 == ListIndex(b.size) then [b.bp] + l else l
    ensures multiset(l') == multiset(FreeSeq(H[k := b], c2))
  {
    if c2 == ListIndex(b.size) {
      BagAdd(H, k, b, c2);
    } else {
      BagSame(H, k, b, c2);
    }
  }

  /** The view after a hidden block is pushed on its list holds exactly the listed blocks. */
  lemma InsertMembers(H: seq<Blk>, B: seq<Blk>, L: seq<seq<nat>>, k: nat)
    requires |L| == LIST_NUM && Members(H, L) && Hides(H, B)
    requires k < |B| && !B[k].alloc && H[k].alloc
    ensures Members(H[k := B[k]], Push(L, ListIndex(B[k].size), B[k].bp))
  {
    var c := ListIndex(B[k].size);
    var L' := Push(L, c, B[k].bp);
    var H' := H[k := B[k]];
    forall c2 | 0 <= c2 < LIST_NUM
      ensures ClassOk(H', L', c2)
    {
      assert ClassOk(H, L, c2);
      InsertClass(H, B[k], L[c2], L'[c2], k, c2);
    }
  }

  /**
   * insert(bp, size) for a free block k the view hides: the block goes on
   * the front of the list of its class, and the view shows it again.
   */
  lemma InsertStep(m: seq<u32>, B: seq<Blk>, L: seq<seq<nat>>, H: seq<Blk>, k: nat)
    requires Inv(m, B, L, H) && k < |B| && !B[k].alloc && H[k].alloc
    ensures HasFields(m, Dummy(ListIndex(B[k].size)))
    ensures var d := Dummy(ListIndex(B[k].size));
      HasFields(m, NextOf(m, d)) && HasFields(m, B[k].bp) && B[k].bp < MAX_HEAP_SIZE
    ensures var c := ListIndex(B[k].size);
      var n := InsertWords(m, Dummy(c), B[k].bp, NextOf(m, Dummy(c)));
      Inv(n, B, Push(L, c, B[k].bp), H[k := B[k]]) && n[|m| - 1] == m[|m| - 1]
  {
    var c := ListIndex(B[k].size);
    var d, bp := Dummy(c), B[k].bp;
    DummyBelow(c);
    InvNodes(m, B, L, H);
    InsertFree(m, B, L, c, d, NextOf(m, d), k);
    InsertShape(m, B, d, bp, NextOf(m, d));
    HiddenUnlisted(B, 4 * |m|, L, H, k);
    InsertOk(m, L, c, bp);
    InsertMembers(H, B, L, k);
  }

  /* ---------- header and footer writes ---------- */

  /** One class of the view after a window of counted-allocated blocks is replaced by hidden ones. */
  lemma RetileClass(H: seq<Blk>, i: nat, j: nat, W: seq<Blk>, l: seq<nat>, c: nat)
    requires i < j <= |H| && forall k :: i <= k < j ==> H[k].alloc
    requires multiset(l) == multiset(FreeSeq(H, c))
    ensures multiset(l) == multiset(FreeSeq(Splice(H, i, j, Hidden(W)), c))
  {
    FreeSeqNone(H[i..j], c);
    FreeSeqNone(Hidden(W), c);
    SpliceNone(H, i, j, Hidden(W), c);
  }

  /** The view keeps hiding what it hid when a window of hidden or allocated blocks is replaced by hidden ones. */
  lemma RetileMembers(B: seq<Blk>, L: seq<seq<nat>>, H: seq<Blk>, i: nat, j: nat, W: seq<Blk>)
    requires |L| == LIST_NUM && Members(H, L) && Hides(H, B)
    requires i < j <= |B| && forall k :: i <= k < j ==> H[k].alloc
    ensures Members(Splice(H, i, j, Hidden(W)), L)
    ensures Hides(Splice(H, i, j, Hidden(W)), Splice(B, i, j, W))
  {
    forall c | 0 <= c < LIST_NUM
      ensures ClassOk(Splice(H, i, j, Hidden(W)), L, c)
    {
      assert ClassOk(H, L, c);
      RetileClass(H, i, j, W, L[c], c);
    }
  }

  /**
   * Rewriting the headers and footers of a window whose blocks are
   * allocated or hidden, so that they describe W, keeps the invariant;
   * the new blocks are hidden in the view.
   */
  lemma RetileStep(m: seq<u32>, B: seq<Blk>, L: seq<seq<nat>>, H: seq<Blk>, i: nat, j: nat, W: seq<Blk>, m': seq<u32>)
    requires Inv(m, B, L, H) && i < j <= |B|
    requires forall k :: i <= k < j ==> H[k].alloc
    requires TilesFrom(W, B[i].bp, End(B[j - 1]))
    requires |m'| == |m| && Heads(m', W)
    requires forall x :: 0 <= x < |m| && !InWindow(B, i, j, x) ==> m'[x] == m[x]
    ensures Inv(m', Splice(B, i, j, W), L, Splice(H, i, j, Hidden(W)))
    ensures m'[|m| - 1] == m[|m| - 1]
  {
    Retile(m, B, i, j, W, m');
    MembersListed(H, L);
    ListedOutside(H, B, 4 * |m|, L, i, j);
    forall x | 0 <= x < |m| && !OffLists(L, x)
      ensures m'[x] == m[x]
    {
      if InWindow(B, i, j, x) {
        WindowOffLists(B, 4 * |m|, L, i, j, x);
      }
    }
    ListsFrame(m, m', L);
    RetileMembers(B, L, H, i, j, W);
    assert !InWindow(B, i, j, |m| - 1);
  }

  /** Setting or clearing a prev-alloc bit keeps the invariant, for B and the view alike. */
  lemma PrevStep(m: seq<u32>, B: seq<Blk>, L: seq<seq<nat>>, H: seq<Blk>, k: nat, prevAlloc: bool)
    requires Inv(m, B, L, H) && k < |B|
    ensures HdrW(B[k].bp) < |m| - 1
    ensures var h := HdrW(B[k].bp);
      Inv(m[h := WithPrev(m[h], prevAlloc)], B[k := B[k].(prevAlloc := prevAlloc)], L, H[k := H[k].(prevAlloc := prevAlloc)])
  {
    var h := HdrW(B[k].bp);
    BlockWords(B[k]);
    PutPrev(m, B, k, prevAlloc);
    InvNodes(m, B, L, H);
    HeaderOffLists(B, 4 * |m|, L, k);
    PutOffLists(m, L, h, WithPrev(m[h], prevAlloc));
    var H' := H[k := H[k].(prevAlloc := prevAlloc)];
    forall c | 0 <= c < LIST_NUM
      ensures ClassOk(H', L, c)
    {
      assert ClassOk(H, L, c);
      BagSame(H, k, H[k].(prevAlloc := prevAlloc), c);
    }
  }

  /** Rewriting the epilogue header keeps the invariant. */
  lemma EpilogueStep(m: seq<u32>, B: seq<Blk>, L: seq<seq<nat>>, H: seq<Blk>, v: u32)
    requires Inv(m, B, L, H)
    ensures Inv(m[|m| - 1 := v], B, L, H)
  {
    PutEpilogue(m, B, v);
    InvNodes(m, B, L, H);
    EpilogueOffLists(B, 4 * |m|, L);
    PutOffLists(m, L, |m| - 1, v);
  }

  /** The heap grows, the old epilogue becomes the header of a new last block, hidden in the view. */
  lemma ExtendStep(m: seq<u32>, B: seq<Blk>, L: seq<seq<nat>>, H: seq<Blk>, m': seq<u32>, b: Blk)
    requires Inv(m, B, L, H) && |m'| > |m| && 4 * |m'| < MAX_HEAP_SIZE
    requires b.bp == 4 * |m| && End(b) == 4 * |m'| && BlockShape(b)
    requires forall x :: 0 <= x < |m| - 1 ==> m'[x] == m[x]
    requires BlockOk(m', b)
    ensures Inv(m', B + [b], L, H + [b.(alloc := true)])
  {
    ExtendShape(m, B, m', b);
    InvNodes(m, B, L, H);
    EpilogueOffLists(B, 4 * |m|, L);
    ListsFrame(m, m', L);
    var H' := H + [b.(alloc := true)];
    forall c | 0 <= c < LIST_NUM
      ensures ClassOk(H', L, c)
    {
      assert ClassOk(H, L, c);
      assert H'[..|H|] == H;
    }
  }
}
