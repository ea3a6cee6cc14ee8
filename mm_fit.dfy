/*
 * find_fit(asize) of malloclab-handout/mm.c, as the choice it makes.
 *
 * The search starts at the list of asize's own class and walks each list
 * from its dummy.  In a list it keeps the first node of the least size
 * that still holds asize bytes (an exact fit ends the search at once,
 * which is the same node), and it returns that node as soon as one list
 * has given one.  Best and FitFrom state this over the ghost lists; the
 * lemmas read it back over the blocks: NULL exactly when no free block
 * is large enough, otherwise a free block large enough, the smallest of
 * its class, in the lowest class that has one.
 */
module MmFit {
  import opened MmCodec
  import opened MmHeap
  import opened MmSteps

  /** The size in the header of the block at p, or 0 when p has no header in the heap. */
  function SizeAt(m: seq<u32>, p: nat): nat {
    if p >= 4 && HdrW(p) < |m| then GetSize(m[HdrW(p)]) else 0
  }

  /** find_fit's test of a node: its header says free and at least asize bytes. */
  predicate Fits(m: seq<u32>, p: nat, asize: nat) {
    p >= 4 && HdrW(p) < |m| && GetSize(m[HdrW(p)]) >= asize && GetAlloc(m[HdrW(p)]) == 0
  }

  /**
   * What the walk of a list has chosen after its nodes l: the first node
   * of least size among those that fit, or NULL (0) when none fits
   * (BestNone, BestLeast and BestFirst).
   */
  function Best(m: seq<u32>, l: seq<nat>, asize: nat): (r: nat)
    ensures r != 0 ==> r in l && Fits(m, r, asize)
  {
    if |l| == 0 then 0
    else
      var r := Best(m, l[..|l| - 1], asize);
      var p := l[|l| - 1];
      if Fits(m, p, asize) && (r == 0 || SizeAt(m, p) < SizeAt(m, r)) then p else r
  }

  /** The walk chooses nothing exactly when no node fits. */
  lemma {:induction false} BestNone(m: seq<u32>, l: seq<nat>, asize: nat)
    ensures Best(m, l, asize) == 0 <==> forall j :: 0 <= j < |l| ==> !Fits(m, l[j], asize)
    decreases |l|
  {
    if |l| > 0 {
      var n := |l| - 1;
      BestNone(m, l[..n], asize);
      assert forall j :: 0 <= j < n ==> l[..n][j] == l[j];
    }
  }

  /** The node chosen is no larger than any node that fits. */
  lemma {:induction false} BestLeast(m: seq<u32>, l: seq<nat>, asize: nat)
    ensures var r := Best(m, l, asize);
      r != 0 ==> forall j :: 0 <= j < |l| && Fits(m, l[j], asize) ==> SizeAt(m, r) <= SizeAt(m, l[j])
    decreases |l|
  {
    if |l| > 0 {
      var n := |l| - 1;
      BestLeast(m, l[..n], asize);
      BestNone(m, l[..n], asize);
      assert forall j :: 0 <= j < n ==> l[..n][j] == l[j];
    }
  }

  /** Of the nodes of least size, the walk keeps the first. */
  lemma {:induction false} BestFirst(m: seq<u32>, l: seq<nat>, asize: nat)
    ensures var r := Best(m, l, asize);
      r != 0 ==> forall j :: 0 <= j < |l| && Fits(m, l[j], asize) && SizeAt(m, l[j]) == SizeAt(m, r) ==> r in l[..j + 1]
    decreases |l|
  {
    if |l| > 0 {
      var n := |l| - 1;
      var l0 := l[..n];
      var r0 := Best(m, l0, asize);
      var r := Best(m, l, asize);
      BestFirst(m, l0, asize);
      BestLeast(m, l0, asize);
      BestNone(m, l0, asize);
      forall j | 0 <= j < |l| && Fits(m, l[j], asize) && SizeAt(m, l[j]) == SizeAt(m, r)
        ensures r in l[..j + 1]
      {
        if j == n {
          assert l[..j + 1] == l;
        } else {
          assert l0[j] == l[j] && l0[..j + 1] == l[..j + 1];
        }
      }
    }
  }

  /** The walk's step at node j, with the choice r so far: node j is kept if it fits and is smaller than r. */
  lemma BestStep(m: seq<u32>, l: seq<nat>, j: nat, asize: nat)
    requires j < |l|
    ensures var r := Best(m, l[..j], asize);
      Best(m, l[..j + 1], asize) == if Fits(m, l[j], asize) && (r == 0 || SizeAt(m, l[j]) < SizeAt(m, r)) then l[j] else r
  {
    assert l[..j + 1][..j] == l[..j];
  }

  /**
   * An exact fit ends the walk: when node j holds exactly asize bytes and
   * nothing before it did, it is the choice for the whole list.
   */
  lemma {:induction false} BestExact(m: seq<u32>, l: seq<nat>, j: nat, asize: nat)
    requires j < |l| && Fits(m, l[j], asize) && SizeAt(m, l[j]) == asize
    requires var r := Best(m, l[..j], asize); r == 0 || SizeAt(m, r) > asize
    ensures Best(m, l, asize) == l[j]
    decreases |l|
  {
    if |l| > j + 1 {
      var n := |l| - 1;
      assert l[..n][..j] == l[..j];
      BestExact(m, l[..n], j, asize);
    } else {
      assert l[..j] == l[..|l| - 1];
    }
  }

  /** The search from list c onwards: the first list whose walk chooses a node gives the result. */
  function FitFrom(m: seq<u32>, L: seq<seq<nat>>, asize: nat, c: nat): nat
    decreases |L| - c
  {
    if c >= |L| then 0
    else if Best(m, L[c], asize) != 0 then Best(m, L[c], asize)
    else FitFrom(m, L, asize, c + 1)
  }

  /** find_fit(asize): the search from asize's own class. */
  function FindFitOf(m: seq<u32>, L: seq<seq<nat>>, asize: nat): nat {
    FitFrom(m, L, asize, ListIndex(asize))
  }

  /* ---------- the lists read as blocks ---------- */

  /** List c of a consistent heap: its dummy and nodes have link fields, and the links follow the list. */
  lemma ListView(m: seq<u32>, B: seq<Blk>, L: seq<seq<nat>>, c: nat)
    requires Consistent(m, B, L) && c < LIST_NUM
    ensures |L| == LIST_NUM && HasFields(m, Dummy(c))
    ensures forall j :: 0 <= j < |L[c]| ==> HasFields(m, L[c][j]) && L[c][j] >= FIRST_BP
    ensures Linked(m, Dummy(c), L[c])
  {
    assert ListsOk(m, L);
  }

  /** One step of the walk of list c: node j is not the dummy, its header is in the heap, and its next link leads to node j + 1, or back to the dummy after the last node. */
  lemma WalkStep(m: seq<u32>, B: seq<Blk>, L: seq<seq<nat>>, c: nat, j: nat)
    requires Consistent(m, B, L) && c < LIST_NUM && j <= |L[c]|
    ensures |L| == LIST_NUM && Dummy(c) / 4 < |m|
    ensures j == 0 ==> m[Dummy(c) / 4] == (if |L[c]| == 0 then Dummy(c) else L[c][0])
    ensures j < |L[c]| ==> L[c][j] != Dummy(c) && L[c][j] >= 4 && HdrW(L[c][j]) < |m| && L[c][j] / 4 < |m|
    ensures j < |L[c]| ==> m[L[c][j] / 4] == (if j + 1 < |L[c]| then L[c][j + 1] else Dummy(c))
  {
    ListView(m, B, L, c);
    if j < |L[c]| {
      assert NextOf(m, L[c][j]) == After(Dummy(c), L[c], j);
    }
  }

  /** Node j of list c is a free block of class c, and the walk's test on it reads that block's size. */
  lemma NodeBlock(m: seq<u32>, B: seq<Blk>, L: seq<seq<nat>>, c: nat, j: nat, asize: nat)
    requires Consistent(m, B, L) && c < LIST_NUM && j < |L[c]|
    ensures FindBlock(B, L[c][j]) >= 0
    ensures var t := FindBlock(B, L[c][j]);
      && !B[t].alloc && ListIndex(B[t].size) == c && SizeAt(m, L[c][j]) == B[t].size
      && (Fits(m, L[c][j], asize) <==> asize <= B[t].size)
  {
    assert Shape(m, B) && Members(B, L) && |L| == LIST_NUM;
    TiledAscending(B, 4 * |m|);
    MembersListed(B, L);
    ListedNode(B, L, c, j);
    var t := FindBlock(B, L[c][j]);
    assert BlockOk(m, B[t]);
  }

  /** A free block is on the list of its class. */
  lemma BlockNode(m: seq<u32>, B: seq<Blk>, L: seq<seq<nat>>, k: nat)
    requires Consistent(m, B, L) && k < |B| && !B[k].alloc
    ensures |L| == LIST_NUM && B[k].bp in L[ListIndex(B[k].size)]
  {
    var c := ListIndex(B[k].size);
    assert Members(B, L) && |L| == LIST_NUM;
    assert ClassOk(B, L, c);
    FreeSeqAround(B, k, c);
    assert B[k].bp in multiset(FreeSeq(B, c));
  }

  /** An address is on list c exactly when it is a free block of class c. */
  lemma ListedExactly(m: seq<u32>, B: seq<Blk>, L: seq<seq<nat>>, c: nat, p: nat)
    requires Consistent(m, B, L) && c < LIST_NUM
    ensures |L| == LIST_NUM
    ensures p in L[c] <==> var t := FindBlock(B, p); t >= 0 && !B[t].alloc && ListIndex(B[t].size) == c
  {
    assert Shape(m, B) && Members(B, L) && |L| == LIST_NUM;
    TiledAscending(B, 4 * |m|);
    if p in L[c] {
      var j :| 0 <= j < |L[c]| && L[c][j] == p;
      MembersListed(B, L);
      ListedNode(B, L, c, j);
    }
    var t := FindBlock(B, p);
    if t >= 0 && !B[t].alloc && ListIndex(B[t].size) == c {
      BlockNode(m, B, L, t);
    }
  }

  /** Every free block of a class from lo up to (not including) hi is smaller than asize. */
  predicate TooSmall(B: seq<Blk>, asize: nat, lo: nat, hi: nat) {
    forall k :: 0 <= k < |B| && !B[k].alloc && lo <= ListIndex(B[k].size) < hi ==> B[k].size < asize
  }

  /** Block t is no larger than any free block of its class that holds asize bytes. */
  predicate LeastOfClass(B: seq<Blk>, t: nat, asize: nat)
    requires t < |B|
  {
    forall k :: 0 <= k < |B| && !B[k].alloc && ListIndex(B[k].size) == ListIndex(B[t].size) && asize <= B[k].size ==> B[t].size <= B[k].size
  }

  /** The search's choice r in block terms: a free block of class lo or above that holds asize bytes, the least of its class, with every class from lo below its own too small. */
  predicate Chosen(B: seq<Blk>, r: nat, asize: nat, lo: nat) {
    var t := FindBlock(B, r);
    && 0 <= t && !B[t].alloc && lo <= ListIndex(B[t].size) && asize <= B[t].size
    && TooSmall(B, asize, lo, ListIndex(B[t].size)) && LeastOfClass(B, t, asize)
  }

  /**
   * The walk of list c in block terms: NULL exactly when no free block of
   * class c is large enough; otherwise a free block of class c that is
   * large enough and no larger than any other such block.
   */
  lemma ClassChoice(m: seq<u32>, B: seq<Blk>, L: seq<seq<nat>>, c: nat, asize: nat)
    requires Consistent(m, B, L) && c < LIST_NUM
    ensures var r := Best(m, L[c], asize);
      && (r == 0 <==> TooSmall(B, asize, c, c + 1))
      && (r != 0 ==> Chosen(B, r, asize, c) && ListIndex(B[FindBlock(B, r)].size) == c)
  {
    ListView(m, B, L, c);
    var l := L[c];
    var r := Best(m, l, asize);
    BestNone(m, l, asize);
    BestLeast(m, l, asize);
    forall k | 0 <= k < |B| && !B[k].alloc && ListIndex(B[k].size) == c && asize <= B[k].size
      ensures r != 0 && SizeAt(m, r) <= B[k].size
    {
      BlockNode(m, B, L, k);
      var j :| 0 <= j < |l| && l[j] == B[k].bp;
      NodeBlock(m, B, L, c, j, asize);
      TiledAscending(B, 4 * |m|);
      FindBlockAt(B, k);
    }
    if r != 0 {
      var j :| 0 <= j < |l| && l[j] == r;
      NodeBlock(m, B, L, c, j, asize);
    }
  }

  /** The classes from lo to hi are too small when the classes from lo to mid and from mid to hi are. */
  lemma TooSmallJoin(B: seq<Blk>, asize: nat, lo: nat, mid: nat, hi: nat)
    requires lo <= mid <= hi
    ensures TooSmall(B, asize, lo, hi) <==> TooSmall(B, asize, lo, mid) && TooSmall(B, asize, mid, hi)
  {
  }

  /**
   * The search from list c onwards in block terms: NULL exactly when no
   * free block of class c or above is large enough; otherwise the block
   * Chosen describes.
   */
  lemma {:induction false} FitFromChoice(m: seq<u32>, B: seq<Blk>, L: seq<seq<nat>>, c: nat, asize: nat)
    requires Consistent(m, B, L) && c <= LIST_NUM
    ensures var r := FitFrom(m, L, asize, c);
      && (r == 0 <==> TooSmall(B, asize, c, LIST_NUM))
      && (r != 0 ==> Chosen(B, r, asize, c))
    decreases LIST_NUM - c
  {
    assert |L| == LIST_NUM by { assert ListsOk(m, L); }
    if c < LIST_NUM {
      ClassChoice(m, B, L, c, asize);
      TooSmallJoin(B, asize, c, c + 1, LIST_NUM);
      var r := Best(m, L[c], asize);
      if r == 0 {
        FitFromChoice(m, B, L, c + 1, asize);
        var r' := FitFrom(m, L, asize, c + 1);
        if r' != 0 {
          var t := FindBlock(B, r');
          TooSmallJoin(B, asize, c, c + 1, ListIndex(B[t].size));
        }
      }
    }
  }

  /**
   * What find_fit returns, in block terms: NULL exactly when no free block
   * holds asize bytes; otherwise a free block that does, the smallest such
   * block of its class, and every free block of a lower class is too
   * small.
   */
  lemma FindFitChoice(m: seq<u32>, B: seq<Blk>, L: seq<seq<nat>>, asize: nat)
    requires Consistent(m, B, L)
    ensures var r := FindFitOf(m, L, asize);
      && (r == 0 <==> forall k :: 0 <= k < |B| && !B[k].alloc ==> B[k].size < asize)
      && (r != 0 ==> var t := FindBlock(B, r);
           && 0 <= t && !B[t].alloc && asize <= B[t].size
           && (forall k :: 0 <= k < |B| && !B[k].alloc && ListIndex(B[k].size) < ListIndex(B[t].size) ==> B[k].size < asize)
           && forall k :: 0 <= k < |B| && !B[k].alloc && ListIndex(B[k].size) == ListIndex(B[t].size) && asize <= B[k].size ==> B[t].size <= B[k].size)
  {
    FitFromChoice(m, B, L, ListIndex(asize), asize);
    forall k | 0 <= k < |B| && asize <= B[k].size
      ensures ListIndex(asize) <= ListIndex(B[k].size)
    {
      ListIndexMonotone(asize, B[k].size);
    }
    var r := FindFitOf(m, L, asize);
    if r != 0 {
      var t := FindBlock(B, r);
      assert LeastOfClass(B, t, asize);
      assert TooSmall(B, asize, ListIndex(asize), ListIndex(B[t].size));
    }
  }
}
