/*
 * The heap checker of malloclab-handout/mm.c (mm_checkheap, checkblock and
 * check_free_list) as predicates on the heap's words, with the proof that
 * a consistent heap passes every test and that the two counts of free
 * blocks agree.  The tests are stated as the checker means them; three
 * places where the code tests something else are modelled as written at
 * the end of the module.
 */
module MmCheck {
  import opened MmCodec
  import opened MmHeap

  /** The tests checkblock makes of the block at bp.  A read outside the heap fails the test it belongs to. */
  predicate BlockChecks(m: seq<u32>, bp: nat) {
    && 4 <= bp < 4 * |m| && bp % 8 == 0
    && var size, alloc := GetSize(m[HdrW(bp)]), GetAlloc(m[HdrW(bp)]);
       && size >= MIN_FREE_SIZE
       && HdrW(bp + size) < |m|
       && alloc == GetPrevAlloc(m[HdrW(bp + size)]) / 2
       && (alloc == 0 ==>
             && (bp + size - DSIZE) / WSIZE < |m|
             && GetSize(m[(bp + size - DSIZE) / WSIZE]) == size
             && GetAlloc(m[(bp + size - DSIZE) / WSIZE]) == alloc
             && GetPrevAlloc(m[HdrW(bp)]) != 0)
  }

  /** The tests mm_checkheap makes of the heap's size, its padding word, the prologue and the epilogue. */
  predicate HeadChecks(m: seq<u32>) {
    && 4 * |m| <= MAX_HEAP_SIZE
    && |m| >= 2 && m[0] == 0
    && GetSize(m[1]) == PROLOGUE_SIZE && GetAlloc(m[1]) == 1 && GetPrevAlloc(m[1]) == 2
    && var f := (HEAP_LIST + GetSize(m[1]) - DSIZE) / WSIZE;
       && f < |m| && GetSize(m[f]) == GetSize(m[1]) && GetAlloc(m[f]) == GetAlloc(m[1])
       && GetAlloc(m[|m| - 1]) == 1 && GetSize(m[|m| - 1]) == 0
  }

  /** The sizes list c is for: from 2^(c+3) + 1 to 2^(c+4) for the first ten lists, above 8192 for the last. */
  predicate InClass(c: nat, size: nat) {
    if c < 10 then ClassMin(c) <= size <= ClassMax(c) else size > 8192
  }

  /**
   * The tests check_free_list makes of node p of list c: checkblock,
   * the back link of the next node, and the size class.
   */
  predicate NodeChecks(m: seq<u32>, c: nat, p: nat) {
    && BlockChecks(m, p)
    && m[p / 4] / 4 + 1 < |m| && m[m[p / 4] / 4 + 1] == p
    && InClass(c, GetSize(m[HdrW(p)]))
  }

  /** The number of free blocks. */
  function FreeCount(B: seq<Blk>): (n: nat)
    ensures n <= |B|
  {
    if |B| == 0 then 0 else FreeCount(B[..|B| - 1]) + (if B[|B| - 1].alloc then 0 else 1)
  }

  /** The number of nodes on the lists L, together. */
  function ListSum(L: seq<seq<nat>>): nat {
    if |L| == 0 then 0 else ListSum(L[..|L| - 1]) + |L[|L| - 1]|
  }

  /** The number of free blocks of the first n classes. */
  function FreeTotal(B: seq<Blk>, n: nat): nat {
    if n == 0 then 0 else FreeTotal(B, n - 1) + |FreeSeq(B, n - 1)|
  }

  /* ---------- a consistent heap passes ---------- */

  /** Every block of a consistent heap passes checkblock. */
  lemma BlockChecksHold(m: seq<u32>, B: seq<Blk>, L: seq<seq<nat>>, k: nat)
    requires Consistent(m, B, L) && k < |B|
    ensures BlockChecks(m, B[k].bp)
  {
    assert Shape(m, B) && Tags(m, B);
    var b := B[k];
    assert BlockOk(m, b);
    assert HdrW(End(b)) == Stop(b);
    assert B[k].alloc || B[k].prevAlloc;
    if k + 1 < |B| {
      assert Abuts(B, k + 1) && BlockOk(m, B[k + 1]) && PrevOk(B, k + 1);
    } else {
      assert End(b) == 4 * |m|;
    }
  }

  /** A consistent heap passes mm_checkheap's tests of its size, padding, prologue and epilogue. */
  lemma HeadChecksHold(m: seq<u32>, B: seq<Blk>, L: seq<seq<nat>>)
    requires Consistent(m, B, L)
    ensures HeadChecks(m)
  {
    assert Shape(m, B) && Tags(m, B);
    assert GetSize(PROLOGUE_WORD) == PROLOGUE_SIZE && GetAlloc(PROLOGUE_WORD) == 1 && GetPrevAlloc(PROLOGUE_WORD) == 2;
  }

  /** The links of node j of list c: the next node, and that node's link back. */
  lemma NodeLinks(m: seq<u32>, L: seq<seq<nat>>, c: nat, j: nat)
    requires ListsOk(m, L) && c < LIST_NUM && j < |L[c]|
    ensures L[c][j] / 4 < |m| && m[L[c][j] / 4] == After(Dummy(c), L[c], j)
    ensures m[L[c][j] / 4] / 4 + 1 < |m| && m[m[L[c][j] / 4] / 4 + 1] == L[c][j]
  {
    var p := L[c][j];
    assert HasFields(m, p) && Linked(m, Dummy(c), L[c]);
    var q := After(Dummy(c), L[c], j);
    assert NextOf(m, p) == q;
    if j + 1 < |L[c]| {
      assert HasFields(m, q) && PrevOf(m, q) == Before(Dummy(c), L[c], j + 1);
    }
  }

  /** Node j of list c is a block that passes checkblock and whose size is of class c. */
  lemma NodeInClass(m: seq<u32>, B: seq<Blk>, L: seq<seq<nat>>, c: nat, j: nat)
    requires Consistent(m, B, L) && c < LIST_NUM && j < |L[c]|
    ensures BlockChecks(m, L[c][j]) && InClass(c, GetSize(m[HdrW(L[c][j])]))
  {
    assert Shape(m, B) && ListsOk(m, L) && Members(B, L);
    TiledAscending(B, 4 * |m|);
    MembersListed(B, L);
    ListedNode(B, L, c, j);
    var t := FindBlock(B, L[c][j]);
    BlockChecksHold(m, B, L, t);
    assert BlockOk(m, B[t]);
    ListIndexBounds(B[t].size);
  }

  /** Every node of a consistent heap's lists passes check_free_list's tests, and its next link leads to the next node. */
  lemma NodeChecksHold(m: seq<u32>, B: seq<Blk>, L: seq<seq<nat>>, c: nat, j: nat)
    requires Consistent(m, B, L) && c < LIST_NUM && j < |L[c]|
    ensures NodeChecks(m, c, L[c][j])
    ensures m[L[c][j] / 4] == After(Dummy(c), L[c], j)
  {
    assert ListsOk(m, L);
    NodeLinks(m, L, c, j);
    NodeInClass(m, B, L, c, j);
  }

  /** The nodes on the lists number the free blocks of the classes. */
  lemma {:induction false} ListSumFree(B: seq<Blk>, L: seq<seq<nat>>, n: nat)
    requires |L| == LIST_NUM && Members(B, L) && n <= LIST_NUM
    ensures ListSum(L[..n]) == FreeTotal(B, n)
  {
    if n > 0 {
      ListSumFree(B, L, n - 1);
      assert L[..n][..n - 1] == L[..n - 1];
      assert ClassOk(B, L, n - 1);
      assert |multiset(L[n - 1])| == |multiset(FreeSeq(B, n - 1))|;
    }
  }

  /** Adding a block to the end adds one to the classes' total when it is free and of one of them. */
  lemma {:induction false} FreeTotalLast(B: seq<Blk>, n: nat)
    requires |B| > 0
    ensures var b := B[|B| - 1];
      FreeTotal(B, n) == FreeTotal(B[..|B| - 1], n) + (if !b.alloc && ListIndex(b.size) < n then 1 else 0)
  {
    if n > 0 {
      FreeTotalLast(B, n - 1);
    }
  }

  /** Every free block is of one of the 11 classes. */
  lemma {:induction false} FreeTotalCount(B: seq<Blk>)
    ensures FreeTotal(B, LIST_NUM) == FreeCount(B)
    decreases |B|
  {
    if |B| > 0 {
      var b := B[|B| - 1];
      FreeTotalLast(B, LIST_NUM);
      FreeTotalCount(B[..|B| - 1]);
      assert ListIndex(b.size) < LIST_NUM;
      assert FreeCount(B) == FreeCount(B[..|B| - 1]) + (if b.alloc then 0 else 1);
    } else {
      NoFreeTotal(B, LIST_NUM);
    }
  }

  lemma {:induction false} NoFreeTotal(B: seq<Blk>, n: nat)
    requires |B| == 0
    ensures FreeTotal(B, n) == 0
  {
    if n > 0 {
      NoFreeTotal(B, n - 1);
    }
  }

  /** The lists of a consistent heap hold as many nodes as it has free blocks. */
  lemma CountsAgree(m: seq<u32>, B: seq<Blk>, L: seq<seq<nat>>)
    requires Consistent(m, B, L)
    ensures ListSum(L) == FreeCount(B)
  {
    assert ListsOk(m, L) && Members(B, L);
    ListSumFree(B, L, LIST_NUM);
    assert L[..LIST_NUM] == L;
    FreeTotalCount(B);
  }

  /** Block k starts at least 16 bytes further on per block before it. */
  lemma {:induction false} BlockAtLeast(B: seq<Blk>, top: nat, k: nat)
    requires Tiled(B, top) && k < |B|
    ensures B[k].bp >= FIRST_BP + MIN_FREE_SIZE * k
  {
    if k > 0 {
      BlockAtLeast(B, top, k - 1);
      assert Abuts(B, k);
    }
  }

  lemma {:induction false} FreeSeqShort(B: seq<Blk>, c: nat)
    ensures |FreeSeq(B, c)| <= |B|
    decreases |B|
  {
    if |B| > 0 {
      FreeSeqShort(B[..|B| - 1], c);
    }
  }

  /** A list of a consistent heap has fewer nodes than the heap has words, so a walk of |m| steps goes round it. */
  lemma ListShort(m: seq<u32>, B: seq<Blk>, L: seq<seq<nat>>, c: nat)
    requires Consistent(m, B, L) && c < LIST_NUM
    ensures |L[c]| < |m|
  {
    assert Shape(m, B) && ListsOk(m, L) && Members(B, L);
    assert ClassOk(B, L, c);
    assert |multiset(L[c])| == |multiset(FreeSeq(B, c))|;
    FreeSeqShort(B, c);
    if |B| > 0 {
      BlockAtLeast(B, 4 * |m|, |B| - 1);
    }
  }

  /**
   * What the block walk meets in a consistent heap: block k's header
   * holds a positive size, and the walk steps to block k + 1, or to the
   * epilogue after the last block.
   */
  lemma BlockWalkStep(m: seq<u32>, B: seq<Blk>, L: seq<seq<nat>>, k: nat)
    requires Consistent(m, B, L) && k < |B|
    ensures B[k].bp >= 4 && HdrW(B[k].bp) < |m|
    ensures GetSize(m[HdrW(B[k].bp)]) == B[k].size > 0
    ensures GetAlloc(m[HdrW(B[k].bp)]) == AllocBit(B[k].alloc)
    ensures B[k].bp + B[k].size == (if k + 1 < |B| then B[k + 1].bp else 4 * |m|)
    ensures FreeCount(B[..k + 1]) == FreeCount(B[..k]) + (if B[k].alloc then 0 else 1)
  {
    assert Shape(m, B);
    assert BlockOk(m, B[k]);
    if k + 1 < |B| {
      assert Abuts(B, k + 1);
    }
    assert B[..k + 1][..k] == B[..k];
  }

  /** The walk starts at the first block, or at the epilogue, where it stops. */
  lemma WalkEnds(m: seq<u32>, B: seq<Blk>, L: seq<seq<nat>>)
    requires Consistent(m, B, L)
    ensures |m| >= 26 && GetSize(m[1]) == PROLOGUE_SIZE
    ensures FIRST_BP == (if |B| > 0 then B[0].bp else 4 * |m|)
    ensures GetSize(m[HdrW(4 * |m|)]) == 0
    ensures B[..|B|] == B
  {
    assert Shape(m, B) && Tags(m, B);
    HeadChecksHold(m, B, L);
  }

  /* ---------- the checker as written ---------- */

  /**
   * The size check_free_list compares every node with as written: its
   * `size` is read once, before the walk, from the header at the address
   * mm_checkheap passes, where the block walk stopped: the epilogue.
   */
  function ListedSizeAsWritten(m: seq<u32>): nat
    requires |m| > 0
  {
    GetSize(m[|m| - 1])
  }

  /**
   * As written, check_free_list starts at the dummy of list 1 with index
   * 0, so list c (from 1 to 10) is held to the bounds of list c - 1, and
   * every node it visits fails the size test of a consistent heap.
   */
  lemma SizeTestFailsAsWritten(m: seq<u32>, B: seq<Blk>, L: seq<seq<nat>>, c: nat)
    requires Consistent(m, B, L) && 1 <= c < LIST_NUM
    ensures !InClass(c - 1, ListedSizeAsWritten(m))
  {
    assert Tags(m, B);
    assert ClassMin(c - 1) > 0;
  }

  /** The nodes check_free_list counts as written: those of lists 1 to 10. */
  function ListCountAsWritten(L: seq<seq<nat>>): nat
    requires |L| == LIST_NUM
  {
    ListSum(L[1..])
  }

  lemma {:induction false} ListSumFront(L: seq<seq<nat>>)
    requires |L| > 0
    ensures ListSum(L) == |L[0]| + ListSum(L[1..])
    decreases |L|
  {
    if |L| > 1 {
      var n := |L| - 1;
      ListSumFront(L[..n]);
      assert L[..n][1..] == L[1..][..n - 1];
      assert L[..n][0] == L[0];
    } else {
      assert L[..0] == [] && L[1..] == [];
    }
  }

  /**
   * A free block of 16 bytes sits on list 0, which check_free_list as
   * written never visits: the two counts of a consistent heap then differ
   * and mm_checkheap reports a mismatch.
   */
  lemma CountMissesListZero(m: seq<u32>, B: seq<Blk>, L: seq<seq<nat>>)
    requires Consistent(m, B, L) && |L[0]| > 0
    ensures ListCountAsWritten(L) < FreeCount(B)
  {
    CountsAgree(m, B, L);
    ListSumFront(L);
  }

  /** The allocated bit checkblock takes for the footer's as written: the header's, read a second time. */
  function FooterAllocAsWritten(m: seq<u32>, bp: nat): nat
    requires 4 <= bp < 4 * |m|
  {
    GetAlloc(m[HdrW(bp)])
  }

  /**
   * A free block of 16 bytes at address 8 whose footer says allocated:
   * the footer test as written compares the header with itself and
   * passes; read from the footer, it fails.
   */
  lemma FooterTestMissesAsWritten()
    ensures var m: seq<u32> := [0, 18, 0, 0, 17, 1];
      && GetAlloc(m[1]) == 0 && GetAlloc(m[4]) == 1
      && FooterAllocAsWritten(m, 8) == GetAlloc(m[1])
      && !BlockChecks(m, 8)
  {
    var m: seq<u32> := [0, 18, 0, 0, 17, 1];
    assert GetSize(m[1]) == 16 && HdrW(8 + 16) == 5 && (8 + 16 - DSIZE) / WSIZE == 4;
  }
}
