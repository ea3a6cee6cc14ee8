/*
 * The allocator's heap as words, and its abstract reading.
 *
 * Addresses are byte offsets from the start of the heap (the source's
 * `base_ptr`), so a word at byte address `p` is `m[p / 4]`.  The heap is
 *
 *   word 0        padding 0
 *   word 1        prologue header, size 96, allocated
 *   words 2..23   the 11 free-list dummies (next and prev offsets)
 *   word 24       prologue footer
 *   ...           the blocks, in address order
 *   last word     epilogue header, size 0, allocated
 *
 * A block with payload address `bp` has its header at `bp - 4`; a free
 * block also has its next offset at `bp`, its prev offset at `bp + 4`
 * and a footer at `bp + size - 8`.  The ghost reading of a heap is a
 * sequence of `Blk` in address order and, per size class, the sequence
 * of free-block addresses in list order.
 */
module MmHeap {
  import opened MmCodec

  /** LIST_NUM * DSIZE + 2 * WSIZE */
  const PROLOGUE_SIZE: nat := 96
  /** LIST_NUM * DSIZE + 4 * WSIZE */
  const INITIAL_SIZE: nat := 104
  /** The value of heap_list after mm_init: the first dummy. */
  const HEAP_LIST: nat := 8
  /** The payload address of the first regular block. */
  const FIRST_BP: nat := 104

  /** A block: payload address, size, allocated bit and the previous block's allocated bit. */
  datatype Blk = Blk(bp: nat, size: nat, alloc: bool, prevAlloc: bool)

  function PrevBit(b: bool): (p: nat)
    ensures IsPrevBit(p)
  {
    if b then 2 else 0
  }

  function AllocBit(b: bool): (a: nat)
    ensures IsAllocBit(a)
  {
    if b then 1 else 0
  }

  /** The address of the dummy node of list c. */
  function Dummy(c: nat): nat { HEAP_LIST + c * DSIZE }

  function End(b: Blk): nat { b.bp + b.size }

  /** Word index of the header of the block at bp. */
  function HdrW(bp: nat): nat
    requires bp >= 4
  {
    (bp - 4) / 4
  }

  /** Word index of the footer of a block. */
  function FtrW(b: Blk): nat
    requires b.bp + b.size >= 8
  {
    (b.bp + b.size - 8) / 4
  }

  /** PACK(96, 2, 1), the prologue's header and footer. */
  const PROLOGUE_WORD: u32 := 0x63

  predicate BlockShape(b: Blk) {
    b.bp % 8 == 0 && b.size % 8 == 0 && b.size >= MIN_FREE_SIZE && b.bp >= FIRST_BP
  }

  /** Word index of the header following block b: its words are HdrW(b.bp) up to, not including, Stop(b). */
  function Stop(b: Blk): nat
    requires b.bp + b.size >= 4
  {
    (b.bp + b.size - 4) / 4
  }

  /** A header word holding the size and both allocated bits of block b. */
  predicate Describes(w: u32, b: Blk) {
    GetSize(w) == b.size && GetAlloc(w) == AllocBit(b.alloc) && GetPrevAlloc(w) == PrevBit(b.prevAlloc)
  }

  /** A footer word holding the size of block b and a clear allocated bit. */
  predicate FootsOf(w: u32, b: Blk) {
    GetSize(w) == b.size && GetAlloc(w) == 0
  }

  /** The epilogue header: size 0, allocated, with the last block's allocated bit as its prev-alloc bit. */
  predicate EpilogueOk(w: u32, prevAlloc: bool) {
    GetSize(w) == 0 && GetAlloc(w) == 1 && GetPrevAlloc(w) == PrevBit(prevAlloc)
  }

  /** The region of words before the blocks, as mm_init leaves it (the dummies aside). */
  predicate Prologue(m: seq<u32>) {
    |m| >= 26 && m[0] == 0 && m[1] == PROLOGUE_WORD && m[24] == PROLOGUE_WORD
  }

  /** Block k starts where block k - 1 ends. */
  predicate Abuts(B: seq<Blk>, k: nat)
    requires 0 < k < |B|
  {
    B[k].bp == End(B[k - 1])
  }

  /** The blocks tile the bytes from address 104 up to `top`, where the epilogue header starts. */
  predicate Tiled(B: seq<Blk>, top: nat) {
    && (|B| == 0 ==> top == FIRST_BP)
    && (|B| > 0 ==> B[0].bp == FIRST_BP && End(B[|B| - 1]) == top)
    && (forall k :: 0 <= k < |B| ==> BlockShape(B[k]) && End(B[k]) <= top)
    && (forall k :: 0 < k < |B| ==> Abuts(B, k))
  }

  /** The header of block b, and its footer if it is free, hold its fields. */
  predicate BlockOk(m: seq<u32>, b: Blk) {
    && BlockShape(b) && Stop(b) < |m|
    && Describes(m[HdrW(b.bp)], b)
    && (!b.alloc ==> FootsOf(m[FtrW(b)], b))
  }

  /** A block stays described when its header and footer words are unchanged. */
  lemma BlockFrame(m: seq<u32>, m': seq<u32>, b: Blk)
    requires BlockOk(m, b) && Stop(b) < |m'|
    requires m'[HdrW(b.bp)] == m[HdrW(b.bp)]
    requires !b.alloc ==> m'[FtrW(b)] == m[FtrW(b)]
    ensures BlockOk(m', b)
  {
  }

  /** Every block's header, and a free block's footer, holds its fields. */
  predicate Heads(m: seq<u32>, B: seq<Blk>) {
    forall k {:trigger BlockOk(m, B[k])} :: 0 <= k < |B| ==> BlockOk(m, B[k])
  }

  /** The words of the heap describe the blocks B, in address order. */
  predicate Shape(m: seq<u32>, B: seq<Blk>) {
    Prologue(m) && 4 * |m| < MAX_HEAP_SIZE && Tiled(B, 4 * |m|) && Heads(m, B)
  }

  predicate PrevOk(B: seq<Blk>, k: nat)
    requires k < |B|
  {
    B[k].prevAlloc == (k == 0 || B[k - 1].alloc)
  }

  predicate LastAlloc(B: seq<Blk>) {
    |B| == 0 || B[|B| - 1].alloc
  }

  /**
   * Every prev-alloc bit tells the truth, and a free block's prev-alloc
   * bit is set: no two free blocks are adjacent (see MarkedApart).
   */
  predicate Marked(B: seq<Blk>) {
    && (forall k :: 0 <= k < |B| ==> PrevOk(B, k))
    && (forall k :: 0 <= k < |B| ==> B[k].alloc || B[k].prevAlloc)
  }

  /** With the tags right, of two adjacent blocks at least one is allocated. */
  lemma MarkedApart(B: seq<Blk>, k: nat)
    requires Marked(B) && 0 < k < |B|
    ensures B[k - 1].alloc || B[k].alloc
  {
    assert PrevOk(B, k);
  }

  /** The block tags hold, and so does the epilogue's prev-alloc bit. */
  predicate Tags(m: seq<u32>, B: seq<Blk>)
    requires |m| > 0
  {
    Marked(B) && EpilogueOk(m[|m| - 1], LastAlloc(B))
  }

  /* ---------- free lists ---------- */

  predicate HasFields(m: seq<u32>, p: nat) {
    p % 8 == 0 && p / 4 + 1 < |m|
  }

  function NextOf(m: seq<u32>, p: nat): nat
    requires HasFields(m, p)
  {
    m[p / 4]
  }

  function PrevOf(m: seq<u32>, p: nat): nat
    requires HasFields(m, p)
  {
    m[p / 4 + 1]
  }

  /** The neighbours of node j of a list with dummy d. */
  function Before(d: nat, l: seq<nat>, j: nat): nat
    requires j < |l|
  {
    if j == 0 then d else l[j - 1]
  }

  function After(d: nat, l: seq<nat>, j: nat): nat
    requires j < |l|
  {
    if j + 1 < |l| then l[j + 1] else d
  }

  /** Dummy d and the nodes l form a circular doubly-linked list through the heap words. */
  predicate Linked(m: seq<u32>, d: nat, l: seq<nat>)
    requires HasFields(m, d)
    requires forall j :: 0 <= j < |l| ==> HasFields(m, l[j])
  {
    && NextOf(m, d) == (if |l| == 0 then d else l[0])
    && PrevOf(m, d) == (if |l| == 0 then d else l[|l| - 1])
    && (forall j {:trigger NextOf(m, l[j])} :: 0 <= j < |l| ==> NextOf(m, l[j]) == After(d, l, j))
    && (forall j {:trigger PrevOf(m, l[j])} :: 0 <= j < |l| ==> PrevOf(m, l[j]) == Before(d, l, j))
  }

  /** Two positions of the lists hold different nodes, unless they are the same position. */
  predicate Apart(L: seq<seq<nat>>, c1: nat, j1: nat, c2: nat, j2: nat)
    requires c1 < |L| && j1 < |L[c1]| && c2 < |L| && j2 < |L[c2]|
  {
    (c1 == c2 && j1 == j2) || L[c1][j1] != L[c2][j2]
  }

  /** No node appears twice, in one list or across lists. */
  predicate Distinct(L: seq<seq<nat>>) {
    forall c1, j1, c2, j2 :: 0 <= c1 < |L| && 0 <= j1 < |L[c1]| && 0 <= c2 < |L| && 0 <= j2 < |L[c2]| ==> Apart(L, c1, j1, c2, j2)
  }

  predicate NodesHaveFields(m: seq<u32>, L: seq<seq<nat>>) {
    forall c, j :: 0 <= c < |L| && 0 <= j < |L[c]| ==> HasFields(m, L[c][j]) && L[c][j] >= FIRST_BP
  }

  /** The 11 lists are each circular and doubly linked, and no node is in two places. */
  predicate ListsOk(m: seq<u32>, L: seq<seq<nat>>) {
    && |m| >= 26
    && |L| == LIST_NUM
    && NodesHaveFields(m, L)
    && (forall c :: 0 <= c < LIST_NUM ==> Linked(m, Dummy(c), L[c]))
    && Distinct(L)
  }

  /** The entry a block contributes to list c: its address if it is free and of class c. */
  function Slot(b: Blk, c: nat): seq<nat> {
    if !b.alloc && ListIndex(b.size) == c then [b.bp] else []
  }

  /** The free blocks of class c, in address order. */
  function FreeSeq(B: seq<Blk>, c: nat): seq<nat> {
    if |B| == 0 then [] else FreeSeq(B[..|B| - 1], c) + Slot(B[|B| - 1], c)
  }

  /** List c holds exactly the free blocks of class c. */
  predicate ClassOk(B: seq<Blk>, L: seq<seq<nat>>, c: nat)
    requires c < |L|
  {
    multiset(L[c]) == multiset(FreeSeq(B, c))
  }

  /** Every list holds exactly the free blocks of its class. */
  predicate Members(B: seq<Blk>, L: seq<seq<nat>>)
    requires |L| == LIST_NUM
  {
    forall c :: 0 <= c < LIST_NUM ==> ClassOk(B, L, c)
  }

  /** List c holds only free blocks of class c. */
  predicate Listed(B: seq<Blk>, L: seq<seq<nat>>)
    requires |L| == LIST_NUM
  {
    forall c :: 0 <= c < LIST_NUM ==> multiset(L[c]) <= multiset(FreeSeq(B, c))
  }

  lemma MembersListed(B: seq<Blk>, L: seq<seq<nat>>)
    requires |L| == LIST_NUM && Members(B, L)
    ensures Listed(B, L)
  {
    forall c | 0 <= c < LIST_NUM
      ensures multiset(L[c]) <= multiset(FreeSeq(B, c))
    {
      assert ClassOk(B, L, c);
    }
  }

  /** The structure every step of an operation keeps: blocks, links, and lists holding only free blocks. */
  predicate Heap(m: seq<u32>, B: seq<Blk>, L: seq<seq<nat>>) {
    Shape(m, B) && ListsOk(m, L) && Listed(B, L)
  }

  /**
   * The whole well-formedness the allocator maintains between calls.
   * (Bound to a name first, so that a proof of it is one obligation
   * rather than one per conjunct.)
   */
  predicate Consistent(m: seq<u32>, B: seq<Blk>, L: seq<seq<nat>>) {
    var ok := Shape(m, B) && Tags(m, B) && ListsOk(m, L) && Members(B, L);
    ok
  }

  /* ---------- facts about the block sequence ---------- */

  /** Blocks are in increasing address order and do not overlap. */
  lemma {:induction false} Sorted(B: seq<Blk>, top: nat, i: nat, j: nat)
    requires Tiled(B, top)
    requires i < j < |B|
    ensures End(B[i]) <= B[j].bp
    decreases j - i
  {
    assert Abuts(B, j);
    if i + 1 < j {
      Sorted(B, top, i, j - 1);
    }
  }

  /** The index of the block at address p, if any. */
  function FindBlock(B: seq<Blk>, p: nat): (t: int)
    ensures -1 <= t < |B|
    ensures t >= 0 ==> B[t].bp == p
  {
    if |B| == 0 then -1
    else if B[|B| - 1].bp == p then |B| - 1
    else FindBlock(B[..|B| - 1], p)
  }

  /** Addresses strictly increase along the block sequence. */
  predicate Ascending(B: seq<Blk>) {
    forall i, j :: 0 <= i < j < |B| ==> B[i].bp < B[j].bp
  }

  lemma TiledAscending(B: seq<Blk>, top: nat)
    requires Tiled(B, top)
    ensures Ascending(B)
  {
    forall i, j | 0 <= i < j < |B|
      ensures B[i].bp < B[j].bp
    {
      Sorted(B, top, i, j);
    }
  }

  /** In an ascending sequence the block at an address is the one FindBlock names. */
  lemma FindBlockAt(B: seq<Blk>, k: nat)
    requires Ascending(B) && k < |B|
    ensures FindBlock(B, B[k].bp) == k
  {
  }

  /** The words of distinct blocks lie in disjoint ranges. */
  lemma WordsApart(B: seq<Blk>, top: nat, i: nat, j: nat)
    requires Tiled(B, top) && i < j < |B|
    ensures Stop(B[i]) <= HdrW(B[j].bp)
  {
    Sorted(B, top, i, j);
  }

  /** Header, link words and footer of one block, in that order, inside its range. */
  lemma BlockWords(b: Blk)
    requires BlockShape(b)
    ensures HdrW(b.bp) + 1 == b.bp / 4
    ensures b.bp / 4 + 1 < FtrW(b) && FtrW(b) + 1 == Stop(b)
    ensures HdrW(b.bp) >= 25
  {
  }

  /** A word that is neither a header nor a footer of any block. */
  predicate Unmarked(B: seq<Blk>, i: nat) {
    forall k :: 0 <= k < |B| && BlockShape(B[k]) ==> i != HdrW(B[k].bp) && (!B[k].alloc ==> i != FtrW(B[k]))
  }

  /** The link words of a block are no block's header or footer. */
  lemma LinkUnmarked(B: seq<Blk>, top: nat, t: nat, i: nat)
    requires Tiled(B, top) && t < |B|
    requires i == B[t].bp / 4 || i == B[t].bp / 4 + 1
    ensures Unmarked(B, i)
    ensures i < (top - 4) / 4
  {
    BlockWords(B[t]);
    forall k | 0 <= k < |B|
      ensures i != HdrW(B[k].bp) && (!B[k].alloc ==> i != FtrW(B[k]))
    {
      BlockWords(B[k]);
      if k < t {
        WordsApart(B, top, k, t);
      } else if t < k {
        WordsApart(B, top, t, k);
      }
    }
  }

  /** The link words of a dummy are no block's header or footer. */
  lemma DummyUnmarked(B: seq<Blk>, top: nat, c: nat, i: nat)
    requires Tiled(B, top) && c < LIST_NUM
    requires i == Dummy(c) / 4 || i == Dummy(c) / 4 + 1
    ensures Unmarked(B, i)
  {
    forall k | 0 <= k < |B|
      ensures i != HdrW(B[k].bp) && (!B[k].alloc ==> i != FtrW(B[k]))
    {
      BlockWords(B[k]);
    }
  }

  /** Writing a word that is not a block header or footer, nor the prologue or epilogue, keeps the shape. */
  lemma PutUnmarked(m: seq<u32>, B: seq<Blk>, i: nat, v: u32)
    requires Shape(m, B) && ((26 <= i < |m| - 1) || (2 <= i < 24))
    requires Unmarked(B, i)
    ensures Shape(m[i := v], B)
    ensures m[i := v][|m| - 1] == m[|m| - 1]
  {
    var n := m[i := v];
    assert Prologue(n);
    forall k | 0 <= k < |B|
      ensures n[HdrW(B[k].bp)] == m[HdrW(B[k].bp)]
      ensures !B[k].alloc ==> n[FtrW(B[k])] == m[FtrW(B[k])]
    {
    }
    forall k | 0 <= k < |B|
      ensures BlockOk(n, B[k])
    {
      assert BlockOk(m, B[k]);
    }
  }

  /* ---------- facts about the free lists ---------- */

  /** The free blocks of a concatenation. */
  lemma {:induction false} FreeSeqAppend(P: seq<Blk>, Q: seq<Blk>, c: nat)
    ensures FreeSeq(P + Q, c) == FreeSeq(P, c) + FreeSeq(Q, c)
    decreases |Q|
  {
    if |Q| > 0 {
      var n := |Q| - 1;
      assert (P + Q)[..|P + Q| - 1] == P + Q[..n];
      FreeSeqAppend(P, Q[..n], c);
    } else {
      assert P + Q == P;
    }
  }

  lemma {:induction false} FreeSeqMember(B: seq<Blk>, c: nat, p: nat)
    requires Ascending(B)
    requires p in FreeSeq(B, c)
    ensures FindBlock(B, p) >= 0
    ensures var t := FindBlock(B, p); !B[t].alloc && ListIndex(B[t].size) == c
    decreases |B|
  {
    var n := |B| - 1;
    if B[n].bp == p && !B[n].alloc && ListIndex(B[n].size) == c {
    } else {
      assert p in FreeSeq(B[..n], c);
      FreeSeqMember(B[..n], c, p);
      var t := FindBlock(B[..n], p);
      assert B[t].bp == p;
    }
  }

  /** A listed node is a free block of its list's class. */
  lemma ListedNode(B: seq<Blk>, L: seq<seq<nat>>, c: nat, j: nat)
    requires |L| == LIST_NUM && Listed(B, L) && Ascending(B)
    requires c < LIST_NUM && j < |L[c]|
    ensures FindBlock(B, L[c][j]) >= 0
    ensures var t := FindBlock(B, L[c][j]); !B[t].alloc && ListIndex(B[t].size) == c
  {
    assert L[c][j] in multiset(L[c]);
    assert L[c][j] in multiset(FreeSeq(B, c));
    FreeSeqMember(B, c, L[c][j]);
  }
}
