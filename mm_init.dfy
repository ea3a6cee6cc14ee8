/*
 * The heap mm_init of malloclab-handout/mm.c lays out before its first
 * extend_heap: a padding word, the prologue header, the 11 list dummies
 * (each linked to itself), the prologue footer and the epilogue header.
 */
module MmInit {
  import opened MmCodec
  import opened MmHeap
  import opened MmTiles
  import opened MmBlocks

  /** 11 empty free lists. */
  function EmptyLists(): (L: seq<seq<nat>>)
    ensures |L| == LIST_NUM && forall c :: 0 <= c < LIST_NUM ==> L[c] == []
  {
    seq(LIST_NUM, c => [])
  }

  /** PACK(0, 2, 1): the epilogue header after an allocated prologue. */
  const EPILOGUE_WORD: u32 := 3

  /** Word x of the heap mm_init lays out: the dummy of list c holds its own offset in both link words. */
  function InitWord(x: nat): u32 {
    if x == 0 then 0
    else if x == 1 || x == 24 then PROLOGUE_WORD
    else if x == 25 then EPILOGUE_WORD
    else if x < 24 then Dummy((x - 2) / 2)
    else 0
  }

  /** The 26 words of the heap mm_init lays out. */
  function InitWords(): (m: seq<u32>)
    ensures |m| == 26 && forall x :: 0 <= x < 26 ==> m[x] == InitWord(x)
  {
    seq(26, x requires 0 <= x => InitWord(x))
  }

  /** In the laid-out heap every list is empty: each dummy is linked to itself. */
  lemma InitLists()
    ensures ListsOk(InitWords(), EmptyLists())
  {
    var m, L := InitWords(), EmptyLists();
    forall c | 0 <= c < LIST_NUM
      ensures HasFields(m, Dummy(c)) && Linked(m, Dummy(c), L[c])
    {
      assert m[Dummy(c) / 4] == InitWord(2 + 2 * c);
      assert m[Dummy(c) / 4 + 1] == InitWord(3 + 2 * c);
    }
  }

  /** The laid-out heap has no blocks, empty lists and a well-formed prologue and epilogue. */
  lemma InitConsistent()
    ensures Consistent(InitWords(), [], EmptyLists())
  {
    var m, L := InitWords(), EmptyLists();
    assert Pack(PROLOGUE_SIZE, 2, 1) == PROLOGUE_WORD && Pack(0, 2, 1) == EPILOGUE_WORD;
    assert EpilogueOk(m[25], true);
    InitLists();
    forall c | 0 <= c < LIST_NUM
      ensures ClassOk([], L, c)
    {
    }
  }

  /** The first extend_heap after mm_init leaves one free block of CHUNKSIZE bytes. */
  lemma InitBlocks()
    ensures Coalesced(Extended([], FIRST_BP, CHUNKSIZE), 0) == [Blk(FIRST_BP, CHUNKSIZE, false, true)]
  {
    var E := Extended([], FIRST_BP, CHUNKSIZE);
    assert E == [Blk(FIRST_BP, CHUNKSIZE, false, true)];
    assert E[0..1] == E && E[..0] == [];
    assert SizeSum(E) == CHUNKSIZE;
  }
}
