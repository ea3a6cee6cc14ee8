/*
 * The segregated-fit allocator of malloclab-handout/mm.c as a class
 * over the heap's words.
 *
 * `mem` holds the heap from its first byte up to the break, one 32-bit
 * word per entry; addresses are byte offsets from the heap's start.
 * The ghost fields say what the words mean: the blocks in address order
 * and the 11 free lists.  Every public operation keeps Valid(), and
 * states what it does to the blocks the program holds, Used(blocks).
 */
module MmAlloc {
  import opened MmCodec
  import opened MmHeap
  import opened MmLinks
  import opened MmTiles
  import opened MmSteps
  import opened MmBlocks
  import opened MmCoalesce
  import opened MmOps
  import opened MmPlace
  import opened MmFit
  import opened MmMalloc
  import opened MmInit
  import opened MmBytes
  import opened MmCheck

  class Allocator {
    /** The heap, mem_heap_lo() up to mem_heap_hi(), as words. */
    var mem: seq<u32>
    /** The most bytes the heap may grow to. */
    const limit: nat
    /** The blocks, in address order. */
    ghost var blocks: seq<Blk>
    /** The free lists, each in list order. */
    ghost var lists: seq<seq<nat>>

    /** The heap is well formed: what mm_checkheap checks. */
    ghost predicate Valid()
      reads this
    {
      limit < MAX_HEAP_SIZE && 4 * |mem| <= limit && Consistent(mem, blocks, lists)
    }

    /** An empty heap that may grow to `limit` bytes; mm_init sets it up. */
    constructor (limit: nat)
      requires limit < MAX_HEAP_SIZE
      ensures this.limit == limit && mem == []
    {
      this.limit := limit;
      mem := [];
      blocks := [];
      lists := [];
    }

    /** PUT: write word i of the heap. */
    method Put(i: nat, v: u32)
      requires i < |mem|
      modifies this`mem
      ensures mem == old(mem)[i := v]
    {
      mem := mem[i := v];
    }

    /** mem_sbrk: grow the heap by incr bytes and return the old break, or -1 past the limit. */
    method Sbrk(incr: nat) returns (p: int)
      requires incr % 4 == 0
      modifies this`mem
      ensures 4 * |old(mem)| + incr > limit ==> p == -1 && mem == old(mem)
      ensures 4 * |old(mem)| + incr <= limit ==> p == 4 * |old(mem)| && mem == old(mem) + Zeros(incr / 4)
    {
      if 4 * |mem| + incr > limit {
        return -1;
      }
      p := 4 * |mem|;
      mem := mem + Zeros(incr / 4);
    }

    /** insert(bp, size): put bp at the front of the list for blocks of its size. */
    method Insert(bp: nat, size: nat)
      requires CanInsert(mem, bp, size)
      modifies this`mem
      ensures |mem| == |old(mem)|
      ensures mem == Inserted(old(mem), bp, size)
    {
      var d := HEAP_LIST + ListIndex(size) * DSIZE;
      ghost var first := mem[d / 4];
      Quarter(bp);
      Quarter(first);
      Put(bp / 4, mem[d / 4]);
      Put(bp / 4 + 1, mem[mem[bp / 4] / 4 + 1]);
      Put(d / 4, bp);
      Put(mem[bp / 4] / 4 + 1, bp);
    }

    /** delete(bp): unlink bp from its list. */
    method Delete(bp: nat)
      requires HasFields(mem, bp) && HasFields(mem, PrevOf(mem, bp)) && HasFields(mem, NextOf(mem, bp))
      requires PrevOf(mem, bp) != bp
      modifies this`mem
      ensures |mem| == |old(mem)|
      ensures mem == DeleteWords(old(mem), bp, PrevOf(old(mem), bp), NextOf(old(mem), bp))
    {
      LinkWordsDiffer(bp, mem[bp / 4 + 1]);
      Put(mem[bp / 4 + 1] / 4, mem[bp / 4]);
      Put(mem[bp / 4] / 4 + 1, mem[bp / 4 + 1]);
    }

    /** The writes of case 1. */
    method NoneWrites(bp: nat, size: nat)
      requires CanInsert(mem, bp, size) && bp + size >= 4 && (bp + size - 4) / 4 < |mem|
      modifies this`mem
      ensures |mem| == |old(mem)|
      ensures mem == NoneWords(old(mem), bp, size)
    {
      Insert(bp, size);
      var next := (bp + size - WSIZE) / WSIZE;
      Put(next, SetPrevFree(mem[next]));
    }
 
    /** PUT(HDRP(bp), PACK(size, prev, 0)), then PUT(FTRP(bp), PACK(size, 0, 0)): a free block's header and footer. */
    method Tag(bp: nat, size: nat, prev: nat)
      requires CanTag(mem, bp, size, prev)
      modifies this`mem
      ensures |mem| == |old(mem)|
      ensures mem == Tagged(old(mem), bp, size, prev)
    {
      Put(HdrW(bp), Pack(size, prev, 0));
      Put((bp + GetSize(mem[HdrW(bp)]) - DSIZE) / WSIZE, Pack(size, 0, 0));
    }

    /** The last writes of cases 2 to 4: the merged block's header and footer, then insert. */
    method MergeTailWrites(bp: nat, size: nat, prev: nat)
      requires CanMergeTail(mem, bp, size, prev)
      modifies this`mem
      ensures |mem| == |old(mem)|
      ensures mem == MergeTail(old(mem), bp, size, prev)
    {
      Tag(bp, size, prev);
      Insert(bp, size);
    }

    /** The writes of case 2: the next block unlinked, then merged into bp. */
    method NextWrites(bp: nat, size: nat)
      requires CanNext(mem, bp, size)
      modifies this`mem
      ensures |mem| == |old(mem)|
      ensures mem == NextWords(old(mem), bp, size)
    {
      Delete(NextBp(bp, size));
      var s := size + GetSize(mem[HdrW(NextBp(bp, size))]);
      MergeTailWrites(bp, s, 2);
    }

    /** The writes of case 3: the previous block unlinked, the next header told, and bp merged into the previous block. */
    method PrevWrites(bp: nat, size: nat) returns (r: nat)
      requires CanPrev(mem, bp, size)
      modifies this`mem
      ensures |mem| == |old(mem)|
      ensures mem == PrevWords(old(mem), bp, size)
      ensures r == PrevBp(PrevCut(old(mem), bp, size), bp)
    {
      Delete(PrevBp(mem, bp));
      var nh := (NextBp(bp, size) - WSIZE) / WSIZE;
      Put(nh, SetPrevFree(mem[nh]));
      var s := size + GetSize(mem[HdrW(PrevBp(mem, bp))]);
      r := PrevBp(mem, bp);
      var prev := GetPrevAlloc(mem[HdrW(r)]);
      MergeTailWrites(r, s, prev);
    }

    /** The writes of case 4: both neighbours unlinked, and all three merged into the previous block. */
    method BothWrites(bp: nat, size: nat) returns (r: nat)
      requires CanBoth(mem, bp, size)
      modifies this`mem
      ensures |mem| == |old(mem)|
      ensures mem == BothWords(old(mem), bp, size)
      ensures r == PrevBp(BothCut(old(mem), bp, size), bp)
    {
      var s := BothSize(mem, bp, size);
      var prev := GetPrevAlloc(mem[HdrW(PrevBp(mem, bp))]);
      Delete(NextBp(bp, size));
      Delete(PrevBp(mem, bp));
      r := PrevBp(mem, bp);
      MergeTailWrites(r, s, prev);
    }

    /**
     * coalesce(bp) on the free block t, which is on no list yet: the block
     * merges with its free neighbours, the result goes on its list, and
     * its address is returned.
     */
    method Coalesce(bp: nat, ghost B: seq<Blk>, ghost L: seq<seq<nat>>, ghost t: nat) returns (r: nat, ghost L': seq<seq<nat>>)
      requires Pending(mem, B, L, t) && bp == B[t].bp
      modifies this`mem
      ensures |mem| == |old(mem)| && Consistent(mem, Coalesced(B, t), L')
      ensures r == B[MergeFrom(B, t)].bp
    {
      CoalesceReads(mem, B, L, t);
      var prevAlloc := GetPrevAlloc(mem[HdrW(bp)]);
      var size := GetSize(mem[HdrW(bp)]);
      var nextAlloc := GetAlloc(mem[HdrW(NextBp(bp, size))]);
      if prevAlloc != 0 && nextAlloc != 0 {
        MergeNoneOk(mem, B, L, t);
        L' := Push(L, ListIndex(size), bp);
        NoneWrites(bp, size);
        r := bp;
      } else if prevAlloc != 0 && nextAlloc == 0 {
        L' := NextOk(mem, B, L, t);
        NextWrites(bp, size);
        r := bp;
      } else if prevAlloc == 0 && nextAlloc != 0 {
        L' := MmCoalesce.PrevOk(mem, B, L, t);
        r := PrevWrites(bp, size);
      } else {
        L' := BothOk(mem, B, L, t);
        r := BothWrites(bp, size);
      }
    }
 
    /**
     * free(ptr): the block the program holds at ptr becomes free and
     * merges with its free neighbours; its extent, and nothing else,
     * leaves the allocated blocks.  free(NULL) does nothing.
     */
    method Free(ptr: nat)
      requires Valid() && (ptr != 0 ==> Holds(blocks, ptr))
      modifies this
      ensures Valid()
      ensures ptr == 0 ==> mem == old(mem) && blocks == old(blocks) && lists == old(lists)
      ensures ptr != 0 ==> var k := FindBlock(old(blocks), ptr);
        && blocks == Coalesced(Freed(old(blocks), k), k)
        && Used(old(blocks)) == Used(old(blocks)[..k]) + [Extent(ptr, old(blocks)[k].size)] + Used(old(blocks)[k + 1..])
        && Used(blocks) == Used(old(blocks)[..k]) + Used(old(blocks)[k + 1..])
    {
      if ptr == 0 {
        return;
      }
      ghost var k := FindBlock(blocks, ptr);
      FreeOk(mem, blocks, lists, k);
      FreeUsed(blocks, k);
      var size := GetSize(mem[HdrW(ptr)]);
      var prev := GetPrevAlloc(mem[HdrW(ptr)]);
      Tag(ptr, size, prev);
      ghost var B := Freed(blocks, k);
      var _, L' := Coalesce(ptr, B, lists, k);
      blocks, lists := Coalesced(B, k), L';
    }
 
    /**
     * The inner loop of find_fit over the list with dummy d: an exact fit
     * is returned at once, otherwise the first node of least size that
     * holds asize bytes, or NULL (0).
     */
    method ScanList(d: nat, asize: nat, ghost c: nat) returns (bp: nat)
      requires Valid() && c < LIST_NUM && d == Dummy(c)
      ensures bp == Best(mem, lists[c], asize)
    {
      WalkStep(mem, blocks, lists, c, 0);
      ghost var l := lists[c];
      var minSize := asize;
      var minPtr := 0;
      bp := mem[d / WSIZE];
      ghost var j := 0;
      while bp != d
        invariant j <= |l| && bp == (if j < |l| then l[j] else d)
        invariant minPtr == Best(mem, l[..j], asize)
        invariant minPtr != 0 ==> minSize == SizeAt(mem, minPtr) && minSize > asize
        decreases |l| - j
      {
        WalkStep(mem, blocks, lists, c, j);
        BestStep(mem, l, j, asize);
        var size := GetSize(mem[HdrW(bp)]);
        var alloc := GetAlloc(mem[HdrW(bp)]);
        if size == asize && alloc == 0 {
          BestExact(mem, l, j, asize);
          return bp;
        }
        if size >= asize && alloc == 0 {
          if minPtr == 0 || size < minSize {
            minSize := size;
            minPtr := bp;
          }
        }
        bp := mem[bp / WSIZE];
        j := j + 1;
      }
      assert l[..j] == l;
      return minPtr;
    }

    /**
     * find_fit(asize): walk the lists from asize's own class upwards and
     * return the choice of the first list that makes one, or NULL (0).
     * What that choice is, in block terms, is FindFitChoice.
     */
    method FindFit(asize: nat) returns (bp: nat)
      requires Valid()
      ensures bp == FindFitOf(mem, lists, asize)
    {
      var index := ListIndex(asize);
      var temp := HEAP_LIST + index * DSIZE;
      ghost var c := index;
      assert |lists| == LIST_NUM by { ListView(mem, blocks, lists, 0); }
      while temp != HEAP_LIST + LIST_NUM * DSIZE
        invariant index <= c <= LIST_NUM && temp == Dummy(c)
        invariant FitFrom(mem, lists, asize, c) == FindFitOf(mem, lists, asize)
        decreases LIST_NUM - c
      {
        bp := ScanList(temp, asize, c);
        if bp != 0 {
          return bp;
        }
        temp := temp + DSIZE;
        c := c + 1;
      }
      return 0;
    }

    /** The writes of place's split case: bp unlinked, its first asize bytes allocated, the rest tagged free and inserted. */
    method SplitPlaceWrites(bp: nat, asize: nat, csize: nat, prev: nat)
      requires CanSplit(mem, bp, asize, csize, prev)
      modifies this`mem
      ensures |mem| == |old(mem)|
      ensures mem == SplitWords(old(mem), bp, asize, csize, prev)
    {
      Delete(bp);
      Put(HdrW(bp), Pack(asize, prev, 1));
      var next := NextBp(bp, GetSize(mem[HdrW(bp)]));
      Tag(next, csize - asize, 2);
      Insert(next, csize - asize);
    }

    /** The writes of place's whole-block case: bp unlinked and allocated, and its successor told. */
    method WholePlaceWrites(bp: nat, csize: nat)
      requires CanWhole(mem, bp, csize)
      modifies this`mem
      ensures |mem| == |old(mem)|
      ensures mem == WholeWords(old(mem), bp, csize)
    {
      Delete(bp);
      Put(HdrW(bp), Pack(csize, 2, 1));
      var h := HdrW(NextBp(bp, GetSize(mem[HdrW(bp)])));
      Put(h, SetPrevAlloc(mem[h]));
    }

    /**
     * place(bp, asize) on the free block k, which holds at least asize
     * bytes: the block leaves its list and becomes allocated, split when
     * at least a minimum block is left over.  The program gains exactly
     * the extent the new allocated block covers.
     */
    method Place(bp: nat, asize: nat, ghost k: nat)
      requires Valid() && k < |blocks| && blocks[k].bp == bp && !blocks[k].alloc
      requires asize % 8 == 0 && asize >= MIN_FREE_SIZE && asize <= blocks[k].size
      modifies this
      ensures Valid() && |mem| == |old(mem)|
      ensures blocks == Placed(old(blocks), k, asize)
      ensures Used(old(blocks)) == Used(old(blocks)[..k]) + Used(old(blocks)[k + 1..])
      ensures Used(blocks) == Used(old(blocks)[..k]) + [Extent(bp, Granted(old(blocks)[k].size, asize))] + Used(old(blocks)[k + 1..])
    {
      PlaceHeader(mem, blocks, lists, k);
      PlacedUsed(blocks, k, asize);
      var csize := GetSize(mem[HdrW(bp)]);
      var prev := GetPrevAlloc(mem[HdrW(bp)]);
      ghost var L';
      if csize - asize >= MIN_FREE_SIZE {
        L' := SplitOk(mem, blocks, lists, k, asize);
        SplitPlaceWrites(bp, asize, csize, prev);
      } else {
        L' := WholeOk(mem, blocks, lists, k, asize);
        WholePlaceWrites(bp, csize);
      }
      blocks, lists := Placed(blocks, k, asize), L';
    }

    /** The size of the last block when it is free, and 0 when it is allocated (or there is none). */
    ghost function LastFree(): nat
      reads this
    {
      if LastAlloc(blocks) then 0 else blocks[|blocks| - 1].size
    }

    /**
     * When malloc(size) returns NULL: the request is zero, or no free block
     * holds the adjusted size and the heap cannot grow by what malloc asks
     * extend_heap for.
     */
    ghost predicate MallocFails(size: nat)
      reads this
    {
      var asize := AdjustSize(size);
      size == 0 || (FindFitOf(mem, lists, asize) == 0 && LastFree() < asize && 4 * |mem| + ExtendRequestOf(asize, LastFree()) > limit)
    }

    /** The blocks after extend_heap grows the heap by e bytes and coalesces the new block with a free last block. */
    ghost function Grown(e: nat): seq<Blk>
      reads this
    {
      Coalesced(Extended(blocks, 4 * |mem|, e), |blocks|)
    }

    /**
     * malloc's request to extend_heap once find_fit has failed: read the
     * epilogue's prev-alloc bit and, if the last block is free, its size
     * from the word before the epilogue.
     */
    method ExtendRequest(asize: nat) returns (extendsize: nat)
      requires Valid() && asize % 8 == 0 && asize >= MIN_FREE_SIZE
      requires forall k :: 0 <= k < |blocks| && !blocks[k].alloc ==> blocks[k].size < asize
      ensures LastFree() < asize && LastFree() % 8 == 0 && extendsize == ExtendRequestOf(asize, LastFree())
    {
      HeapTop(mem, blocks, lists);
      extendsize := if asize > CHUNKSIZE then asize else CHUNKSIZE;
      if GetPrevAlloc(mem[|mem| - 1]) == 0 {
        extendsize := extendsize - GetSize(mem[|mem| - 2]);
        if extendsize < MIN_FREE_SIZE {
          extendsize := MIN_FREE_SIZE;
        }
      }
    }

    /**
     * mm_init on an empty heap: lay out the padding word, the prologue,
     * the 11 empty lists and the epilogue, then extend the heap by a
     * chunk.  Returns 0 with one free block of CHUNKSIZE bytes and nothing
     * allocated, or -1 when the heap cannot grow that far.
     */
    method Init() returns (r: int)
      requires mem == [] && limit < MAX_HEAP_SIZE
      modifies this
      ensures r == 0 || r == -1
      ensures r == 0 <==> INITIAL_SIZE + CHUNKSIZE <= limit
      ensures r == 0 ==> Valid() && blocks == [Blk(FIRST_BP, CHUNKSIZE, false, true)] && Used(blocks) == []
    {
      var p := Sbrk(INITIAL_SIZE);
      if p == -1 {
        return -1;
      }
      Put(0, 0);
      Put(1, Pack(PROLOGUE_SIZE, 2, 1));
      var i := 0;
      while i < LIST_NUM
        invariant 0 <= i <= LIST_NUM && |mem| == 26
        invariant forall x :: 0 <= x < 2 + 2 * i ==> mem[x] == InitWord(x)
      {
        Put((HEAP_LIST + i * DSIZE) / WSIZE, (i + 1) * DSIZE);
        Put((HEAP_LIST + i * DSIZE + WSIZE) / WSIZE, (i + 1) * DSIZE);
        i := i + 1;
      }
      Put((HEAP_LIST + GetSize(mem[1]) - DSIZE) / WSIZE, Pack(PROLOGUE_SIZE, 2, 1));
      Put((HEAP_LIST + GetSize(mem[1]) - DSIZE) / WSIZE + 1, Pack(0, 2, 1));
      assert mem == InitWords();
      InitConsistent();
      blocks, lists := [], EmptyLists();
      InitBlocks();
      var bp := ExtendHeap(CHUNKSIZE / WSIZE);
      if bp == 0 {
        return -1;
      }
      return 0;
    }

    /**
     * malloc(size): NULL (0) for a zero request; otherwise the best fit
     * find_fit chooses, or else a block made by growing the heap, placed
     * for AdjustSize(size) bytes.  The program gains exactly that block,
     * of at least the adjusted size and less than a minimum block more.
     * NULL means nothing changed: the request was zero, or no free block
     * fitted and the heap could not grow.
     */
    method Malloc(size: nat) returns (bp: nat)
      requires Valid()
      modifies this
      ensures Valid()
      ensures size == 0 ==> bp == 0
      ensures bp == 0 ==> mem == old(mem) && blocks == old(blocks) && lists == old(lists)
      ensures size > 0 && bp == 0 ==>
        forall k :: 0 <= k < |old(blocks)| && !old(blocks)[k].alloc ==> old(blocks)[k].size < AdjustSize(size)
      ensures bp == 0 <==> old(MallocFails(size))
      ensures size > 0 && FindFitOf(old(mem), old(lists), AdjustSize(size)) != 0 ==>
        bp == FindFitOf(old(mem), old(lists), AdjustSize(size))
      ensures bp != 0 ==> Grants(Used(old(blocks)), Used(blocks), bp, AdjustSize(size), AdjustSize(size) + MIN_FREE_SIZE)
    {
      if size == 0 {
        return 0;
      }
      var asize := AdjustSize(size);
      bp := FindFit(asize);
      FindFitChoice(mem, blocks, lists, asize);
      if bp != 0 {
        ghost var B := blocks;
        ghost var k := FindBlock(blocks, bp);
        Place(bp, asize, k);
        GrantsAt(Used(B[..k]), Used(B[k + 1..]), bp, Granted(B[k].size, asize), asize, asize + MIN_FREE_SIZE);
        return bp;
      }
      bp := GrowAndPlace(asize);
    }

    /**
     * The second half of malloc, once find_fit has found nothing: grow the
     * heap by what malloc asks extend_heap for and place asize bytes in
     * the free block that results.  NULL means the heap could not grow and
     * nothing changed.
     */
    method GrowAndPlace(asize: nat) returns (bp: nat)
      requires Valid() && asize % 8 == 0 && asize >= MIN_FREE_SIZE
      requires forall k :: 0 <= k < |blocks| && !blocks[k].alloc ==> blocks[k].size < asize
      modifies this
      ensures Valid()
      ensures bp == 0 ==> mem == old(mem) && blocks == old(blocks) && lists == old(lists)
      ensures old(LastFree()) < asize
      ensures bp == 0 <==> 4 * |old(mem)| + ExtendRequestOf(asize, old(LastFree())) > limit
      ensures bp != 0 ==> var G := old(Grown(ExtendRequestOf(asize, LastFree())));
        && |G| > 0 && bp == G[|G| - 1].bp && asize <= G[|G| - 1].size
        && blocks == Placed(G, |G| - 1, asize)
      ensures bp != 0 ==> Grants(Used(old(blocks)), Used(blocks), bp, asize, asize + MIN_FREE_SIZE)
    {
      var extendsize := ExtendRequest(asize);
      ExtendEnough(asize, LastFree());
      ExtendWhole(extendsize);
      bp := ExtendHeap(extendsize / WSIZE);
      if bp == 0 {
        return 0;
      }
      ghost var B := blocks;
      ghost var k := |blocks| - 1;
      Place(bp, asize, k);
      GrantsAt(Used(B[..k]), Used(B[k + 1..]), bp, Granted(B[k].size, asize), asize, asize + MIN_FREE_SIZE);
    }

    /** memcpy(dst, src, n) into the payload of the held block k. */
    method Memcpy(dst: nat, src: nat, n: nat, ghost k: nat)
      requires Valid() && k < |blocks| && blocks[k].alloc
      requires blocks[k].bp <= dst && dst + n <= End(blocks[k]) - WSIZE && src + n <= 4 * |mem|
      modifies this`mem
      ensures Valid() && mem == Written(old(mem), dst, Bytes(old(mem), src, n))
    {
      WrittenPayload(mem, blocks, lists, k, dst, Bytes(mem, src, n));
      mem := Written(mem, dst, Bytes(mem, src, n));
    }

    /** memset(dst, c, n) in the payload of the held block k. */
    method Memset(dst: nat, c: u8, n: nat, ghost k: nat)
      requires Valid() && k < |blocks| && blocks[k].alloc
      requires blocks[k].bp <= dst && dst + n <= End(blocks[k]) - WSIZE
      modifies this`mem
      ensures Valid() && mem == Written(old(mem), dst, Fill(c, n))
    {
      WrittenPayload(mem, blocks, lists, k, dst, Fill(c, n));
      mem := Written(mem, dst, Fill(c, n));
    }

    /**
     * realloc(oldptr, size): malloc(size) when oldptr is NULL; free(oldptr)
     * and NULL when size is 0; otherwise a new block for size bytes gets
     * the old payload, or its first size bytes, and the old block is
     * freed.  When malloc fails, NULL is returned and nothing changes.
     */
    method Realloc(oldptr: nat, size: nat) returns (newptr: nat)
      requires Valid() && (oldptr != 0 ==> Holds(blocks, oldptr))
      modifies this
      ensures Valid()
      ensures newptr == 0 && (oldptr == 0 || size > 0) ==> mem == old(mem) && blocks == old(blocks) && lists == old(lists)
      ensures oldptr == 0 || size > 0 ==> (newptr == 0 <==> old(MallocFails(size)))
      ensures oldptr == 0 && newptr != 0 ==>
        Grants(Used(old(blocks)), Used(blocks), newptr, AdjustSize(size), AdjustSize(size) + MIN_FREE_SIZE)
      ensures oldptr != 0 && size == 0 ==> newptr == 0 && Releases(Used(old(blocks)), Used(blocks), oldptr)
      ensures oldptr != 0 && newptr != 0 ==> exists U ::
        Grants(Used(old(blocks)), U, newptr, AdjustSize(size), AdjustSize(size) + MIN_FREE_SIZE)
        && Releases(U, Used(blocks), oldptr)
    {
      if oldptr == 0 {
        newptr := Malloc(size);
        return;
      }
      if size == 0 {
        ghost var k := FindBlock(blocks, oldptr);
        Free(oldptr);
        ReleasesAt(Used(old(blocks)[..k]), Used(old(blocks)[k + 1..]), Extent(oldptr, old(blocks)[k].size));
        return 0;
      }
      newptr := Move(oldptr, size);
    }

    /**
     * The last path of realloc: malloc(size), the copy from the old block
     * and free(oldptr); NULL with nothing changed when malloc fails.
     */
    method Move(oldptr: nat, size: nat) returns (newptr: nat)
      requires Valid() && Holds(blocks, oldptr) && size > 0
      modifies this
      ensures Valid()
      ensures newptr == 0 ==> mem == old(mem) && blocks == old(blocks) && lists == old(lists)
      ensures newptr == 0 <==> old(MallocFails(size))
      ensures newptr != 0 ==> exists U ::
        Grants(Used(old(blocks)), U, newptr, AdjustSize(size), AdjustSize(size) + MIN_FREE_SIZE)
        && Releases(U, Used(blocks), oldptr)
    {
      newptr := Malloc(size);
      if newptr == 0 {
        return 0;
      }
      TiledAscending(old(blocks), 4 * |old(mem)|);
      TiledAscending(blocks, 4 * |mem|);
      GrantsHolds(old(blocks), blocks, newptr, AdjustSize(size), AdjustSize(size) + MIN_FREE_SIZE);
      CopyAndFree(newptr, oldptr, size, Used(old(blocks)));
    }

    /**
     * The tail of realloc once malloc has granted newptr out of what the
     * program held before (U0): the copy from the old block, then
     * free(oldptr).
     */
    method CopyAndFree(newptr: nat, oldptr: nat, size: nat, ghost U0: seq<Extent>)
      requires Valid() && Holds(blocks, newptr) && Holds(blocks, oldptr)
      requires size + WSIZE <= blocks[FindBlock(blocks, newptr)].size
      requires Grants(U0, Used(blocks), newptr, AdjustSize(size), AdjustSize(size) + MIN_FREE_SIZE)
      modifies this
      ensures Valid()
      ensures exists U ::
        Grants(U0, U, newptr, AdjustSize(size), AdjustSize(size) + MIN_FREE_SIZE)
        && Releases(U, Used(blocks), oldptr)
    {
      ghost var B := blocks;
      ghost var j := FindBlock(B, oldptr);
      ghost var P, e, Q := Used(B[..j]), Extent(oldptr, B[j].size), Used(B[j + 1..]);
      CopyPayload(newptr, oldptr, size);
      assert blocks == B;
      Free(oldptr);
      assert Used(B) == P + [e] + Q;
      assert Used(blocks) == P + Q;
      GrantsThenReleases(U0, P, Q, e, newptr, AdjustSize(size), AdjustSize(size) + MIN_FREE_SIZE);
    }

    /**
     * realloc's copy: the old block's size read from its header, then
     * memcpy of CopyLength bytes from the old payload to the new one.
     */
    method CopyPayload(newptr: nat, oldptr: nat, size: nat)
      requires Valid() && Holds(blocks, newptr) && Holds(blocks, oldptr)
      requires size + WSIZE <= blocks[FindBlock(blocks, newptr)].size
      modifies this`mem
      ensures Valid()
      ensures var n := CopyLength(size, blocks[FindBlock(blocks, oldptr)].size);
        mem == Written(old(mem), newptr, Bytes(old(mem), oldptr, n))
    {
      ghost var j := FindBlock(blocks, oldptr);
      PlaceHeader(mem, blocks, lists, j);
      assert Shape(mem, blocks) && BlockOk(mem, blocks[j]);
      var oldsize := GetSize(mem[HdrW(oldptr)]);
      var n := CopyLength(size, oldsize);
      Memcpy(newptr, oldptr, n, FindBlock(blocks, newptr));
    }

    /**
     * calloc(nmemb, size): NULL when either count is 0 or their product
     * does not fit in `size_t`; otherwise malloc of the product, cleared
     * to zero when malloc found room.
     */
    method Calloc(nmemb: nat, size: nat) returns (newptr: nat)
      requires Valid()
      modifies this
      ensures Valid()
      ensures newptr == 0 ==> mem == old(mem) && blocks == old(blocks) && lists == old(lists)
      ensures newptr == 0 <==> nmemb == 0 || size == 0 || nmemb * size >= SIZE_T_LIMIT || old(MallocFails(nmemb * size))
      ensures newptr != 0 ==>
        && Grants(Used(old(blocks)), Used(blocks), newptr, AdjustSize(nmemb * size), AdjustSize(nmemb * size) + MIN_FREE_SIZE)
        && nmemb * size <= 4 * |mem| - newptr
        && Bytes(mem, newptr, nmemb * size) == Fill(0, nmemb * size)
    {
      if nmemb == 0 || size == 0 {
        return 0;
      }
      if nmemb * size >= SIZE_T_LIMIT {
        return 0;
      }
      var bytes := nmemb * size;
      newptr := Malloc(bytes);
      if newptr == 0 {
        return 0;
      }
      TiledAscending(old(blocks), 4 * |old(mem)|);
      TiledAscending(blocks, 4 * |mem|);
      GrantsHolds(old(blocks), blocks, newptr, AdjustSize(bytes), AdjustSize(bytes) + MIN_FREE_SIZE);
      ghost var k := FindBlock(blocks, newptr);
      ghost var m1 := mem;
      Memset(newptr, 0, bytes, k);
      WrittenBytes(m1, newptr, Fill(0, bytes));
    }

    /** The writes of extend_heap after mem_sbrk: the new block's header and footer, then the epilogue. */
    method NewBlockWrites(bp: nat, size: nat, ghost m0: seq<u32>)
      requires CanExtend(m0, size) && mem == m0 + Zeros(size / 4) && bp == 4 * |m0|
      modifies this`mem
      ensures mem == ExtendWords(m0, size)
    {
      var prev := GetPrevAlloc(mem[HdrW(bp)]);
      Tag(bp, size, prev);
      Put(HdrW(NextBp(bp, GetSize(mem[HdrW(bp)]))), Pack(0, 2, 1));
    }

    /**
     * extend_heap(words): grow the heap by an even number of words, make
     * them a free block after the last one and coalesce it; returns the
     * free block that results, or NULL (0) when mem_sbrk fails.
     */
    method ExtendHeap(words: nat) returns (bp: nat)
      requires Valid() && ExtendSize(words) >= MIN_FREE_SIZE
      modifies this
      ensures Valid()
      ensures 4 * |old(mem)| + ExtendSize(words) > limit ==>
        bp == 0 && mem == old(mem) && blocks == old(blocks) && lists == old(lists)
      ensures 4 * |old(mem)| + ExtendSize(words) <= limit ==>
        && blocks == Coalesced(Extended(old(blocks), 4 * |old(mem)|, ExtendSize(words)), |old(blocks)|)
        && |blocks| > 0 && bp == blocks[|blocks| - 1].bp && bp != 0 && !blocks[|blocks| - 1].alloc
        && blocks[|blocks| - 1].size == ExtendSize(words) + (if LastAlloc(old(blocks)) then 0 else old(blocks)[|old(blocks)| - 1].size)
        && Used(blocks) == Used(old(blocks))
    {
      var size := if words % 2 == 1 then (words + 1) * WSIZE else words * WSIZE;
      ghost var m0, B, L := mem, blocks, lists;
      var p := Sbrk(size);
      if p == -1 {
        return 0;
      }
      ExtendOk(m0, B, L, size);
      bp := p;
      NewBlockWrites(bp, size, m0);
      ghost var E := Extended(B, 4 * |m0|, size);
      ghost var L';
      bp, L' := Coalesce(bp, E, L, |B|);
      ExtendedAfter(B, 4 * |m0|, size);
      blocks, lists := Coalesced(E, |B|), L';
      BlockAddr(mem, blocks, lists, |blocks| - 1);
    }

    /**
     * mm_checkheap: the tests of the heap's head, a walk of the blocks in
     * address order counting the free ones, a walk of each of the 11
     * lists counting their nodes, and the comparison of the two counts.
     * ok is false when a test fails.  A well-formed heap passes every test,
     * and both counts are its number of free blocks.
     */
    method CheckHeap() returns (ok: bool, heapFree: nat, listFree: nat)
      ensures ok ==> HeadChecks(mem) && heapFree == listFree
      ensures Valid() ==> ok && heapFree == FreeCount(blocks) && listFree == FreeCount(blocks)
    {
      if |mem| < 26 {
        // the prologue and the list dummies would be read outside the heap
        return false, 0, 0;
      }
      ghost var valid := Valid();
      if valid {
        HeadChecksHold(mem, blocks, lists);
        WalkEnds(mem, blocks, lists);
      }
      var headOk := HeadChecks(mem);
      var blocksOk, listsOk;
      blocksOk, heapFree := WalkBlocks();
      listsOk, listFree := WalkLists();
      ok := headOk && blocksOk && listsOk;
      if valid {
        CountsAgree(mem, blocks, lists);
      }
      if heapFree != listFree {
        ok := false;
      }
    }

    /**
     * The block walk of mm_checkheap: checkblock on each block from the
     * one after the prologue up to a header of size 0, counting the free
     * blocks; ok is false when a block fails or the walk leaves the heap.
     */
    method WalkBlocks() returns (ok: bool, heapFree: nat)
      requires |mem| >= 26
      ensures Valid() ==> ok && heapFree == FreeCount(blocks)
    {
      ghost var valid := Valid();
      if valid {
        WalkEnds(mem, blocks, lists);
        if |blocks| > 0 {
          BlockWalkStep(mem, blocks, lists, 0);
        }
      }
      ok := true;
      heapFree := 0;
      var bp := HEAP_LIST + GetSize(mem[HdrW(HEAP_LIST)]);
      ghost var i := 0;
      while HdrW(bp) < |mem| && GetSize(mem[HdrW(bp)]) > 0
        invariant bp >= 4
        invariant valid ==> ok && i <= |blocks| && bp == (if i < |blocks| then blocks[i].bp else 4 * |mem|)
        invariant valid ==> heapFree == FreeCount(blocks[..i])
        invariant valid && i < |blocks| ==> HdrW(blocks[i].bp) < |mem| && GetSize(mem[HdrW(blocks[i].bp)]) > 0
        decreases 4 * |mem| + 4 - bp
      {
        if valid {
          BlockWalkStep(mem, blocks, lists, i);
          BlockChecksHold(mem, blocks, lists, i);
        }
        if !BlockChecks(mem, bp) {
          ok := false;
        }
        if GetAlloc(mem[HdrW(bp)]) == 0 {
          heapFree := heapFree + 1;
        }
        bp := bp + GetSize(mem[HdrW(bp)]);
        i := i + 1;
        if valid && i < |blocks| {
          BlockWalkStep(mem, blocks, lists, i);
        }
      }
      if HdrW(bp) >= |mem| {
        ok := false;
      }
    }

    /** check_free_list: walk the 11 lists in turn, adding up their nodes. */
    method WalkLists() returns (ok: bool, listFree: nat)
      requires |mem| >= 26
      ensures Valid() ==> ok && listFree == ListSum(lists)
    {
      ghost var valid := Valid();
      if valid {
        assert ListsOk(mem, lists);
      }
      ok := true;
      listFree := 0;
      var index := 0;
      while index < LIST_NUM
        invariant index <= LIST_NUM
        invariant valid ==> ok && |lists| == LIST_NUM && listFree == ListSum(lists[..index])
      {
        var listOk, n := WalkList(index);
        ok := ok && listOk;
        listFree := listFree + n;
        if valid {
          assert lists[..index + 1][..index] == lists[..index];
        }
        index := index + 1;
      }
      if valid {
        assert lists[..LIST_NUM] == lists;
      }
    }

    /**
     * The walk of list c: from its dummy along the next links until the
     * dummy comes round again, checking and counting each node.  A walk
     * longer than the heap has words has met a cycle that misses the
     * dummy, and fails.
     */
    method WalkList(c: nat) returns (ok: bool, n: nat)
      requires |mem| >= 26 && c < LIST_NUM
      ensures Valid() ==> ok && n == |lists[c]|
    {
      ghost var valid := Valid();
      ghost var l: seq<nat> := [];
      if valid {
        assert ListsOk(mem, lists) && HasFields(mem, Dummy(c)) && Linked(mem, Dummy(c), lists[c]);
        l := lists[c];
        assert forall j :: 0 <= j < |l| ==> l[j] >= FIRST_BP;
        ListShort(mem, blocks, lists, c);
      }
      var temp := HEAP_LIST + c * DSIZE;
      var p: nat := mem[temp / 4];
      ok := true;
      n := 0;
      while p != temp && n < |mem|
        invariant valid ==> ok && n <= |l| && p == (if n < |l| then l[n] else temp)
        decreases |mem| - n
      {
        if valid {
          NodeChecksHold(mem, blocks, lists, c, n);
        }
        if !NodeChecks(mem, c, p) {
          ok := false;
        }
        if p / 4 >= |mem| {
          ok := false;
          break;
        }
        p := mem[p / 4];
        n := n + 1;
      }
      if p != temp {
        ok := false;
      }
    }
  }
}
