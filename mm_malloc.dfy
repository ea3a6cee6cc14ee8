/*
 * What malloc, realloc and calloc of malloclab-handout/mm.c promise the
 * program, the facts about the top of the heap malloc's extension path
 * reads, and the lengths realloc copies and calloc clears.
 */
module MmMalloc {
  import opened MmCodec
  import opened MmHeap
  import opened MmBlocks
  import opened MmOps

  /**
   * U' is U with one more extent, at address bp and of between lo and hi
   * bytes (hi excluded), put in at some position; nothing else changes.
   */
  predicate Grants(U: seq<Extent>, U': seq<Extent>, bp: nat, lo: nat, hi: nat) {
    exists i, s :: 0 <= i <= |U| && lo <= s < hi && U' == U[..i] + [Extent(bp, s)] + U[i..]
  }

  /** Putting an extent between P and Q grants it. */
  lemma GrantsAt(P: seq<Extent>, Q: seq<Extent>, bp: nat, s: nat, lo: nat, hi: nat)
    requires lo <= s < hi
    ensures Grants(P + Q, P + [Extent(bp, s)] + Q, bp, lo, hi)
  {
    assert (P + Q)[..|P|] == P && (P + Q)[|P|..] == Q;
  }

  /**
   * The two words malloc reads at the top of a consistent heap: the
   * epilogue header's prev-alloc bit says whether the last block is
   * allocated, and when it is free, the word before the epilogue is its
   * footer and holds its size.
   */
  lemma HeapTop(m: seq<u32>, B: seq<Blk>, L: seq<seq<nat>>)
    requires Consistent(m, B, L)
    ensures |m| >= 26 && GetPrevAlloc(m[|m| - 1]) == PrevBit(LastAlloc(B))
    ensures !LastAlloc(B) ==> |B| > 0 && !B[|B| - 1].alloc && GetSize(m[|m| - 2]) == B[|B| - 1].size
  {
    assert Shape(m, B) && Tags(m, B);
    if !LastAlloc(B) {
      var b := B[|B| - 1];
      assert BlockOk(m, b);
      assert End(b) == 4 * |m|;
      assert FtrW(b) == |m| - 2;
    }
  }

  /**
   * The bytes malloc asks extend_heap for when no free block fits asize:
   * at least a chunk; when the last block is free (last is its size, 0
   * when it is allocated), less that block, but at least a minimum block.
   */
  function ExtendRequestOf(asize: nat, last: nat): nat
    requires last < asize
  {
    var e := if asize > CHUNKSIZE then asize else CHUNKSIZE;
    if last == 0 then e
    else if e - last < MIN_FREE_SIZE then MIN_FREE_SIZE
    else e - last
  }

  /**
   * The request is a whole number of double words, at least a minimum
   * block, and with the free last block it makes room for asize bytes.
   * (last < asize holds because find_fit found no free block of asize
   * bytes, so the source's subtraction never wraps.)
   */
  lemma ExtendEnough(asize: nat, last: nat)
    requires asize % 8 == 0 && asize >= MIN_FREE_SIZE && last % 8 == 0 && last < asize
    ensures var e := ExtendRequestOf(asize, last);
      e % 8 == 0 && e >= MIN_FREE_SIZE && e + last >= asize
  {
  }

  /** extend_heap(e / WSIZE) grows the heap by exactly e bytes when e is a multiple of 8. */
  lemma ExtendWhole(e: nat)
    requires e % 8 == 0
    ensures ExtendSize(e / WSIZE) == e
  {
    assert e / 4 == 2 * (e / 8);
  }

  /** U' is U with the extent at address p taken out; nothing else changes. */
  predicate Releases(U: seq<Extent>, U': seq<Extent>, p: nat) {
    exists i :: 0 <= i < |U| && U[i].bp == p && U' == U[..i] + U[i + 1..]
  }

  /** Taking an extent out from between P and Q releases it. */
  lemma ReleasesAt(P: seq<Extent>, Q: seq<Extent>, e: Extent)
    ensures Releases(P + [e] + Q, P + Q, e.bp)
  {
    var U := P + [e] + Q;
    assert U[|P|] == e && U[..|P|] == P && U[|P| + 1..] == Q;
  }

  /** Granting an extent and then releasing another is the two steps in turn. */
  lemma GrantsThenReleases(U0: seq<Extent>, P: seq<Extent>, Q: seq<Extent>, e: Extent, bp: nat, lo: nat, hi: nat)
    requires Grants(U0, P + [e] + Q, bp, lo, hi)
    ensures exists U :: Grants(U0, U, bp, lo, hi) && Releases(U, P + Q, e.bp)
  {
    ReleasesAt(P, Q, e);
  }

  /** Each allocated block contributes its extent to what the program holds. */
  lemma HeldExtent(B: seq<Blk>, k: nat)
    requires k < |B| && B[k].alloc
    ensures Extent(B[k].bp, B[k].size) in Used(B)
  {
    UsedAround(B, k);
  }

  /** An extent the program holds is an allocated block of that address and size. */
  lemma {:induction false} ExtentHeld(B: seq<Blk>, p: nat, s: nat)
    requires Ascending(B) && Extent(p, s) in Used(B)
    ensures Holds(B, p) && B[FindBlock(B, p)].size == s
    decreases |B|
  {
    var n := |B| - 1;
    var P := B[..n];
    assert Used(B) == Used(P) + Taken(B[n], true);
    if Extent(p, s) in Used(P) {
      ExtentHeld(P, p, s);
      assert P[FindBlock(P, p)] == B[FindBlock(P, p)];
    }
  }

  /** What Grants adds is held, and what was held stays held with its size. */
  lemma GrantsHolds(B: seq<Blk>, B': seq<Blk>, bp: nat, lo: nat, hi: nat)
    requires Ascending(B) && Ascending(B') && Grants(Used(B), Used(B'), bp, lo, hi)
    ensures Holds(B', bp) && lo <= B'[FindBlock(B', bp)].size
    ensures forall p :: Holds(B, p) ==> Holds(B', p) && B'[FindBlock(B', p)].size == B[FindBlock(B, p)].size
  {
    var U := Used(B);
    var i, s :| 0 <= i <= |U| && lo <= s < hi && Used(B') == U[..i] + [Extent(bp, s)] + U[i..];
    ExtentHeld(B', bp, s);
    forall p | Holds(B, p)
      ensures Holds(B', p) && B'[FindBlock(B', p)].size == B[FindBlock(B, p)].size
    {
      var e := Extent(p, B[FindBlock(B, p)].size);
      HeldExtent(B, FindBlock(B, p));
      assert e in U[..i] || e in U[i..] by {
        assert U == U[..i] + U[i..];
      }
      ExtentHeld(B', p, e.size);
    }
  }

  /* ---------- realloc's copy ---------- */

  /**
   * The number of bytes realloc copies as written: the smaller of the
   * request and the old block's size, read from its header.
   */
  function CopyLengthAsWritten(size: nat, oldsize: nat): nat {
    if size < oldsize then size else oldsize
  }

  /**
   * A request at least as large as a 16-byte block makes realloc copy 16
   * bytes out of a payload of 12: the last four are the header of the
   * block after it.
   */
  lemma CopyPastPayload()
    ensures CopyLengthAsWritten(16, 16) > 16 - WSIZE
  {
  }

  /**
   * The number of bytes realloc is meant to copy: the old payload (the
   * block less its header), or the request when that is smaller.
   */
  function CopyLength(size: nat, oldsize: nat): (n: nat)
    requires oldsize >= WSIZE
    ensures n <= size && n <= oldsize - WSIZE
    ensures n == size || n == oldsize - WSIZE
  {
    if size < oldsize - WSIZE then size else oldsize - WSIZE
  }

  /* ---------- calloc's size ---------- */

  /** calloc's byte count as written: the product of its arguments in 64-bit `size_t`. */
  function CallocBytesAsWritten(nmemb: nat, size: nat): (n: nat)
    ensures n < SIZE_T_LIMIT
  {
    nmemb * size % SIZE_T_LIMIT
  }

  /**
   * Two elements of 2^63 + 8 bytes make 16 bytes once the product wraps:
   * calloc then hands out a minimum block for a request of 2^64 + 16
   * bytes.
   */
  lemma CallocWraps()
    ensures CallocBytesAsWritten(2, 0x8000_0000_0000_0008) == 16
    ensures 2 * 0x8000_0000_0000_0008 > SIZE_T_LIMIT
  {
  }

  /**
   * When malloc fails, calloc as written still runs memset(NULL, 0, bytes):
   * a write through the null pointer, outside the heap.  Every block's
   * header and payload lie above address 0, so no block the program
   * holds can contain the destination (memset into a held payload needs
   * the payload to start at or below it).
   */
  lemma ClearsNull(m: seq<u32>, B: seq<Blk>, L: seq<seq<nat>>)
    requires Consistent(m, B, L)
    ensures forall k :: 0 <= k < |B| ==> WSIZE < B[k].bp
  {
    forall k | 0 <= k < |B|
      ensures WSIZE < B[k].bp
    {
      BlockAddr(m, B, L, k);
    }
  }
}
