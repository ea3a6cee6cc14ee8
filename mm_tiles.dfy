/*
 * How the allocator's header and footer writes move between block
 * sequences (malloclab-handout/mm.c).
 *
 * Every operation rewrites the headers and footers of a run of adjacent
 * blocks, a window, and leaves every word outside the window alone:
 * free turns one block free, place splits one block in two or takes it
 * whole, coalesce merges two or three blocks into one.  Besides, the
 * prev-alloc bit of the block after the window is set or cleared, and
 * extend_heap turns the epilogue into the header of a new last block.
 */
module MmTiles {
  import opened MmCodec
  import opened MmHeap
  import opened MmLinks

  /** W covers the bytes from lo up to hi with well-shaped, adjacent blocks. */
  predicate TilesFrom(W: seq<Blk>, lo: nat, hi: nat) {
    && |W| > 0 && W[0].bp == lo && End(W[|W| - 1]) == hi
    && (forall k :: 0 <= k < |W| ==> BlockShape(W[k]) && End(W[k]) <= hi)
    && (forall k :: 0 < k < |W| ==> Abuts(W, k))
  }

  /** The blocks i up to, not including, j of B replaced by W. */
  function Splice(B: seq<Blk>, i: nat, j: nat, W: seq<Blk>): (r: seq<Blk>)
    requires i <= j <= |B|
    ensures |r| == |B| - (j - i) + |W|
    ensures forall k {:trigger r[k]} :: 0 <= k < i ==> r[k] == B[k]
    ensures forall k :: i <= k < i + |W| ==> r[k] == W[k - i]
    ensures forall k :: i + |W| <= k < |r| ==> r[k] == B[k - i - |W| + j]
  {
    B[..i] + W + B[j..]
  }

  /** Word indices from the header of block i up to the header after block j - 1. */
  predicate InWindow(B: seq<Blk>, i: nat, j: nat, x: nat)
    requires i < j <= |B| && BlockShape(B[i]) && BlockShape(B[j - 1])
  {
    HdrW(B[i].bp) <= x < Stop(B[j - 1])
  }

  /** Each block of the spliced sequence is well shaped and followed by its successor. */
  lemma SpliceAt(B: seq<Blk>, top: nat, i: nat, j: nat, W: seq<Blk>, k: nat)
    requires Tiled(B, top) && i < j <= |B|
    requires TilesFrom(W, B[i].bp, End(B[j - 1]))
    requires k < |B| - (j - i) + |W|
    ensures var r := Splice(B, i, j, W);
      BlockShape(r[k]) && End(r[k]) <= top && (k + 1 < |r| ==> r[k + 1].bp == End(r[k]))
  {
    var r := Splice(B, i, j, W);
    var n := |W|;
    if k + 1 < i {
      assert Abuts(B, k + 1);
    } else if k + 1 == i {
      assert r[k + 1] == W[0] && r[k] == B[i - 1];
      assert Abuts(B, i);
    } else if k + 1 < i + n {
      assert r[k + 1] == W[k + 1 - i] && r[k] == W[k - i];
      assert Abuts(W, k + 1 - i);
    } else if k + 1 == i + n {
      assert r[k] == W[n - 1];
      if k + 1 < |r| {
        assert r[k + 1] == B[j];
        assert Abuts(B, j);
      }
    } else {
      assert r[k] == B[k - i - n + j];
      if k + 1 < |r| {
        assert r[k + 1] == B[k + 1 - i - n + j];
        assert Abuts(B, k + 1 - i - n + j);
      }
    }
  }

  /** The tiling survives replacing a window by blocks covering the same bytes. */
  lemma SpliceTiled(B: seq<Blk>, top: nat, i: nat, j: nat, W: seq<Blk>)
    requires Tiled(B, top) && i < j <= |B|
    requires TilesFrom(W, B[i].bp, End(B[j - 1]))
    ensures Tiled(Splice(B, i, j, W), top)
  {
    var r := Splice(B, i, j, W);
    forall k | 0 <= k < |r|
      ensures BlockShape(r[k]) && End(r[k]) <= top && (k + 1 < |r| ==> r[k + 1].bp == End(r[k]))
    {
      SpliceAt(B, top, i, j, W, k);
    }
    if i == 0 {
      assert r[0] == W[0];
    }
    if j == |B| {
      assert r[|r| - 1] == W[|W| - 1];
    } else {
      assert r[|r| - 1] == B[|B| - 1];
    }
  }

  /** A block's header and footer words lie inside its own word range. */
  lemma OwnWords(b: Blk)
    requires BlockShape(b)
    ensures HdrW(b.bp) < FtrW(b) < Stop(b)
  {
  }

  /** The header and footer of a block outside the window lie outside it. */
  lemma OutsideWindow(B: seq<Blk>, top: nat, i: nat, j: nat, k: nat)
    requires Tiled(B, top) && i < j <= |B| && k < |B| && (k < i || j <= k)
    ensures !InWindow(B, i, j, HdrW(B[k].bp)) && !InWindow(B, i, j, FtrW(B[k]))
  {
    OwnWords(B[k]);
    if k < i {
      WordsApart(B, top, k, i);
    } else if k == j {
      assert Abuts(B, j);
    } else {
      WordsApart(B, top, j - 1, k);
    }
  }

  /** One block of the spliced sequence is described by the rewritten words. */
  lemma RetileBlock(m: seq<u32>, B: seq<Blk>, i: nat, j: nat, W: seq<Blk>, m': seq<u32>, k: nat)
    requires Shape(m, B) && i < j <= |B|
    requires |m'| == |m| && Heads(m', W)
    requires forall x :: 0 <= x < |m| && !InWindow(B, i, j, x) ==> m'[x] == m[x]
    requires k < |B| - (j - i) + |W|
    ensures BlockOk(m', Splice(B, i, j, W)[k])
  {
    var r := Splice(B, i, j, W);
    if k < i {
      OutsideWindow(B, 4 * |m|, i, j, k);
      BlockFrame(m, m', B[k]);
    } else if k < i + |W| {
      assert r[k] == W[k - i];
    } else {
      var o := k - i - |W| + j;
      assert r[k] == B[o];
      OutsideWindow(B, 4 * |m|, i, j, o);
      BlockFrame(m, m', B[o]);
    }
  }

  /** Rewriting the words of a window so that they describe W keeps the heap's shape. */
  lemma Retile(m: seq<u32>, B: seq<Blk>, i: nat, j: nat, W: seq<Blk>, m': seq<u32>)
    requires Shape(m, B) && i < j <= |B|
    requires TilesFrom(W, B[i].bp, End(B[j - 1]))
    requires |m'| == |m| && Heads(m', W)
    requires forall x :: 0 <= x < |m| && !InWindow(B, i, j, x) ==> m'[x] == m[x]
    ensures Shape(m', Splice(B, i, j, W))
  {
    SpliceTiled(B, 4 * |m|, i, j, W);
    var r := Splice(B, i, j, W);
    assert m'[0] == m[0] && m'[1] == m[1] && m'[24] == m[24] by {
      BlockWords(B[i]);
    }
    forall k | 0 <= k < |r|
      ensures BlockOk(m', r[k])
    {
      RetileBlock(m, B, i, j, W, m', k);
    }
  }

  /** The header word with its prev-alloc bit set or cleared. */
  function WithPrev(w: u32, prevAlloc: bool): (r: u32)
    ensures GetPrevAlloc(r) == PrevBit(prevAlloc)
    ensures GetSize(r) == GetSize(w) && GetAlloc(r) == GetAlloc(w)
  {
    if prevAlloc then SetPrevAlloc(w) else SetPrevFree(w)
  }

  /** A window of one block replaced by one block is a single update. */
  lemma SpliceOne(B: seq<Blk>, k: nat, b: Blk)
    requires k < |B|
    ensures Splice(B, k, k + 1, [b]) == B[k := b]
  {
  }

  /** Setting or clearing the prev-alloc bit of a block's header keeps the shape, with the block's bit changed. */
  lemma PutPrev(m: seq<u32>, B: seq<Blk>, k: nat, prevAlloc: bool)
    requires Shape(m, B) && k < |B|
    ensures HdrW(B[k].bp) < |m|
    ensures Shape(m[HdrW(B[k].bp) := WithPrev(m[HdrW(B[k].bp)], prevAlloc)], B[k := B[k].(prevAlloc := prevAlloc)])
  {
    var h := HdrW(B[k].bp);
    var b := B[k].(prevAlloc := prevAlloc);
    BlockWords(B[k]);
    OwnWords(B[k]);
    var m' := m[h := WithPrev(m[h], prevAlloc)];
    assert BlockOk(m, B[k]);
    assert BlockOk(m', b);
    Retile(m, B, k, k + 1, [b], m');
    SpliceOne(B, k, b);
  }

  /** Rewriting the epilogue header keeps the shape. */
  lemma PutEpilogue(m: seq<u32>, B: seq<Blk>, v: u32)
    requires Shape(m, B)
    ensures Shape(m[|m| - 1 := v], B)
  {
    var m' := m[|m| - 1 := v];
    forall k | 0 <= k < |B|
      ensures BlockOk(m', B[k])
    {
      OwnWords(B[k]);
      BlockFrame(m, m', B[k]);
    }
  }

  /** The heap grows by whole words, and those words become a new last block and a new epilogue. */
  lemma ExtendShape(m: seq<u32>, B: seq<Blk>, m': seq<u32>, b: Blk)
    requires Shape(m, B) && |m'| > |m| && 4 * |m'| < MAX_HEAP_SIZE
    requires b.bp == 4 * |m| && End(b) == 4 * |m'| && BlockShape(b)
    requires forall x :: 0 <= x < |m| - 1 ==> m'[x] == m[x]
    requires BlockOk(m', b)
    ensures Shape(m', B + [b])
  {
    var r := B + [b];
    forall k | 0 < k < |r|
      ensures Abuts(r, k)
    {
      if k < |B| {
        assert Abuts(B, k);
      }
    }
    assert Tiled(r, 4 * |m'|);
    forall k | 0 <= k < |r|
      ensures BlockOk(m', r[k])
    {
      if k < |B| {
        OwnWords(B[k]);
        BlockFrame(m, m', B[k]);
      }
    }
  }

  /* ---------- link words and block words stay apart ---------- */

  /** Two block sequences with the same addresses. */
  predicate SameAddrs(H: seq<Blk>, B: seq<Blk>) {
    |H| == |B| && forall k {:trigger H[k]} :: 0 <= k < |B| ==> H[k].bp == B[k].bp
  }

  lemma {:induction false} FindSame(H: seq<Blk>, B: seq<Blk>, p: nat)
    requires SameAddrs(H, B)
    ensures FindBlock(H, p) == FindBlock(B, p)
    decreases |B|
  {
    if |B| > 0 {
      var n := |B| - 1;
      if B[n].bp != p {
        assert SameAddrs(H[..n], B[..n]);
        FindSame(H[..n], B[..n], p);
      }
    }
  }

  /** Every listed node is the address of a block of B outside the blocks i up to j. */
  predicate NodesOutside(B: seq<Blk>, L: seq<seq<nat>>, i: nat, j: nat) {
    forall c, jj :: 0 <= c < |L| && 0 <= jj < |L[c]| ==>
      FindBlock(B, L[c][jj]) >= 0 && (FindBlock(B, L[c][jj]) < i || FindBlock(B, L[c][jj]) >= j)
  }

  /** Lists that hold only free blocks of H hold no block H counts as allocated. */
  lemma ListedOutside(H: seq<Blk>, B: seq<Blk>, top: nat, L: seq<seq<nat>>, i: nat, j: nat)
    requires Tiled(B, top) && SameAddrs(H, B)
    requires |L| == LIST_NUM && Listed(H, L)
    requires forall k :: i <= k < j && k < |H| ==> H[k].alloc
    ensures NodesOutside(B, L, i, j)
  {
    TiledAscending(B, top);
    assert Ascending(H);
    forall c, jj | 0 <= c < |L| && 0 <= jj < |L[c]|
      ensures FindBlock(B, L[c][jj]) >= 0 && (FindBlock(B, L[c][jj]) < i || FindBlock(B, L[c][jj]) >= j)
    {
      ListedNode(H, L, c, jj);
      FindSame(H, B, L[c][jj]);
    }
  }

  /** The link words of block q lie strictly between its header and its footer. */
  lemma NodeWords(B: seq<Blk>, top: nat, q: nat, x: nat)
    requires Tiled(B, top) && q < |B|
    requires x == B[q].bp / 4 || x == B[q].bp / 4 + 1
    ensures HdrW(B[q].bp) < x < FtrW(B[q])
  {
    BlockWords(B[q]);
  }

  /** A word of a window holds no list link when the listed blocks lie outside the window. */
  lemma WindowOffLists(B: seq<Blk>, top: nat, L: seq<seq<nat>>, i: nat, j: nat, x: nat)
    requires Tiled(B, top) && i < j <= |B| && NodesOutside(B, L, i, j)
    requires InWindow(B, i, j, x)
    ensures OffLists(L, x)
  {
    BlockWords(B[i]);
    forall c, jj | 0 <= c < |L| && 0 <= jj < |L[c]|
      ensures x != L[c][jj] / 4 && x != L[c][jj] / 4 + 1
    {
      var q := FindBlock(B, L[c][jj]);
      NodeWords(B, top, q, L[c][jj] / 4);
      NodeWords(B, top, q, L[c][jj] / 4 + 1);
      OwnWords(B[q]);
      if q < i {
        WordsApart(B, top, q, i);
      } else {
        WordsApart(B, top, j - 1, q);
      }
    }
  }

  /** A header word holds no list link when the listed nodes are blocks. */
  lemma HeaderOffLists(B: seq<Blk>, top: nat, L: seq<seq<nat>>, k: nat)
    requires Tiled(B, top) && k < |B| && NodesOutside(B, L, 0, 0)
    ensures OffLists(L, HdrW(B[k].bp))
  {
    BlockWords(B[k]);
    forall c, jj | 0 <= c < |L| && 0 <= jj < |L[c]|
      ensures HdrW(B[k].bp) != L[c][jj] / 4 && HdrW(B[k].bp) != L[c][jj] / 4 + 1
    {
      var q := FindBlock(B, L[c][jj]);
      NodeWords(B, top, q, L[c][jj] / 4);
      NodeWords(B, top, q, L[c][jj] / 4 + 1);
      OwnWords(B[q]);
      if q < k {
        WordsApart(B, top, q, k);
      } else if q > k {
        WordsApart(B, top, k, q);
      }
    }
  }

  /** The epilogue header holds no list link when the listed nodes are blocks. */
  lemma EpilogueOffLists(B: seq<Blk>, top: nat, L: seq<seq<nat>>)
    requires Tiled(B, top) && NodesOutside(B, L, 0, 0) && top >= 4
    ensures OffLists(L, top / 4 - 1)
  {
    forall c, jj | 0 <= c < |L| && 0 <= jj < |L[c]|
      ensures top / 4 - 1 != L[c][jj] / 4 && top / 4 - 1 != L[c][jj] / 4 + 1
    {
      var q := FindBlock(B, L[c][jj]);
      NodeWords(B, top, q, L[c][jj] / 4 + 1);
      OwnWords(B[q]);
    }
  }

  /** A word of the heap that is no header or footer of a block, nor the prologue or epilogue. */
  predicate Free4Write(m: seq<u32>, B: seq<Blk>, x: nat) {
    Unmarked(B, x) && ((26 <= x < |m| - 1) || (2 <= x < 24))
  }

  /** The link words of a dummy or of a listed node are free to write. */
  lemma NodeLinkFree(m: seq<u32>, B: seq<Blk>, L: seq<seq<nat>>, c: nat, p: nat, x: nat)
    requires Shape(m, B) && c < LIST_NUM && |L| == LIST_NUM && NodesOutside(B, L, 0, 0)
    requires p == Dummy(c) || p in L[c]
    requires x == p / 4 || x == p / 4 + 1
    ensures Free4Write(m, B, x)
  {
    if p == Dummy(c) {
      DummyUnmarked(B, 4 * |m|, c, x);
    } else {
      var jj :| 0 <= jj < |L[c]| && L[c][jj] == p;
      var q := FindBlock(B, p);
      LinkUnmarked(B, 4 * |m|, q, x);
      BlockWords(B[q]);
    }
  }

  /** Two writes to free words keep the shape and the epilogue. */
  lemma PutFree2(m: seq<u32>, B: seq<Blk>, i1: nat, v1: u32, i2: nat, v2: u32, m': seq<u32>)
    requires Shape(m, B) && Free4Write(m, B, i1) && Free4Write(m, B, i2)
    requires m' == m[i1 := v1][i2 := v2]
    ensures Shape(m', B) && m'[|m| - 1] == m[|m| - 1]
  {
    PutUnmarked(m, B, i1, v1);
    PutUnmarked(m[i1 := v1], B, i2, v2);
  }

  /** The words insert(bp) writes are link words of bp, of the dummy and of the first node. */
  lemma InsertFree(m: seq<u32>, B: seq<Blk>, L: seq<seq<nat>>, c: nat, d: nat, first: nat, t: nat)
    requires Shape(m, B) && ListsOk(m, L) && NodesOutside(B, L, 0, 0) && c < LIST_NUM && t < |B|
    requires d == Dummy(c) && HasFields(m, d) && first == NextOf(m, d)
    ensures HasFields(m, first) && HasFields(m, B[t].bp) && B[t].bp < MAX_HEAP_SIZE
    ensures Free4Write(m, B, B[t].bp / 4) && Free4Write(m, B, B[t].bp / 4 + 1)
    ensures Free4Write(m, B, d / 4) && Free4Write(m, B, first / 4 + 1)
  {
    var bp := B[t].bp;
    assert first == d || first in L[c];
    ListSimple(m, L, c);
    BlockWords(B[t]);
    LinkUnmarked(B, 4 * |m|, t, bp / 4);
    LinkUnmarked(B, 4 * |m|, t, bp / 4 + 1);
    NodeLinkFree(m, B, L, c, d, d / 4);
    NodeLinkFree(m, B, L, c, first, first / 4 + 1);
  }

  /** insert writes link words only, so the blocks and the epilogue stay as they are. */
  lemma InsertShape(m: seq<u32>, B: seq<Blk>, d: nat, bp: nat, first: nat)
    requires Shape(m, B) && HasFields(m, d) && HasFields(m, bp) && HasFields(m, first) && bp < MAX_HEAP_SIZE
    requires Free4Write(m, B, bp / 4) && Free4Write(m, B, bp / 4 + 1)
    requires Free4Write(m, B, d / 4) && Free4Write(m, B, first / 4 + 1)
    ensures Shape(InsertWords(m, d, bp, first), B)
    ensures InsertWords(m, d, bp, first)[|m| - 1] == m[|m| - 1]
  {
    var m2 := m[bp / 4 := m[d / 4]][bp / 4 + 1 := m[first / 4 + 1]];
    PutFree2(m, B, bp / 4, m[d / 4], bp / 4 + 1, m[first / 4 + 1], m2);
    InsertWrites(m, d, bp, first);
    PutFree2(m2, B, d / 4, bp, first / 4 + 1, bp, InsertWords(m, d, bp, first));
  }

  /** The words delete writes are link words of the node's neighbours. */
  lemma DeleteFree(m: seq<u32>, B: seq<Blk>, L: seq<seq<nat>>, c: nat, d: nat, j: nat, prev: nat, next: nat)
    requires Shape(m, B) && ListsOk(m, L) && NodesOutside(B, L, 0, 0) && c < LIST_NUM && j < |L[c]|
    requires d == Dummy(c) && prev == Before(d, L[c], j) && next == After(d, L[c], j)
    ensures HasFields(m, L[c][j]) && HasFields(m, prev) && HasFields(m, next)
    ensures Free4Write(m, B, prev / 4) && Free4Write(m, B, next / 4 + 1)
  {
    ListSimple(m, L, c);
    assert prev == d || prev in L[c];
    assert next == d || next in L[c];
    NodeLinkFree(m, B, L, c, prev, prev / 4);
    NodeLinkFree(m, B, L, c, next, next / 4 + 1);
  }

  /** delete writes link words only, so the blocks and the epilogue stay as they are. */
  lemma DeleteShape(m: seq<u32>, B: seq<Blk>, p: nat, prev: nat, next: nat)
    requires Shape(m, B) && HasFields(m, p) && HasFields(m, prev) && HasFields(m, next)
    requires Free4Write(m, B, prev / 4) && Free4Write(m, B, next / 4 + 1)
    ensures Shape(DeleteWords(m, p, prev, next), B)
    ensures DeleteWords(m, p, prev, next)[|m| - 1] == m[|m| - 1]
  {
    DeleteWrites(m, p, prev, next);
    PutFree2(m, B, prev / 4, m[p / 4], next / 4 + 1, m[p / 4 + 1], DeleteWords(m, p, prev, next));
  }
}
