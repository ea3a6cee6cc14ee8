/*
 * The heap of malloclab-handout/mm.c seen as bytes, for the payload
 * copies of realloc and calloc.  Heap words are little-endian: byte a of
 * the heap is byte a % 4 of word a / 4.  memcpy and memset are library
 * calls; both become one operation, Written, which puts a sequence of
 * bytes at an address and leaves every other byte as it was.
 */
module MmBytes {
  import opened Powers
  import opened MmCodec
  import opened MmHeap
  import opened MmLinks
  import opened MmTiles
  import opened MmSteps

  type u8 = b: int | 0 <= b < 0x100

  /** Byte i (0 is the least significant) of a word. */
  function WordByte(w: u32, i: nat): u8
    requires i < 4
  {
    if i == 0 then w % 0x100
    else if i == 1 then w / 0x100 % 0x100
    else if i == 2 then w / 0x1_0000 % 0x100
    else w / 0x100_0000
  }

  /** The little-endian word made of four bytes. */
  function ByteWord(b0: u8, b1: u8, b2: u8, b3: u8): u32 {
    b0 + 0x100 * (b1 + 0x100 * (b2 + 0x100 * b3))
  }

  /** A word is made of its own four bytes. */
  lemma WordOfBytes(w: u32)
    ensures ByteWord(WordByte(w, 0), WordByte(w, 1), WordByte(w, 2), WordByte(w, 3)) == w
  {
    Digits(w);
  }

  /** The four bytes of a word made of bytes are those bytes. */
  lemma BytesOfWord(b0: u8, b1: u8, b2: u8, b3: u8)
    ensures var w := ByteWord(b0, b1, b2, b3);
      WordByte(w, 0) == b0 && WordByte(w, 1) == b1 && WordByte(w, 2) == b2 && WordByte(w, 3) == b3
  {
    var w := ByteWord(b0, b1, b2, b3);
    DivModUnique(w, 0x100, b1 + 0x100 * (b2 + 0x100 * b3), b0);
    DivModUnique(w, 0x1_0000, b2 + 0x100 * b3, b0 + 0x100 * b1);
    DivModUnique(w, 0x100_0000, b3, b0 + 0x100 * (b1 + 0x100 * b2));
    DivModUnique(b1 + 0x100 * (b2 + 0x100 * b3), 0x100, b2 + 0x100 * b3, b1);
    DivModUnique(b2 + 0x100 * b3, 0x100, b3, b2);
  }

  /** Byte a of the heap. */
  function ByteAt(m: seq<u32>, a: nat): u8
    requires a < 4 * |m|
  {
    WordByte(m[a / 4], a % 4)
  }

  /** The n bytes of the heap from address a on. */
  function Bytes(m: seq<u32>, a: nat, n: nat): (r: seq<u8>)
    requires a + n <= 4 * |m|
    ensures |r| == n && forall i :: 0 <= i < n ==> r[i] == ByteAt(m, a + i)
  {
    seq<u8>(n, (i: int) requires 0 <= i < n => ByteAt(m, a + i))
  }

  /** n copies of the byte c, what memset(dst, c, n) writes. */
  function Fill(c: u8, n: nat): (r: seq<u8>)
    ensures |r| == n && forall i :: 0 <= i < n ==> r[i] == c
  {
    seq<u8>(n, _ => c)
  }

  /** The byte at address a once D is put at dst. */
  function NewByte(m: seq<u32>, dst: nat, D: seq<u8>, a: nat): u8
    requires a < 4 * |m|
  {
    if dst <= a < dst + |D| then D[a - dst] else ByteAt(m, a)
  }

  /** Word x holds a byte of the range [dst, dst + n). */
  predicate Touches(x: nat, dst: nat, n: nat) {
    dst < 4 * x + 4 && 4 * x < dst + n
  }

  /** Word x once D is put at dst. */
  function NewWord(m: seq<u32>, dst: nat, D: seq<u8>, x: nat): u32
    requires x < |m|
  {
    if Touches(x, dst, |D|) then
      ByteWord(NewByte(m, dst, D, 4 * x), NewByte(m, dst, D, 4 * x + 1),
               NewByte(m, dst, D, 4 * x + 2), NewByte(m, dst, D, 4 * x + 3))
    else m[x]
  }

  /**
   * The heap with the bytes D put at address dst: memcpy(dst, src, n)
   * writes D = Bytes(m, src, n), memset(dst, c, n) writes n copies of c.
   * Only the words holding a byte of the range change.
   */
  function Written(m: seq<u32>, dst: nat, D: seq<u8>): (r: seq<u32>)
    requires dst + |D| <= 4 * |m|
    ensures |r| == |m|
    ensures forall x :: 0 <= x < |m| && !Touches(x, dst, |D|) ==> r[x] == m[x]
  {
    seq(|m|, x requires 0 <= x < |m| => NewWord(m, dst, D, x))
  }

  /** After the write, every byte of the heap is the one NewByte gives: D inside the range, the old byte outside it. */
  lemma WrittenByte(m: seq<u32>, dst: nat, D: seq<u8>, a: nat)
    requires dst + |D| <= 4 * |m| && a < 4 * |m|
    ensures ByteAt(Written(m, dst, D), a) == NewByte(m, dst, D, a)
  {
    var x, i := a / 4, a % 4;
    assert a == 4 * x + i;
    if Touches(x, dst, |D|) {
      WrittenWordByte(m, dst, D, x, i);
    } else {
      assert !(dst <= a < dst + |D|);
    }
  }

  /** Byte i of a word holding a byte of the range is the byte NewByte gives at its address. */
  lemma WrittenWordByte(m: seq<u32>, dst: nat, D: seq<u8>, x: nat, i: nat)
    requires dst + |D| <= 4 * |m| && x < |m| && i < 4 && Touches(x, dst, |D|)
    ensures WordByte(Written(m, dst, D)[x], i) == NewByte(m, dst, D, 4 * x + i)
  {
    var b0, b1 := NewByte(m, dst, D, 4 * x), NewByte(m, dst, D, 4 * x + 1);
    var b2, b3 := NewByte(m, dst, D, 4 * x + 2), NewByte(m, dst, D, 4 * x + 3);
    assert Written(m, dst, D)[x] == ByteWord(b0, b1, b2, b3);
    BytesOfWord(b0, b1, b2, b3);
  }

  /** The bytes read back from dst are the bytes written there. */
  lemma WrittenBytes(m: seq<u32>, dst: nat, D: seq<u8>)
    requires dst + |D| <= 4 * |m|
    ensures Bytes(Written(m, dst, D), dst, |D|) == D
  {
    forall i | 0 <= i < |D|
      ensures Bytes(Written(m, dst, D), dst, |D|)[i] == D[i]
    {
      WrittenByte(m, dst, D, dst + i);
    }
  }

  /** A byte outside the written range keeps its value. */
  lemma WrittenOutside(m: seq<u32>, dst: nat, D: seq<u8>, a: nat)
    requires dst + |D| <= 4 * |m| && a < 4 * |m| && (a < dst || dst + |D| <= a)
    ensures ByteAt(Written(m, dst, D), a) == ByteAt(m, a)
  {
    WrittenByte(m, dst, D, a);
  }

  /** Two heaps that agree byte by byte on a range read the same bytes there. */
  lemma SameBytes(r: seq<u32>, m: seq<u32>, a: nat, n: nat)
    requires a + n <= 4 * |r| && a + n <= 4 * |m|
    requires forall x :: a <= x < a + n ==> ByteAt(r, x) == ByteAt(m, x)
    ensures Bytes(r, a, n) == Bytes(m, a, n)
  {
  }

  /** Bytes outside the written range keep their values. */
  lemma WrittenElsewhere(m: seq<u32>, dst: nat, D: seq<u8>, a: nat, n: nat)
    requires dst + |D| <= 4 * |m| && a + n <= 4 * |m|
    requires a + n <= dst || dst + |D| <= a
    ensures Bytes(Written(m, dst, D), a, n) == Bytes(m, a, n)
  {
    var r := Written(m, dst, D);
    forall x | a <= x < a + n
      ensures ByteAt(r, x) == ByteAt(m, x)
    {
      WrittenOutside(m, dst, D, x);
    }
    SameBytes(r, m, a, n);
  }

  /* ---------- writes inside an allocated block ---------- */

  /** Word x lies strictly inside block b: after its header, before the next block's header. */
  predicate Inside(b: Blk, x: nat)
    requires BlockShape(b)
  {
    HdrW(b.bp) < x < Stop(b)
  }

  /** Block j's header and footer are not words inside block k. */
  lemma OtherTags(m: seq<u32>, B: seq<Blk>, j: nat, k: nat)
    requires Shape(m, B) && j < |B| && k < |B| && j != k
    ensures !Inside(B[k], HdrW(B[j].bp)) && !Inside(B[k], FtrW(B[j]))
  {
    OwnWords(B[j]);
    if j < k {
      WordsApart(B, 4 * |m|, j, k);
    } else {
      WordsApart(B, 4 * |m|, k, j);
    }
  }

  /**
   * The program may change the words inside a block it holds: the heap
   * stays well formed, with the same blocks and lists.
   */
  lemma PayloadFrame(m: seq<u32>, m': seq<u32>, B: seq<Blk>, L: seq<seq<nat>>, k: nat)
    requires Consistent(m, B, L) && k < |B| && B[k].alloc && |m'| == |m|
    requires forall x :: 0 <= x < |m| && m'[x] != m[x] ==> Inside(B[k], x)
    ensures Consistent(m', B, L)
  {
    assert Shape(m, B) && Tags(m, B) && ListsOk(m, L) && Members(B, L);
    var top := 4 * |m|;
    assert BlockOk(m, B[k]);
    BlockWords(B[k]);
    assert m'[0] == m[0] && m'[1] == m[1] && m'[24] == m[24];
    assert m'[|m| - 1] == m[|m| - 1];
    forall j | 0 <= j < |B|
      ensures BlockOk(m', B[j])
    {
      assert BlockOk(m, B[j]);
      if j != k {
        OtherTags(m, B, j, k);
      }
      BlockFrame(m, m', B[j]);
    }
    MembersListed(B, L);
    ListedOutside(B, B, top, L, k, k + 1);
    forall x | 0 <= x < |m| && !OffLists(L, x)
      ensures m'[x] == m[x]
    {
      if m'[x] != m[x] {
        WindowOffLists(B, top, L, k, k + 1, x);
      }
    }
    ListsFrame(m, m', L);
  }

  /** A word holding a byte of a range within block b's payload lies inside b. */
  lemma TouchInside(b: Blk, dst: nat, n: nat, x: nat)
    requires BlockShape(b) && b.bp <= dst && dst + n <= End(b) - WSIZE && Touches(x, dst, n)
    ensures Inside(b, x)
  {
    var q, e := b.bp / 8, (b.bp + b.size) / 8;
    assert b.bp == 8 * q && b.bp + b.size == 8 * e;
    assert HdrW(b.bp) == 2 * q - 1 && Stop(b) == 2 * e - 1;
    assert dst < 4 * x + 4 && 4 * x < dst + n;
  }

  /** Writing bytes within the payload of a block the program holds keeps the heap well formed. */
  lemma WrittenPayload(m: seq<u32>, B: seq<Blk>, L: seq<seq<nat>>, k: nat, dst: nat, D: seq<u8>)
    requires Consistent(m, B, L) && k < |B| && B[k].alloc
    requires B[k].bp <= dst && dst + |D| <= End(B[k]) - WSIZE
    ensures dst + |D| <= 4 * |m|
    ensures Consistent(Written(m, dst, D), B, L)
  {
    assert Shape(m, B) && BlockOk(m, B[k]);
    var r := Written(m, dst, D);
    forall x | 0 <= x < |m| && r[x] != m[x]
      ensures Inside(B[k], x)
    {
      TouchInside(B[k], dst, |D|, x);
    }
    PayloadFrame(m, r, B, L, k);
  }
}
