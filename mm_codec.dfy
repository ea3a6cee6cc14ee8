/*
 * Word codec of the segregated-fit allocator (malloclab-handout/mm.c).
 *
 * Heap words are 32-bit (`unsigned int`).  A block header packs the block
 * size (a multiple of 8) with the previous block's allocated bit (bit 1)
 * and the block's own allocated bit (bit 0).  Free-list links are 32-bit
 * offsets from the start of the heap.  Sizes and offsets are natural
 * numbers in the model; `ToNat`/`FromNat` convert between a word and the
 * number it holds, byte by byte.
 */
module MmCodec {
  import opened Powers

  const WSIZE: nat := 4
  const DSIZE: nat := 8
  const CHUNKSIZE: nat := 256
  const MIN_FREE_SIZE: nat := 16
  const MIN_ALLOC_SIZE: nat := 12
  const LIST_NUM: nat := 11
  /** The heap checker's bound on the heap size, 2^32 bytes. */
  const MAX_HEAP_SIZE: nat := 0x1_0000_0000
  /** Number of values of the 64-bit `size_t`. */
  const SIZE_T_LIMIT: nat := 0x1_0000_0000_0000_0000

  /* ---------- words as numbers ---------- */

  function Byte0(w: bv32): bv8 { (w & 0xFF) as bv8 }
  function Byte1(w: bv32): bv8 { ((w >> 8) & 0xFF) as bv8 }
  function Byte2(w: bv32): bv8 { ((w >> 16) & 0xFF) as bv8 }
  function Byte3(w: bv32): bv8 { (w >> 24) as bv8 }

  /** The little-endian word made of four bytes. */
  function Word(b0: bv8, b1: bv8, b2: bv8, b3: bv8): bv32 {
    (b0 as bv32) | ((b1 as bv32) << 8) | ((b2 as bv32) << 16) | ((b3 as bv32) << 24)
  }

  lemma WordBytes(b0: bv8, b1: bv8, b2: bv8, b3: bv8)
    ensures Byte0(Word(b0, b1, b2, b3)) == b0 && Byte1(Word(b0, b1, b2, b3)) == b1
    ensures Byte2(Word(b0, b1, b2, b3)) == b2 && Byte3(Word(b0, b1, b2, b3)) == b3
  {
  }

  lemma BytesWord(w: bv32)
    ensures Word(Byte0(w), Byte1(w), Byte2(w), Byte3(w)) == w
  {
  }

  /** Base-256 digits of a number below 2^32. */
  lemma Digits(n: nat)
    requires n < 0x1_0000_0000
    ensures n == n % 0x100 + 0x100 * (n / 0x100 % 0x100 + 0x100 * (n / 0x1_0000 % 0x100 + 0x100 * (n / 0x100_0000)))
    ensures n / 0x100_0000 < 0x100
  {
    var a := n / 0x100;
    assert n == n % 0x100 + 0x100 * a;
    var b := a / 0x100;
    assert a == a % 0x100 + 0x100 * b;
    assert a % 0x100 == n / 0x100 % 0x100;
    var c := b / 0x100;
    assert b == b % 0x100 + 0x100 * c;
    assert b == n / 0x1_0000;
    assert c == n / 0x100_0000;
  }

  /** The value of one byte. */
  function ByteNat(b: bv8): (n: nat)
    ensures n < 0x100
  {
    b as nat
  }

  /** The byte holding a value below 256, built bit by bit from the top. */
  function ByteOf(n: nat): (b: bv8)
    requires n < 0x100
    decreases n
  {
    if n == 0 then 0 else (ByteOf(n / 2) << 1) | (if n % 2 == 1 then 1 else 0)
  }

  lemma ShiftInBit(x: bv8, bit: bv8)
    ensures ByteNat(x) < 0x80 && (bit == 0 || bit == 1) ==> ByteNat((x << 1) | bit) == 2 * ByteNat(x) + ByteNat(bit)
  {
  }

  lemma {:induction false} ByteOfValue(n: nat)
    requires n < 0x100
    ensures ByteNat(ByteOf(n)) == n
    decreases n
  {
    if n > 0 {
      ByteOfValue(n / 2);
      ShiftInBit(ByteOf(n / 2), if n % 2 == 1 then 1 else 0);
    }
  }

  /** The value of four little-endian bytes. */
  function BytesNat(b0: bv8, b1: bv8, b2: bv8, b3: bv8): (n: nat)
    ensures n < 0x1_0000_0000
  {
    ByteNat(b0) + 0x100 * (ByteNat(b1) + 0x100 * (ByteNat(b2) + 0x100 * ByteNat(b3)))
  }

  /** The unsigned value of a word. */
  function ToNat(w: bv32): (n: nat)
    ensures n < 0x1_0000_0000
  {
    BytesNat(Byte0(w), Byte1(w), Byte2(w), Byte3(w))
  }

  /** The word holding an unsigned value below 2^32. */
  function FromNat(n: nat): (w: bv32)
    requires n < 0x1_0000_0000
    ensures ToNat(w) == n
  {
    Digits(n);
    var b0, b1, b2, b3 := ByteOf(n % 0x100), ByteOf(n / 0x100 % 0x100), ByteOf(n / 0x1_0000 % 0x100), ByteOf(n / 0x100_0000);
    WordBytes(b0, b1, b2, b3);
    ByteOfValue(n % 0x100);
    ByteOfValue(n / 0x100 % 0x100);
    ByteOfValue(n / 0x1_0000 % 0x100);
    ByteOfValue(n / 0x100_0000);
    Word(b0, b1, b2, b3)
  }

  /** Bytes are determined by their value. */
  lemma BytesNatInjective(a0: bv8, a1: bv8, a2: bv8, a3: bv8, b0: bv8, b1: bv8, b2: bv8, b3: bv8)
    requires BytesNat(a0, a1, a2, a3) == BytesNat(b0, b1, b2, b3)
    ensures a0 == b0 && a1 == b1 && a2 == b2 && a3 == b3
  {
    DigitsInjective(ByteNat(a0), ByteNat(a1), ByteNat(a2), ByteNat(a3), ByteNat(b0), ByteNat(b1), ByteNat(b2), ByteNat(b3));
    ByteNatInjective(a0, b0);
    ByteNatInjective(a1, b1);
    ByteNatInjective(a2, b2);
    ByteNatInjective(a3, b3);
  }

  lemma ByteNatInjective(a: bv8, b: bv8)
    requires ByteNat(a) == ByteNat(b)
    ensures a == b
  {
  }

  lemma DigitsInjective(x0: nat, x1: nat, x2: nat, x3: nat, y0: nat, y1: nat, y2: nat, y3: nat)
    requires x0 < 0x100 && x1 < 0x100 && x2 < 0x100 && x3 < 0x100
    requires y0 < 0x100 && y1 < 0x100 && y2 < 0x100 && y3 < 0x100
    requires x0 + 0x100 * (x1 + 0x100 * (x2 + 0x100 * x3)) == y0 + 0x100 * (y1 + 0x100 * (y2 + 0x100 * y3))
    ensures x0 == y0 && x1 == y1 && x2 == y2 && x3 == y3
  {
  }

  /** A word is determined by its value. */
  lemma ToNatInjective(v: bv32, w: bv32)
    requires ToNat(v) == ToNat(w)
    ensures v == w
  {
    BytesNatInjective(Byte0(v), Byte1(v), Byte2(v), Byte3(v), Byte0(w), Byte1(w), Byte2(w), Byte3(w));
    BytesWord(v);
    BytesWord(w);
  }

  /** The two conversions are inverse. */
  lemma FromToNat(w: bv32)
    ensures FromNat(ToNat(w)) == w
  {
    ToNatInjective(FromNat(ToNat(w)), w);
  }

  /* ---------- the header macros, bit for bit ---------- */

  /** PACK: size, prev-alloc bit and alloc bit or-ed together. */
  function PackBits(size: bv32, prevAlloc: bv32, alloc: bv32): bv32 { size | prevAlloc | alloc }
  /** GET_SIZE: the word with its three low bits cleared. */
  function GetSizeBits(w: bv32): bv32 { w & 0xFFFF_FFF8 }
  /** GET_ALLOC: bit 0. */
  function GetAllocBits(w: bv32): bv32 { w & 1 }
  /** GET_PREV_ALLOC: bit 1, in place. */
  function GetPrevAllocBits(w: bv32): bv32 { w & 2 }
  /** SET_PREV_ALLOC: bit 1 set. */
  function SetPrevAllocBits(w: bv32): bv32 { w | 2 }
  /** SET_PREV_FREE: bit 1 cleared. */
  function SetPrevFreeBits(w: bv32): bv32 { w & 0xFFFF_FFFD }

  /** Codec round trip: an 8-aligned size and the two flags read back unchanged from PACK. */
  lemma PackBitsRoundTrip(size: bv32, prevAlloc: bv32, alloc: bv32)
    requires size & 7 == 0 && (prevAlloc == 0 || prevAlloc == 2) && (alloc == 0 || alloc == 1)
    ensures GetSizeBits(PackBits(size, prevAlloc, alloc)) == size
    ensures GetPrevAllocBits(PackBits(size, prevAlloc, alloc)) == prevAlloc
    ensures GetAllocBits(PackBits(size, prevAlloc, alloc)) == alloc
  {
  }

  /** SET_PREV_ALLOC sets bit 1 and leaves every other bit alone. */
  lemma SetPrevAllocBitsOnly(w: bv32)
    ensures SetPrevAllocBits(w) == (w & 0xFFFF_FFFD) | 2
  {
  }

  /** SET_PREV_FREE clears bit 1 and leaves every other bit alone. */
  lemma SetPrevFreeBitsOnly(w: bv32)
    ensures SetPrevFreeBits(w) == (w | 2) ^ 2
  {
  }

  /* ---------- the same macros on the values of words ---------- */

  /** An unsigned 32-bit heap word, by its value. */
  type u32 = w: int | 0 <= w < 0x1_0000_0000

  /** The two values the previous-block bit takes in a header: 0 or 2. */
  predicate IsPrevBit(p: nat) { p == 0 || p == 2 }
  /** The two values the allocated bit takes in a header: 0 or 1. */
  predicate IsAllocBit(a: nat) { a == 0 || a == 1 }

  function GetSize(w: u32): (size: u32)
    ensures size % 8 == 0 && size <= w
  {
    w / 8 * 8
  }

  function GetAlloc(w: u32): (a: nat)
    ensures IsAllocBit(a)
  {
    w % 2
  }

  function GetPrevAlloc(w: u32): (p: nat)
    ensures IsPrevBit(p)
  {
    w / 2 % 2 * 2
  }

  /** A header word; its three fields read back unchanged. */
  function Pack(size: u32, prevAlloc: nat, alloc: nat): (w: u32)
    requires size % 8 == 0 && IsPrevBit(prevAlloc) && IsAllocBit(alloc)
    ensures GetSize(w) == size && GetPrevAlloc(w) == prevAlloc && GetAlloc(w) == alloc
  {
    PackFields(size, prevAlloc, alloc);
    size + prevAlloc + alloc
  }

  /** The word with the previous block marked allocated; nothing else changes. */
  function SetPrevAlloc(w: u32): (r: u32)
    ensures GetPrevAlloc(r) == 2
    ensures GetSize(r) == GetSize(w) && GetAlloc(r) == GetAlloc(w)
    ensures r - GetPrevAlloc(r) == w - GetPrevAlloc(w)
  {
    if GetPrevAlloc(w) == 2 then w else AddBit1(w); w + 2
  }

  /** The word with the previous block marked free; nothing else changes. */
  function SetPrevFree(w: u32): (r: u32)
    ensures GetPrevAlloc(r) == 0
    ensures GetSize(r) == GetSize(w) && GetAlloc(r) == GetAlloc(w)
    ensures r - GetPrevAlloc(r) == w - GetPrevAlloc(w)
  {
    if GetPrevAlloc(w) == 2 then SubBit1(w); w - 2 else w
  }

  lemma PackFields(size: nat, p: nat, a: nat)
    requires size % 8 == 0 && IsPrevBit(p) && IsAllocBit(a)
    ensures (size + p + a) / 8 * 8 == size
    ensures (size + p + a) % 2 == a
    ensures (size + p + a) / 2 % 2 * 2 == p
  {
    var k := size / 8;
    DivModUnique(size + p + a, 8, k, p + a);
    DivModUnique(size + p + a, 2, 4 * k + p / 2, a);
    DivModUnique((size + p + a) / 2, 2, 2 * k, p / 2);
  }

  /** The low three bits of a word value, and the bits above them. */
  lemma Low3(w: nat)
    ensures w / 2 == 4 * (w / 8) + w % 8 / 2 && w % 2 == w % 8 % 2
    ensures w / 2 % 2 == w % 8 / 2 % 2
  {
    var q, r := w / 8, w % 8;
    DivModUnique(w, 2, 4 * q + r / 2, r % 2);
    DivModUnique(w / 2, 2, 2 * q + r / 4, r / 2 % 2);
  }

  lemma AddBit1(w: nat)
    requires w / 2 % 2 == 0
    ensures (w + 2) / 8 * 8 == w / 8 * 8 && (w + 2) % 2 == w % 2 && (w + 2) / 2 % 2 == 1
  {
    Low3(w);
    Low3(w + 2);
    DivModUnique(w + 2, 8, w / 8, w % 8 + 2);
  }

  lemma SubBit1(w: nat)
    requires w / 2 % 2 == 1
    ensures w >= 2 && (w - 2) / 8 * 8 == w / 8 * 8 && (w - 2) % 2 == w % 2 && (w - 2) / 2 % 2 == 0
  {
    Low3(w);
    Low3(w - 2);
    DivModUnique(w - 2, 8, w / 8, w % 8 - 2);
  }

  /* ---------- the two readings agree ---------- */

  /** A word differing from another only in its lowest byte differs in value by that byte. */
  lemma LowByteOnly(v: bv32, w: bv32)
    requires Byte1(v) == Byte1(w) && Byte2(v) == Byte2(w) && Byte3(v) == Byte3(w)
    ensures ToNat(v) == ToNat(w) - ByteNat(Byte0(w)) + ByteNat(Byte0(v))
  {
  }

  /** The bytes of a word above the lowest one, as a number. */
  function High(w: bv32): nat {
    ByteNat(Byte1(w)) + 0x100 * (ByteNat(Byte2(w)) + 0x100 * ByteNat(Byte3(w)))
  }

  lemma ToNatSplit(w: bv32)
    ensures ToNat(w) == ByteNat(Byte0(w)) + 0x100 * High(w)
  {
  }

  /** Adding a multiple of 256 keeps the three low bits. */
  lemma LowBitsOfSum(x: nat, b: nat, h: nat)
    requires x == b + 0x100 * h
    ensures x % 8 == b % 8 && x % 2 == b % 2 && x / 2 % 2 == b / 2 % 2
  {
  }

  /** The value of a word is its low byte plus a multiple of 256. */
  lemma LowByteValue(w: bv32)
    ensures ToNat(w) % 8 == ByteNat(Byte0(w)) % 8
    ensures ToNat(w) % 2 == ByteNat(Byte0(w)) % 2
    ensures ToNat(w) / 2 % 2 == ByteNat(Byte0(w)) / 2 % 2
  {
    ToNatSplit(w);
    LowBitsOfSum(ToNat(w), ByteNat(Byte0(w)), High(w));
  }

  lemma ByteClearLow(b: bv8)
    ensures ByteNat(b & 0xF8) == ByteNat(b) - ByteNat(b) % 8
  {
  }

  lemma ByteBit0(b: bv8)
    ensures ByteNat(b & 1) == ByteNat(b) % 2
  {
  }

  lemma ByteBit1(b: bv8)
    ensures ByteNat(b & 2) == ByteNat(b) / 2 % 2 * 2
  {
  }

  lemma ByteSetBit1(b: bv8)
    ensures ByteNat(b | 2) == if ByteNat(b) / 2 % 2 == 1 then ByteNat(b) else ByteNat(b) + 2
  {
  }

  lemma ByteClearBit1(b: bv8)
    ensures ByteNat(b & 0xFD) == if ByteNat(b) / 2 % 2 == 1 then ByteNat(b) - 2 else ByteNat(b)
  {
  }

  /** The flag words 0, 1 and 2 and their values. */
  lemma FlagValue(p: bv32)
    ensures p == 0 || p == 1 || p == 2 ==> ToNat(p) == ByteNat(Byte0(p))
    ensures (p == 0 ==> ToNat(p) == 0) && (p == 1 ==> ToNat(p) == 1) && (p == 2 ==> ToNat(p) == 2)
    ensures (p == 0 ==> Byte0(p) == 0) && (p == 1 ==> Byte0(p) == 1) && (p == 2 ==> Byte0(p) == 2)
  {
    if p == 0 || p == 1 || p == 2 {
      assert High(p) == 0;
      ToNatSplit(p);
    }
    if p == 1 {
      assert Byte0(p) == 1;
    } else if p == 2 {
      assert Byte0(p) == 2;
    }
  }

  lemma ByteOrFlags(b: bv8, p: bv8, a: bv8)
    ensures ByteNat(b) % 8 == 0 && (p == 0 || p == 2) && (a == 0 || a == 1) ==>
      ByteNat(b | p | a) == ByteNat(b) + ByteNat(p) + ByteNat(a)
  {
  }

  /** GET_SIZE on bits is GetSize on values. */
  lemma GetSizeAgrees(w: bv32)
    ensures ToNat(GetSizeBits(w)) == GetSize(ToNat(w))
  {
    assert Byte0(GetSizeBits(w)) == Byte0(w) & 0xF8;
    LowByteOnly(GetSizeBits(w), w);
    ByteClearLow(Byte0(w));
    LowByteValue(w);
  }

  lemma AndOneBytes(w: bv32)
    ensures Byte0(w & 1) == Byte0(w) & 1
    ensures High(w & 1) == 0
  {
    assert Byte1(w & 1) == 0 && Byte2(w & 1) == 0 && Byte3(w & 1) == 0;
  }

  lemma AndTwoBytes(w: bv32)
    ensures Byte0(w & 2) == Byte0(w) & 2
    ensures High(w & 2) == 0
  {
    assert Byte1(w & 2) == 0 && Byte2(w & 2) == 0 && Byte3(w & 2) == 0;
  }

  /** GET_ALLOC on bits is GetAlloc on values. */
  lemma GetAllocAgrees(w: bv32)
    ensures ToNat(GetAllocBits(w)) == GetAlloc(ToNat(w))
  {
    AndOneBytes(w);
    ToNatSplit(w & 1);
    ByteBit0(Byte0(w));
    LowByteValue(w);
  }

  /** GET_PREV_ALLOC on bits is GetPrevAlloc on values. */
  lemma GetPrevAllocAgrees(w: bv32)
    ensures ToNat(GetPrevAllocBits(w)) == GetPrevAlloc(ToNat(w))
  {
    AndTwoBytes(w);
    ToNatSplit(w & 2);
    ByteBit1(Byte0(w));
    LowByteValue(w);
  }

  lemma OrTwoBytes(w: bv32)
    ensures Byte0(w | 2) == Byte0(w) | 2
    ensures Byte1(w | 2) == Byte1(w) && Byte2(w | 2) == Byte2(w) && Byte3(w | 2) == Byte3(w)
  {
  }

  lemma AndNotTwoBytes(w: bv32)
    ensures Byte0(w & 0xFFFF_FFFD) == Byte0(w) & 0xFD
    ensures Byte1(w & 0xFFFF_FFFD) == Byte1(w) && Byte2(w & 0xFFFF_FFFD) == Byte2(w) && Byte3(w & 0xFFFF_FFFD) == Byte3(w)
  {
  }

  /** Setting bit 1 of the low byte sets bit 1 of the value. */
  lemma SetBit1Value(x: u32, b: nat, b2: nat, y: nat)
    requires b <= x && x / 2 % 2 == b / 2 % 2
    requires b2 == (if b / 2 % 2 == 1 then b else b + 2) && y == x - b + b2
    ensures y == SetPrevAlloc(x)
  {
  }

  /** Clearing bit 1 of the low byte clears bit 1 of the value. */
  lemma ClearBit1Value(x: u32, b: nat, b2: nat, y: nat)
    requires b <= x && x / 2 % 2 == b / 2 % 2
    requires b2 == (if b / 2 % 2 == 1 then b - 2 else b) && y == x - b + b2
    ensures y == SetPrevFree(x)
  {
  }

  /** SET_PREV_ALLOC on bits is SetPrevAlloc on values. */
  lemma SetPrevAllocAgrees(w: bv32)
    ensures ToNat(SetPrevAllocBits(w)) == SetPrevAlloc(ToNat(w))
  {
    var b := Byte0(w);
    OrTwoBytes(w);
    LowByteOnly(w | 2, w);
    ByteSetBit1(b);
    LowByteValue(w);
    ToNatSplit(w);
    SetBit1Value(ToNat(w), ByteNat(b), ByteNat(b | 2), ToNat(w | 2));
  }

  lemma AndNotTwoValue(w: bv32)
    ensures ToNat(w & 0xFFFF_FFFD) == ToNat(w) - ByteNat(Byte0(w)) + ByteNat(Byte0(w) & 0xFD)
  {
    AndNotTwoBytes(w);
    LowByteOnly(w & 0xFFFF_FFFD, w);
  }

  /** SET_PREV_FREE on bits is SetPrevFree on values. */
  lemma SetPrevFreeAgrees(w: bv32)
    ensures ToNat(SetPrevFreeBits(w)) == SetPrevFree(ToNat(w))
  {
    var b := Byte0(w);
    AndNotTwoValue(w);
    ByteClearBit1(b);
    LowByteValue(w);
    ToNatSplit(w);
    ClearBit1Value(ToNat(w), ByteNat(b), ByteNat(b & 0xFD), ToNat(w & 0xFFFF_FFFD));
  }

  lemma OrFlagsBytes(f: bv32, p: bv32, a: bv32)
    requires (p == 0 || p == 2) && (a == 0 || a == 1)
    ensures Byte0(f | p | a) == Byte0(f) | Byte0(p) | Byte0(a)
    ensures Byte1(f | p | a) == Byte1(f) && Byte2(f | p | a) == Byte2(f) && Byte3(f | p | a) == Byte3(f)
  {
  }

  lemma OrFlagsValue(f: bv32, p: bv32, a: bv32)
    ensures (p == 0 || p == 2) && (a == 0 || a == 1) ==> ToNat(f | p | a) == ToNat(f) - ByteNat(Byte0(f)) + ByteNat(Byte0(f) | Byte0(p) | Byte0(a))
  {
    if (p == 0 || p == 2) && (a == 0 || a == 1) {
      OrFlagsBytes(f, p, a);
      LowByteOnly(f | p | a, f);
    }
  }

  /** PACK on bits is Pack on values. */
  lemma PackAgrees(size: bv32, prevAlloc: bv32, alloc: bv32)
    requires ToNat(size) % 8 == 0 && (prevAlloc == 0 || prevAlloc == 2) && (alloc == 0 || alloc == 1)
    ensures IsPrevBit(ToNat(prevAlloc)) && IsAllocBit(ToNat(alloc))
    ensures ToNat(PackBits(size, prevAlloc, alloc)) == Pack(ToNat(size), ToNat(prevAlloc), ToNat(alloc))
  {
    OrFlagsNat(size, prevAlloc, alloc);
    PackSum(ToNat(size), ToNat(prevAlloc), ToNat(alloc), ToNat(size | prevAlloc | alloc));
  }

  lemma PackSum(x: u32, p: nat, a: nat, y: nat)
    requires x % 8 == 0 && IsPrevBit(p) && IsAllocBit(a) && y == x + p + a
    ensures y == Pack(x, p, a)
  {
  }

  /** Or-ing the flags into a word whose value is a multiple of 8 adds their values. */
  lemma OrFlagsNat(f: bv32, p: bv32, a: bv32)
    requires ToNat(f) % 8 == 0 && (p == 0 || p == 2) && (a == 0 || a == 1)
    ensures IsPrevBit(ToNat(p)) && IsAllocBit(ToNat(a))
    ensures ToNat(f | p | a) == ToNat(f) + ToNat(p) + ToNat(a)
  {
    var b := Byte0(f);
    LowByteValue(f);
    FlagValue(p);
    FlagValue(a);
    ByteOrFlags(b, Byte0(p), Byte0(a));
    OrFlagsValue(f, p, a);
  }

  /* ---------- request sizes ---------- */

  /** ALIGN on unbounded numbers: round up to a multiple of 8. */
  function Align(p: nat): (r: nat)
    ensures r % 8 == 0 && p <= r < p + 8
  {
    (p + 7) / 8 * 8
  }

  /**
   * The block size malloc asks for: the minimum block for small requests,
   * otherwise the aligned payload plus room for the header.
   */
  function AdjustSize(size: nat): (asize: nat)
    ensures asize % 8 == 0 && asize >= MIN_FREE_SIZE
    ensures asize >= size + WSIZE
    ensures size <= MIN_ALLOC_SIZE ==> asize == MIN_FREE_SIZE
    ensures size > MIN_ALLOC_SIZE ==> asize < size + 16
  {
    if size <= MIN_ALLOC_SIZE then MIN_FREE_SIZE else Align(size) + DSIZE
  }

  /** ALIGN exactly as the source computes it, in 64-bit `size_t`. */
  function AlignAsWritten(p: nat): (r: nat)
    requires p < SIZE_T_LIMIT
    ensures r < SIZE_T_LIMIT
  {
    (p + 7) % SIZE_T_LIMIT / 8 * 8
  }

  /** The adjusted size exactly as the source computes it, in 64-bit `size_t`. */
  function AdjustSizeAsWritten(size: nat): (asize: nat)
    requires size < SIZE_T_LIMIT
    ensures asize < SIZE_T_LIMIT
  {
    if size <= MIN_ALLOC_SIZE then MIN_FREE_SIZE else (AlignAsWritten(size) + DSIZE) % SIZE_T_LIMIT
  }

  /** The two computations agree unless the 64-bit sums wrap around. */
  lemma AdjustSizeAgrees(size: nat)
    requires size + 15 < SIZE_T_LIMIT
    ensures AdjustSizeAsWritten(size) == AdjustSize(size)
  {
  }

  /**
   * Near the top of the `size_t` range the source's adjusted size wraps:
   * a request of 2^64-8 bytes becomes a block of size 0, and one of
   * 2^64-1 bytes a block of size 8, below the minimum block size.
   */
  lemma AdjustSizeWraps()
    ensures AdjustSizeAsWritten(SIZE_T_LIMIT - 8) == 0
    ensures AdjustSizeAsWritten(SIZE_T_LIMIT - 1) == 8
    ensures AdjustSizeAsWritten(SIZE_T_LIMIT - 1) < MIN_FREE_SIZE
  {
  }

  /* ---------- size classes ---------- */

  /** The bounds the heap checker expects of sizes in list `c < 10`. */
  function ClassMax(c: nat): nat { Pow2(c + 4) }
  function ClassMin(c: nat): nat { Pow2(c + 3) + 1 }

  /** get_list_index: the free list for blocks of this size. */
  function ListIndex(size: nat): (c: nat)
    ensures c < LIST_NUM
    ensures c == 0 <==> size <= 16
    ensures 0 < c < 10 ==> ClassMin(c) <= size <= ClassMax(c)
    ensures c == 10 <==> size > 8192
  {
    if size <= 16 then 0
    else if size <= 32 then 1
    else if size <= 64 then 2
    else if size <= 128 then 3
    else if size <= 256 then 4
    else if size <= 512 then 5
    else if size <= 1024 then 6
    else if size <= 2048 then 7
    else if size <= 4096 then 8
    else if size <= 8192 then 9
    else 10
  }

  /** Larger blocks never go to a lower list. */
  lemma ListIndexMonotone(s1: nat, s2: nat)
    requires s1 <= s2
    ensures ListIndex(s1) <= ListIndex(s2)
  {
  }

  /** Every block size of at least 16 lies within its list's bounds. */
  lemma ListIndexBounds(size: nat)
    requires size >= MIN_FREE_SIZE
    ensures ListIndex(size) < 10 ==> ClassMin(ListIndex(size)) <= size <= ClassMax(ListIndex(size))
    ensures ListIndex(size) == 10 ==> size > 8192
  {
  }
}
