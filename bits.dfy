/*
 * The integer puzzles of datalab-handout/bits.p.c.
 *
 * A C `int` is a 32-bit two's-complement word, so every value here is a
 * `bv32`: `~` is `!`, `&`, `|`, `^`, `+` and `<<` wrap as in C, the C
 * logical not `!v` is `LNot(v)`, and `>>` on an `int` is the
 * sign-extending `Asr`.  Each puzzle is stated equal to the arithmetic
 * meaning its name promises; where that meaning needs exact integer
 * arithmetic the values are sign-extended into 33 bits first, where no
 * sum of two ints can overflow.
 */
module Bits {

  /** The C logical not: 1 for zero, 0 otherwise. */
  function LNot(v: bv32): (r: bv32)
    ensures r == 0 || r == 1
    ensures r == 1 <==> v == 0
  {
    if v == 0 then 1 else 0
  }

  /**
   * The arithmetic right shift of a signed int: the vacated high bits are
   * copies of the sign bit.  Every count the puzzles use lies in [0, 32].
   */
  function Asr(x: bv32, k: bv32): bv32
    requires k <= 32
  {
    (x >> k) | ((0 - (x >> 31)) << (32 - k))
  }

  /** The sign bit of x, as a truth value: x is negative. */
  predicate Negative(x: bv32) {
    x >> 31 == 1
  }

  /**
   * x sign-extended to 33 bits: the same integer in a word wide enough
   * to hold the exact sum of any two ints.
   */
  function Sext(x: bv32): bv33 {
    (x as bv33) | (((x >> 31) as bv33) << 32)
  }

  /** v, read as a signed 33-bit integer, lies in [-2^31, 2^31). */
  predicate InInt32(v: bv33) {
    v + 0x8000_0000 < 0x1_0000_0000
  }

  /** x <= y as signed 32-bit integers. */
  predicate SignedLe(x: bv32, y: bv32) {
    (x ^ 0x8000_0000) <= (y ^ 0x8000_0000)
  }

  /** Sign extension keeps the value in the int range ... */
  lemma SextInRange(x: bv32)
    ensures InInt32(Sext(x))
  {
  }

  /** ... keeps the low 32 bits ... */
  lemma SextLow(x: bv32)
    ensures Sext(x) & 0xFFFF_FFFF == x as bv33
  {
  }

  /** ... and sets the 33rd bit exactly for a negative x. */
  lemma SextSign(x: bv32)
    ensures Negative(x) <==> Sext(x) >= 0x1_0000_0000
  {
  }

  /* ---------- bitNor ---------- */

  function BitNor(x: bv32, y: bv32): (r: bv32)
    ensures r == !(x | y)
  {
    (!x) & (!y)
  }

  /* ---------- isNotEqual ---------- */

  function IsNotEqual(x: bv32, y: bv32): (r: bv32)
    ensures r == 0 || r == 1
    ensures r == 1 <==> x != y
  {
    LNot(LNot(x ^ y))
  }

  /* ---------- anyOddBit ---------- */

  function AnyOddBit(x: bv32): (r: bv32)
    ensures r == 0 || r == 1
    ensures r == 1 <==> x & 0xAAAA_AAAA != 0
  {
    var a: bv32 := 0xaa << 8;
    var b := a + 0xaa;
    var c := b << 16;
    var d := c + b;
    LNot(LNot(x & d))
  }

  /** 0xAAAAAAAA is the mask of exactly the odd-numbered bits. */
  lemma OddMask(i: bv32)
    requires i < 32
    ensures ((0xAAAA_AAAA as bv32) >> i) & 1 == 1 <==> i & 1 == 1
  {
  }

  /* ---------- rotateLeft ---------- */

  /** x rotated left by n places, written with logical shifts. */
  function Rotated(x: bv32, n: bv32): bv32
    requires n <= 31
  {
    (x << n) | (if n == 0 then 0 else x >> (32 - n))
  }

  function RotateLeft(x: bv32, n: bv32): (r: bv32)
    requires n <= 31
  {
    var a := x << n;
    var b: bv32 := !0;
    var k := 33 + !n;
    var d := (x >> k) | ((0 - (x >> 31)) << (32 - k));
    a | (d & !(b << n))
  }

  lemma NegShift(n: bv32)
    requires n <= 31
    ensures 33 + !n == 32 - n
  {
  }

  /** The bits the sign extension brings in are masked off again. */
  lemma RotateMask(x: bv32, n: bv32)
    requires 1 <= n <= 31
    ensures Asr(x, 32 - n) & !((!0) << n) == x >> (32 - n)
  {
  }

  lemma RotateLeftZero(x: bv32)
    ensures RotateLeft(x, 0) == x
  {
  }

  lemma RotateLeftPosLow(x: bv32, n: bv32)
    requires 1 <= n <= 15
    ensures RotateLeft(x, n) == Rotated(x, n)
  {
    NegShift(n);
    RotateMask(x, n);
  }

  lemma RotateLeftPosHigh(x: bv32, n: bv32)
    requires 16 <= n <= 31
    ensures RotateLeft(x, n) == Rotated(x, n)
  {
    NegShift(n);
    RotateMask(x, n);
  }

  lemma RotateLeftPos(x: bv32, n: bv32)
    requires 1 <= n <= 31
    ensures RotateLeft(x, n) == Rotated(x, n)
  {
    if n <= 15 {
      RotateLeftPosLow(x, n);
    } else {
      RotateLeftPosHigh(x, n);
    }
  }

  lemma RotateLeftSpec(x: bv32, n: bv32)
    requires n <= 31
    ensures RotateLeft(x, n) == Rotated(x, n)
  {
    if n == 0 {
      RotateLeftZero(x);
    } else {
      RotateLeftPos(x, n);
    }
  }

  /* ---------- bitParity ---------- */

  /** The xor of all 32 bits of x, in bit 0. */
  function XorOfBits(x: bv32): bv32 {
    (x ^ (x >> 1) ^ (x >> 2) ^ (x >> 3) ^ (x >> 4) ^ (x >> 5) ^ (x >> 6) ^ (x >> 7)
      ^ (x >> 8) ^ (x >> 9) ^ (x >> 10) ^ (x >> 11) ^ (x >> 12) ^ (x >> 13) ^ (x >> 14) ^ (x >> 15)
      ^ (x >> 16) ^ (x >> 17) ^ (x >> 18) ^ (x >> 19) ^ (x >> 20) ^ (x >> 21) ^ (x >> 22) ^ (x >> 23)
      ^ (x >> 24) ^ (x >> 25) ^ (x >> 26) ^ (x >> 27) ^ (x >> 28) ^ (x >> 29) ^ (x >> 30) ^ (x >> 31)) & 1
  }

  /** Each arithmetic shift is spelled out as in Asr. */
  function BitParity(x: bv32): bv32 {
    var a := x ^ ((x >> 1) | ((0 - (x >> 31)) << 31));
    var b := a ^ ((a >> 2) | ((0 - (a >> 31)) << 30));
    var c := b ^ ((b >> 4) | ((0 - (b >> 31)) << 28));
    var d := c ^ ((c >> 8) | ((0 - (c >> 31)) << 24));
    var e := d ^ ((d >> 16) | ((0 - (d >> 31)) << 16));
    e & 1
  }

  lemma BitParitySpec(x: bv32)
    ensures BitParity(x) == XorOfBits(x)
  {
  }

  /* ---------- tmin ---------- */

  function Tmin(): (r: bv32)
    ensures r == 0x8000_0000
    ensures Sext(r) == 0x1_8000_0000
  {
    1 << 31
  }

  /** No int is smaller than tmin. */
  lemma TminLeast(y: bv32)
    ensures SignedLe(Tmin(), y)
  {
  }

  /* ---------- fitsBits ---------- */

  /** x lies in [-2^(n-1), 2^(n-1)), the range of an n-bit two's-complement integer. */
  predicate FitsIn(x: bv32, n: bv32)
    requires 1 <= n <= 32
  {
    Sext(x) + ((1 as bv33) << (n - 1)) < (1 as bv33) << n
  }

  function FitsBits(x: bv32, n: bv32): (r: bv32)
    requires 1 <= n <= 32
  {
    var a := 33 + !n;
    LNot(Asr(x << a, a) ^ x)
  }

  lemma FitsBitsSpec(x: bv32, n: bv32)
    requires 1 <= n <= 32
    ensures FitsBits(x, n) == 0 || FitsBits(x, n) == 1
    ensures FitsBits(x, n) == 1 <==> FitsIn(x, n)
  {
    NegShift(n - 1);
  }

  /* ---------- rempwr2 ---------- */

  /**
   * x % 2^n with C's truncating division: r differs from x by a multiple
   * of 2^n, lies strictly between -2^n and 2^n, and is never of the
   * opposite sign to x.
   */
  predicate IsTruncRem(x: bv32, n: bv32, r: bv32)
    requires n <= 30
  {
    && (Sext(x) - Sext(r)) & (((1 as bv33) << n) - 1) == 0
    && Sext(r) + ((1 as bv33) << n) - 1 < ((1 as bv33) << (n + 1)) - 1
    && (!Negative(x) ==> !Negative(r))
    && (Negative(x) ==> Negative(r) || r == 0)
  }

  function Rempwr2(x: bv32, n: bv32): (r: bv32)
    requires n <= 30
  {
    var a := (1 << n) + !0;
    var b := Asr(x, 31);
    var c := x & a;
    c + (((!(LNot(LNot(c)) << n)) + 1) & b)
  }

  lemma Rempwr2Spec(x: bv32, n: bv32)
    requires n <= 30
    ensures IsTruncRem(x, n, Rempwr2(x, n))
  {
  }

  /* ---------- addOK ---------- */

  function AddOK(x: bv32, y: bv32): bv32 {
    var a := x + y;
    var b := (x ^ a) & (y ^ a);
    LNot(Asr(b, 31) & 1)
  }

  /** The sign test of addOK: both operands differ in sign from the wrapped sum. */
  lemma OverflowSign(x: bv32, y: bv32)
    ensures ((x ^ (x + y)) & (y ^ (x + y))) >> 31 == 1 <==> !InInt32(Sext(x) + Sext(y))
  {
  }

  lemma AsrSignBit(v: bv32)
    ensures Asr(v, 31) & 1 == v >> 31
  {
  }

  lemma AddOKSpec(x: bv32, y: bv32)
    ensures AddOK(x, y) == 0 || AddOK(x, y) == 1
    ensures AddOK(x, y) == 1 <==> InInt32(Sext(x) + Sext(y))
  {
    OverflowSign(x, y);
    AsrSignBit((x ^ (x + y)) & (y ^ (x + y)));
  }

  /* ---------- isNonZero ---------- */

  function IsNonZero(x: bv32): bv32 {
    Asr(x | (!x + 1), 31) & 1
  }

  lemma IsNonZeroSpec(x: bv32)
    ensures IsNonZero(x) == 0 || IsNonZero(x) == 1
    ensures IsNonZero(x) == 1 <==> x != 0
  {
    AsrSignBit(x | (!x + 1));
  }

  /* ---------- ilog2 ---------- */

  /** 1 when any bit of v is set, as `!!v` computes it. */
  function AnySet(v: bv32): (r: bv32)
    ensures r == 0 || r == 1
    ensures r == 1 <==> v != 0
  {
    LNot(LNot(v))
  }

  /**
   * For a positive x, the index of its highest set bit: 2^r <= x < 2^(r+1),
   * which is floor(log2 x).
   */
  function ILog2(x0: bv32): bv32 {
    var r: bv32 := (if x0 & 0xFFFF_0000 != 0 then 1 else 0) << 4;
    var x1 := (x0 >> r) | ((0 - (x0 >> 31)) << (32 - r));
    var s1: bv32 := (if x1 & 0xFF00 != 0 then 1 else 0) << 3;
    var x2 := (x1 >> s1) | ((0 - (x1 >> 31)) << (32 - s1));
    var s2: bv32 := (if x2 & 0xF0 != 0 then 1 else 0) << 2;
    var x3 := (x2 >> s2) | ((0 - (x2 >> 31)) << (32 - s2));
    var s3: bv32 := (if x3 & 0xC != 0 then 1 else 0) << 1;
    var x4 := (x3 >> s3) | ((0 - (x3 >> 31)) << (32 - s3));
    r + s1 + s2 + s3 + ((x4 >> 1) | ((0 - (x4 >> 31)) << 31))
  }

  lemma ILog2High(x: bv32)
    requires !Negative(x) && x & 0xFFFF_0000 != 0
    ensures ILog2(x) <= 30 && x >> ILog2(x) == 1
  {
  }

  lemma ILog2Low(x: bv32)
    requires x != 0 && x & 0xFFFF_0000 == 0
    ensures ILog2(x) <= 30 && x >> ILog2(x) == 1
  {
  }

  lemma ILog2Spec(x: bv32)
    requires x != 0 && !Negative(x)
    ensures ILog2(x) <= 30 && x >> ILog2(x) == 1
  {
    if x & 0xFFFF_0000 != 0 {
      ILog2High(x);
    } else {
      ILog2Low(x);
    }
  }

  /** Such an r is unique, so it is the floor of log2 x. */
  lemma ILog2Unique(x: bv32, r: bv32, q: bv32)
    requires r <= 31 && q <= 31
    requires x >> r == 1 && x >> q == 1
    ensures r == q
  {
  }
}
