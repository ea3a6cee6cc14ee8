/*
 * Powers of two and the integer facts about them that the models share:
 * C's shifts of non-negative and of two's-complement values are divisions
 * and remainders by powers of two.
 */
module Powers {

  function Pow2(n: nat): (r: nat)
    ensures r >= 1
  {
    if n == 0 then 1 else 2 * Pow2(n - 1)
  }

  lemma {:induction false} Pow2Add(a: nat, b: nat)
    ensures Pow2(a + b) == Pow2(a) * Pow2(b)
    decreases a
  {
    if a > 0 {
      Pow2Add(a - 1, b);
    }
  }

  lemma {:induction false} Pow2Monotone(a: nat, b: nat)
    requires a <= b
    ensures Pow2(a) <= Pow2(b)
    decreases b
  {
    if a < b {
      Pow2Monotone(a, b - 1);
    }
  }

  /** Division and remainder are determined by the quotient-remainder equation. */
  lemma DivModUnique(x: int, d: int, q: int, r: int)
    requires d > 0 && 0 <= r < d && x == q * d + r
    ensures x / d == q && x % d == r
  {
    var k := q - x / d;
    assert k * d == x % d - r;
    if k >= 1 {
      MulLeft(1, k, d);
    } else if k <= -1 {
      MulLeft(k, -1, d);
    }
  }

  lemma MulLeft(a: int, b: int, c: int)
    requires a <= b && c >= 0
    ensures a * c <= b * c
  {
  }

  lemma DivDivAny(x: int, p: int, q: int)
    requires p > 0 && q > 0
    ensures x / p / q == x / (p * q)
  {
    var y := x / p;
    var z := y / q;
    var r := (y % q) * p + x % p;
    assert x == (z * q + y % q) * p + x % p;
    assert x == z * (p * q) + r;
    MulLeft(y % q, q - 1, p);
    assert r < p * q;
    DivModUnique(x, p * q, z, r);
  }

  /** Dividing by 2^a and then by 2^b is dividing by 2^(a+b). */
  lemma DivDiv(x: int, a: nat, b: nat)
    ensures x / Pow2(a) / Pow2(b) == x / Pow2(a + b)
  {
    Pow2Add(a, b);
    DivDivAny(x, Pow2(a), Pow2(b));
  }

  lemma Pow2Eight()
    ensures Pow2(8) == 0x100
  {
  }

  lemma Pow2ThirtyTwo()
    ensures Pow2(32) == 0x1_0000_0000
  {
    Pow2Eight();
    Pow2Add(8, 8);
    Pow2Add(16, 16);
  }

  lemma Pow2ThirtyOne()
    ensures Pow2(31) == 0x8000_0000
  {
    Pow2ThirtyTwo();
  }

  /** A value is its quotient and remainder by q, the quotient split again by p. */
  lemma Recombine(x: int, p: int, q: int)
    requires p > 0 && q > 0
    ensures x == ((x / q / p) * p + (x / q) % p) * q + x % q
  {
    var y := x / q;
    assert y == (y / p) * p + y % p;
    assert x == y * q + x % q;
  }

  /** Two values are equal exactly when their quotients and remainders by p are. */
  lemma QuotRemEqual(y1: int, y2: int, p: int)
    requires p > 0
    ensures y1 == y2 <==> y1 / p == y2 / p && y1 % p == y2 % p
  {
    assert y1 == (y1 / p) * p + y1 % p;
    assert y2 == (y2 / p) * p + y2 % p;
  }
}
