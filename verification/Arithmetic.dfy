/** Facts about remainders, divisibility and powers that the other modules share. */
module Arithmetic {

  /** Number of values of a 32-bit word. */
  const WORD: nat := 0x1_0000_0000

  function Min(a: int, b: int): int { if a < b then a else b }

  function Max(a: int, b: int): int { if a < b then b else a }

  ghost predicate Divides(m: int, x: int) {
    exists q: int :: x == m * q
  }

  lemma DividesBy(m: int, x: int, q: int)
    requires x == m * q
    ensures Divides(m, x)
  {
  }

  lemma Distribute(k: int, m: int, q: int, r: int)
    ensures k * (m * q + r) == (k * m) * q + k * r
  {
  }

  lemma MulAtLeast(m: int, q: int)
    ensures m >= 0 && q >= 1 ==> m * q >= m
  {
  }

  lemma MulMonotone(m: nat, x: int, y: int)
    requires x <= y
    ensures m * x <= m * y
  {
  }

  lemma QuotientIsSmaller(x: nat, m: nat)
    requires m > 0
    ensures 0 <= x / m <= x
  {
    var q, r := x / m, x % m;
    assert x == m * q + r;
    MulAtLeast(q, m);
  }

  /** A multiple of `m` strictly between -m and m is zero. */
  lemma SmallMultiple(m: int, q: int)
    requires -m < m * q < m
    ensures q == 0
  {
    MulAtLeast(m, q);
    MulAtLeast(m, -q);
  }

  /** Quotient and remainder are determined by x == m*q + r with 0 <= r < m. */
  lemma DivModUnique(m: int, x: int, q: int, r: int)
    requires 0 <= r < m && x == m * q + r
    ensures x / m == q && x % m == r
  {
    var d := x / m - q;
    assert x == m * (x / m) + x % m;
    assert m * d == m * (x / m) - m * q == r - x % m;
    SmallMultiple(m, d);
  }

  /** Remainder by a product, one factor at a time. */
  lemma ModOfProduct(b: nat, m: nat, v: nat)
    requires b > 0 && m > 0
    ensures b * m > 0 && v % (b * m) == b * (v / b % m) + v % b
  {
    var h, low := v / b, v % b;
    var q, r := h / m, h % m;
    MulAtLeast(b, m);
    Distribute(b, m, q, r);
    MulAtLeast(b, m - r);
    assert b * (m - r) == b * m - b * r;
    DivModUnique(b * m, v, q, b * r + low);
  }

  /** An odd factor keeps the parity. */
  lemma OddTimes(a: int, s: int)
    requires a % 2 == 1
    ensures a * s % 2 == s % 2
  {
    var c := a / 2;
    assert a * s == s + 2 * (c * s);
    AddMultiple(2, s, c * s);
  }

  /** A quotient lies where the dividend does. */
  lemma QuotientBounds(m: nat, v: nat, k: nat)
    requires m > 0 && m <= v < m * k
    ensures 0 < v / m < k && v == m * (v / m) + v % m
  {
    var q := v / m;
    assert v == m * q + v % m;
    if q >= k {
      MulMonotone(m, k, q);
    }
  }

  lemma DividesMod(m: int, x: int)
    requires m > 0
    ensures Divides(m, x) <==> x % m == 0
  {
    assert x == m * (x / m) + x % m;
    if x % m == 0 {
      DividesBy(m, x, x / m);
    }
    if Divides(m, x) {
      var q :| x == m * q;
      DivModUnique(m, x, q, 0);
    }
  }

  lemma SameRemainder(m: int, x: int, y: int)
    requires m > 0
    ensures x % m == y % m <==> Divides(m, x - y)
  {
    var dx, dy := x / m, y / m;
    assert x == m * dx + x % m && y == m * dy + y % m;
    if x % m == y % m {
      assert m * (dx - dy) == m * dx - m * dy;
      DividesBy(m, x - y, dx - dy);
    }
    if Divides(m, x - y) {
      var q :| x - y == m * q;
      assert m * (dy + q) == m * dy + m * q;
      DivModUnique(m, x, dy + q, y % m);
    }
  }

  /** Adding a multiple of `m` does not change the remainder. */
  lemma AddMultiple(m: int, x: int, q: int)
    requires m > 0
    ensures (x + m * q) % m == x % m
  {
    DividesBy(m, x + m * q - x, q);
    SameRemainder(m, x + m * q, x);
  }

  lemma AddCongruent(m: int, x: int, y: int, z: int)
    requires m > 0 && x % m == y % m
    ensures (x + z) % m == (y + z) % m
  {
    SameRemainder(m, x, y);
    assert (x + z) - (y + z) == x - y;
    SameRemainder(m, x + z, y + z);
  }

  lemma MulCongruent(m: int, x: int, y: int, a: int)
    requires m > 0 && x % m == y % m
    ensures a * x % m == a * y % m
  {
    SameRemainder(m, x, y);
    var q :| x - y == m * q;
    assert a * x - a * y == a * (x - y) == a * (m * q) == m * (a * q);
    DividesBy(m, a * x - a * y, a * q);
    SameRemainder(m, a * x, a * y);
  }

  lemma ModIdempotent(m: int, x: int)
    requires m > 0
    ensures x % m % m == x % m
  {
    DivModUnique(m, x % m, 0, x % m);
  }

  /** Congruence modulo a product implies congruence modulo each factor. */
  lemma CoarserCongruence(m: int, n: int, x: int, y: int)
    requires m > 0 && n > 0 && m * n > 0 && x % (m * n) == y % (m * n)
    ensures x % m == y % m
  {
    SameRemainder(m * n, x, y);
    var q :| x - y == m * n * q;
    assert m * n * q == m * (n * q);
    DividesBy(m, x - y, n * q);
    SameRemainder(m, x, y);
  }

  function Pow2(k: nat): (r: nat)
    ensures r > 0
  {
    if k == 0 then 1 else 2 * Pow2(k - 1)
  }

  lemma {:induction false} Pow2Splits(j: nat, k: nat)
    ensures Pow2(j + k) == Pow2(j) * Pow2(k)
  {
    if j > 0 {
      Pow2Splits(j - 1, k);
      Distribute(2, Pow2(j - 1), Pow2(k), 0);
    }
  }

  lemma Pow2Values()
    ensures Pow2(8) == 0x100
    ensures Pow2(16) == 0x1_0000
    ensures Pow2(24) == 0x100_0000
    ensures Pow2(31) == 0x8000_0000
    ensures Pow2(32) == 0x1_0000_0000
    ensures Pow2(64) == 0x1_0000_0000_0000_0000
  {
    Pow2Splits(8, 8);
    Pow2Splits(8, 16);
    Pow2Splits(16, 15);
    Pow2Splits(16, 16);
    Pow2Splits(32, 32);
  }
}
