/** Linear congruential generators with a power-of-two modulus: x -> (a*x + b) mod 2^k.

    When a = 1 (mod 4) and b is odd, the generator returns to its start after n steps exactly when
    2^k divides n (the Hull-Dobell condition for a power of two), so it visits every residue once
    per period. Nothing here depends on the particular constants of the firmware.
  */
module Lcg {
  import opened Arithmetic

  /** The state after `n` steps from residue `x` modulo 2^k. */
  function Orbit(a: nat, b: nat, k: nat, x: nat, n: nat): (r: nat)
    ensures r < Pow2(k)
  {
    if n == 0 then x % Pow2(k) else (a * Orbit(a, b, k, x, n - 1) + b) % Pow2(k)
  }

  /** The same sequence over the integers, with no remainder taken. */
  function Exact(a: nat, b: nat, x: nat, n: nat): nat {
    if n == 0 then x else a * Exact(a, b, x, n - 1) + b
  }

  function Pow(a: nat, n: nat): nat {
    if n == 0 then 1 else a * Pow(a, n - 1)
  }

  /** 1 + a + ... + a^(n-1). */
  function Sum(a: nat, n: nat): nat {
    if n == 0 then 0 else a * Sum(a, n - 1) + 1
  }

  lemma ScaleAndShift(a: int, s: int, c: int, d: int)
    ensures (a * s + 1) * c == a * (s * c) + c
    ensures a * (s * c + d) == a * (s * c) + a * d
    ensures a * (s * c) == (a * s) * c
  {
  }

  lemma {:induction false} ExactDistance(a: nat, b: nat, x: nat, n: nat)
    requires a > 0
    ensures Exact(a, b, x, n) - x == Sum(a, n) * ((a - 1) * x + b)
  {
    if n > 0 {
      ExactDistance(a, b, x, n - 1);
      var c, s := (a - 1) * x + b, Sum(a, n - 1);
      ScaleAndShift(a, s, c, x);
      assert (a - 1) * x == a * x - x;
    }
  }

  lemma {:induction false} OrbitIsExactModulo(a: nat, b: nat, k: nat, x: nat, n: nat)
    ensures Orbit(a, b, k, x, n) == Exact(a, b, x, n) % Pow2(k)
  {
    if n > 0 {
      OrbitIsExactModulo(a, b, k, x, n - 1);
      var o, e := Orbit(a, b, k, x, n - 1), Exact(a, b, x, n - 1);
      ModIdempotent(Pow2(k), e);
      MulCongruent(Pow2(k), o, e, a);
      AddCongruent(Pow2(k), a * o, a * e, b);
    }
  }

  // ------------------------------------------------ factors of two in 1 + a + ... + a^(n-1)

  lemma {:induction false} PowIsOneModFour(a: nat, n: nat)
    requires a % 4 == 1
    ensures Pow(a, n) % 4 == 1
  {
    if n > 0 {
      PowIsOneModFour(a, n - 1);
      MulCongruent(4, Pow(a, n - 1), 1, a);
    }
  }

  lemma NextParity(x: int, n: int)
    requires x % 2 == (n - 1) % 2
    ensures (x + 1) % 2 == n % 2
  {
  }

  lemma {:induction false} SumParity(a: nat, n: nat)
    requires a % 4 == 1
    ensures Sum(a, n) % 2 == n % 2
  {
    if n > 0 {
      SumParity(a, n - 1);
      OddTimes(a, Sum(a, n - 1));
      NextParity(a * Sum(a, n - 1), n);
    }
  }

  lemma {:induction false} SumSplits(a: nat, m: nat, n: nat)
    ensures Sum(a, m + n) == Pow(a, n) * Sum(a, m) + Sum(a, n)
  {
    if n > 0 {
      SumSplits(a, m, n - 1);
      var p, s := Pow(a, n - 1), Sum(a, m);
      ScaleAndShift(a, p, s, Sum(a, n - 1));
    }
  }

  /** Doubling the number of terms multiplies the sum by twice an odd number. */
  lemma SumDoubles(a: nat, h: nat) returns (odd: nat)
    requires a % 4 == 1
    ensures odd % 2 == 1 && Sum(a, 2 * h) == 2 * (Sum(a, h) * odd)
  {
    SumSplits(a, h, h);
    PowIsOneModFour(a, h);
    odd := TwiceOdd(Pow(a, h), Sum(a, h), Sum(a, 2 * h));
  }

  lemma TwiceOdd(p: nat, s: nat, t: nat) returns (odd: nat)
    requires p % 4 == 1 && t == p * s + s
    ensures odd % 2 == 1 && t == 2 * (s * odd)
  {
    odd := (p + 1) / 2;
    SameProduct(p, 2 * odd - 1, s);
    TwiceProduct(odd, s);
  }

  lemma SameProduct(x: int, y: int, s: int)
    requires x == y
    ensures x * s == y * s
  {
  }

  lemma TwiceProduct(odd: int, s: int)
    ensures (2 * odd - 1) * s + s == 2 * (s * odd)
  {
  }

  lemma DividesTwice(m: int, x: int)
    ensures Divides(2 * m, 2 * x) <==> Divides(m, x)
  {
    if Divides(2 * m, 2 * x) {
      var q :| 2 * x == 2 * m * q;
      assert 2 * m * q == 2 * (m * q);
      DividesBy(m, x, q);
    }
    if Divides(m, x) {
      var q :| x == m * q;
      assert 2 * (m * q) == 2 * m * q;
      DividesBy(2 * m, 2 * x, q);
    }
  }

  lemma {:induction false} OddIsNotDivisible(k: nat, x: int)
    requires k > 0 && x % 2 == 1
    ensures !Divides(Pow2(k), x)
  {
    if Divides(Pow2(k), x) {
      var q :| x == Pow2(k) * q;
      DivModUnique(2, x, Pow2(k - 1) * q, 0);
    }
  }

  /** An odd factor neither adds nor removes divisibility by a power of two. */
  lemma {:induction false} OddFactor(k: nat, x: int, odd: int)
    requires odd % 2 == 1
    ensures Divides(Pow2(k), x * odd) <==> Divides(Pow2(k), x)
  {
    if Divides(Pow2(k), x) {
      var q :| x == Pow2(k) * q;
      assert (Pow2(k) * q) * odd == Pow2(k) * (q * odd);
      DividesBy(Pow2(k), x * odd, q * odd);
    }
    if k == 0 {
      DividesBy(Pow2(0), x, x);
    } else if Divides(Pow2(k), x * odd) {
      if x % 2 == 1 {
        MulCongruent(2, x, 1, odd);
        assert odd * x == x * odd;
        OddIsNotDivisible(k, x * odd);
        assert false;
      }
      var y := x / 2;
      assert x == 2 * y;
      assert (2 * y) * odd == 2 * (y * odd);
      DividesTwice(Pow2(k - 1), y * odd);
      OddFactor(k - 1, y, odd);
      DividesTwice(Pow2(k - 1), y);
    }
  }

  /** The sum has exactly as many factors of two as its number of terms. */
  lemma {:induction false} SumDivisibility(a: nat, k: nat, n: nat)
    requires a % 4 == 1
    ensures Divides(Pow2(k), Sum(a, n)) <==> Divides(Pow2(k), n)
  {
    if k == 0 {
      DividesBy(Pow2(0), Sum(a, n), Sum(a, n));
      DividesBy(Pow2(0), n, n);
    } else if n % 2 == 1 {
      SumParity(a, n);
      OddIsNotDivisible(k, n);
      OddIsNotDivisible(k, Sum(a, n));
    } else {
      var h := n / 2;
      assert n == 2 * h;
      var odd := SumDoubles(a, h);
      DividesTwice(Pow2(k - 1), Sum(a, h) * odd);
      OddFactor(k - 1, Sum(a, h), odd);
      SumDivisibility(a, k - 1, h);
      DividesTwice(Pow2(k - 1), h);
    }
  }

  // ------------------------------------------------ the period

  /** The orbit is back at its start after `n` steps exactly when 2^k divides n. */
  lemma {:induction false} OrbitReturns(a: nat, b: nat, k: nat, x: nat, n: nat)
    requires a % 4 == 1 && b % 2 == 1
    ensures Orbit(a, b, k, x, n) == x % Pow2(k) <==> n % Pow2(k) == 0
  {
    OrbitIsExactModulo(a, b, k, x, n);
    ExactDistance(a, b, x, n);
    StepIsOdd(a, b, x);
    SumDivisibility(a, k, n);
    BackAtStart(k, Exact(a, b, x, n), x, Sum(a, n), (a - 1) * x + b, n);
  }

  lemma StepIsOdd(a: nat, b: nat, x: nat)
    requires a % 4 == 1 && b % 2 == 1
    ensures ((a - 1) * x + b) % 2 == 1
  {
    OddTimes(a, x);
    OneLess(a, x);
    OddOffset(a * x, x, b);
  }

  lemma OneLess(a: int, x: int)
    ensures (a - 1) * x == a * x - x
  {
  }

  lemma OddOffset(x: int, y: int, b: int)
    requires x % 2 == y % 2 && b % 2 == 1
    ensures (x - y + b) % 2 == 1
  {
  }

  /** A distance with an odd factor is a multiple of 2^k exactly when the other factor is. */
  lemma {:induction false} BackAtStart(k: nat, e: int, x: int, sum: int, odd: int, n: int)
    requires odd % 2 == 1 && e - x == sum * odd
    requires Divides(Pow2(k), sum) <==> Divides(Pow2(k), n)
    ensures e % Pow2(k) == x % Pow2(k) <==> n % Pow2(k) == 0
  {
    OddFactor(k, sum, odd);
    SameRemainder(Pow2(k), e, x);
    DividesMod(Pow2(k), n);
  }

  lemma {:induction false} OrbitComposes(a: nat, b: nat, k: nat, x: nat, m: nat, n: nat)
    ensures Orbit(a, b, k, x, m + n) == Orbit(a, b, k, Orbit(a, b, k, x, m), n)
  {
    if n == 0 {
      DivModUnique(Pow2(k), Orbit(a, b, k, x, m), 0, Orbit(a, b, k, x, m));
    } else {
      OrbitComposes(a, b, k, x, m, n - 1);
    }
  }

  /** Two positions hold the same residue exactly when they differ by a multiple of 2^k. */
  lemma {:induction false} OrbitCoincides(a: nat, b: nat, k: nat, x: nat, i: nat, j: nat)
    requires a % 4 == 1 && b % 2 == 1 && i <= j
    ensures Orbit(a, b, k, x, i) == Orbit(a, b, k, x, j) <==> (j - i) % Pow2(k) == 0
  {
    OrbitComposes(a, b, k, x, i, j - i);
    var y := Orbit(a, b, k, x, i);
    DivModUnique(Pow2(k), y, 0, y);
    OrbitReturns(a, b, k, y, j - i);
  }

  // ------------------------------------------------ every residue once

  /** The residues seen at positions 1..n. */
  ghost function Seen(a: nat, b: nat, k: nat, x: nat, n: nat): set<nat> {
    if n == 0 then {} else Seen(a, b, k, x, n - 1) + {Orbit(a, b, k, x, n)}
  }

  lemma {:induction false} SeenAt(a: nat, b: nat, k: nat, x: nat, n: nat, v: nat) returns (i: nat)
    requires v in Seen(a, b, k, x, n)
    ensures 0 < i <= n && Orbit(a, b, k, x, i) == v
  {
    if Orbit(a, b, k, x, n) == v {
      i := n;
    } else {
      i := SeenAt(a, b, k, x, n - 1, v);
    }
  }

  lemma {:induction false} SeenCount(a: nat, b: nat, k: nat, x: nat, n: nat)
    requires a % 4 == 1 && b % 2 == 1 && n <= Pow2(k)
    ensures |Seen(a, b, k, x, n)| == n
  {
    if n > 0 {
      SeenCount(a, b, k, x, n - 1);
      var v := Orbit(a, b, k, x, n);
      if v in Seen(a, b, k, x, n - 1) {
        var i := SeenAt(a, b, k, x, n - 1, v);
        OrbitCoincides(a, b, k, x, i, n);
        DivModUnique(Pow2(k), n - i, 0, n - i);
        assert false;
      }
    }
  }

  ghost function Below(m: nat): set<nat> {
    if m == 0 then {} else Below(m - 1) + {m - 1}
  }

  lemma {:induction false} BelowMember(m: nat, x: nat)
    ensures x in Below(m) <==> x < m
  {
    if m > 0 {
      BelowMember(m - 1, x);
    }
  }

  lemma {:induction false} BelowCount(m: nat)
    ensures |Below(m)| == m
  {
    if m > 0 {
      BelowCount(m - 1);
      BelowMember(m - 1, m - 1);
    }
  }

  lemma {:induction false} SubsetIsSmaller<T>(s: set<T>, t: set<T>)
    requires s <= t
    ensures |s| <= |t|
  {
    if s != {} {
      var x :| x in s;
      SubsetIsSmaller(s - {x}, t - {x});
    }
  }

  lemma SubsetOfSameSize<T>(s: set<T>, t: set<T>)
    requires s <= t && |s| == |t|
    ensures s == t
  {
    if s != t {
      var x :| x in t && x !in s;
      SubsetIsSmaller(s, t - {x});
    }
  }

  /** Hull-Dobell: every residue modulo 2^k occurs in the first 2^k positions. */
  lemma OrbitCovers(a: nat, b: nat, k: nat, x: nat, v: nat) returns (i: nat)
    requires a % 4 == 1 && b % 2 == 1 && v < Pow2(k)
    ensures 0 < i <= Pow2(k) && Orbit(a, b, k, x, i) == v
  {
    var s := Seen(a, b, k, x, Pow2(k));
    forall w | w in s ensures w in Below(Pow2(k)) {
      var j := SeenAt(a, b, k, x, Pow2(k), w);
      BelowMember(Pow2(k), w);
    }
    SeenCount(a, b, k, x, Pow2(k));
    BelowCount(Pow2(k));
    SubsetOfSameSize(s, Below(Pow2(k)));
    BelowMember(Pow2(k), v);
    i := SeenAt(a, b, k, x, Pow2(k), v);
  }
}
