/** The pseudo-random number generator of ucosii/uC-LIB/lib_math.c.

    `Math_RandSeed` multiplies and adds 32-bit unsigned words, so its products wrap at 2^32 before
    the remainder modulo 2^31 is taken. The wrap is shown to be harmless, the low `k` bits to repeat
    with period exactly 2^k, and the whole generator to draw every number of its range exactly once
    per 2^31 draws, from every 32-bit seed.
  */
module LibMath {
  import opened Arithmetic
  import Lcg

  const RAND_SEED_INIT_VAL: nat := 1
  const RAND_LCG_PARAM_M: nat := 0x7FFF_FFFF
  const RAND_LCG_PARAM_A: nat := 1103515245
  const RAND_LCG_PARAM_B: nat := 12345

  /** `Math_RandSeed` as written: wrapping product, wrapping sum, remainder. */
  function RandSeed(seed: nat): nat
    requires seed < WORD
  {
    (RAND_LCG_PARAM_A * seed % WORD + RAND_LCG_PARAM_B) % WORD % (RAND_LCG_PARAM_M + 1)
  }

  /** Neither 32-bit wrap is visible in the result, which lies in [0, RAND_LCG_PARAM_M]. */
  lemma WrapIsHarmless(seed: nat)
    requires seed < WORD
    ensures RandSeed(seed) == (RAND_LCG_PARAM_A * seed + RAND_LCG_PARAM_B) % (RAND_LCG_PARAM_M + 1)
    ensures RandSeed(seed) <= RAND_LCG_PARAM_M
  {
    WrappedStep(RAND_LCG_PARAM_A * seed, RAND_LCG_PARAM_B);
  }

  lemma WrappedStep(product: nat, b: nat)
    ensures (product % WORD + b) % WORD % 0x8000_0000 == (product + b) % 0x8000_0000
  {
    ModIdempotent(WORD, product);
    AddCongruent(WORD, product % WORD, product, b);
    ModIdempotent(WORD, product + b);
    CoarserCongruence(0x8000_0000, 2, (product % WORD + b) % WORD, product + b);
  }

  /** The number held by the generator after `n` draws from `seed`. */
  function Draw(seed: nat, n: nat): (r: nat)
    requires seed < WORD
    ensures r < WORD
  {
    if n == 0 then seed else RandSeed(Draw(seed, n - 1))
  }

  /** The global `Math_RandSeedCur` and the functions that update it. */
  class RandGenerator {
    var seedCur: nat

    ghost predicate Valid()
      reads this
    {
      seedCur < WORD
    }

    constructor ()
      ensures Valid() && seedCur == RAND_SEED_INIT_VAL
    {
      seedCur := RAND_SEED_INIT_VAL;
    }

    method SetSeed(seed: nat)
      requires seed < WORD
      modifies this
      ensures Valid() && seedCur == seed
    {
      seedCur := seed;
    }

    method Init()
      modifies this
      ensures Valid() && seedCur == RAND_SEED_INIT_VAL
    {
      SetSeed(RAND_SEED_INIT_VAL);
    }

    /** Draws a number. `n` counts the draws made since `seed` was set. */
    method Rand(ghost seed: nat, ghost n: nat) returns (rand: nat)
      requires Valid() && seed < WORD && seedCur == Draw(seed, n)
      modifies this
      ensures Valid() && seedCur == rand == Draw(seed, n + 1)
      ensures rand == (RAND_LCG_PARAM_A * old(seedCur) + RAND_LCG_PARAM_B) % (RAND_LCG_PARAM_M + 1)
    {
      var cur := seedCur;
      rand := RandSeed(cur);
      WrapIsHarmless(cur);
      seedCur := rand;
    }
  }

  /** The draws are the orbit of the linear congruence modulo 2^31. */
  lemma {:induction false} DrawIsOrbit(seed: nat, n: nat)
    requires seed < WORD
    ensures n > 0 ==> Draw(seed, n) == Lcg.Orbit(RAND_LCG_PARAM_A, RAND_LCG_PARAM_B, 31, seed, n)
    ensures Draw(seed, n) % Pow2(31) == Lcg.Orbit(RAND_LCG_PARAM_A, RAND_LCG_PARAM_B, 31, seed, n)
  {
    Pow2Values();
    if n > 0 {
      DrawIsOrbit(seed, n - 1);
      var d := Draw(seed, n - 1);
      WrapIsHarmless(d);
      ModIdempotent(Pow2(31), d);
      StepCongruent(d, d % Pow2(31));
      DivModUnique(Pow2(31), Draw(seed, n), 0, Draw(seed, n));
    }
  }

  lemma StepCongruent(x: nat, y: nat)
    requires x % Pow2(31) == y % Pow2(31)
    ensures (RAND_LCG_PARAM_A * x + RAND_LCG_PARAM_B) % Pow2(31)
         == (RAND_LCG_PARAM_A * y + RAND_LCG_PARAM_B) % Pow2(31)
  {
    MulCongruent(Pow2(31), x, y, RAND_LCG_PARAM_A);
    AddCongruent(Pow2(31), RAND_LCG_PARAM_A * x, RAND_LCG_PARAM_A * y, RAND_LCG_PARAM_B);
  }

  lemma {:induction false} OrbitLowBits(a: nat, b: nat, j: nat, k: nat, x: nat, n: nat)
    requires j <= k
    ensures Lcg.Orbit(a, b, k, x, n) % Pow2(j) == Lcg.Orbit(a, b, j, x, n)
  {
    Lcg.OrbitIsExactModulo(a, b, k, x, n);
    Lcg.OrbitIsExactModulo(a, b, j, x, n);
    var e := Lcg.Exact(a, b, x, n);
    Pow2Splits(j, k - j);
    ModIdempotent(Pow2(k), e);
    CoarserCongruence(Pow2(j), Pow2(k - j), e % Pow2(k), e);
  }

  lemma {:induction false} LowBitsOfResidue(d: nat, k: nat)
    requires k <= 31
    ensures d % Pow2(31) % Pow2(k) == d % Pow2(k)
  {
    Pow2Splits(k, 31 - k);
    ModIdempotent(Pow2(31), d);
    CoarserCongruence(Pow2(k), Pow2(31 - k), d, d % Pow2(31));
  }

  lemma {:induction false} LowBitsOfDraw(seed: nat, n: nat, k: nat)
    requires seed < WORD && k <= 31
    ensures Draw(seed, n) % Pow2(k) == Lcg.Orbit(RAND_LCG_PARAM_A, RAND_LCG_PARAM_B, k, seed, n)
  {
    DrawIsOrbit(seed, n);
    OrbitLowBits(RAND_LCG_PARAM_A, RAND_LCG_PARAM_B, k, 31, seed, n);
    LowBitsOfResidue(Draw(seed, n), k);
  }

  /** The low `k` bits return to the seed's exactly after every 2^k draws. */
  lemma {:induction false} LowBitsPeriod(seed: nat, n: nat, k: nat)
    requires seed < WORD && k <= 31
    ensures Draw(seed, n) % Pow2(k) == seed % Pow2(k) <==> n % Pow2(k) == 0
  {
    LowBitsOfDraw(seed, n, k);
    Lcg.OrbitReturns(RAND_LCG_PARAM_A, RAND_LCG_PARAM_B, k, seed, n);
  }

  lemma {:induction false} DrawIsResidue(seed: nat, n: nat)
    requires seed < WORD && n > 0
    ensures Draw(seed, n) == Lcg.Orbit(RAND_LCG_PARAM_A, RAND_LCG_PARAM_B, 31, seed, n)
  {
    Pow2Values();
    DrawIsOrbit(seed, n);
    DivModUnique(Pow2(31), Draw(seed, n), 0, Draw(seed, n));
  }

  /** Two draws agree exactly when their positions differ by a multiple of 2^31. */
  lemma {:induction false} DrawsCoincide(seed: nat, i: nat, j: nat)
    requires seed < WORD && 0 < i <= j
    ensures Draw(seed, i) == Draw(seed, j) <==> (j - i) % 0x8000_0000 == 0
  {
    Pow2Values();
    DrawIsResidue(seed, i);
    DrawIsResidue(seed, j);
    Lcg.OrbitCoincides(RAND_LCG_PARAM_A, RAND_LCG_PARAM_B, 31, seed, i, j);
  }

  /** Full period: from any 32-bit seed, each number of [0, 2^31 - 1] is drawn at exactly one of the
      positions 1 .. 2^31. */
  lemma FullPeriod(seed: nat, v: nat) returns (i: nat)
    requires seed < WORD && v <= RAND_LCG_PARAM_M
    ensures 0 < i <= 0x8000_0000 && Draw(seed, i) == v
    ensures forall j: nat :: 0 < j <= 0x8000_0000 && Draw(seed, j) == v ==> j == i
  {
    Pow2Values();
    i := Lcg.OrbitCovers(RAND_LCG_PARAM_A, RAND_LCG_PARAM_B, 31, seed, v);
    DrawIsOrbit(seed, i);
    forall j: nat | 0 < j <= 0x8000_0000 && Draw(seed, j) == v ensures j == i {
      if i <= j {
        DrawnOnce(seed, i, j);
      } else {
        DrawnOnce(seed, j, i);
      }
    }
  }

  lemma {:induction false} DrawnOnce(seed: nat, i: nat, j: nat)
    requires seed < WORD && 0 < i <= j <= 0x8000_0000 && Draw(seed, i) == Draw(seed, j)
    ensures i == j
  {
    DrawsCoincide(seed, i, j);
    DivModUnique(0x8000_0000, j - i, 0, j - i);
  }
}
