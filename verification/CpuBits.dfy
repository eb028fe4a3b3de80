/** Counting leading and trailing zero bits, as ucosii/uC-CPU/cpu_core.c does without assembly
    support: a 256-entry table behind a ladder of comparisons for the leading zeros, and the isolated
    lowest set bit for the trailing ones. Words are numbers below 2^width.
  */
module CpuBits {
  import opened Arithmetic

  // ------------------------------------------------ what the counts mean

  /** `z` leading zeros in a word of `width` bits: the top set bit is bit width-1-z. */
  ghost predicate HasLeadZeros(width: nat, v: nat, z: nat) {
    if v == 0 then z == width else z < width && Pow2(width - 1 - z) <= v < Pow2(width - z)
  }

  /** `z` trailing zeros: bit z is set and everything below it is clear. */
  ghost predicate HasTrailZeros(width: nat, v: nat, z: nat) {
    if v == 0 then z == width else z < width && v % Pow2(z) == 0 && v / Pow2(z) % 2 == 1
  }

  lemma {:induction false} Pow2Monotone(j: nat, k: nat)
    requires j <= k
    ensures Pow2(j) <= Pow2(k)
  {
    if j < k {
      Pow2Monotone(j, k - 1);
    }
  }

  /** The definitions pin the counts down. */
  lemma LeadZerosUnique(width: nat, v: nat, y: nat, z: nat)
    requires HasLeadZeros(width, v, y) && HasLeadZeros(width, v, z)
    ensures y == z
  {
    if v != 0 {
      if y < z { Pow2Monotone(width - z, width - 1 - y); }
      if z < y { Pow2Monotone(width - y, width - 1 - z); }
    }
  }

  lemma TrailZerosUnique(width: nat, v: nat, y: nat, z: nat)
    requires HasTrailZeros(width, v, y) && HasTrailZeros(width, v, z)
    ensures y == z
  {
    if v != 0 {
      if y < z { TrailZerosDiffer(v, y, z); }
      if z < y { TrailZerosDiffer(v, z, y); }
    }
  }

  lemma {:induction false} TrailZerosDiffer(v: nat, y: nat, z: nat)
    requires y < z && v % Pow2(z) == 0
    ensures v / Pow2(y) % 2 == 0
  {
    Pow2Splits(y, z - y);
    EvenQuotient(v, Pow2(z), Pow2(y), Pow2(z - y - 1));
  }

  lemma EvenQuotient(v: nat, p: nat, m: nat, h: nat)
    requires m > 0 && p > 0 && p == m * (2 * h) && v % p == 0
    ensures v / m % 2 == 0
  {
    var q := v / p;
    var half := h * q;
    assert v == p * q;
    assert m * (2 * h) * q == m * (2 * half);
    DivModUnique(m, v, 2 * half, 0);
  }

  // ------------------------------------------------ leading zeros

  /** A row of `CPU_CntLeadZerosTbl`, sixteen entries. */
  function LeadZerosRow(row: nat): (r: seq<nat>)
    requires row < 16
    ensures |r| == 16
  {
    if row == 0 then [8, 7, 6, 6, 5, 5, 5, 5, 4, 4, 4, 4, 4, 4, 4, 4]
    else if row == 1 then [3, 3, 3, 3, 3, 3, 3, 3, 3, 3, 3, 3, 3, 3, 3, 3]
    else if row <= 3 then [2, 2, 2, 2, 2, 2, 2, 2, 2, 2, 2, 2, 2, 2, 2, 2]
    else if row <= 7 then [1, 1, 1, 1, 1, 1, 1, 1, 1, 1, 1, 1, 1, 1, 1, 1]
    else [0, 0, 0, 0, 0, 0, 0, 0, 0, 0, 0, 0, 0, 0, 0, 0]
  }

  /** `CPU_CntLeadZerosTbl`. */
  function LeadZerosTbl(ix: nat): nat
    requires ix < 0x100
  {
    LeadZerosRow(ix / 16)[ix % 16]
  }

  lemma SmallPow2Values()
    ensures Pow2(0) == 1 && Pow2(1) == 2 && Pow2(2) == 4 && Pow2(3) == 8
    ensures Pow2(4) == 16 && Pow2(5) == 32 && Pow2(6) == 64 && Pow2(7) == 128 && Pow2(8) == 256
  {
    assert Pow2(0) == 1 && Pow2(1) == 2 && Pow2(2) == 4 && Pow2(3) == 8;
    assert Pow2(4) == 16 && Pow2(5) == 32 && Pow2(6) == 64;
  }

  lemma HighRows(ix: nat)
    requires 16 <= ix < 0x100
    ensures LeadZerosTbl(ix) == if ix >= 128 then 0 else if ix >= 64 then 1 else if ix >= 32 then 2 else 3
  {
  }

  /** Every table entry is the leading-zero count of its index. */
  lemma TableIsCorrect(ix: nat)
    requires ix < 0x100
    ensures HasLeadZeros(8, ix, LeadZerosTbl(ix))
  {
    SmallPow2Values();
    if ix < 16 {
      assert ix / 16 == 0 && ix % 16 == ix;
    } else {
      HighRows(ix);
    }
  }

  /** Looking up the topmost non-zero octet: `shift` bits below it and `above` zero bits over it. */
  lemma LookupAt(width: nat, v: nat, shift: nat, above: nat)
    requires width == above + 8 + shift && Pow2(shift) <= v < Pow2(shift + 8)
    ensures v / Pow2(shift) < 0x100
    ensures HasLeadZeros(width, v, LeadZerosTbl(v / Pow2(shift)) + above)
  {
    var m := Pow2(shift);
    var ix := v / m;
    TopOctet(v, shift);
    TableIsCorrect(ix);
    var z := LeadZerosTbl(ix);
    ScaledUp(m, v, ix, Pow2(7 - z), Pow2(8 - z));
    Pow2Splits(shift, 7 - z);
    Pow2Splits(shift, 8 - z);
  }

  lemma TopOctet(v: nat, shift: nat)
    requires Pow2(shift) <= v < Pow2(shift + 8)
    ensures 0 < v / Pow2(shift) < 0x100
    ensures v == Pow2(shift) * (v / Pow2(shift)) + v % Pow2(shift)
  {
    Pow2Splits(shift, 8);
    Pow2Values();
    QuotientBounds(Pow2(shift), v, 0x100);
  }

  lemma ScaledUp(m: nat, v: nat, ix: nat, low: nat, high: nat)
    requires m > 0 && v == m * ix + v % m && low <= ix < high
    ensures m * low <= v < m * high
  {
    MulMonotone(m, low, ix);
    MulMonotone(m, ix + 1, high);
    Distribute(m, 1, ix, 1);
  }

  lemma LookupLow(width: nat, v: nat)
    requires width >= 8 && v < 0x100
    ensures HasLeadZeros(width, v, LeadZerosTbl(v) + (width - 8))
  {
    Pow2Values();
    if v == 0 {
      TableIsCorrect(0);
    } else {
      LookupAt(width, v, 0, width - 8);
      assert v / Pow2(0) == v;
    }
  }

  function CntLeadZeros08(val: nat): (z: nat)
    requires val < 0x100
    ensures HasLeadZeros(8, val, z)
  {
    TableIsCorrect(val);
    LeadZerosTbl(val) + 0
  }

  function CntLeadZeros16(val: nat): (z: nat)
    requires val < 0x1_0000
    ensures HasLeadZeros(16, val, z)
  {
    Pow2Values();
    if val > 0x00FF then
      LookupAt(16, val, 8, 0);
      LeadZerosTbl(val / 0x100) + 0
    else
      LookupLow(16, val);
      LeadZerosTbl(val) + 8
  }

  function CntLeadZeros32(val: nat): (z: nat)
    requires val < 0x1_0000_0000
    ensures HasLeadZeros(32, val, z)
  {
    Pow2Values();
    if val > 0x0000_FFFF then
      if val > 0x00FF_FFFF then
        LookupAt(32, val, 24, 0);
        LeadZerosTbl(val / 0x100_0000) + 0
      else
        LookupAt(32, val, 16, 8);
        LeadZerosTbl(val / 0x1_0000) + 8
    else
      if val > 0x0000_00FF then
        LookupAt(32, val, 8, 16);
        LeadZerosTbl(val / 0x100) + 16
      else
        LookupLow(32, val);
        LeadZerosTbl(val) + 24
  }

  lemma MorePow2Values()
    ensures Pow2(40) == 0x100_0000_0000
    ensures Pow2(48) == 0x1_0000_0000_0000
    ensures Pow2(56) == 0x100_0000_0000_0000
  {
    Pow2Values();
    Pow2Splits(8, 32);
    Pow2Splits(16, 32);
    Pow2Splits(24, 32);
  }

  function CntLeadZeros64(val: nat): (z: nat)
    requires val < 0x1_0000_0000_0000_0000
    ensures HasLeadZeros(64, val, z)
  {
    Pow2Values();
    MorePow2Values();
    if val > 0x0000_0000_FFFF_FFFF then
      if val > 0x0000_FFFF_FFFF_FFFF then
        if val > 0x00FF_FFFF_FFFF_FFFF then
          LookupAt(64, val, 56, 0);
          LeadZerosTbl(val / 0x100_0000_0000_0000) + 0
        else
          LookupAt(64, val, 48, 8);
          LeadZerosTbl(val / 0x1_0000_0000_0000) + 8
      else
        if val > 0x0000_00FF_FFFF_FFFF then
          LookupAt(64, val, 40, 16);
          LeadZerosTbl(val / 0x100_0000_0000) + 16
        else
          LookupAt(64, val, 32, 24);
          LeadZerosTbl(val / 0x1_0000_0000) + 24
    else
      if val > 0x0000_0000_0000_FFFF then
        if val > 0x0000_0000_00FF_FFFF then
          LookupAt(64, val, 24, 32);
          LeadZerosTbl(val / 0x100_0000) + 32
        else
          LookupAt(64, val, 16, 40);
          LeadZerosTbl(val / 0x1_0000) + 40
      else
        if val > 0x0000_0000_0000_00FF then
          LookupAt(64, val, 8, 48);
          LeadZerosTbl(val / 0x100) + 48
        else
          LookupLow(64, val);
          LeadZerosTbl(val) + 56
  }

  // ------------------------------------------------ trailing zeros

  /** Bitwise and of two numbers. */
  function And(x: nat, y: nat): nat {
    if x == 0 then 0 else x % 2 * (y % 2) + 2 * And(x / 2, y / 2)
  }

  /** A word and its complement share no bit. */
  lemma {:induction false} AndComplement(width: nat, x: nat)
    requires x < Pow2(width)
    ensures And(x, Pow2(width) - 1 - x) == 0
  {
    if x != 0 {
      var y := Pow2(width) - 1 - x;
      assert Pow2(width) == 2 * Pow2(width - 1);
      assert y / 2 == Pow2(width - 1) - 1 - x / 2;
      assert x % 2 * (y % 2) == 0;
      AndComplement(width - 1, x / 2);
    }
  }

  /** `val & (~val + 1)` keeps exactly the lowest set bit. */
  lemma {:induction false} LowestSetBit(width: nat, v: nat) returns (z: nat)
    requires 0 < v < Pow2(width)
    ensures z < width && And(v, Pow2(width) - v) == Pow2(z)
    ensures HasTrailZeros(width, v, z)
  {
    assert Pow2(width) == 2 * Pow2(width - 1);
    if v % 2 == 1 {
      z := 0;
      LowestBitOfOdd(width, v);
    } else {
      var h := LowestSetBit(width - 1, v / 2);
      z := h + 1;
      Halves(Pow2(width - 1), v);
      TrailZerosOfDouble(width - 1, v / 2, h);
    }
  }

  lemma Halves(p: nat, v: nat)
    requires 0 < v < 2 * p && v % 2 == 0
    ensures (2 * p - v) % 2 == 0 && (2 * p - v) / 2 == p - v / 2
  {
  }

  lemma {:induction false} LowestBitOfOdd(width: nat, v: nat)
    requires 0 < v < Pow2(width) && v % 2 == 1
    ensures width > 0 && And(v, Pow2(width) - v) == Pow2(0) && HasTrailZeros(width, v, 0)
  {
    var y := Pow2(width) - v;
    assert Pow2(width) == 2 * Pow2(width - 1);
    assert y % 2 == 1 && y / 2 == Pow2(width - 1) - 1 - v / 2;
    AndComplement(width - 1, v / 2);
    DivModUnique(Pow2(0), v, v, 0);
  }

  lemma TrailZerosOfDouble(width: nat, v: nat, z: nat)
    requires v > 0 && HasTrailZeros(width, v, z)
    ensures HasTrailZeros(width + 1, 2 * v, z + 1)
  {
    var m, q := Pow2(z), v / Pow2(z);
    assert v == m * q;
    Distribute(2, m, q, 0);
    DivModUnique(Pow2(z + 1), 2 * v, q, 0);
  }

  /** The word `~val + 1` for a non-zero `val` of `width` bits. */
  function Negated(width: nat, val: nat): (r: nat)
    requires 0 < val < Pow2(width)
    ensures r < Pow2(width)
  {
    Pow2(width) - 1 - val + 1
  }

  lemma {:induction false} LeadZerosOfPow2(width: nat, z: nat)
    requires z < width
    ensures HasLeadZeros(width, Pow2(z), width - 1 - z)
  {
  }

  lemma {:induction false} AndIsBounded(x: nat, y: nat)
    ensures And(x, y) <= x
  {
    if x != 0 {
      AndIsBounded(x / 2, y / 2);
    }
  }

  /** The isolated bit is never more than `val`, and its leading zeros tell `val`'s trailing ones. */
  lemma {:induction false} IsolatedBit(width: nat, val: nat)
    requires 0 < val < Pow2(width)
    ensures And(val, Negated(width, val)) <= val
    ensures forall lead: nat :: HasLeadZeros(width, And(val, Negated(width, val)), lead) ==>
              lead < width && HasTrailZeros(width, val, width - 1 - lead)
  {
    AndIsBounded(val, Negated(width, val));
    var z := LowestSetBit(width, val);
    LeadZerosOfPow2(width, z);
    forall lead: nat | HasLeadZeros(width, Pow2(z), lead) ensures lead == width - 1 - z {
      LeadZerosUnique(width, Pow2(z), lead, width - 1 - z);
    }
  }

  /** `val & (~val + 1)`. */
  function LowestBitMask(width: nat, val: nat): (mask: nat)
    requires 0 < val < Pow2(width)
    ensures mask <= val
    ensures forall lead: nat :: HasLeadZeros(width, mask, lead) ==>
              lead < width && HasTrailZeros(width, val, width - 1 - lead)
  {
    IsolatedBit(width, val);
    And(val, Negated(width, val))
  }

  function CntTrailZeros08(val: nat): (z: nat)
    requires val < 0x100
    ensures HasTrailZeros(8, val, z)
  {
    Pow2Values();
    if val == 0 then 8 else 7 - CntLeadZeros08(LowestBitMask(8, val))
  }

  function CntTrailZeros16(val: nat): (z: nat)
    requires val < 0x1_0000
    ensures HasTrailZeros(16, val, z)
  {
    Pow2Values();
    if val == 0 then 16 else 15 - CntLeadZeros16(LowestBitMask(16, val))
  }

  /** `CPU_CntTrailZeros32`, which on this processor is also `CPU_CntTrailZeros`. */
  function CntTrailZeros32(val: nat): (z: nat)
    requires val < 0x1_0000_0000
    ensures HasTrailZeros(32, val, z)
  {
    Pow2Values();
    if val == 0 then 32 else 31 - CntLeadZeros32(LowestBitMask(32, val))
  }

  function CntTrailZeros64(val: nat): (z: nat)
    requires val < 0x1_0000_0000_0000_0000
    ensures HasTrailZeros(64, val, z)
  {
    Pow2Values();
    if val == 0 then 64 else 63 - CntLeadZeros64(LowestBitMask(64, val))
  }
}
