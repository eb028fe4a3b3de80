/** The endian macros of ucosii/uC-LIB/lib_mem.h, on a little-endian host with a 32-bit data size.

    Memory is one array of octets and an address is an index, so two buffers may lie in the same
    array; the copies demand what their comments demand, that source and destination do not overlap.
    Masks and shifts of unsigned words are written as quotients and remainders.
  */
module LibMem {
  import opened Arithmetic

  type byte = b: int | 0 <= b < 0x100

  const SIZE_T: nat := 0x1_0000_0000

  // ------------------------------------------------ what a run of octets means

  /** Least significant octet first. */
  function LittleValue(s: seq<byte>): nat {
    if s == [] then 0 else s[0] + 0x100 * LittleValue(s[1..])
  }

  /** Most significant octet first. */
  function BigValue(s: seq<byte>): nat {
    if s == [] then 0 else 0x100 * BigValue(s[..|s| - 1]) + s[|s| - 1]
  }

  function Reversed(s: seq<byte>): (r: seq<byte>)
    ensures |r| == |s|
    ensures forall i :: 0 <= i < |s| ==> r[i] == s[|s| - 1 - i]
  {
    seq(|s|, i requires 0 <= i < |s| => s[|s| - 1 - i])
  }

  lemma ReversedTwice(s: seq<byte>)
    ensures Reversed(Reversed(s)) == s
  {
  }

  lemma {:induction false} ReversalSwapsEndian(s: seq<byte>)
    ensures LittleValue(Reversed(s)) == BigValue(s)
    ensures BigValue(Reversed(s)) == LittleValue(s)
  {
    if s != [] {
      var n := |s|;
      assert Reversed(s)[1..] == Reversed(s[..n - 1]);
      assert Reversed(s)[..n - 1] == Reversed(s[1..]);
      ReversalSwapsEndian(s[..n - 1]);
      ReversalSwapsEndian(s[1..]);
    }
  }

  /** The little-endian octets of a value, `n` of them. */
  function LittleOctets(v: nat, n: nat): (s: seq<byte>)
    ensures |s| == n
  {
    if n == 0 then [] else [v % 0x100] + LittleOctets(v / 0x100, n - 1)
  }

  /** Octet runs of one length and values below 256^n are in bijection. */
  lemma {:induction false} OctetsOfValue(s: seq<byte>)
    ensures LittleOctets(LittleValue(s), |s|) == s
  {
    if s != [] {
      OctetsOfValue(s[1..]);
      DivModUnique(0x100, LittleValue(s), LittleValue(s[1..]), s[0]);
    }
  }

  lemma {:induction false} OctetsPow2(n: nat)
    requires n > 0
    ensures Pow2(8 * n) == 0x100 * Pow2(8 * (n - 1))
  {
    Pow2Splits(8, 8 * (n - 1));
    Pow2Values();
  }

  lemma {:induction false} ValueOfOctets(v: nat, n: nat)
    ensures LittleValue(LittleOctets(v, n)) == v % Pow2(8 * n)
  {
    if n == 0 {
      DivModUnique(1, v, v, 0);
    } else {
      ValueOfOctets(v / 0x100, n - 1);
      OctetsPow2(n);
      ModOfProduct(0x100, Pow2(8 * (n - 1)), v);
      var s := LittleOctets(v, n);
      assert s[1..] == LittleOctets(v / 0x100, n - 1);
    }
  }

  // ------------------------------------------------ copying values of any size

  ghost predicate Disjoint(a: nat, b: nat, n: nat) {
    a + n <= b || b + n <= a
  }

  /** What memory holds after a copy that reverses the `n` octets. */
  ghost function CopiedReversed(m: seq<byte>, dest: nat, src: nat, n: nat): (r: seq<byte>)
    requires dest + n <= |m| && src + n <= |m|
  {
    seq(|m|, k requires 0 <= k < |m| =>
      if dest <= k < dest + n then m[src + n - 1 - (k - dest)] else m[k])
  }

  lemma ReversedCopyMeans(m: seq<byte>, dest: nat, src: nat, n: nat)
    requires dest + n <= |m| && src + n <= |m|
    ensures CopiedReversed(m, dest, src, n)[dest..dest + n] == Reversed(m[src..src + n])
    ensures LittleValue(CopiedReversed(m, dest, src, n)[dest..dest + n]) == BigValue(m[src..src + n])
    ensures BigValue(CopiedReversed(m, dest, src, n)[dest..dest + n]) == LittleValue(m[src..src + n])
    ensures Disjoint(dest, src, n) ==> CopiedReversed(m, dest, src, n)[src..src + n] == m[src..src + n]
  {
    assert CopiedReversed(m, dest, src, n)[dest..dest + n] == Reversed(m[src..src + n]);
    ReversalSwapsEndian(m[src..src + n]);
  }

  /** What memory holds after a copy in order. */
  ghost function Copied(m: seq<byte>, dest: nat, src: nat, n: nat): (r: seq<byte>)
    requires dest + n <= |m| && src + n <= |m|
  {
    seq(|m|, k requires 0 <= k < |m| => if dest <= k < dest + n then m[src + (k - dest)] else m[k])
  }

  /** `x - 1` in `CPU_SIZE_T` arithmetic. */
  function Predecessor(x: nat): (r: nat)
    requires x < SIZE_T
    ensures r < SIZE_T
  {
    if x == 0 then SIZE_T - 1 else x - 1
  }

  /** `MEM_VAL_COPY_GET_INTU_BIG`: `j` starts at valSize - 1 and is decremented once past zero, both in
      32-bit unsigned arithmetic. */
  method CopyGetIntuBig(mem: array<byte>, dest: nat, src: nat, valSize: nat)
    requires valSize < SIZE_T
    requires dest + valSize <= mem.Length && src + valSize <= mem.Length && Disjoint(dest, src, valSize)
    modifies mem
    ensures mem[..] == CopiedReversed(old(mem[..]), dest, src, valSize)
    ensures LittleValue(mem[dest..dest + valSize]) == BigValue(old(mem[src..src + valSize]))
    ensures mem[src..src + valSize] == old(mem[src..src + valSize])
  {
    ghost var was := mem[..];
    var j := Predecessor(valSize);
    var i := 0;
    while i < valSize
      invariant i <= valSize
      invariant j == Predecessor(valSize - i)
      invariant forall k :: 0 <= k < mem.Length && !(dest <= k < dest + i) ==> mem[k] == was[k]
      invariant forall k :: dest <= k < dest + i ==> mem[k] == was[src + valSize - 1 - (k - dest)]
    {
      mem[dest + i] := mem[src + j];
      j := Predecessor(j);
      i := i + 1;
    }
    assert mem[..] == CopiedReversed(was, dest, src, valSize);
    ReversedCopyMeans(was, dest, src, valSize);
    assert mem[dest..dest + valSize] == mem[..][dest..dest + valSize];
    assert mem[src..src + valSize] == mem[..][src..src + valSize];
  }

  /** `MEM_VAL_COPY_GET_INTU_LITTLE`. */
  method CopyGetIntuLittle(mem: array<byte>, dest: nat, src: nat, valSize: nat)
    requires valSize < SIZE_T
    requires dest + valSize <= mem.Length && src + valSize <= mem.Length && Disjoint(dest, src, valSize)
    modifies mem
    ensures mem[..] == Copied(old(mem[..]), dest, src, valSize)
    ensures LittleValue(mem[dest..dest + valSize]) == LittleValue(old(mem[src..src + valSize]))
  {
    ghost var was := mem[..];
    var i := 0;
    while i < valSize
      invariant i <= valSize
      invariant forall k :: 0 <= k < mem.Length && !(dest <= k < dest + i) ==> mem[k] == was[k]
      invariant forall k :: dest <= k < dest + i ==> mem[k] == was[src + (k - dest)]
    {
      mem[dest + i] := mem[src + i];
      i := i + 1;
    }
    assert mem[dest..dest + valSize] == was[src..src + valSize];
  }

  /** `MEM_VAL_COPY_SET_INTU_BIG` is the same macro under another name. */
  method CopySetIntuBig(mem: array<byte>, dest: nat, src: nat, valSize: nat)
    requires valSize < SIZE_T
    requires dest + valSize <= mem.Length && src + valSize <= mem.Length && Disjoint(dest, src, valSize)
    modifies mem
    ensures mem[..] == CopiedReversed(old(mem[..]), dest, src, valSize)
    ensures BigValue(mem[dest..dest + valSize]) == LittleValue(old(mem[src..src + valSize]))
  {
    CopyGetIntuBig(mem, dest, src, valSize);
    ReversedCopyMeans(old(mem[..]), dest, src, valSize);
    assert mem[dest..dest + valSize] == mem[..][dest..dest + valSize];
    assert old(mem[src..src + valSize]) == old(mem[..])[src..src + valSize];
  }

  /** Decoding to `tmp` and encoding `tmp` to `dest` reproduces the source octets. */
  lemma GetThenSet(m: seq<byte>, tmp: nat, src: nat, dest: nat, n: nat)
    requires tmp + n <= |m| && src + n <= |m| && dest + n <= |m|
    ensures CopiedReversed(CopiedReversed(m, tmp, src, n), dest, tmp, n)[dest..dest + n] == m[src..src + n]
  {
    ReversedCopyMeans(m, tmp, src, n);
    ReversedCopyMeans(CopiedReversed(m, tmp, src, n), dest, tmp, n);
    ReversedTwice(m[src..src + n]);
  }

  // ------------------------------------------------ the fixed sizes

  /** `MEM_VAL_COPY_GET_INT16U_BIG`: agrees with the loop at size 2. */
  method CopyGetInt16uBig(mem: array<byte>, dest: nat, src: nat)
    requires dest + 2 <= mem.Length && src + 2 <= mem.Length && Disjoint(dest, src, 2)
    modifies mem
    ensures mem[..] == CopiedReversed(old(mem[..]), dest, src, 2)
  {
    mem[dest] := mem[src + 1];
    mem[dest + 1] := mem[src];
  }

  /** `MEM_VAL_COPY_GET_INT32U_BIG`: agrees with the loop at size 4. */
  method CopyGetInt32uBig(mem: array<byte>, dest: nat, src: nat)
    requires dest + 4 <= mem.Length && src + 4 <= mem.Length && Disjoint(dest, src, 4)
    modifies mem
    ensures mem[..] == CopiedReversed(old(mem[..]), dest, src, 4)
  {
    mem[dest] := mem[src + 3];
    mem[dest + 1] := mem[src + 2];
    mem[dest + 2] := mem[src + 1];
    mem[dest + 3] := mem[src];
  }

  /** `MEM_VAL_COPY_GET_INT08U_BIG`: agrees with the loop at size 1. */
  method CopyGetInt08uBig(mem: array<byte>, dest: nat, src: nat)
    requires dest < mem.Length && src < mem.Length
    modifies mem
    ensures mem[..] == CopiedReversed(old(mem[..]), dest, src, 1)
  {
    mem[dest] := mem[src];
  }

  /** `MEM_VAL_GET_INT32U_BIG`. */
  function GetInt32uBig(m: seq<byte>, a: nat): (v: nat)
    requires a + 4 <= |m|
  {
    0x100_0000 * m[a] as nat + 0x1_0000 * m[a + 1] as nat + 0x100 * m[a + 2] as nat + m[a + 3]
  }

  /** `MEM_VAL_GET_INT32U_LITTLE`. */
  function GetInt32uLittle(m: seq<byte>, a: nat): (v: nat)
    requires a + 4 <= |m|
  {
    m[a] as nat + 0x100 * m[a + 1] as nat + 0x1_0000 * m[a + 2] as nat + 0x100_0000 * m[a + 3] as nat
  }

  /** `MEM_VAL_GET_INT16U_BIG`. */
  function GetInt16uBig(m: seq<byte>, a: nat): (v: nat)
    requires a + 2 <= |m|
  {
    0x100 * m[a] as nat + m[a + 1]
  }

  /** `MEM_VAL_GET_INT16U_LITTLE`. */
  function GetInt16uLittle(m: seq<byte>, a: nat): (v: nat)
    requires a + 2 <= |m|
  {
    m[a] as nat + 0x100 * m[a + 1] as nat
  }

  /** The GET macros compute the value of the octets in the order they name. */
  lemma GettersReadValues(m: seq<byte>, a: nat)
    requires a + 4 <= |m|
    ensures GetInt32uBig(m, a) == BigValue(m[a..a + 4])
    ensures GetInt32uLittle(m, a) == LittleValue(m[a..a + 4])
    ensures GetInt16uBig(m, a) == BigValue(m[a..a + 2])
    ensures GetInt16uLittle(m, a) == LittleValue(m[a..a + 2])
  {
    var f, t := m[a..a + 4], m[a..a + 2];
    assert f == [m[a], m[a + 1], m[a + 2], m[a + 3]];
    assert t == [m[a], m[a + 1]];
    FourOctets(m[a], m[a + 1], m[a + 2], m[a + 3]);
    TwoOctets(m[a], m[a + 1]);
  }

  lemma TwoOctets(b0: byte, b1: byte)
    ensures LittleValue([b0, b1]) == b0 + 0x100 * b1
    ensures BigValue([b0, b1]) == 0x100 * b0 + b1
  {
    assert [b0, b1][1..] == [b1] && [b0, b1][..1] == [b0];
    assert LittleValue([b1]) == b1 && BigValue([b0]) == b0;
  }

  lemma FourOctets(b0: byte, b1: byte, b2: byte, b3: byte)
    ensures LittleValue([b0, b1, b2, b3]) == b0 + 0x100 * b1 + 0x1_0000 * b2 + 0x100_0000 * b3
    ensures BigValue([b0, b1, b2, b3]) == 0x100_0000 * b0 + 0x1_0000 * b1 + 0x100 * b2 + b3
  {
    assert [b0, b1, b2, b3][1..] == [b1, b2, b3] && [b1, b2, b3][1..] == [b2, b3];
    assert [b0, b1, b2, b3][..3] == [b0, b1, b2] && [b0, b1, b2][..2] == [b0, b1];
    TwoOctets(b2, b3);
    TwoOctets(b0, b1);
  }

  lemma OctetFields(val: nat)
    requires val < 0x1_0000_0000
    ensures val == val % 0x100 + 0x100 * (val / 0x100 % 0x100) + 0x1_0000 * (val / 0x1_0000 % 0x100)
                   + 0x100_0000 * (val / 0x100_0000 % 0x100)
  {
    var q1 := val / 0x100;
    var q2 := q1 / 0x100;
    var q3 := q2 / 0x100;
    DivModUnique(0x1_0000, val, q2, val % 0x100 + 0x100 * (q1 % 0x100));
    DivModUnique(0x100_0000, val, q3, val % 0x100 + 0x100 * (q1 % 0x100) + 0x1_0000 * (q2 % 0x100));
    DivModUnique(0x100, q3, 0, q3);
  }

  /** `MEM_VAL_SET_INT32U_BIG`: each octet is a masked and shifted field of the value. */
  method SetInt32uBig(mem: array<byte>, a: nat, val: nat)
    requires a + 4 <= mem.Length && val < 0x1_0000_0000
    modifies mem
    ensures BigValue(mem[a..a + 4]) == val
    ensures forall k :: 0 <= k < mem.Length && !(a <= k < a + 4) ==> mem[k] == old(mem[k])
  {
    mem[a] := val / 0x100_0000 % 0x100;
    mem[a + 1] := val / 0x1_0000 % 0x100;
    mem[a + 2] := val / 0x100 % 0x100;
    mem[a + 3] := val % 0x100;
    assert mem[a..a + 4] == [mem[a], mem[a + 1], mem[a + 2], mem[a + 3]];
    FourOctets(mem[a], mem[a + 1], mem[a + 2], mem[a + 3]);
    OctetFields(val);
  }

  /** `MEM_VAL_SET_INT32U_LITTLE`. */
  method SetInt32uLittle(mem: array<byte>, a: nat, val: nat)
    requires a + 4 <= mem.Length && val < 0x1_0000_0000
    modifies mem
    ensures LittleValue(mem[a..a + 4]) == val
    ensures forall k :: 0 <= k < mem.Length && !(a <= k < a + 4) ==> mem[k] == old(mem[k])
  {
    mem[a] := val % 0x100;
    mem[a + 1] := val / 0x100 % 0x100;
    mem[a + 2] := val / 0x1_0000 % 0x100;
    mem[a + 3] := val / 0x100_0000 % 0x100;
    assert mem[a..a + 4] == [mem[a], mem[a + 1], mem[a + 2], mem[a + 3]];
    FourOctets(mem[a], mem[a + 1], mem[a + 2], mem[a + 3]);
    OctetFields(val);
  }

  /** `MEM_VAL_SET_INT16U_BIG`. */
  method SetInt16uBig(mem: array<byte>, a: nat, val: nat)
    requires a + 2 <= mem.Length && val < 0x1_0000
    modifies mem
    ensures BigValue(mem[a..a + 2]) == val
    ensures forall k :: 0 <= k < mem.Length && !(a <= k < a + 2) ==> mem[k] == old(mem[k])
  {
    mem[a] := val / 0x100 % 0x100;
    mem[a + 1] := val % 0x100;
    assert mem[a..a + 2] == [mem[a], mem[a + 1]];
    TwoOctets(mem[a], mem[a + 1]);
    DivModUnique(0x100, val / 0x100, 0, val / 0x100);
  }

  /** `MEM_VAL_BIG_TO_LITTLE_32`: four masked fields moved to their mirrored positions. */
  function BigToLittle32(val: nat): nat
    requires val < 0x1_0000_0000
  {
    val / 0x100_0000 % 0x100
    + val / 0x1_0000 % 0x100 * 0x100
    + val / 0x100 % 0x100 * 0x1_0000
    + val % 0x100 * 0x100_0000
  }

  /** The word swap turns the value of four octets in one order into their value in the other, and is
      its own inverse. */
  lemma {:induction false} SwapMatchesOctets(s: seq<byte>)
    requires |s| == 4
    ensures LittleValue(s) < 0x1_0000_0000 && BigValue(s) < 0x1_0000_0000
    ensures BigToLittle32(LittleValue(s)) == BigValue(s)
    ensures BigToLittle32(BigValue(s)) == LittleValue(s)
  {
    assert s == [s[0], s[1], s[2], s[3]];
    FourOctets(s[0], s[1], s[2], s[3]);
    WordFields(s[0], s[1], s[2], s[3]);
    WordFields(s[3], s[2], s[1], s[0]);
  }

  lemma WordFields(b0: byte, b1: byte, b2: byte, b3: byte)
    ensures var v := b0 + 0x100 * b1 + 0x1_0000 * b2 + 0x100_0000 * b3;
            v < 0x1_0000_0000 && BigToLittle32(v) == b3 + 0x100 * b2 + 0x1_0000 * b1 + 0x100_0000 * b0
  {
    var v := b0 + 0x100 * b1 + 0x1_0000 * b2 + 0x100_0000 * b3;
    DivModUnique(0x100, v, b1 + 0x100 * b2 + 0x1_0000 * b3, b0);
    DivModUnique(0x1_0000, v, b2 + 0x100 * b3, b0 + 0x100 * b1);
    DivModUnique(0x100_0000, v, b3, b0 + 0x100 * b1 + 0x1_0000 * b2);
    DivModUnique(0x100, b1 + 0x100 * b2 + 0x1_0000 * b3, b2 + 0x100 * b3, b1);
    DivModUnique(0x100, b2 + 0x100 * b3, b3, b2);
  }
}
