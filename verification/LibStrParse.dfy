/** The number parser of ucosii/uC-LIB/lib_str.c: `Str_ParseNbr_Int32` and its unsigned and signed
    wrappers, against the subject sequences of the strtol() DESCRIPTION section of IEEE Std 1003.1, 2004
    Edition. The unsigned wrapper differs from strtoul() of the same standard, which allows a minus sign:
    here only a plus sign may precede an unsigned number.
  */
module LibStrParse {
  import opened Arithmetic
  import opened LibAscii
  import opened LibStrFmt

  // ------------------------------------------------ the standard's subject sequences

  /** An optional sign removed; a minus sign counts only when parsing signed numbers. */
  ghost function Unsigned(t: string, signed: bool): string {
    if t != [] && (t[0] == '+' || (signed && t[0] == '-')) then t[1..] else t
  }

  ghost predicate IsHexConstant(u: string) {
    |u| >= 3 && u[0] == '0' && (u[1] == 'x' || u[1] == 'X') && AllDigits(u[2..], 16)
  }

  ghost predicate IsOctalConstant(u: string) {
    u != [] && u[0] == '0' && AllDigits(u, 8)
  }

  ghost predicate IsDecimalConstant(u: string) {
    u != [] && u[0] != '0' && AllDigits(u, 10)
  }

  ghost predicate IsInteger(u: string, base: nat) {
    if base == 0 then IsHexConstant(u) || IsOctalConstant(u) || IsDecimalConstant(u)
    else (u != [] && AllDigits(u, base)) || (base == 16 && IsHexConstant(u))
  }

  /** The number an integer denotes, as the standard reads it. */
  ghost function IntegerValue(u: string, base: nat): nat
    requires IsInteger(u, base)
  {
    if (base == 0 || base == 16) && IsHexConstant(u) then Value(u[2..], 16)
    else if base == 0 then Value(u, if u[0] == '0' then 8 else 10)
    else Value(u, base)
  }

  /** The expected form of a subject sequence in the given base. */
  ghost predicate IsSubject(t: string, base: nat, signed: bool) {
    IsInteger(Unsigned(t, signed), base)
  }

  /** The number a subject sequence denotes, sign aside. */
  ghost function Magnitude(t: string, base: nat, signed: bool): nat
    requires IsSubject(t, base, signed)
  {
    IntegerValue(Unsigned(t, signed), base)
  }

  // ------------------------------------------------ what the parser reads, step by step

  /** First position at or after `i` that holds no white space. */
  function SkipSpace(s: string, i: nat): (j: nat)
    requires i <= |s|
    ensures i <= j <= |s| && !IsSpace(At(s, j))
    ensures forall k :: i <= k < j ==> IsSpace(s[k])
    decreases |s| - i
  {
    if IsSpace(At(s, i)) then SkipSpace(s, i + 1) else i
  }

  /** First position at or after `i` that holds no digit of the base. */
  function DigitsEnd(s: string, i: nat, base: nat): (j: nat)
    requires i <= |s| && base <= 36
    ensures i <= j <= |s| && DigitValue(At(s, j)) >= base
    ensures forall k :: i <= k < j ==> DigitValue(s[k]) < base
    decreases |s| - i
  {
    if DigitValue(At(s, i)) < base then DigitsEnd(s, i + 1, base) else i
  }

  /** Past the sign, if it may be taken. */
  function SkipSign(s: string, i: nat, signed: bool): (j: nat)
    requires i <= |s|
    ensures j <= |s|
  {
    if At(s, i) == '+' || (At(s, i) == '-' && signed) then i + 1 else i
  }

  /** Past the base prefix: the first position of the digit loop, and the base it works in. */
  function SkipPrefix(s: string, i: nat, base: nat): (r: (nat, nat))
    requires i <= |s| && base != 1 && base <= 36
    ensures i <= r.0 <= |s| && 2 <= r.1 <= 36
  {
    if (base == 0 || base == 8 || base == 16) && At(s, i) == '0' then
      if base != 8 && (At(s, i + 1) == 'x' || At(s, i + 1) == 'X') then
        (if IsDigHex(At(s, i + 2)) then i + 2 else i + 1, 16)
      else
        (i + 1, if base == 0 then 8 else base)
    else (i, if base == 0 then 10 else base)
  }

  datatype Parsed = Parsed(nbr: nat, next: nat, neg: bool)

  /** Result, end position and sign that the parser computes for a valid base. */
  function Parse(s: string, base: nat, signed: bool): Parsed
    requires base != 1 && base <= 36
  {
    var start := SkipSpace(s, 0);
    var number := SkipSign(s, start, signed);
    var (first, b) := SkipPrefix(s, number, base);
    var end := DigitsEnd(s, first, b);
    Parsed(Min(Value(s[first..end], b), INT32U_MAX), if end == number then 0 else end, At(s, start) == '-')
  }

  // ------------------------------------------------ the parser

  /** `Str_MultOvfThTbl_Int32U`. */
  function MultOvfTh(base: nat): nat
    requires base <= 36
  {
    if base == 0 then INT32U_MAX else INT32U_MAX / base
  }

  /** The overflow test: table look-up before the product, wrap check after the sum. */
  lemma OverflowTestIsExact(nbr: nat, base: nat, dig: nat)
    requires 2 <= base <= 36 && dig < base && nbr <= INT32U_MAX
    ensures nbr <= MultOvfTh(base) ==> nbr * base <= INT32U_MAX
    ensures nbr <= MultOvfTh(base) ==>
              var sum := (nbr * base + dig) % (INT32U_MAX + 1);
              if nbr * base + dig <= INT32U_MAX then sum == nbr * base + dig >= dig else sum < dig
    ensures nbr > MultOvfTh(base) ==> nbr * base + dig > INT32U_MAX
  {
    var th := MultOvfTh(base);
    assert INT32U_MAX == base * th + INT32U_MAX % base;
    assert nbr * base == base * nbr;
    if nbr <= th {
      MulMonotone(base, nbr, th);
      var exact := nbr * base + dig;
      if exact <= INT32U_MAX {
        DivModUnique(INT32U_MAX + 1, exact, 0, exact);
      } else {
        DivModUnique(INT32U_MAX + 1, exact, 1, exact - INT32U_MAX - 1);
      }
    } else {
      MulMonotone(base, th + 1, nbr);
      Distribute(base, 1, th, 1);
    }
  }

  /** The loop over leading white space. */
  method SkipWhiteSpace(s: string) returns (parse: nat)
    ensures parse == SkipSpace(s, 0)
  {
    parse := 0;
    var whitespace := IsSpace(At(s, parse));
    while whitespace
      invariant parse <= |s| && SkipSpace(s, parse) == SkipSpace(s, 0)
      invariant whitespace == IsSpace(At(s, parse))
      decreases |s| - parse
    {
      parse := parse + 1;
      whitespace := IsSpace(At(s, parse));
    }
  }

  /** `Str_ParseNbr_Int32`. `next` is the offset stored through `pstr_next`. */
  method ParseNbrInt32(s: string, nbrBase: nat, signed: bool) returns (nbr: nat, next: nat, neg: bool)
    requires nbrBase <= 0xFF
    ensures nbrBase == 1 || nbrBase > 36 ==> nbr == 0 && next == 0 && !neg
    ensures nbrBase != 1 && nbrBase <= 36 ==> Parsed(nbr, next, neg) == Parse(s, nbrBase, signed)
  {
    nbr, next, neg := 0, 0, false;
    if nbrBase == 1 || nbrBase > 36 {
      return;
    }
    var parse := SkipWhiteSpace(s);
    if At(s, parse) == '+' {
      parse := parse + 1;
      neg := false;
    } else if At(s, parse) == '-' {
      if signed {
        parse := parse + 1;
      }
      neg := true;
    } else {
      neg := false;
    }
    var parseNbr := parse;
    var base;
    parse, base := SkipBasePrefix(s, parse, nbrBase);
    nbr, parse := ParseDigits(s, parse, base);
    next := if parse != parseNbr then parse else 0;
  }

  /** The switch over the base that steps past '0' and '0x' prefixes. */
  method SkipBasePrefix(s: string, number: nat, nbrBase: nat) returns (parse: nat, base: nat)
    requires number <= |s| && nbrBase != 1 && nbrBase <= 36
    ensures (parse, base) == SkipPrefix(s, number, nbrBase)
  {
    parse, base := number, nbrBase;
    if base == 0 {
      if At(s, parse) == '0' {
        parse := parse + 1;
        if At(s, parse) == 'x' || At(s, parse) == 'X' {
          base := 16;
          if IsDigHex(At(s, parse + 1)) {
            parse := parse + 1;
          }
        } else {
          base := 8;
        }
      } else {
        base := 10;
      }
    } else if base == 8 {
      if At(s, parse) == '0' {
        parse := parse + 1;
      }
    } else if base == 16 {
      if At(s, parse) == '0' {
        parse := parse + 1;
        if At(s, parse) == 'x' || At(s, parse) == 'X' {
          if IsDigHex(At(s, parse + 1)) {
            parse := parse + 1;
          }
        }
      }
    }
  }

  lemma {:induction false} ValueExtends(s: string, i: nat, e: nat, base: nat)
    requires i <= e < |s|
    ensures Value(s[i..e + 1], base) == Value(s[i..e], base) * base + DigitValue(s[e])
  {
    assert s[i..e + 1][..e - i] == s[i..e];
  }

  /** The accumulator and its overflow flag stand for the exact value read so far. */
  ghost predicate Stands(nbr: nat, ovf: bool, exact: nat) {
    nbr <= INT32U_MAX && if ovf then exact > INT32U_MAX else exact == nbr
  }

  /** Merges one digit, unless an earlier one has overflowed. */
  method MergeDigit(nbr0: nat, ovf0: bool, base: nat, dig: nat, ghost exact: nat) returns (nbr: nat, ovf: bool)
    requires 2 <= base <= 36 && dig < base && Stands(nbr0, ovf0, exact)
    ensures Stands(nbr, ovf, exact * base + dig)
  {
    nbr, ovf := nbr0, ovf0;
    if !ovf {
      OverflowTestIsExact(nbr, base, dig);
      if nbr <= MultOvfTh(base) {
        nbr := nbr * base;
        nbr := (nbr + dig) % (INT32U_MAX + 1);
        if nbr < dig {
          ovf := true;
        }
      } else {
        ovf := true;
      }
    } else {
      MulMonotone(exact, 1, base);
    }
  }

  /** The digit loop, with its overflow flag and the final saturation. */
  method ParseDigits(s: string, first: nat, base: nat) returns (nbr: nat, end: nat)
    requires first <= |s| && 2 <= base <= 36
    ensures end == DigitsEnd(s, first, base)
    ensures nbr == Min(Value(s[first..end], base), INT32U_MAX)
  {
    end := first;
    nbr := 0;
    var ovf, done := false, false;
    while !done
      invariant first <= end <= |s| && DigitsEnd(s, end, base) == DigitsEnd(s, first, base)
      invariant done ==> end == DigitsEnd(s, first, base)
      invariant Stands(nbr, ovf, Value(s[first..end], base))
      decreases |s| - end, !done
    {
      var c := At(s, end);
      if IsAlphaNum(c) {
        var dig: nat;
        if IsDig(c) {
          dig := c as int - '0' as int;
        } else if IsLower(c) {
          dig := c as int - 'a' as int + 10;
        } else {
          dig := c as int - 'A' as int + 10;
        }
        if dig < base {
          ValueExtends(s, first, end, base);
          nbr, ovf := MergeDigit(nbr, ovf, base, dig, Value(s[first..end], base));
          end := end + 1;
        } else {
          done := true;
        }
      } else {
        done := true;
      }
    }
    if ovf {
      nbr := INT32U_MAX;
    }
  }

  /** `Str_ParseNbr_Int32U`. */
  method ParseNbrInt32U(s: string, base: nat) returns (nbr: nat, next: nat)
    requires base <= 0xFF
    ensures base == 1 || base > 36 ==> nbr == 0 && next == 0
    ensures base != 1 && base <= 36 ==> nbr == Parse(s, base, false).nbr && next == Parse(s, base, false).next
  {
    var neg;
    nbr, next, neg := ParseNbrInt32(s, base, false);
  }

  const INT32S_MAX: int := 0x7FFF_FFFF
  const INT32S_MIN: int := -0x8000_0000

  /** The signed number of a parse: its exact value, clamped. */
  function SignedResult(p: Parsed): int {
    if p.neg then Max(-(p.nbr as int), INT32S_MIN) else Min(p.nbr, INT32S_MAX)
  }

  /** `Str_ParseNbr_Int32S`. */
  method ParseNbrInt32S(s: string, base: nat) returns (nbr: int, next: nat)
    requires base <= 0xFF
    ensures base == 1 || base > 36 ==> nbr == 0 && next == 0
    ensures base != 1 && base <= 36 ==>
              nbr == SignedResult(Parse(s, base, true)) && next == Parse(s, base, true).next
  {
    var abs, neg;
    abs, next, neg := ParseNbrInt32(s, base, true);
    if !neg {
      nbr := if abs > INT32S_MAX then INT32S_MAX else abs;
    } else {
      nbr := if abs > 0x7FFF_FFFF then INT32S_MIN else -(abs as int);
    }
  }

  // ------------------------------------------------ the parser meets the standard

  /** A run s[i..e] consists of digits exactly when it ends no later than the digit run. */
  lemma {:induction false} DigitRun(s: string, i: nat, e: nat, base: nat)
    requires i <= e <= |s| && base <= 36
    ensures AllDigits(s[i..e], base) <==> e <= DigitsEnd(s, i, base)
  {
    var d := DigitsEnd(s, i, base);
    if e > d {
      assert s[i..e][d - i] == s[d];
    }
    if e <= d {
      forall k | 0 <= k < e - i ensures DigitValue(s[i..e][k]) < base {
        assert s[i..e][k] == s[i + k];
      }
    }
  }

  lemma HexDigits()
    ensures forall c: char :: IsDigHex(c) <==> DigitValue(c) < 16
  {
  }

  /** A 0x prefix at `i` that has a digit to introduce. */
  predicate HexAt(s: string, i: nat)
    requires i <= |s|
  {
    i + 2 < |s| && s[i] == '0' && (s[i + 1] == 'x' || s[i + 1] == 'X') && IsDigHex(s[i + 2])
  }

  /** Digit runs and hexadecimal constants, by where they end. */
  lemma {:induction false} RunEnds(s: string, i: nat, e: nat, base: nat)
    requires i <= e <= |s| && base <= 36
    ensures s[i..e] != [] && AllDigits(s[i..e], base) <==> i < e <= DigitsEnd(s, i, base)
  {
    DigitRun(s, i, e, base);
  }

  lemma {:induction false} HexEnds(s: string, i: nat, e: nat)
    requires i <= e <= |s|
    ensures IsHexConstant(s[i..e]) <==> HexAt(s, i) && i + 2 < e <= DigitsEnd(s, i + 2, 16)
  {
    if e >= i + 3 {
      assert s[i..e][0] == s[i] && s[i..e][1] == s[i + 1];
      assert s[i..e][2..] == s[i + 2..e];
      DigitRun(s, i + 2, e, 16);
      HexDigits();
    }
  }

  lemma FirstDigit(s: string, i: nat, e: nat)
    requires i < e <= |s|
    ensures s[i..e] != [] && s[i..e][0] == s[i]
  {
  }

  /** Integers at `i`, in bases with a 0x prefix: a constant behind the prefix, or a run of digits. */
  lemma {:induction false} HexIntegerEnds(s: string, i: nat, e: nat, base: nat)
    requires i <= e <= |s| && (base == 0 || base == 16) && HexAt(s, i)
    ensures SkipPrefix(s, i, base) == (i + 2, 16)
    ensures IsInteger(s[i..e], base) ==> i < e <= DigitsEnd(s, i + 2, 16)
    ensures e == DigitsEnd(s, i + 2, 16) ==> e > i && IsInteger(s[i..e], base)
  {
    HexDigits();
    HexEnds(s, i, e);
    RunEnds(s, i, e, 8);
    RunEnds(s, i, e, 16);
    assert DigitsEnd(s, i, 8) == i + 1 && DigitsEnd(s, i, 16) == i + 1;
    if i < e {
      FirstDigit(s, i, e);
    }
  }

  /** Base 0 without a 0x prefix: octal behind a zero, decimal otherwise. */
  lemma {:induction false} PlainIntegerEnds(s: string, i: nat, e: nat)
    requires i <= e <= |s| && !HexAt(s, i)
    ensures var b := if At(s, i) == '0' then 8 else 10;
            IsInteger(s[i..e], 0) <==> i < e <= DigitsEnd(s, i, b)
  {
    HexEnds(s, i, e);
    RunEnds(s, i, e, 8);
    RunEnds(s, i, e, 10);
    if i < e {
      FirstDigit(s, i, e);
    }
  }

  /** The end of the digit loop, when no 0x prefix is stepped over. */
  lemma {:induction false} PrefixIsInRun(s: string, i: nat, base: nat)
    requires i <= |s| && base != 1 && base <= 36
    requires (base == 0 || base == 16) ==> !HexAt(s, i)
    ensures var (first, b) := SkipPrefix(s, i, base);
            var run := if base != 0 then base else if At(s, i) == '0' then 8 else 10;
            DigitsEnd(s, first, b) == DigitsEnd(s, i, run)
  {
    if base == 0 && At(s, i) == '0' && (At(s, i + 1) == 'x' || At(s, i + 1) == 'X') {
      assert DigitsEnd(s, i + 1, 16) == i + 1;
      assert DigitsEnd(s, i, 8) == i + 1;
    }
  }

  /** Whether and where an integer starting at `i` may end, in terms of the digit loop's end. */
  lemma {:induction false} IntegerEnds(s: string, i: nat, e: nat, base: nat)
    requires i <= e <= |s| && base != 1 && base <= 36
    ensures var (first, b) := SkipPrefix(s, i, base);
            var end := DigitsEnd(s, first, b);
            && (IsInteger(s[i..e], base) ==> i < e <= end)
            && (e == end && end > i ==> IsInteger(s[i..e], base))
  {
    if (base == 0 || base == 16) && HexAt(s, i) {
      HexIntegerEnds(s, i, e, base);
    } else {
      PrefixIsInRun(s, i, base);
      if base == 0 {
        PlainIntegerEnds(s, i, e);
      } else {
        RunEnds(s, i, e, base);
        if base == 16 {
          HexEnds(s, i, e);
        }
      }
    }
  }

  /** What the digit loop accumulates is the number that the integer it read denotes. */
  lemma {:induction false} LoopValue(s: string, i: nat, base: nat)
    requires i <= |s| && base != 1 && base <= 36
    requires var (first, b) := SkipPrefix(s, i, base); DigitsEnd(s, first, b) > i
    ensures var (first, b) := SkipPrefix(s, i, base);
            var end := DigitsEnd(s, first, b);
            IsInteger(s[i..end], base) && Value(s[first..end], b) == IntegerValue(s[i..end], base)
  {
    var (first, b) := SkipPrefix(s, i, base);
    var end := DigitsEnd(s, first, b);
    IntegerEnds(s, i, end, base);
    if (base == 0 || base == 16) && HexAt(s, i) {
      HexLoopValue(s, i, base);
    } else {
      PlainLoopValue(s, i, base);
    }
  }

  lemma {:induction false} HexLoopValue(s: string, i: nat, base: nat)
    requires i <= |s| && (base == 0 || base == 16) && HexAt(s, i)
    ensures SkipPrefix(s, i, base) == (i + 2, 16)
    ensures var end := DigitsEnd(s, i + 2, 16);
            IsInteger(s[i..end], base) && Value(s[i + 2..end], 16) == IntegerValue(s[i..end], base)
  {
    var end := DigitsEnd(s, i + 2, 16);
    HexIntegerEnds(s, i, end, base);
    HexEnds(s, i, end);
    assert s[i..end][2..] == s[i + 2..end];
  }

  lemma {:induction false} PlainLoopValue(s: string, i: nat, base: nat)
    requires i <= |s| && base != 1 && base <= 36 && !((base == 0 || base == 16) && HexAt(s, i))
    requires var (first, b) := SkipPrefix(s, i, base);
             var end := DigitsEnd(s, first, b);
             end > i && IsInteger(s[i..end], base)
    ensures var (first, b) := SkipPrefix(s, i, base);
            var end := DigitsEnd(s, first, b);
            Value(s[first..end], b) == IntegerValue(s[i..end], base)
  {
    var (first, b) := SkipPrefix(s, i, base);
    var end := DigitsEnd(s, first, b);
    HexEnds(s, i, end);
    FirstDigit(s, i, end);
    if base == 0 && b == 16 {
      BareZero(s, i);
    } else if first == i + 1 {
      LeadingZero(s, i, end, b);
    }
  }

  /** A 0x prefix with no digit behind it: only the zero is read. */
  lemma {:induction false} BareZero(s: string, i: nat)
    requires i < |s| && s[i] == '0' && (At(s, i + 1) == 'x' || At(s, i + 1) == 'X') && !IsDigHex(At(s, i + 2))
    ensures DigitsEnd(s, i + 1, 16) == i + 1 && Value(s[i + 1..i + 1], 16) == Value(s[i..i + 1], 8)
  {
    assert s[i + 1..i + 1] == [];
    LeadingZero(s, i, i + 1, 8);
  }

  /** A leading zero does not change the value. */
  lemma {:induction false} LeadingZero(s: string, i: nat, e: nat, base: nat)
    requires i < e <= |s| && s[i] == '0'
    ensures Value(s[i..e], base) == Value(s[i + 1..e], base)
  {
    if e == i + 1 {
      assert s[i..e][..0] == [];
    } else {
      LeadingZero(s, i, e - 1, base);
      assert s[i..e][..e - i - 1] == s[i..e - 1];
      assert s[i + 1..e][..e - i - 2] == s[i + 1..e - 1];
    }
  }

  /** The longest initial run of the expected form that starts at `i` ends at `e`. */
  ghost predicate LongestSubject(s: string, i: nat, e: nat, base: nat, signed: bool)
    requires i <= e <= |s|
  {
    IsSubject(s[i..e], base, signed) && forall f :: e < f <= |s| ==> !IsSubject(s[i..f], base, signed)
  }

  lemma SubjectAfterSign(s: string, i: nat, e: nat, base: nat, signed: bool)
    requires i <= e <= |s|
    ensures var n := SkipSign(s, i, signed);
            && (e >= n ==> Unsigned(s[i..e], signed) == s[n..e])
            && (e < n ==> Unsigned(s[i..e], signed) == [])
  {
    if i < e {
      assert s[i..e][0] == s[i];
      assert s[i..e][1..] == s[i + 1..e];
    }
  }

  /** Where a subject sequence starting at `i` may end, in terms of the digit loop's end. */
  lemma {:induction false} SubjectEnds(s: string, i: nat, e: nat, base: nat, signed: bool)
    requires i <= e <= |s| && base != 1 && base <= 36
    ensures var n := SkipSign(s, i, signed);
            var (first, b) := SkipPrefix(s, n, base);
            var end := DigitsEnd(s, first, b);
            && (IsSubject(s[i..e], base, signed) ==> n < e <= end)
            && (e == end && end > n ==> IsSubject(s[i..e], base, signed))
  {
    var n := SkipSign(s, i, signed);
    SubjectAfterSign(s, i, e, base, signed);
    if e >= n {
      IntegerEnds(s, n, e, base);
    }
  }

  /** The subject sequence that the digit loop leaves behind it. */
  lemma {:induction false} SubjectRead(s: string, i: nat, base: nat, signed: bool)
    requires i <= |s| && base != 1 && base <= 36
    requires var n := SkipSign(s, i, signed); var (first, b) := SkipPrefix(s, n, base); DigitsEnd(s, first, b) > n
    ensures var n := SkipSign(s, i, signed);
            var (first, b) := SkipPrefix(s, n, base);
            var end := DigitsEnd(s, first, b);
            && i < end && IsSubject(s[i..end], base, signed)
            && Value(s[first..end], b) == Magnitude(s[i..end], base, signed)
            && (At(s, i) == '-' ==> signed)
  {
    var n := SkipSign(s, i, signed);
    var (first, b) := SkipPrefix(s, n, base);
    var end := DigitsEnd(s, first, b);
    SubjectAfterSign(s, i, end, base, signed);
    LoopValue(s, n, base);
  }

  /** For every string and base: if a subject sequence follows the white space, the parser returns its
      magnitude (saturated), its sign, and the end of the longest one; if none does, it returns zero and
      the start of the string. */
  lemma {:induction false} ParseMeetsStandard(s: string, base: nat, signed: bool)
    requires base != 1 && base <= 36
    ensures var start, p := SkipSpace(s, 0), Parse(s, base, signed);
            if exists e :: start <= e <= |s| && IsSubject(s[start..e], base, signed)
            then start < p.next <= |s| && LongestSubject(s, start, p.next, base, signed)
              && p.nbr == Min(Magnitude(s[start..p.next], base, signed), INT32U_MAX)
              && (p.neg <==> signed && s[start] == '-')
            else p.next == 0 && p.nbr == 0
  {
    var start, p := SkipSpace(s, 0), Parse(s, base, signed);
    var n := SkipSign(s, start, signed);
    var (first, b) := SkipPrefix(s, n, base);
    var end := DigitsEnd(s, first, b);
    forall e | start <= e <= |s| ensures IsSubject(s[start..e], base, signed) ==> n < e <= end {
      SubjectEnds(s, start, e, base, signed);
    }
    if end > n {
      SubjectRead(s, start, base, signed);
    } else {
      assert s[first..end] == [];
    }
  }

  /** The signed wrapper clamps the exact signed value: saturating at 2^32-1 first loses nothing. */
  lemma {:induction false} SignedIsExactClamped(s: string, base: nat)
    requires base != 1 && base <= 36
    requires exists e :: SkipSpace(s, 0) <= e <= |s| && IsSubject(s[SkipSpace(s, 0)..e], base, true)
    ensures var start, p := SkipSpace(s, 0), Parse(s, base, true);
            && start < p.next <= |s| && IsSubject(s[start..p.next], base, true)
            && var m := Magnitude(s[start..p.next], base, true) as int;
               SignedResult(p) == Max(INT32S_MIN, Min(INT32S_MAX, if s[start] == '-' then -m else m))
  {
    ParseMeetsStandard(s, base, true);
  }
}
