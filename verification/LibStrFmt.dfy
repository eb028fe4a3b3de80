/** The number printer of ucosii/uC-LIB/lib_str.c: `Str_FmtNbr_Int32` and its unsigned and signed
    wrappers. The printer fills its buffer from the last character backwards, one digit at a time.
  */
module LibStrFmt {
  import opened Arithmetic
  import opened LibAscii

  const INT32U_MAX: nat := 0xFFFF_FFFF

  // ------------------------------------------------ what is to be printed

  /** The canonical expansion of `n`, most significant digit first, without leading zeros. */
  function Numeral(n: nat, base: nat, lower: bool): (s: string)
    requires 2 <= base <= 36
    ensures |s| > 0
    decreases n
  {
    if n < base then [DigitChar(n, lower)]
    else
      QuotientIsLess(n, base);
      Numeral(n / base, base, lower) + [DigitChar(n % base, lower)]
  }

  lemma QuotientIsLess(n: nat, base: nat)
    requires 2 <= base <= n
    ensures 0 < n / base < n
  {
    var q := n / base;
    assert n == base * q + n % base;
    if q >= 1 {
      MulAtLeast(q, base - 1);
      assert base * q == q + q * (base - 1);
    }
  }

  /** The number a run of digit characters denotes. */
  function Value(s: string, base: nat): nat {
    if s == [] then 0 else Value(s[..|s| - 1], base) * base + DigitValue(s[|s| - 1])
  }

  ghost predicate AllDigits(s: string, base: nat) {
    forall i :: 0 <= i < |s| ==> DigitValue(s[i]) < base
  }

  lemma DigitDenotes(d: nat, lower: bool)
    requires d < 36
    ensures DigitValue(DigitChar(d, lower)) == d && (d > 0 ==> DigitChar(d, lower) != '0')
  {
  }

  lemma {:induction false} ValueAppends(t: string, c: char, base: nat)
    ensures Value(t + [c], base) == Value(t, base) * base + DigitValue(c)
  {
    assert (t + [c])[..|t|] == t;
  }

  lemma LastDigit(n: nat, base: nat)
    requires base > 0
    ensures n == n / base * base + n % base
  {
  }

  lemma {:induction false} ValueOfNumeral(n: nat, base: nat, lower: bool)
    requires 2 <= base <= 36
    ensures Value(Numeral(n, base, lower), base) == n
    decreases n
  {
    var d := n % base;
    DigitDenotes(d, lower);
    if n < base {
      DivModUnique(base, n, 0, n);
      ValueAppends("", DigitChar(n, lower), base);
    } else {
      QuotientIsLess(n, base);
      ValueOfNumeral(n / base, base, lower);
      ValueAppends(Numeral(n / base, base, lower), DigitChar(d, lower), base);
      LastDigit(n, base);
    }
  }

  lemma {:induction false} DigitsOfNumeral(n: nat, base: nat, lower: bool)
    requires 2 <= base <= 36
    ensures AllDigits(Numeral(n, base, lower), base)
    ensures n > 0 ==> Numeral(n, base, lower)[0] != '0'
    decreases n
  {
    if n < base {
      DigitDenotes(n, lower);
    } else {
      DigitDenotes(n % base, lower);
      QuotientIsLess(n, base);
      DigitsOfNumeral(n / base, base, lower);
    }
  }

  lemma {:induction false} NumeralDenotes(n: nat, base: nat, lower: bool)
    requires 2 <= base <= 36
    ensures Value(Numeral(n, base, lower), base) == n && AllDigits(Numeral(n, base, lower), base)
    ensures n > 0 ==> Numeral(n, base, lower)[0] != '0'
  {
    ValueOfNumeral(n, base, lower);
    DigitsOfNumeral(n, base, lower);
  }

  /** The expansion is the only one: any digit string of the right letter case without superfluous
      leading zeros is the numeral of the number it denotes. */
  lemma {:induction false} NumeralIsCanonical(s: string, base: nat, lower: bool)
    requires 2 <= base <= 36 && s != [] && AllDigits(s, base)
    requires forall i :: 0 <= i < |s| ==> s[i] == DigitChar(DigitValue(s[i]), lower)
    requires |s| == 1 || s[0] != '0'
    ensures Numeral(Value(s, base), base, lower) == s
    ensures s[0] != '0' ==> Value(s, base) > 0
    decreases |s|
  {
    var t, d := s[..|s| - 1], DigitValue(s[|s| - 1]);
    if t == [] {
      assert Value(s, base) == d;
    } else {
      NumeralIsCanonical(t, base, lower);
      var v := Value(t, base);
      assert v * base == base * v;
      MulAtLeast(base, v);
      DivModUnique(base, Value(s, base), v, d);
    }
  }

  /** A numeral with 32-bit value never has more than 32 digits, so 8-bit counters hold its length. */
  lemma {:induction false} NumeralIsShort(n: nat, base: nat, lower: bool, k: nat)
    requires 2 <= base <= 36 && k > 0 && n < Pow2(k)
    ensures |Numeral(n, base, lower)| <= k
    decreases k
  {
    if n >= base {
      QuotientIsLess(n, base);
      var q := n / base;
      assert n == base * q + n % base;
      MulAtLeast(q, base - 1);
      assert base * q == q + q * (base - 1);
      assert 2 * q <= n;
      NumeralIsShort(q, base, lower, k - 1);
    }
  }

  /** Padding, sign and digits in their documented order. */
  function Layout(digits: string, nbrDig: nat, neg: bool, lead: char): (text: string)
    requires |digits| + (if neg then 1 else 0) <= nbrDig
    ensures |text| == if lead == NUL then |digits| + (if neg then 1 else 0) else nbrDig
  {
    var sign := if neg then "-" else "";
    var pad := nbrDig - |digits| - |sign|;
    if lead == NUL then sign + digits
    else if lead == '0' then sign + Repeat('0', pad) + digits
    else Repeat(lead, pad) + sign + digits
  }

  function Formatted(nbr: nat, nbrDig: nat, base: nat, neg: bool, lead: char, lower: bool): string
    requires 2 <= base <= 36 && Fits(nbr, nbrDig, base, neg)
  {
    CaseKeepsLength(nbr, base, lower);
    Layout(Numeral(nbr, base, lower), nbrDig, neg, lead)
  }

  predicate Fits(nbr: nat, nbrDig: nat, base: nat, neg: bool)
    requires 2 <= base <= 36
  {
    |Numeral(nbr, base, false)| + (if neg then 1 else 0) <= nbrDig
  }

  function Power(base: nat, k: nat): (p: nat)
    ensures base > 0 ==> p > 0
  {
    if k == 0 then 1 else base * Power(base, k - 1)
  }

  /** A number has at most k digits exactly when it is below the k-th power of the base. */
  lemma {:induction false} NumeralLength(n: nat, base: nat, lower: bool, k: nat)
    requires 2 <= base <= 36 && k > 0
    ensures |Numeral(n, base, lower)| <= k <==> n < Power(base, k)
    decreases n
  {
    if n < base {
      MulAtLeast(base, Power(base, k - 1));
    } else {
      QuotientIsLess(n, base);
      if k > 1 {
        NumeralLength(n / base, base, lower, k - 1);
        BelowMultiple(n, base, Power(base, k - 1));
      } else {
        assert Power(base, 1) == base * Power(base, 0) == base;
      }
    }
  }

  lemma BelowMultiple(n: nat, base: nat, p: nat)
    requires base > 0
    ensures n / base < p <==> n < base * p
  {
    LastDigit(n, base);
    var q, r := n / base, n % base;
    assert n == q * base + r && 0 <= r < base;
    if q < p {
      MulMonotone(base, q + 1, p);
      assert base * (q + 1) == q * base + base;
    } else {
      MulMonotone(base, p, q);
      assert base * q == q * base;
    }
  }

  /** A number fits a width exactly when the width, less one for a sign, has room for its digits. */
  lemma {:induction false} FitsExactly(nbr: nat, nbrDig: nat, base: nat, neg: bool)
    requires 2 <= base <= 36
    ensures Fits(nbr, nbrDig, base, neg) <==>
              var room := nbrDig - if neg then 1 else 0; room > 0 && nbr < Power(base, room)
  {
    var room := nbrDig - if neg then 1 else 0;
    if room > 0 {
      NumeralLength(nbr, base, false, room);
    }
  }

  /** Where a layout has its padding, sign and digits: zeros stand behind the sign, any other padding before it,
      and without padding there is nothing but sign and digits. */
  lemma LaidOut(digits: string, nbrDig: nat, neg: bool, lead: char)
    requires |digits| + (if neg then 1 else 0) <= nbrDig
    ensures var text, sign := Layout(digits, nbrDig, neg, lead), if neg then 1 else 0;
            var at := |text| - |digits|;
            && |text| == (if lead == NUL then sign + |digits| else nbrDig) && at >= sign && text[at..] == digits
            && (neg ==> text[if lead == '0' then 0 else at - 1] == '-')
            && (lead == '0' ==> forall k :: sign <= k < at ==> text[k] == '0')
            && (lead != '0' ==> forall k :: 0 <= k < at - sign ==> text[k] == lead)
  {
  }

  lemma {:induction false} CaseKeepsLength(n: nat, base: nat, lower: bool)
    requires 2 <= base <= 36
    ensures |Numeral(n, base, lower)| == |Numeral(n, base, false)|
    decreases n
  {
    if n >= base {
      QuotientIsLess(n, base);
      CaseKeepsLength(n / base, base, lower);
    }
  }

  /** A padding character may be absent, or printable and no digit of the base but '0'. */
  ghost predicate LeadAllowed(lead: char, base: nat, lower: bool)
    requires 2 <= base <= 36
  {
    lead == NUL || lead == '0' ||
    (IsPrint(lead) && forall d: nat :: d < base ==> DigitChar(d, lower) != lead)
  }

  ghost predicate ValidArgs(nbrDig: nat, base: nat, lead: char, lower: bool) {
    nbrDig >= 1 && 2 <= base <= 36 && LeadAllowed(lead, base, lower)
  }

  // ------------------------------------------------ the printer

  /** The 8-bit difference of two character codes. */
  function Delta8(c: char, from: char): int {
    (c as int - from as int) % 0x100
  }

  /** The printer's test for a padding character that is a non-zero digit of the base. */
  predicate LeadIsDigit(lead: char, base: nat, lower: bool) {
    var delta0 := Delta8(lead, '0');
    var deltaA := Delta8(lead, if lower then 'a' else 'A');
    (base <= 10 && delta0 < base) || (base > 10 && (delta0 < 10 || deltaA < base - 10))
  }

  lemma LeadTestIsExact(lead: char, base: nat, lower: bool)
    requires 2 <= base <= 36 && IsPrint(lead)
    ensures LeadIsDigit(lead, base, lower) <==> exists d: nat :: d < base && DigitChar(d, lower) == lead
  {
    var a := if lower then 'a' else 'A';
    var x, y := lead as int - '0' as int, lead as int - a as int;
    DivModUnique(0x100, x, if x < 0 then -1 else 0, if x < 0 then x + 0x100 else x);
    DivModUnique(0x100, y, if y < 0 then -1 else 0, if y < 0 then y + 0x100 else y);
    if LeadIsDigit(lead, base, lower) {
      var d: nat := if 0 <= x < 10 then x else y + 10;
      assert DigitChar(d, lower) == lead;
    }
  }

  /** Number of digits, counted by repeated division. */
  method CountDigits(nbr: nat, base: nat) returns (n: nat)
    requires 2 <= base <= 36 && nbr <= INT32U_MAX
    ensures n == |Numeral(nbr, base, false)| && n <= 32
  {
    n := 1;
    var log: nat := nbr;
    while log >= base
      invariant n - 1 + |Numeral(log, base, false)| == |Numeral(nbr, base, false)|
    {
      QuotientIsLess(log, base);
      n := n + 1;
      log := log / base;
    }
    Pow2Values();
    NumeralIsShort(nbr, base, false, 32);
  }

  /** `Str_FmtNbr_Int32`. The result tells whether the buffer pointer (true) or NULL (false) is returned. */
  method FmtNbrInt32(nbr: nat, nbrDig: nat, base: nat, neg: bool, lead: char, lower: bool, nul: bool,
                     pstr: array<char>) returns (ok: bool)
    requires nbr <= INT32U_MAX && nbrDig <= 0xFF && base <= 0xFF
    requires nbrDig + (if nul then 1 else 0) <= pstr.Length
    modifies pstr
    ensures ok <==> ValidArgs(nbrDig, base, lead, lower) && Fits(nbr, nbrDig, base, neg)
    ensures var text := if ok then Formatted(nbr, nbrDig, base, neg, lead, lower) else Repeat('?', nbrDig);
            && |text| <= nbrDig
            && pstr[..|text|] == text
            && (nul ==> pstr[|text|] == NUL)
            && forall k :: |text| + (if nul then 1 else 0) <= k < pstr.Length ==> pstr[k] == old(pstr[k])
  {
    var invalid := false;
    if nbrDig < 1 {
      invalid := true;
    }
    if base < 2 || base > 36 {
      invalid := true;
    }
    if lead != NUL {
      if !IsPrint(lead) {
        invalid := true;
      } else if lead != '0' {
        if LeadIsDigit(lead, base, lower) {
          invalid := true;
        }
        if 2 <= base <= 36 {
          LeadTestIsExact(lead, base, lower);
        }
      }
    }
    assert !invalid <==> ValidArgs(nbrDig, base, lead, lower);

    var digFmtd, nbrLead := nbrDig, 0;
    if !invalid {
      var digMax := CountDigits(nbr, base);
      var sign := if neg then 1 else 0;
      if nbrDig >= digMax + sign {
        if lead != NUL {
          nbrLead := nbrDig - digMax - sign;
        } else {
          digFmtd := digMax + sign;
        }
      } else {
        invalid := true;
      }
      CaseKeepsLength(nbr, base, lower);
    }
    ok := !invalid;

    if nul {
      pstr[digFmtd] := NUL;
    }
    ghost var text := if invalid then Repeat('?', nbrDig) else Formatted(nbr, nbrDig, base, neg, lead, lower);
    if !invalid {
      LayoutReadsBackwards(Numeral(nbr, base, lower), nbrDig, neg, lead);
    }
    FillBackwards(invalid, nbr, base, neg, lead, lower, nbrLead > 0 && lead == '0', digFmtd, pstr, text);
  }

  /** Position, counted from the end, of the sign: outside padding with '0', inside any other padding. */
  predicate SignAt(i: nat, numDigits: nat, leadZero: bool, len: nat) {
    if leadZero then i + 1 == len else i == numDigits
  }

  /** The layout read from its end: digits, then sign and padding. */
  ghost predicate ReadsBackwards(text: string, digits: string, neg: bool, lead: char, leadZero: bool) {
    forall p :: 0 <= p < |text| ==>
      var i := |text| - 1 - p;
      text[p] == if i < |digits| then digits[|digits| - 1 - i]
                 else if neg && SignAt(i, |digits|, leadZero, |text|) then '-'
                 else lead
  }

  lemma LayoutReadsBackwards(digits: string, nbrDig: nat, neg: bool, lead: char)
    requires |digits| + (if neg then 1 else 0) <= nbrDig
    ensures ReadsBackwards(Layout(digits, nbrDig, neg, lead), digits, neg, lead,
                           lead == '0' && nbrDig > |digits| + (if neg then 1 else 0))
  {
  }

  /** Printing one digit: it is the next one from the end, and what is left is the number of the rest. */
  lemma DigitStep(fmt: nat, base: nat, lower: bool, digits: string, i: nat)
    requires 2 <= base <= 36 && i < |digits| && Numeral(fmt, base, lower) == digits[..|digits| - i]
    ensures fmt % base < 36 && DigitChar(fmt % base, lower) == digits[|digits| - 1 - i]
    ensures i + 1 < |digits| ==> fmt / base > 0 && Numeral(fmt / base, base, lower) == digits[..|digits| - i - 1]
    ensures i + 1 >= |digits| ==> fmt / base == 0
  {
    if fmt < base {
      DivModUnique(base, fmt, 0, fmt);
    } else {
      QuotientIsLess(fmt, base);
    }
  }

  /** The printing loop: question marks for invalid arguments; otherwise digits while any are left, then
      the sign and the padding in the order that `leadZero` (padding with '0') asks for. */
  method FillBackwards(invalid: bool, nbr: nat, base: nat, neg: bool, lead: char, lower: bool,
                       leadZero: bool, digFmtd: nat, pstr: array<char>, ghost text: string)
    requires digFmtd == |text| <= pstr.Length
    requires invalid ==> text == Repeat('?', digFmtd)
    requires !invalid ==> 2 <= base <= 36
    requires !invalid ==> ReadsBackwards(text, Numeral(nbr, base, lower), neg, lead, leadZero)
    requires !invalid && lead == NUL ==> digFmtd == |Numeral(nbr, base, lower)| + (if neg then 1 else 0)
    requires !invalid ==> digFmtd >= |Numeral(nbr, base, lower)|
    modifies pstr
    ensures pstr[..digFmtd] == text
    ensures forall k :: digFmtd <= k < pstr.Length ==> pstr[k] == old(pstr[k])
  {
    ghost var digits := if invalid then "" else Numeral(nbr, base, lower);
    var fmt: nat, negFmtd := nbr, false;
    var i := 0;
    while i < digFmtd
      invariant i <= digFmtd
      invariant !invalid && i < |digits| ==>
                  (fmt > 0 || i == 0) && Numeral(fmt, base, lower) == digits[..|digits| - i]
      invariant !invalid && i >= |digits| ==> fmt == 0 && i > 0
      invariant !invalid && !leadZero ==> (negFmtd <==> neg && i > |digits|)
      invariant forall k :: digFmtd - i <= k < digFmtd ==> pstr[k] == text[k]
      invariant forall k :: digFmtd <= k < pstr.Length ==> pstr[k] == old(pstr[k])
    {
      var pos := digFmtd - 1 - i;
      if !invalid {
        if fmt > 0 || i == 0 {
          DigitStep(fmt, base, lower, digits, i);
          pstr[pos] := DigitChar(fmt % base, lower);
          fmt := fmt / base;
        } else if neg && ((!leadZero && !negFmtd) || (leadZero && i == digFmtd - 1)) {
          pstr[pos] := '-';
          negFmtd := true;
        } else if lead != NUL {
          pstr[pos] := lead;
        }
      } else {
        pstr[pos] := '?';
      }
      i := i + 1;
    }
  }

  // ------------------------------------------------ wrappers

  /** `Str_FmtNbr_Int32U`. */
  method FmtNbrInt32U(nbr: nat, nbrDig: nat, base: nat, lead: char, lower: bool, nul: bool,
                      pstr: array<char>) returns (ok: bool)
    requires nbr <= INT32U_MAX && nbrDig <= 0xFF && base <= 0xFF
    requires nbrDig + (if nul then 1 else 0) <= pstr.Length
    modifies pstr
    ensures ok <==> ValidArgs(nbrDig, base, lead, lower) && Fits(nbr, nbrDig, base, false)
    ensures var text := if ok then Formatted(nbr, nbrDig, base, false, lead, lower) else Repeat('?', nbrDig);
            && |text| <= nbrDig
            && pstr[..|text|] == text
            && (nul ==> pstr[|text|] == NUL)
            && forall k :: |text| + (if nul then 1 else 0) <= k < pstr.Length ==> pstr[k] == old(pstr[k])
  {
    ok := FmtNbrInt32(nbr, nbrDig, base, false, lead, lower, nul, pstr);
  }

  /** Negation on 32-bit signed words: the minimum value is its own negation. */
  function Negate32(n: int): int
    requires -0x8000_0000 <= n < 0x8000_0000
  {
    if n == -0x8000_0000 then n else -n
  }

  /** Conversion of a signed word to an unsigned one. */
  function ToUnsigned32(n: int): nat
    requires -0x8000_0000 <= n < 0x8000_0000
  {
    if n < 0 then n + 0x1_0000_0000 else n
  }

  function Abs(n: int): nat { if n < 0 then -n else n }

  /** `Str_FmtNbr_Int32S`: the absolute value is printed exactly, the minimum value included. */
  method FmtNbrInt32S(nbr: int, nbrDig: nat, base: nat, lead: char, lower: bool, nul: bool,
                      pstr: array<char>) returns (ok: bool)
    requires -0x8000_0000 <= nbr < 0x8000_0000 && nbrDig <= 0xFF && base <= 0xFF
    requires nbrDig + (if nul then 1 else 0) <= pstr.Length
    modifies pstr
    ensures ok <==> ValidArgs(nbrDig, base, lead, lower) && Fits(Abs(nbr), nbrDig, base, nbr < 0)
    ensures var text := if ok then Formatted(Abs(nbr), nbrDig, base, nbr < 0, lead, lower) else Repeat('?', nbrDig);
            && |text| <= nbrDig
            && pstr[..|text|] == text
            && (nul ==> pstr[|text|] == NUL)
            && forall k :: |text| + (if nul then 1 else 0) <= k < pstr.Length ==> pstr[k] == old(pstr[k])
  {
    var fmt, neg := nbr, false;
    if nbr < 0 {
      fmt := Negate32(nbr);
      neg := true;
    }
    ok := FmtNbrInt32(ToUnsigned32(fmt), nbrDig, base, neg, lead, lower, nul, pstr);
  }
}
