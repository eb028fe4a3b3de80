/** Printing a number and parsing the text back, in ucosii/uC-LIB/lib_str.c. */
module LibStrRoundTrip {
  import opened Arithmetic
  import opened LibAscii
  import opened LibStrFmt
  import opened LibStrParse

  /** The padding characters that a parser skips or reads as zeros. */
  predicate Skippable(lead: char) {
    lead == NUL || lead == ' ' || lead == '0'
  }

  /** White space, sign, zeros and digits, in this order, ended by a terminator. */
  lemma {:induction false} SpacesSkipped(s: string, i: nat, j: nat)
    requires i <= j <= |s| && (forall k :: i <= k < j ==> s[k] == ' ') && !IsSpace(At(s, j))
    ensures SkipSpace(s, i) == j
    decreases j - i
  {
    if i < j {
      SpacesSkipped(s, i + 1, j);
    }
  }

  lemma {:induction false} DigitsRead(s: string, i: nat, j: nat, base: nat)
    requires i <= j <= |s| && 2 <= base <= 36
    requires (forall k :: i <= k < j ==> DigitValue(s[k]) < base) && At(s, j) == NUL
    ensures DigitsEnd(s, i, base) == j
    decreases j - i
  {
    if i < j {
      DigitsRead(s, i + 1, j, base);
    }
  }

  lemma {:induction false} ZerosAddNothing(s: string, i: nat, j: nat, e: nat, base: nat)
    requires i <= j < e <= |s| && forall k :: i <= k < j ==> s[k] == '0'
    ensures Value(s[i..e], base) == Value(s[j..e], base)
    decreases j - i
  {
    if i < j {
      LeadingZero(s, i, e, base);
      ZerosAddNothing(s, i + 1, j, e, base);
    }
  }

  /** Zeros and a numeral up to the terminator are read as the numeral. */
  lemma {:induction false} NumberIsRead(s: string, number: nat, digits: nat, e: nat, base: nat)
    requires 2 <= base <= 36 && number <= digits < e <= |s| && At(s, e) == NUL
    requires forall k :: number <= k < digits ==> s[k] == '0'
    requires AllDigits(s[digits..e], base)
    ensures var (first, b) := SkipPrefix(s, number, base);
            && first <= e && DigitsEnd(s, first, b) == e
            && Value(s[first..e], b) == Value(s[digits..e], base)
    ensures DigitValue(s[number]) < base
  {
    forall k | digits <= k < e ensures DigitValue(s[k]) < base {
      assert s[digits..e][k - digits] == s[k];
    }
    DigitsRead(s, number, e, base);
    ZerosAddNothing(s, number, digits, e, base);
    HexDigits();
    assert base == 16 ==> !HexAt(s, number);
    PrefixIsInRun(s, number, base);
    LoopValue(s, number, base);
    HexEnds(s, number, e);
  }

  lemma SignIsRead(s: string, spaces: nat, neg: bool, number: nat, base: nat, signed: bool)
    requires base <= 36 && number < |s| && DigitValue(s[number]) < base
    requires number == spaces + (if neg then 1 else 0) && (neg ==> signed && s[spaces] == '-')
    ensures SkipSign(s, spaces, signed) == number && (At(s, spaces) == '-' <==> neg)
    ensures !IsSpace(At(s, spaces))
  {
  }

  /** A text laid out as `spaces`, optional minus sign, zeros from `number` and a numeral from `digits` to
      the terminator at `e` is parsed to the numeral's value. */
  lemma {:induction false} LaidOutIsParsed(s: string, spaces: nat, neg: bool, number: nat, digits: nat, e: nat,
                                           base: nat, signed: bool)
    requires 2 <= base <= 36 && number == spaces + (if neg then 1 else 0) && (neg ==> signed)
    requires number <= digits < e <= |s| && At(s, e) == NUL
    requires forall k :: 0 <= k < spaces ==> s[k] == ' '
    requires neg ==> s[spaces] == '-'
    requires forall k :: number <= k < digits ==> s[k] == '0'
    requires AllDigits(s[digits..e], base)
    ensures Parse(s, base, signed) == Parsed(Min(Value(s[digits..e], base), INT32U_MAX), e, neg)
  {
    NumberIsRead(s, number, digits, e, base);
    SignIsRead(s, spaces, neg, number, base, signed);
    SpacesSkipped(s, 0, spaces);
  }

  lemma DigitsStand(text: string, s: string, at: nat)
    requires text <= s && at <= |text|
    ensures s[at..|text|] == text[at..]
  {
  }

  /** A printed number, followed by its terminator, is read back. */
  lemma PrintedIsParsed(n: nat, nbrDig: nat, base: nat, neg: bool, lead: char, lower: bool, s: string, signed: bool)
    requires n <= INT32U_MAX && 2 <= base <= 36 && Fits(n, nbrDig, base, neg) && Skippable(lead)
    requires neg ==> signed
    requires var text := Formatted(n, nbrDig, base, neg, lead, lower); text <= s && At(s, |text|) == NUL
    ensures Parse(s, base, signed) == Parsed(n, |Formatted(n, nbrDig, base, neg, lead, lower)|, neg)
  {
    var text, digits := Formatted(n, nbrDig, base, neg, lead, lower), Numeral(n, base, lower);
    CaseKeepsLength(n, base, lower);
    NumeralDenotes(n, base, lower);
    LaidOut(digits, nbrDig, neg, lead);
    var sign := if neg then 1 else 0;
    var at := |text| - |digits|;
    DigitsStand(text, s, at);
    if lead == '0' {
      LaidOutIsParsed(s, 0, neg, sign, at, |text|, base, signed);
    } else {
      LaidOutIsParsed(s, at - sign, neg, at, at, |text|, base, signed);
    }
  }

  /** Round trip: every 32-bit signed number, in every base, printed with enough room and with padding
      absent, blank or zero, is parsed back exactly, and the parse stops at the terminator. */
  lemma SignedRoundTrip(n: int, nbrDig: nat, base: nat, lead: char, lower: bool, s: string)
    requires -0x8000_0000 <= n < 0x8000_0000 && 2 <= base <= 36 && Skippable(lead)
    requires Fits(Abs(n), nbrDig, base, n < 0)
    requires var text := Formatted(Abs(n), nbrDig, base, n < 0, lead, lower); text <= s && At(s, |text|) == NUL
    ensures SignedResult(Parse(s, base, true)) == n
    ensures Parse(s, base, true).next == |Formatted(Abs(n), nbrDig, base, n < 0, lead, lower)|
  {
    PrintedIsParsed(Abs(n), nbrDig, base, n < 0, lead, lower, s, true);
  }

  /** The same on buffers: the printer's contract and the parser's meet at the round trip. */
  method PrintThenParse(n: int, nbrDig: nat, base: nat, lead: char, lower: bool, pstr: array<char>)
    returns (ok: bool, back: int, next: nat)
    requires -0x8000_0000 <= n < 0x8000_0000 && nbrDig <= 0xFF && base <= 0xFF && Skippable(lead)
    requires nbrDig + 1 <= pstr.Length
    modifies pstr
    ensures ok <==> nbrDig >= 1 && 2 <= base <= 36 && Fits(Abs(n), nbrDig, base, n < 0)
    ensures ok ==> back == n && next <= nbrDig && pstr[next] == NUL
  {
    ok := FmtNbrInt32S(n, nbrDig, base, lead, lower, true, pstr);
    back, next := ParseNbrInt32S(pstr[..], base);
    if ok {
      SignedRoundTrip(n, nbrDig, base, lead, lower, pstr[..]);
    }
    if 2 <= base <= 36 {
      BlankIsAllowed(base, lower);
    }
  }

  lemma BlankIsAllowed(base: nat, lower: bool)
    requires 2 <= base <= 36
    ensures LeadAllowed(' ', base, lower)
  {
  }

  /** Every number that fits, at every width, is read back with this padding. */
  ghost predicate RoundTrips(base: nat, lead: char, lower: bool)
    requires 2 <= base <= 36
  {
    forall n: int, nbrDig: nat ::
      -0x8000_0000 <= n < 0x8000_0000 && Fits(Abs(n), nbrDig, base, n < 0) ==> ReadsBack(n, nbrDig, base, lead, lower)
  }

  ghost predicate ReadsBack(n: int, nbrDig: nat, base: nat, lead: char, lower: bool)
    requires 2 <= base <= 36 && Fits(Abs(n), nbrDig, base, n < 0)
  {
    var text := Formatted(Abs(n), nbrDig, base, n < 0, lead, lower);
    SignedResult(Parse(text, base, true)) == n && Parse(text, base, true).next == |text|
  }

  /** Zero behind two padding characters. */
  lemma PaddedZero(base: nat, lead: char, lower: bool)
    requires 2 <= base <= 36 && lead != NUL && lead != '0'
    ensures Fits(0, 3, base, false) && Formatted(0, 3, base, false, lead, lower) == [lead, lead, '0']
  {
    assert Numeral(0, base, lower) == "0" == Numeral(0, base, false);
    assert Repeat(lead, 1) == [lead];
    assert Repeat(lead, 2) == [lead, lead];
  }

  lemma {:induction false} PaddingCounts(base: nat, lead: char)
    requires base >= 2 && DigitValue(lead) > 0
    ensures Value([lead, lead, '0'], base) > 0
  {
    ValueAppends("", lead, base);
    ValueAppends([lead], lead, base);
    ValueAppends([lead, lead], '0', base);
    assert "" + [lead] == [lead] && [lead] + [lead] == [lead, lead] && [lead, lead] + ['0'] == [lead, lead, '0'];
    NotLess(Value([lead], base), base, DigitValue(lead));
    NotLess(Value([lead, lead], base), base, 0);
  }

  lemma NotLess(v: nat, base: nat, d: nat)
    requires base >= 2
    ensures v * base + d >= v && v * base + d >= d
  {
    MulAtLeast(v, base);
  }

  lemma {:induction false} PaddingIsRun(base: nat, lead: char)
    requires 2 <= base <= 36 && 0 < DigitValue(lead) < base
    ensures var s := [lead, lead, '0']; SkipSpace(s, 0) == 0 && SkipSign(s, 0, true) == 0 && DigitsEnd(s, 0, base) == 3
    ensures SkipPrefix([lead, lead, '0'], 0, base) == (0, base)
  {
    var s := [lead, lead, '0'];
    assert DigitsEnd(s, 3, base) == 3;
    assert DigitsEnd(s, 2, base) == 3;
    assert DigitsEnd(s, 1, base) == 3;
  }

  /** A letter of the other case is a digit to the parser: the padding is read as part of the number. */
  lemma PaddingIsRead(base: nat, lead: char)
    requires 2 <= base <= 36 && 0 < DigitValue(lead) < base
    ensures Parse([lead, lead, '0'], base, true).nbr > 0 && !Parse([lead, lead, '0'], base, true).neg
  {
    var s := [lead, lead, '0'];
    PaddingIsRun(base, lead);
    PaddingCounts(base, lead);
    assert s[0..3] == s;
  }

  /** Any other character but white space stops the parser before or at the second padding character. */
  lemma PaddingStops(base: nat, lead: char)
    requires 2 <= base <= 36 && DigitValue(lead) >= base && IsPrint(lead) && lead != ' '
    ensures Parse([lead, lead, '0'], base, true).next == 0
  {
    var s := [lead, lead, '0'];
    assert SkipSpace(s, 0) == 0;
    assert DigitsEnd(s, 0, base) == 0 && DigitsEnd(s, 1, base) == 1;
    assert s[0..0] == [] == s[1..1];
  }

  lemma PaddedZeroIsLost(base: nat, lead: char, lower: bool)
    requires 2 <= base <= 36 && LeadAllowed(lead, base, lower) && !Skippable(lead)
    ensures Fits(0, 3, base, false) && !ReadsBack(0, 3, base, lead, lower)
  {
    PaddedZero(base, lead, lower);
    if DigitValue(lead) >= base {
      PaddingStops(base, lead);
    } else {
      OnlyZeroIsWorthless(lead);
      PaddingIsRead(base, lead);
    }
  }

  lemma OnlyZeroIsWorthless(c: char)
    requires DigitValue(c) < 36
    ensures (DigitValue(c) == 0 <==> c == '0') && c != '+' && c != '-'
  {
  }

  /** Which paddings the parser undoes: of those that the printer accepts, exactly none, blank and zero.
      Every other one loses a number: it stops the parser, or is read as digits of the other letter case. */
  lemma PaddingRoundTrips(base: nat, lead: char, lower: bool)
    requires 2 <= base <= 36 && LeadAllowed(lead, base, lower)
    ensures RoundTrips(base, lead, lower) <==> Skippable(lead)
  {
    if Skippable(lead) {
      forall n: int, nbrDig: nat | -0x8000_0000 <= n < 0x8000_0000 && Fits(Abs(n), nbrDig, base, n < 0)
        ensures ReadsBack(n, nbrDig, base, lead, lower)
      {
        SignedRoundTrip(n, nbrDig, base, lead, lower, Formatted(Abs(n), nbrDig, base, n < 0, lead, lower));
      }
    } else {
      PaddedZeroIsLost(base, lead, lower);
      assert Fits(Abs(0), 3, base, false) && !ReadsBack(0, 3, base, lead, lower);
    }
  }
}
