/** The character tests of ucosii/uC-LIB/lib_ascii.h that the string functions use, and the two
    directions of the digit alphabet 0-9, a-z.

    A C string is a sequence of characters followed in memory by a terminating NUL; `At` reads it, and
    nothing may be read past that terminator.
  */
module LibAscii {

  const NUL: char := '\0'

  function At(s: string, i: nat): char
    requires i <= |s|
  {
    if i < |s| then s[i] else NUL
  }

  predicate IsDig(c: char) { '0' <= c <= '9' }

  predicate IsLower(c: char) { 'a' <= c <= 'z' }

  predicate IsUpper(c: char) { 'A' <= c <= 'Z' }

  predicate IsAlphaNum(c: char) { IsUpper(c) || IsLower(c) || IsDig(c) }

  predicate IsDigHex(c: char) { IsDig(c) || 'A' <= c <= 'F' || 'a' <= c <= 'f' }

  predicate IsSpace(c: char) {
    c == ' ' || c == '\r' || c == '\n' || c == '\U{C}' || c == '\t' || c == '\U{B}'
  }

  predicate IsPrint(c: char) { ' ' <= c <= '~' }

  function ToLower(c: char): char {
    if IsUpper(c) then (c as int + ('a' as int - 'A' as int)) as char else c
  }

  /** The character printed for a digit. */
  function DigitChar(d: nat, lower: bool): (c: char)
    requires d < 36
    ensures IsAlphaNum(c)
    ensures DigitValue(c) == d
  {
    if d < 10 then (d + '0' as int) as char
    else if lower then (d - 10 + 'a' as int) as char
    else (d - 10 + 'A' as int) as char
  }

  /** No base reaches this. */
  const NO_DIGIT: nat := 0xFF

  /** The digit a character stands for, letters of either case counting from 10. */
  function DigitValue(c: char): (d: nat)
    ensures d < 36 <==> IsAlphaNum(c)
  {
    if IsDig(c) then c as int - '0' as int
    else if IsLower(c) then c as int - 'a' as int + 10
    else if IsUpper(c) then c as int - 'A' as int + 10
    else NO_DIGIT
  }

  const LOWER_DIGITS := "0123456789abcdefghijklmnopqrstuvwxyz"
  const UPPER_DIGITS := "0123456789ABCDEFGHIJKLMNOPQRSTUVWXYZ"

  /** The digits are those of the alphabet, in its order and in the letter case asked for. */
  lemma DigitsInOrder(d: nat)
    requires d < 36
    ensures DigitChar(d, true) == LOWER_DIGITS[d] && DigitChar(d, false) == UPPER_DIGITS[d]
    ensures DigitValue(LOWER_DIGITS[d]) == d && DigitValue(UPPER_DIGITS[d]) == d
  {
    LowerDigit(d);
    UpperDigit(d);
  }

  lemma LowerDigit(d: nat)
    requires d < 36
    ensures LOWER_DIGITS[d] as int == if d < 10 then 48 + d else 97 + (d - 10)
  {
  }

  lemma UpperDigit(d: nat)
    requires d < 36
    ensures UPPER_DIGITS[d] as int == if d < 10 then 48 + d else 65 + (d - 10)
  {
  }

  /** Exactly the capital letters have a lower case of their own. */
  lemma LowerCases(c: char)
    ensures forall d :: 10 <= d < 36 && c == UPPER_DIGITS[d] ==> ToLower(c) == LOWER_DIGITS[d]
    ensures (forall d :: 10 <= d < 36 ==> c != UPPER_DIGITS[d]) ==> ToLower(c) == c
  {
    forall d | 10 <= d < 36 ensures UPPER_DIGITS[d] as int == LOWER_DIGITS[d] as int - 32 == 65 + (d - 10) {
      LowerDigit(d);
      UpperDigit(d);
    }
    if IsUpper(c) {
      var d := c as int - 65 + 10;
      assert c == UPPER_DIGITS[d];
    }
  }

  /** White space is the blank and the five control characters from tab to carriage return; printable are the
      characters from the blank to the tilde. */
  lemma SpacesAndPrintable(c: char)
    ensures IsSpace(c) <==> c as int == 32 || 9 <= c as int <= 13
    ensures IsPrint(c) <==> 32 <= c as int < 127
  {
  }

  function Repeat(c: char, n: nat): (s: string)
    ensures |s| == n && forall i :: 0 <= i < n ==> s[i] == c
  {
    seq(n, i => c)
  }
}
