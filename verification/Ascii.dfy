/** The ASCII classification macros used by the string library (lib_ascii.h). A character is one
    unsigned octet. */
module Ascii {
  import opened Word

  type Char = U8

  const NUL: Char := 0x00
  const HT: Char := 0x09
  const CR: Char := 0x0D
  const SPACE: Char := 0x20
  const PLUS: Char := 0x2B
  const MINUS: Char := 0x2D
  const DIG_0: Char := 0x30
  const DIG_9: Char := 0x39
  const QUESTION: Char := 0x3F
  const UPPER_A: Char := 0x41
  const UPPER_F: Char := 0x46
  const UPPER_X: Char := 0x58
  const UPPER_Z: Char := 0x5A
  const LOWER_A: Char := 0x61
  const LOWER_F: Char := 0x66
  const LOWER_X: Char := 0x78
  const LOWER_Z: Char := 0x7A
  const TILDE: Char := 0x7E

  predicate IsDig(c: Char) {
    DIG_0 <= c <= DIG_9
  }

  predicate IsUpper(c: Char) {
    UPPER_A <= c <= UPPER_Z
  }

  predicate IsLower(c: Char) {
    LOWER_A <= c <= LOWER_Z
  }

  predicate IsAlphaNum(c: Char) {
    IsUpper(c) || IsLower(c) || IsDig(c)
  }

  predicate IsDigHex(c: Char) {
    IsDig(c) || UPPER_A <= c <= UPPER_F || LOWER_A <= c <= LOWER_F
  }

  /** Space and the controls HT, LF, VT, FF, CR. */
  predicate IsSpace(c: Char) {
    c == SPACE || HT <= c <= CR
  }

  predicate IsPrint(c: Char) {
    SPACE <= c <= TILDE
  }

  function ToLower(c: Char): Char {
    if IsUpper(c) then c + (LOWER_A - UPPER_A) else c
  }

  /** The character that shows the digit `d`, in the chosen letter case. */
  function DigitChar(d: nat, lower: bool): Char
    requires d < 36
  {
    if d < 10 then DIG_0 + d else if lower then LOWER_A + (d - 10) else UPPER_A + (d - 10)
  }

  /** The value a character has as a digit; 36 when it is not a letter or digit, so that "is a digit
      of base b" reads `DigitVal(c) < b` for every b up to 36. */
  function DigitVal(c: Char): nat {
    if IsDig(c) then c - DIG_0
    else if IsLower(c) then c - LOWER_A + 10
    else if IsUpper(c) then c - UPPER_A + 10
    else 36
  }

  /** The same character, or the same letter in the other case. */
  predicate SameLetter(c: Char, d: Char) {
    || c == d
    || (0x41 <= c <= 0x5A && d == c + 0x20)
    || (0x41 <= d <= 0x5A && c == d + 0x20)
  }

  /** Folding identifies the two cases of a letter and nothing else, and it picks the lower one. */
  lemma CaseFolding(c: Char, d: Char)
    ensures ToLower(c) == ToLower(d) <==> SameLetter(c, d)
    ensures 0x41 <= c <= 0x5A ==> ToLower(c) == c + 0x20
    ensures !(0x41 <= c <= 0x5A) ==> ToLower(c) == c
  {
  }

  /** The digits of either case are told apart by value only. */
  lemma DigitCases(d: nat)
    requires d < 36
    ensures DigitVal(DigitChar(d, true)) == d == DigitVal(DigitChar(d, false))
    ensures d >= 10 ==> ToLower(DigitChar(d, false)) == DigitChar(d, true) == ToLower(DigitChar(d, true))
    ensures d >= 10 ==> DigitChar(d, false) != DigitChar(d, true)
    ensures SameLetter(DigitChar(d, true), DigitChar(d, false))
  {
  }

  /** The character classes by code. */
  lemma ClassesByCode(c: Char)
    ensures IsSpace(c) <==> c == 0x20 || 0x09 <= c <= 0x0D
    ensures IsPrint(c) <==> 0x20 <= c <= 0x7E
    ensures IsDigHex(c) <==> 0x30 <= c <= 0x39 || 0x41 <= c <= 0x46 || 0x61 <= c <= 0x66
    ensures IsAlphaNum(c) <==> DigitVal(c) < 36
    ensures IsUpper(c) <==> 0x41 <= c <= 0x5A
    ensures IsLower(c) <==> 0x61 <= c <= 0x7A
  {
  }
}
