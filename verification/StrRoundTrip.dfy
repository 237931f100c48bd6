/** Parsing undoes formatting: what Str_ParseNbr_Int32x() makes of a string that
    Str_FmtNbr_Int32x() wrote, in the same base. */
module StrRoundTrip {
  import opened Word
  import opened Ascii
  import opened CString
  import opened Positional
  import opened StrFormat
  import opened StrParse
  import opened StrSearch

  /** The string at `at` is exactly `f`. */
  ghost predicate Holds(s: seq<Char>, at: nat, f: seq<Char>) {
    && at + |f| < |s|
    && (forall k :: at <= k < at + |f| ==> CharAt(s, k) == f[k - at])
    && CharAt(s, at + |f|) == NUL
  }

  /** The result of either parser. */
  function Parsed(s: seq<Char>, at: nat, b: nat, signed: bool): (int, nat)
    requires BaseOk(b)
  {
    if signed then ParsedS(s, at, b) else ParsedU(s, at, b)
  }

  predicate InRange(n: int, signed: bool) {
    if signed then INT_32S_MIN <= n <= INT_32S_MAX else 0 <= n <= INT_32U_MAX
  }

  /** `n` formatted in a field of `width` comes to stand at `at`. */
  ghost predicate HoldsNumber(s: seq<Char>, at: nat, n: int, width: nat, b: nat, lead: Char, lower: bool) {
    && FormatOk(Abs(n), width, b, n < 0, lead, lower)
    && Holds(s, at, Layout(Abs(n), width, b, n < 0, lead, lower))
  }

  // ---------------------------------------------------------------------------------------------
  // Digits back from text
  // ---------------------------------------------------------------------------------------------

  /** `z` characters '0' and the digits of `n` stand at `e`, up to the end of the string. */
  ghost predicate HoldsDigits(s: seq<Char>, e: nat, z: nat, n: nat, b: nat, lower: bool)
    requires 2 <= b <= 36
  {
    Holds(s, e, Fill(DIG_0, z) + Body(n, b, lower))
  }

  lemma DigitValsBack(s: seq<Char>, e: nat, z: nat, n: nat, b: nat, lower: bool)
    requires 2 <= b <= 36 && HoldsDigits(s, e, z, n, b, lower)
    ensures var end := e + z + |Digits(n, b)|;
      && DigitVals(s, e, end) == Zeros(z) + Digits(n, b)
      && (forall k :: e <= k < end ==> DigitVal(CharAt(s, k)) < b)
      && CharAt(s, end) == NUL && DigitVal(NUL) == 36
      && e < end
  {
    DigitsValue(n, b);
    TextVals(n, b, z, lower);
    var ds, f := Digits(n, b), Fill(DIG_0, z) + Body(n, b, lower);
    var end := e + z + |ds|;
    assert DigitVal(NUL) == 36;
    hide Digits, Body, DigitVal;
    forall k | e <= k < end
      ensures DigitVal(CharAt(s, k)) == (Zeros(z) + ds)[k - e] < b
    {
      assert CharAt(s, k) == f[k - e];
    }
  }

  lemma TextVals(n: nat, b: nat, z: nat, lower: bool)
    requires 2 <= b <= 36
    ensures var f, vs := Fill(DIG_0, z) + Body(n, b, lower), Zeros(z) + Digits(n, b);
      |f| == |vs| && forall i :: 0 <= i < |f| ==> DigitVal(f[i]) == vs[i]
  {
    DigitsBelow36(n, b);
  }

  /** Whether or not the parser takes a first '0' for a prefix, it reads the number. */
  lemma NumberBack(s: seq<Char>, e: nat, z: nat, n: nat, b: nat, lower: bool)
    requires 2 <= b <= 36 && HoldsDigits(s, e, z, n, b, lower)
    ensures var end, q := e + z + |Digits(n, b)|, e + PrefixLen(s, e, b);
      && InferBase(s, e, b) == b
      && e < end && q <= end
      && RunEnd(s, q, b) == end
      && Value(DigitVals(s, q, end), b) == n
  {
    hide Value, Digits, HoldsDigits;
    DigitValsBack(s, e, z, n, b, lower);
    DigitsValue(n, b);
    LeadingZeros(z, Digits(n, b), b);
    var end, q := e + z + |Digits(n, b)|, e + PrefixLen(s, e, b);
    assert !IsX(CharAt(s, e + 1)) || b != 16;
    var r := RunEnd(s, q, b);
    assert !(r < end) && !(end < r);
    if q == e + 1 {
      assert DigitVals(s, e, end) == Zeros(1) + DigitVals(s, q, end);
      LeadingZeros(1, DigitVals(s, q, end), b);
    }
  }

  /** White space, a sign and the digits, one after the other, are read as the signed number. */
  lemma TextBack(s: seq<Char>, at: nat, e: nat, z: nat, n: nat, b: nat, lower: bool, signed: bool)
    requires 2 <= b <= 36
    requires var ws := SpaceEnd(s, at); e == ws + if IsSign(CharAt(s, ws), signed) then 1 else 0
    requires HoldsDigits(s, e, z, n, b, lower)
    ensures var p := Split(s, at, b, signed);
      && p.neg == (CharAt(s, SpaceEnd(s, at)) == MINUS)
      && Magnitude(s, p) == n
      && Next(at, p) == e + z + |Digits(n, b)|
  {
    hide Value, HoldsDigits, DigitVals;
    NumberBack(s, e, z, n, b, lower);
  }

  // ---------------------------------------------------------------------------------------------
  // The round trip
  // ---------------------------------------------------------------------------------------------

  /** Lead characters a parser passes over: none, '0' and the space. */
  predicate Transparent(lead: Char) {
    lead == NUL || lead == DIG_0 || lead == SPACE
  }

  function Padding(n: int, width: nat, b: nat, lead: Char): nat
    requires 2 <= b <= 36 && Needed(Abs(n), b, n < 0) <= width
  {
    if lead == NUL then 0 else width - Needed(Abs(n), b, n < 0)
  }

  lemma HoldsPart(s: seq<Char>, at: nat, x: seq<Char>, y: seq<Char>)
    requires Holds(s, at, x + y)
    ensures forall k :: at <= k < at + |x| ==> CharAt(s, k) == x[k - at]
    ensures Holds(s, at + |x|, y)
  {
    forall k | at + |x| <= k < at + |x| + |y|
      ensures CharAt(s, k) == y[k - (at + |x|)]
    {
      assert CharAt(s, k) == (x + y)[k - at];
    }
  }

  lemma SpaceEndIs(s: seq<Char>, at: nat, j: nat)
    requires at <= j && !IsSpace(CharAt(s, j))
    requires forall k :: at <= k < j ==> IsSpace(CharAt(s, k))
    ensures SpaceEnd(s, at) == j
  {
    var e := SpaceEnd(s, at);
    assert !(e < j) && !(j < e);
  }

  /** The first character of any run of digits is a digit: no space, no sign. */
  lemma FirstDigit(s: seq<Char>, e: nat, z: nat, n: nat, b: nat, lower: bool)
    requires 2 <= b <= 36 && HoldsDigits(s, e, z, n, b, lower)
    ensures DigitVal(CharAt(s, e)) < b
  {
    hide HoldsDigits;
    DigitValsBack(s, e, z, n, b, lower);
  }

  /** The main law. Whatever the number, base, letter case and width, a number formatted with no
      lead character, '0' or a space parses back to itself, and parsing stops at the NUL. */
  lemma RoundTrip(s: seq<Char>, at: nat, n: int, width: nat, b: nat, lead: Char, lower: bool, signed: bool)
    requires InRange(n, signed)
    requires HoldsNumber(s, at, n, width, b, lead, lower)
    requires Transparent(lead)
    ensures BaseOk(b)
    ensures Parsed(s, at, b, signed) == (n, at + |Layout(Abs(n), width, b, n < 0, lead, lower)|)
  {
    hide *;
    TransparentText(s, at, n, width, b, lead, lower, signed);
    TransparentBack(s, at, SpacePadding(n, width, b, lead), n < 0, ZeroPadding(n, width, b, lead),
                    Abs(n), b, lower, signed);
    ParsedFromSplit(s, at, n, b, signed);
  }

  /** Where the parts of the formatted number stand. */
  lemma TransparentText(s: seq<Char>, at: nat, n: int, width: nat, b: nat, lead: Char, lower: bool, signed: bool)
    requires InRange(n, signed)
    requires HoldsNumber(s, at, n, width, b, lead, lower)
    requires Transparent(lead)
    ensures 2 <= b <= 36 && Needed(Abs(n), b, n < 0) <= width
    ensures n < 0 ==> signed
    ensures var blanks, z := SpacePadding(n, width, b, lead), ZeroPadding(n, width, b, lead);
      && Holds(s, at, Fill(SPACE, blanks) + (Sign(n < 0) + (Fill(DIG_0, z) + Body(Abs(n), b, lower))))
      && |Layout(Abs(n), width, b, n < 0, lead, lower)| == blanks + |Sign(n < 0)| + z + |Digits(Abs(n), b)|
  {
    hide Digits, LeadAccepted, Holds;
    LayoutTransparent(n, width, b, lead, lower);
  }

  /** A split with the right sign and magnitude gives the number, if it is in range. */
  lemma ParsedFromSplit(s: seq<Char>, at: nat, n: int, b: nat, signed: bool)
    requires 2 <= b <= 36 && InRange(n, signed)
    requires var p := Split(s, at, b, signed); p.neg == (n < 0) && Magnitude(s, p) == Abs(n)
    ensures BaseOk(b)
    ensures Parsed(s, at, b, signed) == (n, Next(at, Split(s, at, b, signed)))
  {
    hide Split, Magnitude, Next;
  }

  function SpacePadding(n: int, width: nat, b: nat, lead: Char): nat
    requires 2 <= b <= 36 && Needed(Abs(n), b, n < 0) <= width
  {
    if lead == SPACE then width - Needed(Abs(n), b, n < 0) else 0
  }

  function ZeroPadding(n: int, width: nat, b: nat, lead: Char): nat
    requires 2 <= b <= 36 && Needed(Abs(n), b, n < 0) <= width
  {
    if lead == DIG_0 then width - Needed(Abs(n), b, n < 0) else 0
  }

  /** With such a lead character the field is: spaces, sign, zeros, digits. */
  lemma LayoutTransparent(n: int, width: nat, b: nat, lead: Char, lower: bool)
    requires 2 <= b <= 36 && Needed(Abs(n), b, n < 0) <= width
    requires Transparent(lead)
    ensures Layout(Abs(n), width, b, n < 0, lead, lower) ==
      Fill(SPACE, SpacePadding(n, width, b, lead)) +
      (Sign(n < 0) + (Fill(DIG_0, ZeroPadding(n, width, b, lead)) + Body(Abs(n), b, lower)))
  {
  }

  lemma TransparentBack(s: seq<Char>, at: nat, blanks: nat, neg: bool, z: nat, m: nat, b: nat, lower: bool,
                        signed: bool)
    requires 2 <= b <= 36
    requires neg ==> signed
    requires Holds(s, at, Fill(SPACE, blanks) + (Sign(neg) + (Fill(DIG_0, z) + Body(m, b, lower))))
    ensures var p := Split(s, at, b, signed);
      && p.neg == neg
      && Magnitude(s, p) == m
      && Next(at, p) == at + blanks + |Sign(neg)| + z + |Digits(m, b)|
  {
    hide Value, Digits, Split, Magnitude, Next, DigitVal, CharAt, SpaceEnd, IsSpace, Body, Holds;
    var text := Fill(DIG_0, z) + Body(m, b, lower);
    HoldsPart(s, at, Fill(SPACE, blanks), Sign(neg) + text);
    HoldsPart(s, at + blanks, Sign(neg), text);
    var e := at + blanks + |Sign(neg)|;
    assert HoldsDigits(s, e, z, m, b, lower);
    FirstDigit(s, e, z, m, b, lower);
    assert neg ==> CharAt(s, at + blanks) == MINUS;
    SpacesThenSign(s, at, blanks, neg, b, signed);
    TextBack(s, at, e, z, m, b, lower, signed);
  }

  lemma SpacesThenSign(s: seq<Char>, at: nat, blanks: nat, neg: bool, b: nat, signed: bool)
    requires b <= 36 && (neg ==> signed)
    requires forall k :: at <= k < at + blanks ==> CharAt(s, k) == SPACE
    requires neg ==> CharAt(s, at + blanks) == MINUS
    requires DigitVal(CharAt(s, at + blanks + if neg then 1 else 0)) < b
    ensures var ws := SpaceEnd(s, at);
      && ws == at + blanks
      && (CharAt(s, ws) == MINUS <==> neg)
      && (IsSign(CharAt(s, ws), signed) <==> neg)
  {
    SpaceEndIs(s, at, at + blanks);
  }

  // ---------------------------------------------------------------------------------------------
  // Exactly when: every other lead character
  // ---------------------------------------------------------------------------------------------

  /** When a number formatted with `pad` lead characters parses back to itself. Beyond the three
      transparent lead characters: a single '+' before a number without sign, a single '-' before
      the signed zero, and a digit in the other letter case (which the formatter accepts) where the
      number is the one the parser saturates at. */
  predicate ReadsBack(n: int, pad: nat, lead: Char, b: nat, signed: bool) {
    || pad == 0
    || Transparent(lead)
    || (pad == 1 && lead == PLUS && n >= 0)
    || (pad == 1 && lead == MINUS && signed && n == 0)
    || (DigitVal(lead) < b && n == if signed then INT_32S_MAX else INT_32U_MAX)
  }

  /** The text of a padded number whose lead character is not transparent. */
  ghost predicate HoldsPadded(s: seq<Char>, at: nat, n: int, b: nat, lead: Char, pad: nat, lower: bool)
    requires 2 <= b <= 36
  {
    && pad > 0 && !IsSpace(lead) && lead != NUL && lead != DIG_0
    && Holds(s, at, Fill(lead, pad) + (Sign(n < 0) + Body(Abs(n), b, lower)))
  }

  lemma RoundTripExact(s: seq<Char>, at: nat, n: int, width: nat, b: nat, lead: Char, lower: bool, signed: bool)
    requires InRange(n, signed)
    requires HoldsNumber(s, at, n, width, b, lead, lower)
    ensures BaseOk(b)
    ensures Parsed(s, at, b, signed) == (n, at + |Layout(Abs(n), width, b, n < 0, lead, lower)|) <==>
      ReadsBack(n, Padding(n, width, b, lead), lead, b, signed)
  {
    hide Layout, HoldsNumber, HoldsPadded, Parsed, Digits, Needed, Padding;
    PaddedText(s, at, n, width, b, lead, lower, signed);
    var pad := Padding(n, width, b, lead);
    if Transparent(lead) {
      RoundTrip(s, at, n, width, b, lead, lower, signed);
    } else if pad == 0 {
      RoundTrip(s, at, n, width, b, NUL, lower, signed);
    } else if pad == 1 && n >= 0 && IsSign(lead, signed) {
      SignPadding(s, at, n, b, lead, lower, signed);
    } else if DigitVal(lead) < b {
      DigitPadding(s, at, n, b, lead, pad, lower, signed);
    } else {
      OtherPadding(s, at, n, b, lead, pad, lower, signed);
    }
  }

  /** Padding 0xAB with 'a' in upper-case hexadecimal is accepted, and "aaaAB" reads as 0xAAAAB. */
  lemma OtherCasePadding(s: seq<Char>, at: nat)
    ensures FormatOk(0xAB, 5, 16, false, LOWER_A, false)
    ensures HoldsNumber(s, at, 0xAB, 5, 16, LOWER_A, false) ==> Parsed(s, at, 16, false) == (0xAAAAB, at + 5)
  {
    hide LeadAccepted, Holds, Split;
    LeadRuleGap(LOWER_A, 16, false);
    assert Digits(0xAB, 16) == [0xA, 0xB];
    var text := [LOWER_A, LOWER_A, LOWER_A, UPPER_A, UPPER_A + 1];
    assert Layout(0xAB, 5, 16, false, LOWER_A, false) == text;
    if HoldsNumber(s, at, 0xAB, 5, 16, LOWER_A, false) {
      assert Holds(s, at, text);
      OtherCaseRead(s, at, text);
    }
  }

  lemma OtherCaseRead(s: seq<Char>, at: nat, text: seq<Char>)
    requires Holds(s, at, text)
    requires text == [LOWER_A, LOWER_A, LOWER_A, UPPER_A, UPPER_A + 1]
    ensures Split(s, at, 16, false) == Parts(at, false, at, 16, at, at + 5)
    ensures Magnitude(s, Parts(at, false, at, 16, at, at + 5)) == 0xAAAAB
  {
    hide Split, Value, Digits;
    forall k | at <= k < at + 5
      ensures DigitVal(CharAt(s, k)) == if k < at + 4 then 10 else 11
    {
      assert CharAt(s, k) == text[k - at];
    }
    assert CharAt(s, at) == text[0];
    SpaceEndIs(s, at, at);
    NoPrefix(s, at, 16, false, at + 5);
    assert DigitVals(s, at, at + 5) == [10, 10, 10, 10, 11];
    DigitsOfAAAAB();
    DigitsValue(0xAAAAB, 16);
  }

  lemma DigitsOfAAAAB()
    ensures Digits(0xAAAAB, 16) == [10, 10, 10, 10, 11]
  {
  }

  lemma PaddedText(s: seq<Char>, at: nat, n: int, width: nat, b: nat, lead: Char, lower: bool, signed: bool)
    requires InRange(n, signed)
    requires HoldsNumber(s, at, n, width, b, lead, lower)
    ensures 2 <= b <= 36 && Needed(Abs(n), b, n < 0) <= width
    ensures n < 0 ==> signed
    ensures var pad, size := Padding(n, width, b, lead), |Layout(Abs(n), width, b, n < 0, lead, lower)|;
      && size == pad + |Sign(n < 0)| + |Digits(Abs(n), b)| > 0
      && (pad == 0 ==>
            && HoldsNumber(s, at, n, width, b, NUL, lower)
            && |Layout(Abs(n), width, b, n < 0, NUL, lower)| == size)
      && (pad > 0 && !Transparent(lead) ==> HoldsPadded(s, at, n, b, lead, pad, lower))
  {
    hide Digits, Holds;
    var pad := Padding(n, width, b, lead);
    DigitsBelow36(Abs(n), b);
    if pad == 0 {
      assert Layout(Abs(n), width, b, n < 0, lead, lower) == Layout(Abs(n), width, b, n < 0, NUL, lower);
    } else if !Transparent(lead) {
      assert Layout(Abs(n), width, b, n < 0, lead, lower) ==
        Fill(lead, pad) + (Sign(n < 0) + Body(Abs(n), b, lower));
    }
  }

  /** A lone sign character as padding is read as the sign. */
  lemma SignPadding(s: seq<Char>, at: nat, n: int, b: nat, lead: Char, lower: bool, signed: bool)
    requires 2 <= b <= 36 && n >= 0 && InRange(n, signed)
    requires HoldsPadded(s, at, n, b, lead, 1, lower)
    requires IsSign(lead, signed)
    ensures Parsed(s, at, b, signed) == (Signed(lead == MINUS, n), at + 1 + |Digits(n, b)|)
  {
    hide Digits, Value, Split, Magnitude, Next, DigitVal;
    HoldsPart(s, at, Fill(lead, 1), Sign(false) + Body(n, b, lower));
    assert CharAt(s, at) == lead;
    assert Sign(false) + Body(n, b, lower) == Fill(DIG_0, 0) + Body(n, b, lower);
    SpaceEndIs(s, at, at);
    TextBack(s, at, at + 1, 0, n, b, lower, signed);
  }

  /** Digits as padding change the value, or stop short of the sign. */
  lemma DigitPadding(s: seq<Char>, at: nat, n: int, b: nat, lead: Char, pad: nat, lower: bool, signed: bool)
    requires 2 <= b <= 36 && InRange(n, signed)
    requires HoldsPadded(s, at, n, b, lead, pad, lower)
    requires DigitVal(lead) < b
    ensures var (r, next) := Parsed(s, at, b, signed);
      && (n >= 0 ==> next == at + pad + |Digits(n, b)|)
      && (n >= 0 ==> (r == n <==> n == if signed then INT_32S_MAX else INT_32U_MAX))
      && (n < 0 ==> next == at + pad)
  {
    hide Digits, Value, Split;
    var text := Sign(n < 0) + Body(Abs(n), b, lower);
    HoldsPart(s, at, Fill(lead, pad), text);
    assert CharAt(s, at) == lead;
    SpaceEndIs(s, at, at);
    if n >= 0 {
      assert text == Fill(DIG_0, 0) + Body(n, b, lower);
      DigitRun(s, at, n, b, lead, pad, lower);
      NoPrefix(s, at, b, signed, at + pad + |Digits(n, b)|);
    } else {
      assert CharAt(s, at + pad) == MINUS;
      NoPrefix(s, at, b, signed, at + pad);
    }
  }

  /** A string that starts with a digit other than '0' is all digits up to `end`. */
  lemma NoPrefix(s: seq<Char>, at: nat, b: nat, signed: bool, end: nat)
    requires 2 <= b <= 36 && at < end
    requires SpaceEnd(s, at) == at && CharAt(s, at) != DIG_0
    requires forall k :: at <= k < end ==> DigitVal(CharAt(s, k)) < b
    requires DigitVal(CharAt(s, end)) >= b
    ensures Split(s, at, b, signed) == Parts(at, false, at, b, at, end)
  {
    assert DigitVal(CharAt(s, at)) < b;
    var r := RunEnd(s, at, b);
    assert !(r < end) && !(end < r);
  }

  lemma DigitRun(s: seq<Char>, at: nat, n: nat, b: nat, lead: Char, pad: nat, lower: bool)
    requires 2 <= b <= 36 && pad > 0 && 0 < DigitVal(lead) < b
    requires forall k :: at <= k < at + pad ==> CharAt(s, k) == lead
    requires HoldsDigits(s, at + pad, 0, n, b, lower)
    ensures var end := at + pad + |Digits(n, b)|;
      && (forall k :: at <= k < end ==> DigitVal(CharAt(s, k)) < b)
      && DigitVal(CharAt(s, end)) >= b
      && Value(DigitVals(s, at, end), b) > n
  {
    hide Digits, Value, HoldsDigits, DigitVal, CharAt;
    var mid, end := at + pad, at + pad + |Digits(n, b)|;
    DigitValsBack(s, mid, 0, n, b, lower);
    DigitsValue(n, b);
    var vs, ds := DigitVals(s, at, mid), DigitVals(s, mid, end);
    assert ds == Digits(n, b);
    DigitValsConcat(s, at, mid, end);
    assert vs[0] == DigitVal(CharAt(s, at));
    LeadingDigitAdds(vs, ds, b);
  }

  lemma DigitValsConcat(s: seq<Char>, i: nat, j: nat, k: nat)
    requires i <= j <= k
    ensures DigitVals(s, i, k) == DigitVals(s, i, j) + DigitVals(s, j, k)
  {
  }

  /** Any other padding stops the parser before it has consumed anything. */
  lemma OtherPadding(s: seq<Char>, at: nat, n: int, b: nat, lead: Char, pad: nat, lower: bool, signed: bool)
    requires 2 <= b <= 36 && InRange(n, signed)
    requires HoldsPadded(s, at, n, b, lead, pad, lower)
    requires DigitVal(lead) >= b
    requires !(pad == 1 && n >= 0 && IsSign(lead, signed))
    ensures Parsed(s, at, b, signed).1 == at
  {
    hide Digits, Value, Body;
    HoldsPart(s, at, Fill(lead, pad), Sign(n < 0) + Body(Abs(n), b, lower));
    assert CharAt(s, at) == lead;
    SpaceEndIs(s, at, at);
    if IsSign(lead, signed) {
      assert CharAt(s, at + 1) == if pad > 1 then lead else MINUS;
    }
  }

  // ---------------------------------------------------------------------------------------------
  // Numerals with a prefix, and the base found from the text
  // ---------------------------------------------------------------------------------------------

  /** Digits from `e` to the end of the string are one run, which denotes the number. */
  lemma RunBack(s: seq<Char>, e: nat, z: nat, n: nat, b: nat, lower: bool)
    requires 2 <= b <= 36 && HoldsDigits(s, e, z, n, b, lower)
    ensures var end := e + z + |Digits(n, b)|;
      && RunEnd(s, e, b) == end > e
      && Value(DigitVals(s, e, end), b) == n
  {
    hide Value, Digits, HoldsDigits;
    DigitValsBack(s, e, z, n, b, lower);
    DigitsValue(n, b);
    LeadingZeros(z, Digits(n, b), b);
    var r := RunEnd(s, e, b);
    assert !(r < e + z + |Digits(n, b)|) && !(e + z + |Digits(n, b)| < r);
  }

  /** The number part at `e`, parsed with base `b`, is read as `n` up to `end`. */
  ghost predicate NumberAt(s: seq<Char>, e: nat, b: nat, n: nat, end: nat)
    requires b <= 36
  {
    var base := InferBase(s, e, b);
    var q := e + PrefixLen(s, e, base);
    e < end && q <= end && RunEnd(s, q, base) == end && Value(DigitVals(s, q, end), base) == n
  }

  /** No prefix, with the base given. */
  lemma PlainNumeral(s: seq<Char>, e: nat, n: nat, b: nat, lower: bool)
    requires 2 <= b <= 36 && HoldsDigits(s, e, 0, n, b, lower)
    ensures NumberAt(s, e, b, n, e + |Digits(n, b)|)
  {
    hide HoldsDigits, Digits, Value, DigitVals;
    NumberBack(s, e, 0, n, b, lower);
  }

  /** No prefix and no base: decimal. A lone '0' is a prefix with nothing after it, and reads as 0. */
  lemma DecimalNumeral(s: seq<Char>, e: nat, n: nat, lower: bool)
    requires HoldsDigits(s, e, 0, n, 10, lower)
    ensures NumberAt(s, e, 0, n, e + |Digits(n, 10)|)
  {
    if n == 0 {
      LoneZero(s, e, lower);
    } else {
      NoLeadingZero(s, e, n, 10, lower);
      assert InferBase(s, e, 0) == 10 && PrefixLen(s, e, 10) == 0;
      hide HoldsDigits, Digits, Value, DigitVals, InferBase, PrefixLen, CharAt, RunEnd;
      NumberBack(s, e, 0, n, 10, lower);
    }
  }

  lemma LoneZero(s: seq<Char>, e: nat, lower: bool)
    requires HoldsDigits(s, e, 0, 0, 10, lower)
    ensures NumberAt(s, e, 0, 0, e + |Digits(0, 10)|)
  {
    assert Digits(0, 10) == [0];
    DigitValsBack(s, e, 0, 0, 10, lower);
    assert CharAt(s, e) == DIG_0 by {
      assert DigitVals(s, e, e + 1)[0] == 0;
      hide HoldsDigits;
    }
    hide HoldsDigits, Value, DigitVals;
    EmptyRun(s, e + 1, 8);
  }

  lemma NoLeadingZero(s: seq<Char>, e: nat, n: nat, b: nat, lower: bool)
    requires 2 <= b <= 36 && n > 0 && HoldsDigits(s, e, 0, n, b, lower)
    ensures CharAt(s, e) != DIG_0
  {
    hide HoldsDigits;
    DigitValsBack(s, e, 0, n, b, lower);
    TopDigit(n, b);
    hide Digits;
    assert DigitVals(s, e, e + |Digits(n, b)|)[0] == Digits(n, b)[0];
  }

  /** A prefix '0', for base 8 given or not. */
  lemma OctalNumeral(s: seq<Char>, e: nat, n: nat, b: nat, lower: bool)
    requires b == 0 || b == 8
    requires HoldsDigits(s, e, 1, n, 8, lower)
    ensures NumberAt(s, e, b, n, e + 1 + |Digits(n, 8)|)
  {
    assert CharAt(s, e) == DIG_0 by {
      assert (Fill(DIG_0, 1) + Body(n, 8, lower))[0] == DIG_0;
    }
    hide HoldsDigits, Digits, Value;
    DigitValsBack(s, e, 1, n, 8, lower);
    hide DigitVals;
    NumberBack(s, e, 1, n, 8, lower);
    assert DigitVal(CharAt(s, e + 1)) < 8;
  }

  /** A prefix "0x" or "0X", for base 16 given or not. */
  lemma HexNumeral(s: seq<Char>, e: nat, n: nat, b: nat, lower: bool)
    requires b == 0 || b == 16
    requires CharAt(s, e) == DIG_0 && IsX(CharAt(s, e + 1))
    requires HoldsDigits(s, e + 2, 0, n, 16, lower)
    ensures NumberAt(s, e, b, n, e + 2 + |Digits(n, 16)|)
  {
    FirstDigit(s, e + 2, 0, n, 16, lower);
    ClassesByCode(CharAt(s, e + 2));
    assert InferBase(s, e, b) == 16 && PrefixLen(s, e, 16) == 2;
    hide HoldsDigits, Digits, Value, DigitVals, InferBase, PrefixLen, RunEnd, CharAt;
    RunBack(s, e + 2, 0, n, 16, lower);
  }

  /** How a number may be written for a parse with base `b`: `prefix` and then digits of `base`. */
  ghost predicate IsNumeral(prefix: seq<Char>, b: nat, base: nat) {
    || (prefix == [] && base == if b == 0 then 10 else b)
    || (prefix == [0x30] && (b == 0 || b == 8) && base == 8)
    || ((prefix == [0x30, 0x78] || prefix == [0x30, 0x58]) && (b == 0 || b == 16) && base == 16)
  }

  lemma PrefixBase(prefix: seq<Char>, b: nat, base: nat)
    requires IsNumeral(prefix, b, base)
    ensures prefix == [] || base == 8 || base == 16
  {
  }

  lemma PlainCase(s: seq<Char>, e: nat, prefix: seq<Char>, n: nat, b: nat, base: nat, lower: bool)
    requires prefix == []
    requires 2 <= base <= 36 && IsNumeral(prefix, b, base)
    requires Holds(s, e, prefix + Body(n, base, lower))
    ensures b <= 36 && NumberAt(s, e, b, n, e + |Digits(n, base)|)
  {
    hide Digits, Body, NumberAt;
    assert prefix + Body(n, base, lower) == Fill(DIG_0, 0) + Body(n, base, lower);
    if b == 0 {
      DecimalNumeral(s, e, n, lower);
    } else {
      PlainNumeral(s, e, n, b, lower);
    }
  }

  lemma OctalCase(s: seq<Char>, e: nat, prefix: seq<Char>, n: nat, b: nat, lower: bool)
    requires prefix != [] && IsNumeral(prefix, b, 8)
    requires Holds(s, e, prefix + Body(n, 8, lower))
    ensures b <= 36 && NumberAt(s, e, b, n, e + |prefix| + |Digits(n, 8)|)
  {
    hide Digits, Body, NumberAt;
    assert prefix == Fill(DIG_0, 1);
    OctalNumeral(s, e, n, b, lower);
  }

  lemma HexCase(s: seq<Char>, e: nat, prefix: seq<Char>, n: nat, b: nat, lower: bool)
    requires prefix != [] && IsNumeral(prefix, b, 16)
    requires Holds(s, e, prefix + Body(n, 16, lower))
    ensures b <= 36 && NumberAt(s, e, b, n, e + |prefix| + |Digits(n, 16)|)
  {
    hide Digits, Body, NumberAt, CharAt;
    HoldsPart(s, e, prefix, Body(n, 16, lower));
    assert CharAt(s, e) == prefix[0] && CharAt(s, e + 1) == prefix[1];
    assert Fill(DIG_0, 0) + Body(n, 16, lower) == Body(n, 16, lower);
    HexNumeral(s, e, n, b, lower);
  }

  lemma NumeralAt(s: seq<Char>, e: nat, prefix: seq<Char>, n: nat, b: nat, base: nat, lower: bool)
    requires 2 <= base <= 36 && IsNumeral(prefix, b, base)
    requires Holds(s, e, prefix + Body(n, base, lower))
    ensures NumberAt(s, e, b, n, e + |prefix| + |Digits(n, base)|)
    ensures b <= 36
  {
    hide *;
    PrefixBase(prefix, b, base);
    if prefix == [] {
      PlainCase(s, e, prefix, n, b, base, lower);
    } else if base == 8 {
      OctalCase(s, e, prefix, n, b, lower);
    } else {
      HexCase(s, e, prefix, n, b, lower);
    }
  }

  lemma NumeralStart(prefix: seq<Char>, n: nat, b: nat, base: nat, lower: bool)
    requires 2 <= base <= 36 && IsNumeral(prefix, b, base)
    ensures var text := prefix + Body(n, base, lower);
      text != [] && DigitVal(text[0]) < 36
    ensures BaseOk(b)
  {
    DigitsBelow36(n, base);
  }

  /** What a parser makes of a numeral: white space, sign, prefix and digits, in whatever letter case,
      give the number, or the limit of the type it lies beyond; and everything is consumed. */
  lemma ReadsNumeral(s: seq<Char>, at: nat, blanks: seq<Char>, sign: seq<Char>, prefix: seq<Char>,
                     n: nat, b: nat, base: nat, lower: bool, signed: bool)
    requires forall i :: 0 <= i < |blanks| ==> blanks[i] == 0x20 || 0x09 <= blanks[i] <= 0x0D
    requires sign == [] || sign == [0x2B] || (signed && sign == [0x2D])
    requires 2 <= base <= 36 && IsNumeral(prefix, b, base)
    requires Holds(s, at, blanks + (sign + (prefix + Body(n, base, lower))))
    ensures BaseOk(b)
    ensures var v: int := if sign == [0x2D] then 0 - n else n;
      var least, greatest := if signed then -0x8000_0000 else 0, if signed then 0x7FFF_FFFF else 0xFFFF_FFFF;
      Parsed(s, at, b, signed) ==
        (if v < least then least else if v > greatest then greatest else v,
         at + |blanks| + |sign| + |prefix| + |Digits(n, base)|)
  {
    hide *;
    var text := prefix + Body(n, base, lower);
    var e := at + |blanks| + |sign|;
    var end := e + |prefix| + |Digits(n, base)|;
    NumeralStart(prefix, n, b, base, lower);
    SignFound(s, at, blanks, sign, text, signed);
    NumeralAt(s, e, prefix, n, b, base, lower);
    SplitAtNumber(s, at, e, b, n, end, signed);
    Saturated(s, at, b, n, sign == [0x2D], end, signed);
  }

  /** The result of either parser for a given split, with its limits. */
  lemma Saturated(s: seq<Char>, at: nat, b: nat, n: nat, neg: bool, end: nat, signed: bool)
    requires BaseOk(b) && (neg ==> signed)
    requires var p := Split(s, at, b, signed);
      p.neg == neg && p.numStart <= p.numEnd && Magnitude(s, p) == n && Next(at, p) == end
    ensures var v: int := if neg then 0 - n else n;
      var least, greatest := if signed then -0x8000_0000 else 0, if signed then 0x7FFF_FFFF else 0xFFFF_FFFF;
      Parsed(s, at, b, signed) == (if v < least then least else if v > greatest then greatest else v, end)
  {
    hide Split, Magnitude, Next;
  }

  /** White space and sign are found, and the numeral stands behind them. */
  lemma SignFound(s: seq<Char>, at: nat, blanks: seq<Char>, sign: seq<Char>, text: seq<Char>, signed: bool)
    requires forall i :: 0 <= i < |blanks| ==> blanks[i] == 0x20 || 0x09 <= blanks[i] <= 0x0D
    requires sign == [] || sign == [0x2B] || (signed && sign == [0x2D])
    requires text != [] && DigitVal(text[0]) < 36
    requires Holds(s, at, blanks + (sign + text))
    ensures var ws := at + |blanks|;
      && SpaceEnd(s, at) == ws
      && |sign| == (if IsSign(CharAt(s, ws), signed) then 1 else 0)
      && (CharAt(s, ws) == 0x2D <==> sign == [0x2D])
      && Holds(s, ws + |sign|, text)
  {
    hide Holds, CharAt, SpaceEnd;
    var ws := at + |blanks|;
    HoldsPart(s, at, blanks, sign + text);
    HoldsPart(s, ws, sign, text);
    HoldsFirst(s, ws + |sign|, text);
    SpaceEndIs(s, at, ws);
  }

  lemma HoldsFirst(s: seq<Char>, at: nat, f: seq<Char>)
    requires Holds(s, at, f) && f != []
    ensures CharAt(s, at) == f[0]
  {
  }

  lemma SplitAtNumber(s: seq<Char>, at: nat, e: nat, b: nat, n: nat, end: nat, signed: bool)
    requires b <= 36 && NumberAt(s, e, b, n, end)
    requires var ws := SpaceEnd(s, at); e == ws + if IsSign(CharAt(s, ws), signed) then 1 else 0
    ensures var p := Split(s, at, b, signed);
      && p.neg == (CharAt(s, SpaceEnd(s, at)) == 0x2D)
      && p.numStart <= p.numEnd && Magnitude(s, p) == n
      && Next(at, p) == end
  {
    hide Value, DigitVals;
  }

  /** "0x" with no hexadecimal digit after it is the number 0 and ends before the 'x'. */
  lemma PrefixAlone(s: seq<Char>, at: nat, b: nat, signed: bool)
    requires b == 0 || b == 16
    requires CharAt(s, at) == 0x30 && CharAt(s, at + 1) in {0x58, 0x78}
    requires var c := CharAt(s, at + 2); !(0x30 <= c <= 0x39 || 0x41 <= c <= 0x46 || 0x61 <= c <= 0x66)
    ensures Parsed(s, at, b, signed) == (0, at + 1)
  {
    SpaceEndIs(s, at, at);
    ClassesByCode(CharAt(s, at + 2));
    var p := Split(s, at, b, signed);
    assert InferBase(s, at, b) == 16 && PrefixLen(s, at, 16) == 1;
    assert p == Parts(at, false, at, 16, at + 1, at + 1);
    hide Split, InferBase, PrefixLen, CharAt, Value;
    EmptyRun(s, at + 1, 16);
  }

  // ---------------------------------------------------------------------------------------------
  // Through memory
  // ---------------------------------------------------------------------------------------------

  /** `after` is the memory a formatting call with a terminator leaves, from `before`. */
  ghost predicate Formatted(before: seq<Char>, after: seq<Char>, at: nat, n: int, width: nat, b: nat,
                            lead: Char, lower: bool) {
    var out := Field(Abs(n), width, b, n < 0, lead, lower) + Terminator(true);
    at + |out| <= |before| && after == before[..at] + out + before[at + |out|..]
  }

  /** Formatting into memory and parsing it from there. */
  lemma RoundTripThroughMemory(before: seq<Char>, after: seq<Char>, at: nat, n: int, width: nat, b: nat,
                               lead: Char, lower: bool, signed: bool)
    requires InRange(n, signed)
    requires FormatOk(Abs(n), width, b, n < 0, lead, lower)
    requires Formatted(before, after, at, n, width, b, lead, lower)
    ensures IsStr(after, at) && BaseOk(b)
    ensures Parsed(after, at, b, signed) == (n, at + |Layout(Abs(n), width, b, n < 0, lead, lower)|) <==>
      ReadsBack(n, Padding(n, width, b, lead), lead, b, signed)
  {
    var f := Layout(Abs(n), width, b, n < 0, lead, lower);
    hide Layout, Needed, ReadsBack, Parsed, LeadAccepted, Padding;
    StandsInMemory(before, after, at, f);
    RoundTripExact(after, at, n, width, b, lead, lower, signed);
  }

  lemma StandsInMemory(before: seq<Char>, after: seq<Char>, at: nat, f: seq<Char>)
    requires at + |f| + 1 <= |before|
    requires after == before[..at] + (f + Terminator(true)) + before[at + |f| + 1..]
    ensures Holds(after, at, f) && IsStr(after, at)
  {
    assert after[at + |f|] == NUL;
  }

  /** The same digits in either letter case are equal to a comparison that ignores case, and differ only
      in case for the parser. */
  lemma EitherCase(n: nat, b: nat, max: nat)
    requires 2 <= b <= 36
    ensures SameButCase(Body(n, b, true), Body(n, b, false))
    ensures CmpN(Lower(Body(n, b, true)), 0, Lower(Body(n, b, false)), 0, max) == 0
  {
    var s, t := Body(n, b, true), Body(n, b, false);
    DigitsBelow36(n, b);
    forall i | 0 <= i < |s|
      ensures SameLetter(s[i], t[i])
    {
      DigitCases(Digits(n, b)[i]);
    }
    hide Body, Lower, CmpN, LenN;
    IgnoreCaseZero(s, 0, t, 0, max);
    forall k: nat
      ensures SameLetterAt(s, 0, t, 0, k)
    {
    }
  }

  /** A field of question marks is no number in any base: a caller can tell a failed format. */
  lemma FailureParsesAsNothing(before: seq<Char>, after: seq<Char>, at: nat, n: int, width: nat, b: nat,
                               lead: Char, lower: bool, base: nat, signed: bool)
    requires !FormatOk(Abs(n), width, b, n < 0, lead, lower)
    requires Formatted(before, after, at, n, width, b, lead, lower)
    requires BaseOk(base)
    ensures Parsed(after, at, base, signed) == (0, at)
  {
    hide Layout, FormatOk;
    assert CharAt(after, at) == if width > 0 then QUESTION else NUL;
    SpaceEndIs(after, at, at);
    var p := Split(after, at, base, signed);
    assert p.numStart == p.numEnd == at;
    assert DigitVals(after, at, at) == [];
  }
}
