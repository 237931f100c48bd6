/** The number formatter Str_FmtNbr_Int32() and its two public wrappers (lib_str.c). */
module StrFormat {
  import opened Word
  import opened Ascii
  import opened Positional
  import opened Arith

  // ---------------------------------------------------------------------------------------------
  // What a formatted field looks like
  // ---------------------------------------------------------------------------------------------

  function Fill(c: Char, k: nat): seq<Char> {
    seq(k, _ => c)
  }

  function DigitChars(ds: seq<nat>, lower: bool): (s: seq<Char>)
    requires AreDigits(ds, 36)
    ensures |s| == |ds|
  {
    seq(|ds|, i requires 0 <= i < |ds| => DigitChar(ds[i], lower))
  }

  lemma DigitsBelow36(n: nat, b: nat)
    requires 2 <= b <= 36
    ensures AreDigits(Digits(n, b), 36) && Digits(n, b) != []
  {
    DigitsValue(n, b);
  }

  /** The significant digits of `n`, as text. */
  function Body(n: nat, b: nat, lower: bool): (s: seq<Char>)
    requires 2 <= b <= 36
    ensures |s| == |Digits(n, b)|
  {
    DigitsBelow36(n, b);
    DigitChars(Digits(n, b), lower)
  }

  function Sign(neg: bool): seq<Char> {
    if neg then [MINUS] else []
  }

  /** How many characters `n` needs, sign included. */
  function Needed(n: nat, b: nat, neg: bool): nat
    requires 2 <= b <= 36
  {
    |Digits(n, b)| + |Sign(neg)|
  }

  /** The field: padded to `width` if there is a lead character, otherwise just as long as needed;
      the sign goes left of '0' padding and right of any other padding. */
  function Layout(n: nat, width: nat, b: nat, neg: bool, lead: Char, lower: bool): (s: seq<Char>)
    requires 2 <= b <= 36
    requires Needed(n, b, neg) <= width
    ensures |s| == if lead == NUL then Needed(n, b, neg) else width
  {
    Front(width - Needed(n, b, neg), neg, lead) + Body(n, b, lower)
  }

  /** What stands left of the digits. */
  function Front(padding: nat, neg: bool, lead: Char): seq<Char> {
    if lead == NUL then Sign(neg)
    else if lead == DIG_0 then Sign(neg) + Fill(lead, padding)
    else Fill(lead, padding) + Sign(neg)
  }

  /** `c` is how the formatter writes some digit of base `b`. */
  ghost predicate IsWrittenDigit(c: Char, b: nat, lower: bool)
    requires b <= 36
  {
    exists d: nat :: d < b && DigitChar(d, lower) == c
  }

  /** No lead character, or a printable one that is '0' or not a digit the formatter could write. */
  ghost predicate LeadAccepted(lead: Char, b: nat, lower: bool)
    requires b <= 36
  {
    lead == NUL || (IsPrint(lead) && (lead == DIG_0 || !IsWrittenDigit(lead, b, lower)))
  }

  /** The arguments for which a number is formatted. */
  ghost predicate FormatOk(n: nat, width: nat, b: nat, neg: bool, lead: Char, lower: bool) {
    2 <= b <= 36 && LeadAccepted(lead, b, lower) && Needed(n, b, neg) <= width
  }

  /** What the field holds after any call: the number, or `width` question marks. */
  ghost function Field(n: nat, width: nat, b: nat, neg: bool, lead: Char, lower: bool): seq<Char> {
    if FormatOk(n, width, b, neg, lead, lower) then Layout(n, width, b, neg, lead, lower)
    else Fill(QUESTION, width)
  }

  ghost function Terminator(nul: bool): (s: seq<Char>)
    ensures |s| == if nul then 1 else 0
  {
    if nul then [NUL] else []
  }

  /** The indices hi - 1, hi - 2, ..., hi - k. */
  ghost function Descending(hi: int, k: nat): (s: seq<int>)
    ensures |s| == k && forall i :: 0 <= i < k ==> s[i] == hi - 1 - i
  {
    seq(k, i => hi - 1 - i)
  }

  /** A number is formatted if and only if base and lead character are legal and, the sign taken off
      the width, it is below the base to the power of what remains. */
  lemma FormatOkExact(n: nat, width: nat, b: nat, neg: bool, lead: Char, lower: bool)
    ensures FormatOk(n, width, b, neg, lead, lower) <==>
      var sign := if neg then 1 else 0;
      2 <= b <= 36 && LeadAccepted(lead, b, lower) && width > sign && n < Pow(b, width - sign)
  {
    hide LeadAccepted;
    if 2 <= b <= 36 {
      var d, room := |Digits(n, b)|, width - if neg then 1 else 0;
      DigitsCount(n, b);
      if room >= d {
        PowMonotone(b, d, room);
      } else if room > 0 {
        PowMonotone(b, room, d - 1);
      }
    }
  }

  /** The field of a number, character by character from the right: first the digits n / b^i mod b,
      written 0-9 and then A-Z or a-z; further left '-' at one place, and the lead character at every
      other. */
  lemma FieldMeans(n: nat, width: nat, b: nat, neg: bool, lead: Char, lower: bool, i: nat)
    requires FormatOk(n, width, b, neg, lead, lower)
    ensures var f, d, sign := Field(n, width, b, neg, lead, lower), |Digits(n, b)|, if neg then 1 else 0;
      && |f| == (if lead == 0 then d + sign else width)
      && d + sign <= |f|
      && (i < d ==>
            Pow(b, i) >= 1 &&
            var v := n / Pow(b, i) % b;
            f[|f| - 1 - i] as int == if v < 10 then 0x30 + v else (if lower then 0x61 else 0x41) + (v - 10))
      && (d <= i < |f| ==>
            f[|f| - 1 - i] == if neg && i == (if lead == 0x30 then |f| - 1 else d) then 0x2D else lead)
  {
    FieldSize(n, width, b, neg, lead, lower);
    hide Layout, Digits, DigitChar, Needed, Field, FormatOk, FromRight;
    var d, f := |Digits(n, b)|, Layout(n, width, b, neg, lead, lower);
    if i < |f| {
      LayoutFromRight(n, width, b, neg, lead, lower, i);
      FromRightMeans(n, width, b, neg, lead, lower, i);
    }
  }

  lemma FieldSize(n: nat, width: nat, b: nat, neg: bool, lead: Char, lower: bool)
    requires FormatOk(n, width, b, neg, lead, lower)
    ensures 2 <= b <= 36 && Needed(n, b, neg) <= width
    ensures Field(n, width, b, neg, lead, lower) == Layout(n, width, b, neg, lead, lower)
    ensures var d, sign := |Digits(n, b)|, if neg then 1 else 0;
      d + sign <= |Layout(n, width, b, neg, lead, lower)| == if lead == 0 then d + sign else width
  {
    hide Layout, LeadAccepted, Digits;
  }

  lemma FromRightMeans(n: nat, width: nat, b: nat, neg: bool, lead: Char, lower: bool, i: nat)
    requires 2 <= b <= 36 && Needed(n, b, neg) <= width
    ensures var c, d := FromRight(n, width, b, neg, lead, lower, i), |Digits(n, b)|;
      && (i < d ==>
            Pow(b, i) >= 1 &&
            var v := n / Pow(b, i) % b;
            c as int == if v < 10 then 0x30 + v else (if lower then 0x61 else 0x41) + (v - 10))
      && (i >= d ==> c == if neg && i == (if lead == 0x30 then width - 1 else d) then 0x2D else lead)
  {
    DigitsBelow36(n, b);
    hide Digits, DigitChar;
    if i < |Digits(n, b)| {
      DigitAt(n, b, i);
      DigitCode(Digits(n, b)[|Digits(n, b)| - 1 - i], lower);
    }
  }

  lemma DigitCode(v: nat, lower: bool)
    requires v < 36
    ensures DigitChar(v, lower) as int == if v < 10 then 0x30 + v else (if lower then 0x61 else 0x41) + (v - 10)
  {
  }

  // ---------------------------------------------------------------------------------------------
  // Lead characters
  // ---------------------------------------------------------------------------------------------

  /** The formatter's test for a lead character that is a digit of the base, on wrapped 8-bit
      differences. */
  predicate LeadCharDig(lead: Char, b: U8, lower: bool) {
    var delta0 := (lead - DIG_0) % MOD_8;
    var deltaA := if !lower then (lead - UPPER_A) % MOD_8 else (lead - LOWER_A) % MOD_8;
    (b <= 10 && delta0 < b) || (b > 10 && (delta0 < 10 || deltaA < b - 10))
  }

  lemma LeadCharDigExact(lead: Char, b: U8, lower: bool)
    requires 2 <= b <= 36
    ensures LeadCharDig(lead, b, lower) <==> IsWrittenDigit(lead, b, lower)
  {
    var a := if lower then LOWER_A else UPPER_A;
    WrappedBelow(lead, DIG_0, Min(b, 10));
    if b > 10 {
      WrappedBelow(lead, a, b - 10);
    }
    if LeadCharDig(lead, b, lower) {
      hide LeadCharDig;
      assert DigitChar(if IsDig(lead) then lead - DIG_0 else lead - a + 10, lower) == lead;
    }
  }

  /** A wrapped 8-bit difference is below `n` just for the `n` characters that start at `from`. */
  lemma WrappedBelow(c: Char, from: Char, n: nat)
    requires from + n <= MOD_8
    ensures (c - from) % MOD_8 < n <==> from <= c < from + n
  {
  }

  /** The manual's rule is that a lead character other than '0' must not be a digit of the base. The
      code checks one letter case only: it also lets through exactly the letters of the other case. */
  lemma LeadRuleGap(lead: Char, b: nat, lower: bool)
    requires 2 <= b <= 36
    ensures LeadAccepted(lead, b, lower) <==>
              || lead == NUL
              || lead == DIG_0
              || (IsPrint(lead) && DigitVal(lead) >= b)
              || (10 <= DigitVal(lead) < b && (if lower then IsUpper(lead) else IsLower(lead)))
  {
    var v := DigitVal(lead);
    if v < b && DigitChar(v, lower) == lead {
      assert IsWrittenDigit(lead, b, lower);
    }
    if IsWrittenDigit(lead, b, lower) {
      var d: nat :| d < b && DigitChar(d, lower) == lead;
      assert d == v;
    }
  }

  // ---------------------------------------------------------------------------------------------
  // The field, read from its right end
  // ---------------------------------------------------------------------------------------------

  /** The character `i` places left of the last one. */
  function FromRight(n: nat, width: nat, b: nat, neg: bool, lead: Char, lower: bool, i: nat): Char
    requires 2 <= b <= 36
    requires Needed(n, b, neg) <= width
  {
    var d := |Digits(n, b)|;
    DigitsBelow36(n, b);
    if i < d then DigitChar(Digits(n, b)[d - 1 - i], lower)
    else LeadOrSign(neg, lead, i, width, d)
  }

  function LeadOrSign(neg: bool, lead: Char, i: nat, width: nat, d: nat): Char {
    if neg && i == (if lead == DIG_0 then width - 1 else d) then MINUS else lead
  }

  lemma LayoutFromRight(n: nat, width: nat, b: nat, neg: bool, lead: Char, lower: bool, i: nat)
    requires 2 <= b <= 36
    requires Needed(n, b, neg) <= width
    requires i < |Layout(n, width, b, neg, lead, lower)|
    ensures var s := Layout(n, width, b, neg, lead, lower);
      s[|s| - 1 - i] == FromRight(n, width, b, neg, lead, lower, i)
  {
    var pad := width - Needed(n, b, neg);
    var front := Front(pad, neg, lead);
    var d := |Digits(n, b)|;
    DigitsBelow36(n, b);
    if i >= d {
      FrontFromRight(pad, neg, lead, i - d);
    }
  }

  lemma FrontFromRight(pad: nat, neg: bool, lead: Char, j: nat)
    requires j < |Front(pad, neg, lead)|
    ensures var f := Front(pad, neg, lead);
      f[|f| - 1 - j] == if neg && j == (if lead == DIG_0 then pad else 0) then MINUS else lead
  {
  }

  /** What the formatting loop can rely on `i` places from the right: how much of the number is left,
      and which character belongs there. */
  lemma LoopStep(n: nat, width: nat, b: nat, neg: bool, lead: Char, lower: bool, i: nat)
    requires 2 <= b <= 36
    requires Needed(n, b, neg) <= width
    requires i < |Layout(n, width, b, neg, lead, lower)|
    ensures var s, d, q := Layout(n, width, b, neg, lead, lower), |Digits(n, b)|, Shifted(n, b, i);
      && (q > 0 || i == 0 <==> i < d)
      && 0 <= q % b < b
      && Shifted(n, b, i + 1) == q / b
      && (i >= d ==> q / b == 0)
      && (i < d ==> s[|s| - 1 - i] == DigitChar(q % b, lower))
      && (i >= d ==> s[|s| - 1 - i] == LeadOrSign(neg, lead, i, width, d))
      && (i >= d && lead == NUL ==> neg && i == d)
  {
    ShiftedDigit(n, b, i);
    ShiftedDigit(n, b, i + 1);
    LayoutFromRight(n, width, b, neg, lead, lower, i);
    DigitsBelow36(n, b);
    RemBound(Shifted(n, b, i), b);
  }

  lemma RemBound(q: nat, b: nat)
    requires b >= 1
    ensures 0 <= q % b < b
  {
  }

  // ---------------------------------------------------------------------------------------------
  // The formatter
  // ---------------------------------------------------------------------------------------------

  /** Counts the digits of `nbr` by dividing until the quotient is below the base. */
  method CountDigits(nbr: U32, base: U8) returns (digMax: nat)
    requires 2 <= base <= 36
    ensures IsDigitCount(nbr, base, digMax)
    ensures digMax <= 32
  {
    var log := nbr;
    digMax := 1;
    while log >= base
      invariant 0 <= log
      invariant |Digits(nbr, base)| == digMax - 1 + |Digits(log, base)|
      decreases log
    {
      DivSmaller(log, base);
      digMax := digMax + 1;
      log := log / base;
    }
    DigitCountUnique(nbr, base, digMax);
    AtMost32(nbr, base, digMax);
  }

  lemma {:induction false} PowBase(a: nat, b: nat, k: nat)
    requires 1 <= a <= b
    ensures Pow(a, k) <= Pow(b, k)
  {
    if k > 0 {
      PowBase(a, b, k - 1);
      assert Pow(a, k) == a * Pow(a, k - 1) && Pow(b, k) == b * Pow(b, k - 1);
      hide Pow;
      MulLe(Pow(a, k - 1), Pow(b, k - 1), a);
      MulLe(a, b, Pow(b, k - 1));
    }
  }

  lemma Pow2Of32()
    ensures Pow(2, 32) == MOD_32
  {
    assert Pow(2, 8) == 0x100;
    assert Pow(2, 12) == 0x1000;
    assert Pow(2, 16) == 0x1_0000;
    assert Pow(2, 20) == 0x10_0000;
    assert Pow(2, 24) == 0x100_0000;
    assert Pow(2, 28) == 0x1000_0000;
  }

  lemma AtMost32(n: U32, b: nat, d: nat)
    requires b >= 2 && IsDigitCount(n, b, d)
    ensures d <= 32
  {
    if d > 32 {
      PowMonotone(b, 32, d - 1);
      PowBase(2, b, 32);
      Pow2Of32();
    }
  }

  /** The first half of Str_FmtNbr_Int32(): validates the arguments and works out the length of the
      field and whether the padding is '0'. */
  method PrepareFmt(nbr: U32, nbrDig: U8, nbrBase: U8, nbrNeg: bool, leadChar: Char, lowerCase: bool)
    returns (fmtInvalid: bool, digFmtd: U8, lead0: bool)
    ensures fmtInvalid <==> !FormatOk(nbr, nbrDig, nbrBase, nbrNeg, leadChar, lowerCase)
    ensures digFmtd == |Field(nbr, nbrDig, nbrBase, nbrNeg, leadChar, lowerCase)|
    ensures fmtInvalid ==>
      && digFmtd == nbrDig
      && forall j :: 0 <= j < digFmtd ==> Field(nbr, nbrDig, nbrBase, nbrNeg, leadChar, lowerCase)[j] == QUESTION
    ensures digFmtd <= nbrDig
    ensures !fmtInvalid ==>
      && 2 <= nbrBase <= 36
      && Needed(nbr, nbrBase, nbrNeg) <= nbrDig
      && (lead0 <==> leadChar == DIG_0 && nbrDig > Needed(nbr, nbrBase, nbrNeg))
  {
    fmtInvalid := false;
    if nbrDig < 1 {
      fmtInvalid := true;
    }
    if nbrBase < 2 || nbrBase > 36 {
      fmtInvalid := true;
    } else {
      LeadCharDigExact(leadChar, nbrBase, lowerCase);
      DigitsBelow36(nbr, nbrBase);
    }
    if leadChar != NUL {
      if !IsPrint(leadChar) {
        fmtInvalid := true;
      } else if leadChar != DIG_0 {
        if LeadCharDig(leadChar, nbrBase, lowerCase) {
          fmtInvalid := true;
        }
      }
    }

    digFmtd, lead0 := nbrDig, false;
    if !fmtInvalid {
      var digMax := CountDigits(nbr, nbrBase);
      DigitCountUnique(nbr, nbrBase, digMax);
      var negSign := if nbrNeg then 1 else 0;
      if nbrDig >= digMax + negSign {
        var digMin := Min(digMax, nbrDig);
        var nbrLead: nat;
        if leadChar != NUL {
          digFmtd := nbrDig;
          nbrLead := nbrDig - digMin - negSign;
        } else {
          digFmtd := digMin + negSign;
          nbrLead := 0;
        }
        lead0 := nbrLead > 0 && leadChar == DIG_0;
      } else {
        fmtInvalid := true;
      }
    }
    if fmtInvalid {
      digFmtd := nbrDig;
    }
  }

  /** One turn of the formatting loop for a valid format: the character to store, if any, and the
      number and sign flag to go on with. */
  method FmtChar(nbr: U32, nbrDig: U8, nbrBase: U8, nbrNeg: bool, leadChar: Char, lowerCase: bool,
                 digFmtd: U8, lead0: bool, i: nat, nbrFmt: nat, negFmtd: bool)
    returns (store: bool, c: Char, nbrNext: nat, negNext: bool)
    requires FormatOk(nbr, nbrDig, nbrBase, nbrNeg, leadChar, lowerCase)
    requires i < digFmtd == |Field(nbr, nbrDig, nbrBase, nbrNeg, leadChar, lowerCase)|
    requires lead0 <==> leadChar == DIG_0 && nbrDig > Needed(nbr, nbrBase, nbrNeg)
    requires nbrFmt == Shifted(nbr, nbrBase, i)
    requires nbrNeg && !lead0 ==> (negFmtd <==> i > |Digits(nbr, nbrBase)|)
    ensures store && c == Field(nbr, nbrDig, nbrBase, nbrNeg, leadChar, lowerCase)[digFmtd - 1 - i]
    ensures nbrNext == Shifted(nbr, nbrBase, i + 1)
    ensures nbrNeg && !lead0 ==> (negNext <==> i + 1 > |Digits(nbr, nbrBase)|)
  {
    hide Layout, Digits, Shifted, LeadAccepted;
    LoopStep(nbr, nbrDig, nbrBase, nbrNeg, leadChar, lowerCase, i);
    store, c, nbrNext, negNext := false, NUL, nbrFmt, negFmtd;
    if nbrFmt > 0 || i == 0 {
      var digVal := nbrFmt % nbrBase;
      store, c := true, if digVal < 10 then digVal + DIG_0
                        else if !lowerCase then (digVal - 10) + UPPER_A
                        else (digVal - 10) + LOWER_A;
      nbrNext := nbrFmt / nbrBase;
    } else if nbrNeg && ((!lead0 && !negFmtd) || (lead0 && i == digFmtd - 1)) {
      store, c := true, MINUS;
      negNext := true;
    } else if leadChar != NUL {
      store, c := true, leadChar;
    }
  }

  /** The loop of Str_FmtNbr_Int32(): stores the field from right to left, one character a turn. */
  method WriteField(nbr: U32, nbrDig: U8, nbrBase: U8, nbrNeg: bool, leadChar: Char, lowerCase: bool,
                    fmtInvalid: bool, digFmtd: U8, lead0: bool, pstr: array<Char>, at: nat)
    returns (ghost written: seq<int>)
    requires at + digFmtd <= pstr.Length
    requires digFmtd == |Field(nbr, nbrDig, nbrBase, nbrNeg, leadChar, lowerCase)|
    requires !fmtInvalid ==>
      && FormatOk(nbr, nbrDig, nbrBase, nbrNeg, leadChar, lowerCase)
      && 2 <= nbrBase <= 36
      && (lead0 <==> leadChar == DIG_0 && nbrDig > Needed(nbr, nbrBase, nbrNeg))
    requires fmtInvalid ==>
      forall j :: 0 <= j < digFmtd ==> Field(nbr, nbrDig, nbrBase, nbrNeg, leadChar, lowerCase)[j] == QUESTION
    modifies pstr
    ensures forall k :: at <= k < at + digFmtd ==>
      pstr[k] == Field(nbr, nbrDig, nbrBase, nbrNeg, leadChar, lowerCase)[k - at]
    ensures forall k :: 0 <= k < pstr.Length && !(at <= k < at + digFmtd) ==> pstr[k] == old(pstr[k])
    ensures |written| == digFmtd
    ensures forall j :: 0 <= j < digFmtd ==> written[j] == at + digFmtd - 1 - j
  {
    hide *;
    ShiftedStart(nbr, nbrBase);
    ghost var field := Field(nbr, nbrDig, nbrBase, nbrNeg, leadChar, lowerCase);
    written := [];
    var p: int := at + digFmtd - 1;
    var nbrFmt: nat := nbr;
    var negFmtd := false;
    for i := 0 to digFmtd
      invariant p == at + digFmtd - 1 - i
      invariant !fmtInvalid ==> nbrFmt == Shifted(nbr, nbrBase, i)
      invariant !fmtInvalid && nbrNeg && !lead0 ==> (negFmtd <==> i > |Digits(nbr, nbrBase)|)
      invariant forall k :: at + digFmtd - i <= k < at + digFmtd ==> pstr[k] == field[k - at]
      invariant forall k :: 0 <= k < pstr.Length && !(at + digFmtd - i <= k < at + digFmtd) ==>
        pstr[k] == old(pstr[k])
      invariant |written| == i
      invariant forall j :: 0 <= j < i ==> written[j] == at + digFmtd - 1 - j
    {
      var store, c := true, QUESTION;
      if !fmtInvalid {
        store, c, nbrFmt, negFmtd := FmtChar(nbr, nbrDig, nbrBase, nbrNeg, leadChar, lowerCase,
                                             digFmtd, lead0, i, nbrFmt, negFmtd);
      }
      if store {
        pstr[p] := c;
        written := written + [p];
        p := p - 1;
      }
    }
  }

  /** The stored characters, one by one, make up the field with its terminator. */
  lemma Spliced(was: seq<Char>, now: seq<Char>, at: nat, field: seq<Char>, nul: bool)
    requires |was| == |now| && at + |field| + |Terminator(nul)| <= |was|
    requires forall k :: at <= k < at + |field| ==> now[k] == field[k - at]
    requires forall k :: 0 <= k < |was| && !(at <= k < at + |field|) ==>
      now[k] == if nul && k == at + |field| then NUL else was[k]
    ensures var out := field + Terminator(nul);
      now == was[..at] + out + was[at + |out|..]
  {
  }

  lemma FailureShown(was: seq<Char>, now: seq<Char>, at: nat, field: seq<Char>, nul: bool)
    requires at + |field| + |Terminator(nul)| <= |was|
    requires var out := field + Terminator(nul); now == was[..at] + out + was[at + |out|..]
    requires forall i :: 0 <= i < |field| ==> field[i] == QUESTION
    ensures |now| == |was| && forall k :: at <= k < at + |field| ==> now[k] == 0x3F
    ensures nul ==> now[at + |field|] == 0
  {
    forall k | at <= k < at + |field|
      ensures now[k] == 0x3F
    {
      assert now[k] == field[k - at];
    }
  }

  lemma Descended(written: seq<int>, at: nat, k: nat, nul: bool)
    requires |written| == k && forall j :: 0 <= j < k ==> written[j] == at + k - 1 - j
    ensures var n := k + |Terminator(nul)|;
      (if nul then [at + k] + written else written) == Descending(at + n, n)
  {
  }

  /** The second half of Str_FmtNbr_Int32(): the terminator, if asked for, and then the field. */
  method WriteString(nbr: U32, nbrDig: U8, nbrBase: U8, nbrNeg: bool, leadChar: Char, lowerCase: bool,
                     fmtInvalid: bool, digFmtd: U8, lead0: bool, nul: bool, pstr: array<Char>, at: nat)
    returns (ghost written: seq<int>)
    requires at + digFmtd + |Terminator(nul)| <= pstr.Length
    requires digFmtd == |Field(nbr, nbrDig, nbrBase, nbrNeg, leadChar, lowerCase)|
    requires !fmtInvalid ==>
      && FormatOk(nbr, nbrDig, nbrBase, nbrNeg, leadChar, lowerCase)
      && 2 <= nbrBase <= 36
      && (lead0 <==> leadChar == DIG_0 && nbrDig > Needed(nbr, nbrBase, nbrNeg))
    requires fmtInvalid ==>
      forall j :: 0 <= j < digFmtd ==> Field(nbr, nbrDig, nbrBase, nbrNeg, leadChar, lowerCase)[j] == QUESTION
    modifies pstr
    ensures
      var out := Field(nbr, nbrDig, nbrBase, nbrNeg, leadChar, lowerCase) + Terminator(nul);
      && pstr[..] == old(pstr[..])[..at] + out + old(pstr[..])[at + |out|..]
      && written == Descending(at + |out|, |out|)
    ensures fmtInvalid ==>
      && (forall k :: at <= k < at + digFmtd ==> pstr[..][k] == 0x3F)
      && (nul ==> pstr[..][at + digFmtd] == 0)
  {
    hide *;
    ghost var was := pstr[..];
    ghost var field := Field(nbr, nbrDig, nbrBase, nbrNeg, leadChar, lowerCase);
    var p: nat := at + digFmtd;
    if nul {
      pstr[p] := NUL;
    }
    written := WriteField(nbr, nbrDig, nbrBase, nbrNeg, leadChar, lowerCase,
                          fmtInvalid, digFmtd, lead0, pstr, at);
    Spliced(was, pstr[..], at, field, nul);
    Descended(written, at, digFmtd, nul);
    if nul {
      written := [p] + written;
    }
    if fmtInvalid {
      FailureShown(was, pstr[..], at, field, nul);
    }
  }

  /** Str_FmtNbr_Int32(). `pstr` and `at` stand for the character pointer; the result says whether
      it is returned (true) or NULL is. `written` records every index stored to, in order. */
  method FmtNbrInt32(nbr: U32, nbrDig: U8, nbrBase: U8, nbrNeg: bool, leadChar: Char, lowerCase: bool,
                     nul: bool, pstr: array?<Char>, at: nat)
    returns (ok: bool, ghost written: seq<int>)
    requires pstr != null ==> at + nbrDig + (if nul then 1 else 0) <= pstr.Length
    modifies pstr
    ensures ok <==> pstr != null && FormatOk(nbr, nbrDig, nbrBase, nbrNeg, leadChar, lowerCase)
    ensures pstr != null && !ok ==>
      && (forall k :: at <= k < at + nbrDig ==> pstr[..][k] == 0x3F)
      && (nul ==> pstr[..][at + nbrDig] == 0)
    ensures pstr != null ==>
      var out := Field(nbr, nbrDig, nbrBase, nbrNeg, leadChar, lowerCase) + Terminator(nul);
      && at + |out| <= pstr.Length
      && pstr[..] == old(pstr[..])[..at] + out + old(pstr[..])[at + |out|..]
      && written == Descending(at + |out|, |out|)
  {
    hide *;
    if pstr == null {
      return false, [];
    }
    var fmtInvalid, digFmtd, lead0 := PrepareFmt(nbr, nbrDig, nbrBase, nbrNeg, leadChar, lowerCase);
    written := WriteString(nbr, nbrDig, nbrBase, nbrNeg, leadChar, lowerCase,
                           fmtInvalid, digFmtd, lead0, nul, pstr, at);
    ok := !fmtInvalid;
  }

  /** Str_FmtNbr_Int32U(). */
  method FmtNbrInt32U(nbr: U32, nbrDig: U8, nbrBase: U8, leadChar: Char, lowerCase: bool, nul: bool,
                      pstr: array?<Char>, at: nat)
    returns (ok: bool)
    requires pstr != null ==> at + nbrDig + (if nul then 1 else 0) <= pstr.Length
    modifies pstr
    ensures ok <==> pstr != null && FormatOk(nbr, nbrDig, nbrBase, false, leadChar, lowerCase)
    ensures pstr != null && !ok ==>
      && (forall k :: at <= k < at + nbrDig ==> pstr[..][k] == 0x3F)
      && (nul ==> pstr[..][at + nbrDig] == 0)
    ensures pstr != null ==>
      var out := Field(nbr, nbrDig, nbrBase, false, leadChar, lowerCase) + Terminator(nul);
      && at + |out| <= pstr.Length
      && pstr[..] == old(pstr[..])[..at] + out + old(pstr[..])[at + |out|..]
  {
    hide FormatOk, Field;
    ghost var written;
    ok, written := FmtNbrInt32(nbr, nbrDig, nbrBase, false, leadChar, lowerCase, nul, pstr, at);
  }

  function Abs(n: int): nat {
    if n < 0 then -n else n
  }

  /** Str_FmtNbr_Int32S(). Negating the least number is undefined in C; as on any two's-complement
      machine it is taken to wrap to itself, which the cast then turns into the right magnitude. */
  method FmtNbrInt32S(nbr: S32, nbrDig: U8, nbrBase: U8, leadChar: Char, lowerCase: bool, nul: bool,
                      pstr: array?<Char>, at: nat)
    returns (ok: bool)
    requires pstr != null ==> at + nbrDig + (if nul then 1 else 0) <= pstr.Length
    modifies pstr
    ensures ok <==> pstr != null && FormatOk(Abs(nbr), nbrDig, nbrBase, nbr < 0, leadChar, lowerCase)
    ensures pstr != null && !ok ==>
      && (forall k :: at <= k < at + nbrDig ==> pstr[..][k] == 0x3F)
      && (nul ==> pstr[..][at + nbrDig] == 0)
    ensures pstr != null ==>
      var out := Field(Abs(nbr), nbrDig, nbrBase, nbr < 0, leadChar, lowerCase) + Terminator(nul);
      && at + |out| <= pstr.Length
      && pstr[..] == old(pstr[..])[..at] + out + old(pstr[..])[at + |out|..]
  {
    hide FormatOk, Field;
    var nbrFmt: S32, nbrNeg := nbr, false;
    if nbr < 0 {
      nbrFmt := if nbr == INT_32S_MIN then INT_32S_MIN else -nbr;
      nbrNeg := true;
    }
    ghost var written;
    ok, written := FmtNbrInt32(nbrFmt % MOD_32, nbrDig, nbrBase, nbrNeg, leadChar, lowerCase, nul, pstr, at);
  }
}
