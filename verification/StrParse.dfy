/** The number parser Str_ParseNbr_Int32() and its two public wrappers (lib_str.c). */
module StrParse {
  import opened Word
  import opened Ascii
  import opened CString
  import opened Positional
  import opened Arith

  // ---------------------------------------------------------------------------------------------
  // Strings and their parts
  // ---------------------------------------------------------------------------------------------

  /** A number in a string: white space in [at, wsEnd), a sign in [wsEnd, signEnd), a base prefix in
      [signEnd, numStart), digits of `base` in [numStart, numEnd), and the rest. */
  datatype Parts = Parts(wsEnd: nat, neg: bool, signEnd: nat, base: nat, numStart: nat, numEnd: nat)

  predicate IsSign(c: Char, signed: bool) {
    c == PLUS || (signed && c == MINUS)
  }

  predicate IsX(c: Char) {
    c == LOWER_X || c == UPPER_X
  }

  /** The base to use: as requested, or read off the first characters if 0 is requested. */
  function InferBase(s: seq<Char>, i: nat, b: nat): nat {
    if b != 0 then b
    else if CharAt(s, i) != DIG_0 then 10
    else if IsX(CharAt(s, i + 1)) then 16
    else 8
  }

  /** "0x" counts as a prefix only before a hexadecimal digit. */
  function PrefixLen(s: seq<Char>, i: nat, b: nat): nat {
    if CharAt(s, i) != DIG_0 then 0
    else if b == 16 && IsX(CharAt(s, i + 1)) && IsDigHex(CharAt(s, i + 2)) then 2
    else if b == 16 || b == 8 then 1
    else 0
  }

  /** `p` is a correct division of the string at `at`: each clause is about one part only. */
  ghost predicate IsSplit(s: seq<Char>, at: nat, b: nat, signed: bool, p: Parts) {
    && at <= p.wsEnd <= p.signEnd <= p.numStart <= p.numEnd
    && (forall k :: at <= k < p.wsEnd ==> IsSpace(CharAt(s, k)))
    && !IsSpace(CharAt(s, p.wsEnd))
    && (p.neg <==> CharAt(s, p.wsEnd) == MINUS)
    && p.signEnd == p.wsEnd + (if IsSign(CharAt(s, p.wsEnd), signed) then 1 else 0)
    && p.base == InferBase(s, p.signEnd, b)
    && p.numStart == p.signEnd + PrefixLen(s, p.signEnd, p.base)
    && (forall k :: p.numStart <= k < p.numEnd ==> DigitVal(CharAt(s, k)) < p.base)
    && !(DigitVal(CharAt(s, p.numEnd)) < p.base)
  }

  function SpaceEnd(s: seq<Char>, i: nat): (j: nat)
    ensures i <= j && !IsSpace(CharAt(s, j))
    ensures forall k :: i <= k < j ==> IsSpace(CharAt(s, k))
    decreases |s| - i
  {
    if i < |s| && IsSpace(s[i]) then SpaceEnd(s, i + 1) else i
  }

  function RunEnd(s: seq<Char>, i: nat, b: nat): (j: nat)
    requires b <= 36
    ensures i <= j && !(DigitVal(CharAt(s, j)) < b)
    ensures forall k :: i <= k < j ==> DigitVal(CharAt(s, k)) < b
    decreases |s| - i
  {
    if i < |s| && DigitVal(s[i]) < b then RunEnd(s, i + 1, b) else i
  }

  function Split(s: seq<Char>, at: nat, b: nat, signed: bool): Parts
    requires b <= 36
  {
    var wsEnd := SpaceEnd(s, at);
    var signEnd := wsEnd + if IsSign(CharAt(s, wsEnd), signed) then 1 else 0;
    var base := InferBase(s, signEnd, b);
    var numStart := signEnd + PrefixLen(s, signEnd, base);
    Parts(wsEnd, CharAt(s, wsEnd) == MINUS, signEnd, base, numStart, RunEnd(s, numStart, base))
  }

  /** A string divides in one way only, and `Split` finds it. */
  lemma SplitUnique(s: seq<Char>, at: nat, b: nat, signed: bool, p: Parts)
    requires b <= 36
    ensures IsSplit(s, at, b, signed, p) <==> p == Split(s, at, b, signed)
  {
    var q := Split(s, at, b, signed);
    if IsSplit(s, at, b, signed, p) {
      hide PrefixLen, InferBase, IsSign, DigitVal;
      assert !(p.wsEnd < q.wsEnd) && !(q.wsEnd < p.wsEnd);
      assert !(p.numEnd < q.numEnd) && !(q.numEnd < p.numEnd);
    }
  }

  /** Every part ends before the terminating NUL. */
  lemma SplitInside(s: seq<Char>, at: nat, b: nat, signed: bool, k: nat)
    requires b <= 36 && at <= k < |s| && s[k] == NUL
    ensures Split(s, at, b, signed).numEnd <= k
  {
    var p := Split(s, at, b, signed);
    assert CharAt(s, k) == NUL;
    assert p.wsEnd <= k;
    assert p.signEnd <= k;
    assert p.numStart <= k;
  }

  function DigitVals(s: seq<Char>, i: nat, j: nat): seq<nat>
    requires i <= j
  {
    seq<nat>(j - i, k requires 0 <= k < j - i => DigitVal(CharAt(s, i + k)))
  }

  /** The number the digit part denotes, without bound. */
  function Magnitude(s: seq<Char>, p: Parts): nat
    requires p.numStart <= p.numEnd
  {
    Value(DigitVals(s, p.numStart, p.numEnd), p.base)
  }

  predicate BaseOk(b: nat) {
    b != 1 && b <= 36
  }

  /** Where parsing stopped: after the digits, or back at the start if nothing followed the sign. */
  function Next(at: nat, p: Parts): nat {
    if p.numEnd == p.signEnd then at else p.numEnd
  }

  // ---------------------------------------------------------------------------------------------
  // The overflow-checked loop
  // ---------------------------------------------------------------------------------------------

  /** Str_MultOvfThTbl_Int32U: per base, the largest number that can be multiplied by it in 32 bits. */
  const MULT_OVF_TH: seq<U32> := seq(37, (b: nat) => if b == 0 then INT_32U_MAX else INT_32U_MAX / b)

  /** The table is exact: it lets through just the numbers whose product with the base fits. */
  lemma TableExact(nbr: U32, b: nat)
    requires 2 <= b <= 36
    ensures nbr <= MULT_OVF_TH[b] <==> nbr * b <= INT_32U_MAX
  {
    ThresholdExact(nbr, b);
  }

  /** After a product that fits, adding a digit wraps exactly when the sum comes out below the digit. */
  lemma WrapTest(prod: U32, dig: nat)
    requires dig < 36
    ensures (prod + dig) % MOD_32 < dig <==> prod + dig > INT_32U_MAX
    ensures prod + dig <= INT_32U_MAX ==> (prod + dig) % MOD_32 == prod + dig
  {
  }

  lemma ThresholdExact(nbr: nat, b: nat)
    requires 2 <= b <= 36
    ensures nbr <= INT_32U_MAX / b <==> nbr * b <= INT_32U_MAX
  {
    var q, r := INT_32U_MAX / b, INT_32U_MAX % b;
    assert INT_32U_MAX == q * b + r;
    if nbr <= q {
      MulLe(nbr, q, b);
    } else {
      MulLe(q + 1, nbr, b);
    }
  }

  /** `nbr` and `ovf` stand for the number `v`: exact if it fits 32 bits, flagged if not. */
  ghost predicate Stands(nbr: U32, ovf: bool, v: nat) {
    (ovf <==> v > INT_32U_MAX) && (!ovf ==> nbr == v)
  }

  /** Merges one more digit into a number parsed so far. */
  method MergeDigit(nbr: U32, ovf: bool, dig: nat, base: nat, ghost v: nat) returns (nbrNew: U32, ovfNew: bool)
    requires 2 <= base <= 36 && dig < base
    requires Stands(nbr, ovf, v)
    ensures Stands(nbrNew, ovfNew, v * base + dig)
  {
    nbrNew, ovfNew := nbr, ovf;
    if !ovf {
      TableExact(nbr, base);
      if nbr <= MULT_OVF_TH[base] {
        nbrNew := nbr * base;  // fits: the type of nbrNew leaves nothing to wrap
        WrapTest(nbrNew, dig);
        nbrNew := (nbrNew + dig) % MOD_32;
        if nbrNew < dig {
          ovfNew := true;
        }
      } else {
        ovfNew := true;
      }
    } else {
      MulLe(1, base, v);
    }
  }

  /** The digit loop: saturates at the greatest 32-bit number, exactly when the run denotes more. */
  method ParseDigits(pstr: array<Char>, at: nat, base: nat) returns (nbr: U32, end: nat, ovf: bool)
    requires 2 <= base <= 36 && IsStr(pstr[..], at)
    ensures end == RunEnd(pstr[..], at, base) < pstr.Length
    ensures ovf <==> Value(DigitVals(pstr[..], at, end), base) > INT_32U_MAX
    ensures nbr == Min(Value(DigitVals(pstr[..], at, end), base), INT_32U_MAX)
  {
    hide Value, DigitVals;
    ghost var s := pstr[..];
    EmptyRun(s, at, base);
    nbr, ovf, end := 0, false, at;
    var done := false;
    while !done
      invariant at <= end < |s| && IsStr(s, end)
      invariant RunEnd(s, at, base) == RunEnd(s, end, base)
      invariant done ==> RunEnd(s, end, base) == end
      invariant Stands(nbr, ovf, Value(DigitVals(s, at, end), base))
      decreases !done, pstr.Length - end
    {
      var c := pstr[end];
      if IsAlphaNum(c) {
        var dig: nat := if IsDig(c) then c - DIG_0 else if IsLower(c) then c - LOWER_A + 10 else c - UPPER_A + 10;
        if dig < base {
          RunSnoc(s, at, end, base);
          nbr, ovf := MergeDigit(nbr, ovf, dig, base, Value(DigitVals(s, at, end), base));
          end := end + 1;
        } else {
          done := true;
        }
      } else {
        done := true;
      }
    }
    if ovf {
      nbr := INT_32U_MAX;
    }
  }

  lemma EmptyRun(s: seq<Char>, i: nat, b: nat)
    ensures Value(DigitVals(s, i, i), b) == 0
  {
  }

  lemma RunSnoc(s: seq<Char>, i: nat, j: nat, b: nat)
    requires i <= j
    ensures Value(DigitVals(s, i, j + 1), b) == Value(DigitVals(s, i, j), b) * b + DigitVal(CharAt(s, j))
  {
    assert DigitVals(s, i, j + 1) == DigitVals(s, i, j) + [DigitVal(CharAt(s, j))];
    ValueSnoc(DigitVals(s, i, j), DigitVal(CharAt(s, j)), b);
  }

  // ---------------------------------------------------------------------------------------------
  // The parser
  // ---------------------------------------------------------------------------------------------

  /** Skips white space. */
  method SkipSpace(pstr: array<Char>, at: nat) returns (i: nat)
    requires IsStr(pstr[..], at)
    ensures i == SpaceEnd(pstr[..], at) && IsStr(pstr[..], i)
  {
    ghost var s := pstr[..];
    i := at;
    var whitespace := IsSpace(pstr[i]);
    while whitespace
      invariant at <= i < |s| && IsStr(s, i)
      invariant whitespace == IsSpace(s[i])
      invariant SpaceEnd(s, at) == SpaceEnd(s, i)
      decreases pstr.Length - i
    {
      i := i + 1;
      whitespace := IsSpace(pstr[i]);
    }
  }

  /** Skips a sign; an unsigned number's '-' is noticed but left for the digit loop to reject. */
  method SkipSign(pstr: array<Char>, at: nat, nbrSigned: bool) returns (i: nat, neg: bool)
    requires IsStr(pstr[..], at)
    ensures neg <==> CharAt(pstr[..], at) == MINUS
    ensures i == at + (if IsSign(CharAt(pstr[..], at), nbrSigned) then 1 else 0)
    ensures IsStr(pstr[..], i)
  {
    i := at;
    if pstr[i] == PLUS {
      i := i + 1;
      neg := false;
    } else if pstr[i] == MINUS {
      if nbrSigned {
        i := i + 1;
      }
      neg := true;
    } else {
      neg := false;
    }
  }

  /** Settles the base and skips its prefix. */
  method SkipPrefix(pstr: array<Char>, at: nat, nbrBase: U8) returns (base: nat, i: nat)
    requires IsStr(pstr[..], at) && BaseOk(nbrBase)
    ensures base == InferBase(pstr[..], at, nbrBase) && 2 <= base <= 36
    ensures i == at + PrefixLen(pstr[..], at, base) && IsStr(pstr[..], i)
  {
    base, i := nbrBase, at;
    if nbrBase == 0 {
      if pstr[i] == DIG_0 {
        i := i + 1;
        if pstr[i] == LOWER_X || pstr[i] == UPPER_X {
          base := 16;
          if IsDigHex(pstr[i + 1]) {
            i := i + 1;
          }
        } else {
          base := 8;
        }
      } else {
        base := 10;
      }
    } else if nbrBase == 8 {
      if pstr[i] == DIG_0 {
        i := i + 1;
      }
    } else if nbrBase == 16 {
      if pstr[i] == DIG_0 {
        i := i + 1;
        if pstr[i] == LOWER_X || pstr[i] == UPPER_X {
          if IsDigHex(pstr[i + 1]) {
            i := i + 1;
          }
        }
      }
    }
  }

  /** What the parser's stages find, put together. */
  lemma SplitFromParts(at: nat, b: nat, signed: bool)
    ensures BaseOk(b) <==> b != 1 && b <= 36
    ensures forall s: seq<Char> {:trigger SpaceEnd(s, at)} :: BaseOk(b) ==>
      var ws := SpaceEnd(s, at);
      var sg := ws + (if IsSign(CharAt(s, ws), signed) then 1 else 0);
      var base := InferBase(s, sg, b);
      var num := sg + PrefixLen(s, sg, base);
      var p := Split(s, at, b, signed);
      && p == Parts(ws, CharAt(s, ws) == MINUS, sg, base, num, RunEnd(s, num, base))
      && Magnitude(s, p) == Value(DigitVals(s, num, p.numEnd), base)
      && Next(at, p) == (if p.numEnd == sg then at else p.numEnd)
  {
  }

  /** Str_ParseNbr_Int32(): the parsed number, the index *pstr_next is left at, and *pnbr_neg. */
  method ParseNbrInt32(pstr: array?<Char>, at: nat, nbrBase: U8, nbrSigned: bool)
    returns (nbr: U32, next: nat, neg: bool)
    requires pstr != null ==> IsStr(pstr[..], at)
    ensures pstr == null || !BaseOk(nbrBase) ==> nbr == 0 && next == at && !neg
    ensures pstr != null && BaseOk(nbrBase) ==>
      var p := Split(pstr[..], at, nbrBase, nbrSigned);
      && nbr == Min(Magnitude(pstr[..], p), INT_32U_MAX)
      && next == Next(at, p)
      && neg == p.neg
  {
    hide *;
    SplitFromParts(at, nbrBase, nbrSigned);
    if pstr == null {
      return 0, at, false;
    }
    if nbrBase == 1 || nbrBase > 36 {
      return 0, at, false;
    }
    var i := SkipSpace(pstr, at);
    i, neg := SkipSign(pstr, i, nbrSigned);
    var numAt := i;
    var base;
    base, i := SkipPrefix(pstr, i, nbrBase);
    var ovf;
    nbr, i, ovf := ParseDigits(pstr, i, base);
    next := if i != numAt then i else at;
  }

  /** Str_ParseNbr_Int32U(). */
  method ParseNbrInt32U(pstr: array?<Char>, at: nat, nbrBase: U8) returns (nbr: U32, next: nat)
    requires pstr != null ==> IsStr(pstr[..], at)
    ensures (nbr, next) == if pstr == null || !BaseOk(nbrBase) then (0, at) else ParsedU(pstr[..], at, nbrBase)
  {
    var neg;
    nbr, next, neg := ParseNbrInt32(pstr, at, nbrBase, false);
  }

  /** The unsigned result: the magnitude, capped. */
  function ParsedU(s: seq<Char>, at: nat, b: nat): (U32, nat)
    requires BaseOk(b)
  {
    var p := Split(s, at, b, false);
    (Min(Magnitude(s, p), INT_32U_MAX), Next(at, p))
  }

  /** The signed result: the signed number clamped to the 32-bit range. */
  function ParsedS(s: seq<Char>, at: nat, b: nat): (S32, nat)
    requires BaseOk(b)
  {
    var p := Split(s, at, b, true);
    (Clamp(Signed(p.neg, Magnitude(s, p))), Next(at, p))
  }

  function Signed(neg: bool, m: int): int {
    if neg then -m else m
  }

  function Clamp(v: int): S32 {
    Max(INT_32S_MIN, Min(v, INT_32S_MAX))
  }

  /** Str_ParseNbr_Int32S(): clamps exactly, though it starts from a magnitude already capped. */
  method ParseNbrInt32S(pstr: array?<Char>, at: nat, nbrBase: U8) returns (nbr: S32, next: nat)
    requires pstr != null ==> IsStr(pstr[..], at)
    ensures (nbr, next) == if pstr == null || !BaseOk(nbrBase) then (0, at) else ParsedS(pstr[..], at, nbrBase)
  {
    var nbrAbs, neg;
    nbrAbs, next, neg := ParseNbrInt32(pstr, at, nbrBase, true);
    if !neg {
      nbr := if nbrAbs > INT_32S_MAX then INT_32S_MAX else nbrAbs;
    } else {
      nbr := if nbrAbs > INT_32S_MAX then INT_32S_MIN else -nbrAbs;
    }
  }

  /** Of all signed 32-bit numbers the result is the one nearest to the number read. */
  lemma NearestSigned(s: seq<Char>, at: nat, b: nat, x: S32)
    requires BaseOk(b)
    ensures var p := Split(s, at, b, true);
      p.numStart <= p.numEnd &&
      var v: int := if p.neg then 0 - Magnitude(s, p) else Magnitude(s, p);
      Distance(ParsedS(s, at, b).0, v) <= Distance(x, v)
  {
    hide Split, Magnitude, Next;
    SplitOrdered(s, at, b, true);
  }

  /** Likewise among the unsigned ones; a '-' is no part of an unsigned number. */
  lemma NearestUnsigned(s: seq<Char>, at: nat, b: nat, x: U32)
    requires BaseOk(b)
    ensures var p := Split(s, at, b, false);
      p.numStart <= p.numEnd && Distance(ParsedU(s, at, b).0, Magnitude(s, p)) <= Distance(x, Magnitude(s, p))
    ensures CharAt(s, SpaceEnd(s, at)) == 0x2D ==> ParsedU(s, at, b) == (0, at)
  {
    hide Split, Magnitude, Next, SpaceEnd;
    SplitOrdered(s, at, b, false);
    if CharAt(s, SpaceEnd(s, at)) == 0x2D {
      MinusOnly(s, at, b);
    }
  }

  function Distance(x: int, y: int): nat {
    if x < y then y - x else x - y
  }

  lemma SplitOrdered(s: seq<Char>, at: nat, b: nat, signed: bool)
    requires b <= 36
    ensures Split(s, at, b, signed).numStart <= Split(s, at, b, signed).numEnd
  {
  }

  lemma MinusOnly(s: seq<Char>, at: nat, b: nat)
    requires BaseOk(b) && CharAt(s, SpaceEnd(s, at)) == 0x2D
    ensures ParsedU(s, at, b) == (0, at)
  {
    var p := Split(s, at, b, false);
    assert p.numEnd == p.numStart == p.signEnd == p.wsEnd;
    EmptyRun(s, p.numStart, p.base);
  }

  // ---------------------------------------------------------------------------------------------
  // Laws of the parse
  // ---------------------------------------------------------------------------------------------

  /** The parser hands back the start of the string exactly when no digit of the base follows the
      sign: a prefix never counts as nothing. */
  lemma NothingParsed(s: seq<Char>, at: nat, b: nat, signed: bool)
    requires BaseOk(b)
    ensures var p := Split(s, at, b, signed);
      Next(at, p) == at <==> DigitVal(CharAt(s, p.signEnd)) >= p.base
  {
    var p := Split(s, at, b, signed);
    if p.numStart == p.signEnd < p.numEnd {
      assert DigitVal(CharAt(s, p.signEnd)) < p.base;
    }
  }

  /** Asking for base 0 is asking for the base the first characters show: 10 unless the first one is
      '0', then 16 before an 'x' of either case, and 8 otherwise. */
  lemma InferredBase(s: seq<Char>, at: nat, signed: bool)
    ensures var p := Split(s, at, 0, signed);
      && p.base in {8, 10, 16}
      && (p.base == 10 <==> CharAt(s, p.signEnd) != 0x30)
      && (p.base == 16 <==> CharAt(s, p.signEnd) == 0x30 && CharAt(s, p.signEnd + 1) in {0x58, 0x78})
      && Split(s, at, p.base, signed) == p
  {
  }

  predicate SameButCase(s: seq<Char>, t: seq<Char>) {
    |s| == |t| && forall i :: 0 <= i < |s| ==> SameLetter(s[i], t[i])
  }

  lemma CaseBlind(c: Char, d: Char)
    requires SameLetter(c, d)
    ensures IsSpace(c) == IsSpace(d) && DigitVal(c) == DigitVal(d)
    ensures IsX(c) == IsX(d) && IsDigHex(c) == IsDigHex(d)
    ensures c == d || (DigitVal(c) >= 10 && c != MINUS && c != PLUS && d != MINUS && d != PLUS)
  {
  }

  /** Changing the case of letters, in digits or prefix, changes neither value nor length. */
  lemma CaseInsensitive(s: seq<Char>, t: seq<Char>, at: nat, b: nat, signed: bool)
    requires BaseOk(b) && SameButCase(s, t)
    ensures Split(s, at, b, signed) == Split(t, at, b, signed)
    ensures Split(s, at, b, signed).numStart <= Split(s, at, b, signed).numEnd
    ensures Magnitude(s, Split(s, at, b, signed)) == Magnitude(t, Split(t, at, b, signed))
  {
    hide Split, IsSplit, SameButCase, CaseBlindAt, Value;
    var p := Split(s, at, b, signed);
    SplitUnique(s, at, b, signed, p);
    SplitUnique(t, at, b, signed, p);
    CaseBlindEverywhere(s, t);
    SplitTransfers(s, t, at, b, signed, p);
    DigitsTransfer(s, t, p.numStart, p.numEnd);
  }

  lemma CaseBlindEverywhere(s: seq<Char>, t: seq<Char>)
    requires SameButCase(s, t)
    ensures forall k: nat :: CaseBlindAt(s, t, k)
  {
    forall k: nat
      ensures CaseBlindAt(s, t, k)
    {
      CaseBlind(CharAt(s, k), CharAt(t, k));
    }
  }

  lemma DigitsTransfer(s: seq<Char>, t: seq<Char>, i: nat, j: nat)
    requires i <= j && forall k: nat :: CaseBlindAt(s, t, k)
    ensures DigitVals(s, i, j) == DigitVals(t, i, j)
  {
    forall k | i <= k < j
      ensures DigitVal(CharAt(s, k)) == DigitVal(CharAt(t, k))
    {
      assert CaseBlindAt(s, t, k);
    }
  }

  ghost predicate CaseBlindAt(s: seq<Char>, t: seq<Char>, k: nat) {
    var c, d := CharAt(s, k), CharAt(t, k);
    && IsSpace(c) == IsSpace(d) && DigitVal(c) == DigitVal(d) && IsX(c) == IsX(d) && IsDigHex(c) == IsDigHex(d)
    && (c == d || (DigitVal(c) >= 10 && c != MINUS && c != PLUS && d != MINUS && d != PLUS))
  }

  lemma SplitTransfers(s: seq<Char>, t: seq<Char>, at: nat, b: nat, signed: bool, p: Parts)
    requires forall k: nat :: CaseBlindAt(s, t, k)
    requires IsSplit(s, at, b, signed, p)
    ensures IsSplit(t, at, b, signed, p)
  {
    assert CaseBlindAt(s, t, p.wsEnd) && CaseBlindAt(s, t, p.numEnd);
    assert CaseBlindAt(s, t, p.signEnd) && CaseBlindAt(s, t, p.signEnd + 1) && CaseBlindAt(s, t, p.signEnd + 2);
    forall k | at <= k < p.wsEnd
      ensures IsSpace(CharAt(t, k))
    {
      assert CaseBlindAt(s, t, k);
    }
    forall k | p.numStart <= k < p.numEnd
      ensures DigitVal(CharAt(t, k)) < p.base
    {
      assert CaseBlindAt(s, t, k);
    }
  }
}
