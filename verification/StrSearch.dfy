/** The bounded searches and comparisons of lib_str.c: Str_Len_N(), Str_Cmp_N(),
    Str_CmpIgnoreCase_N(), Str_Char_N(), Str_Char_Last_N() and Str_Str_N(). */
module StrSearch {
  import opened Word
  import opened Ascii
  import opened CString

  // ---------------------------------------------------------------------------------------------
  // Length
  // ---------------------------------------------------------------------------------------------

  /** Str_Len_N(). */
  method StrLenN(pstr: array?<Char>, at: nat, lenMax: U32) returns (len: U32)
    requires pstr != null ==> Readable(pstr[..], at, lenMax)
    ensures len == if pstr == null then 0 else LenN(pstr[..], at, lenMax)
  {
    if pstr == null {
      return 0;
    }
    ghost var s := pstr[..];
    len := 0;
    while pstr[at + len] != NUL && len < lenMax
      invariant len <= lenMax && at + len < |s|
      invariant Readable(s, at + len, lenMax - len)
      invariant LenN(s, at, lenMax) == len + LenN(s, at + len, lenMax - len)
      decreases lenMax - len
    {
      len := len + 1;
    }
  }

  // ---------------------------------------------------------------------------------------------
  // Comparison
  // ---------------------------------------------------------------------------------------------

  /** The difference of the first pair of characters that differ among the first `max`, 0 if there is
      none up to a common NUL. */
  function CmpN(s: seq<Char>, i: nat, t: seq<Char>, j: nat, max: nat): int
    decreases max
  {
    if max == 0 then 0
    else if CharAt(s, i) != CharAt(t, j) then CharAt(s, i) as int - CharAt(t, j) as int
    else if CharAt(s, i) == NUL then 0
    else CmpN(s, i + 1, t, j + 1, max - 1)
  }

  function Lower(s: seq<Char>): seq<Char> {
    seq(|s|, i requires 0 <= i < |s| => ToLower(s[i]))
  }

  lemma LowerAt(s: seq<Char>)
    ensures |Lower(s)| == |s| && forall k :: 0 <= k < |s| ==> Lower(s)[k] == ToLower(s[k])
  {
  }

  lemma LowerNul()
    ensures forall c: Char :: ToLower(c) == NUL <==> c == NUL
  {
  }

  /** How far two strings are read: to the first difference, a common NUL, or `max`. */
  function CmpLen(s: seq<Char>, i: nat, t: seq<Char>, j: nat, max: nat): (n: nat)
    ensures n <= max
    decreases max
  {
    if max == 0 || CharAt(s, i) != CharAt(t, j) || CharAt(s, i) == NUL then 0
    else 1 + CmpLen(s, i + 1, t, j + 1, max - 1)
  }

  ghost predicate BothReadable(s: seq<Char>, i: nat, t: seq<Char>, j: nat, max: nat) {
    var n := CmpLen(s, i, t, j, max);
    i + n < |s| && j + n < |t|
  }

  /** Str_Cmp_N(). */
  method StrCmpN(p1: array?<Char>, i: nat, p2: array?<Char>, j: nat, lenMax: U32) returns (cmp: int)
    requires lenMax >= 1 && p1 != null && p2 == null ==> i < p1.Length
    requires lenMax >= 1 && p1 == null && p2 != null ==> j < p2.Length
    requires lenMax >= 1 && p1 != null && p2 != null ==> BothReadable(p1[..], i, p2[..], j, lenMax)
    ensures -0x8000 <= cmp <= 0x7FFF
    ensures p1 != null && p2 != null ==> cmp == CmpN(p1[..], i, p2[..], j, lenMax)
    ensures p1 == null && p2 == null ==> cmp == 0
    ensures p1 != null && p2 == null ==> cmp == if lenMax == 0 then 0 else p1[i] as int
    ensures p1 == null && p2 != null ==> cmp == if lenMax == 0 then 0 else -(p2[j] as int)
  {
    if lenMax < 1 {
      return 0;
    }
    if p1 == null {
      if p2 == null {
        return 0;
      }
      return -(p2[j] as int);
    }
    if p2 == null {
      return p1[i];
    }
    ghost var s, t := p1[..], p2[..];
    var len: nat := 0;
    while p1[i + len] == p2[j + len] && p1[i + len] != NUL && len < lenMax
      invariant len <= lenMax && i + len < |s| && j + len < |t|
      invariant BothReadable(s, i + len, t, j + len, lenMax - len)
      invariant CmpN(s, i, t, j, lenMax) == CmpN(s, i + len, t, j + len, lenMax - len)
      decreases lenMax - len
    {
      len := len + 1;
    }
    if len == lenMax {
      return 0;
    }
    if p1[i + len] != p2[j + len] {
      cmp := p1[i + len] as int - p2[j + len] as int;
    } else {
      cmp := 0;
    }
  }

  /** Str_CmpIgnoreCase_N(): the same comparison of the strings in lower case. */
  method StrCmpIgnoreCaseN(p1: array?<Char>, i: nat, p2: array?<Char>, j: nat, lenMax: U32) returns (cmp: int)
    requires lenMax >= 1 && p1 != null && p2 == null ==> i < p1.Length
    requires lenMax >= 1 && p1 == null && p2 != null ==> j < p2.Length
    requires lenMax >= 1 && p1 != null && p2 != null ==> BothReadable(Lower(p1[..]), i, Lower(p2[..]), j, lenMax)
    ensures -0x8000 <= cmp <= 0x7FFF
    ensures p1 != null && p2 != null ==> cmp == CmpN(Lower(p1[..]), i, Lower(p2[..]), j, lenMax)
    ensures p1 == null && p2 == null ==> cmp == 0
    ensures p1 != null && p2 == null ==> cmp == if lenMax == 0 then 0 else ToLower(p1[i]) as int
    ensures p1 == null && p2 != null ==> cmp == if lenMax == 0 then 0 else -(ToLower(p2[j]) as int)
  {
    LowerNul();
    hide ToLower, Lower;
    if lenMax < 1 {
      return 0;
    }
    if p1 == null {
      if p2 == null {
        return 0;
      }
      return -(ToLower(p2[j]) as int);
    }
    if p2 == null {
      return ToLower(p1[i]);
    }
    ghost var s, t := Lower(p1[..]), Lower(p2[..]);
    LowerAt(p1[..]);
    LowerAt(p2[..]);
    var char1, char2 := ToLower(p1[i]), ToLower(p2[j]);
    var len: nat := 0;
    while char1 == char2 && p1[i + len] != NUL && len < lenMax
      invariant len <= lenMax && i + len < |s| && j + len < |t|
      invariant char1 == s[i + len] == ToLower(p1[i + len]) && char2 == t[j + len] == ToLower(p2[j + len])
      invariant BothReadable(s, i + len, t, j + len, lenMax - len)
      invariant CmpN(s, i, t, j, lenMax) == CmpN(s, i + len, t, j + len, lenMax - len)
      decreases lenMax - len
    {
      len := len + 1;
      char1 := ToLower(p1[i + len]);
      char2 := ToLower(p2[j + len]);
    }
    if len == lenMax {
      return 0;
    }
    if char1 != char2 {
      cmp := char1 as int - char2 as int;
    } else {
      cmp := 0;
    }
  }

  ghost predicate SameAt(s: seq<Char>, i: nat, t: seq<Char>, j: nat, k: nat) {
    CharAt(s, i + k) == CharAt(t, j + k)
  }

  /** 0 means: the same characters up to the end of the first string, its NUL included, or up to
      `max`. */
  lemma {:induction false} CmpZero(s: seq<Char>, i: nat, t: seq<Char>, j: nat, max: nat)
    ensures CmpN(s, i, t, j, max) == 0 <==>
      forall k: nat :: k <= LenN(s, i, max) && k < max ==> SameAt(s, i, t, j, k)
    decreases max
  {
    if max > 0 {
      assert SameAt(s, i, t, j, 0) <==> CharAt(s, i) == CharAt(t, j);
      if CharAt(s, i) == CharAt(t, j) != NUL {
        CmpZero(s, i + 1, t, j + 1, max - 1);
        if CmpN(s, i, t, j, max) == 0 {
          forall k: nat | k <= LenN(s, i, max) && k < max
            ensures SameAt(s, i, t, j, k)
          {
            assert k > 0 ==> SameAt(s, i + 1, t, j + 1, k - 1);
          }
        } else {
          var k: nat :| k <= LenN(s, i + 1, max - 1) && k < max - 1 && !SameAt(s, i + 1, t, j + 1, k);
          assert !SameAt(s, i, t, j, k + 1);
        }
      }
    }
  }

  /** Anything else is the difference at the first place where the strings differ, before which
      neither has ended. */
  lemma {:induction false} CmpDiffers(s: seq<Char>, i: nat, t: seq<Char>, j: nat, max: nat) returns (k: nat)
    requires CmpN(s, i, t, j, max) != 0
    ensures k < max && !SameAt(s, i, t, j, k) && k <= LenN(s, i, max)
    ensures CmpN(s, i, t, j, max) == CharAt(s, i + k) as int - CharAt(t, j + k) as int
    ensures forall q: nat :: q < k ==> SameAt(s, i, t, j, q) && CharAt(s, i + q) != NUL
    decreases max
  {
    if CharAt(s, i) != CharAt(t, j) {
      k := 0;
    } else {
      k := CmpDiffers(s, i + 1, t, j + 1, max - 1);
      forall q: nat | q < k + 1
        ensures SameAt(s, i, t, j, q) && CharAt(s, i + q) != NUL
      {
        assert q > 0 ==> SameAt(s, i + 1, t, j + 1, q - 1);
      }
      k := k + 1;
    }
  }

  ghost predicate SameLetterAt(s: seq<Char>, i: nat, t: seq<Char>, j: nat, k: nat) {
    SameLetter(CharAt(s, i + k), CharAt(t, j + k))
  }

  /** Ignoring case, 0 means: the same characters, or the same letters in either case, up to the end of
      the first string or up to `max`. */
  lemma IgnoreCaseZero(s: seq<Char>, i: nat, t: seq<Char>, j: nat, max: nat)
    ensures CmpN(Lower(s), i, Lower(t), j, max) == 0 <==>
      forall k: nat :: k <= LenN(s, i, max) && k < max ==> SameLetterAt(s, i, t, j, k)
  {
    hide CmpN, LenN, ToLower, SameLetter;
    CmpZero(Lower(s), i, Lower(t), j, max);
    LowerLen(s, i, max);
    forall k: nat
      ensures SameAt(Lower(s), i, Lower(t), j, k) <==> SameLetterAt(s, i, t, j, k)
    {
      LowerCharAt(s, i + k);
      LowerCharAt(t, j + k);
      CaseFolding(CharAt(s, i + k), CharAt(t, j + k));
    }
  }

  lemma LowerCharAt(s: seq<Char>, i: nat)
    ensures CharAt(Lower(s), i) == ToLower(CharAt(s, i))
  {
  }

  lemma {:induction false} LowerLen(s: seq<Char>, i: nat, max: nat)
    ensures LenN(Lower(s), i, max) == LenN(s, i, max)
    decreases max
  {
    if max > 0 {
      LowerCharAt(s, i);
      LowerNul();
      LowerLen(s, i + 1, max - 1);
    }
  }

  lemma {:induction false} CmpAntisymmetric(s: seq<Char>, i: nat, t: seq<Char>, j: nat, max: nat)
    ensures CmpN(s, i, t, j, max) == -CmpN(t, j, s, i, max)
    decreases max
  {
    if max > 0 {
      CmpAntisymmetric(s, i + 1, t, j + 1, max - 1);
    }
  }

  /** The order is transitive, and strict if either step is. */
  lemma {:induction false} CmpTransitive(s: seq<Char>, i: nat, t: seq<Char>, j: nat, u: seq<Char>, k: nat, max: nat)
    requires CmpN(s, i, t, j, max) <= 0 && CmpN(t, j, u, k, max) <= 0
    ensures CmpN(s, i, u, k, max) <= 0
    ensures CmpN(s, i, t, j, max) < 0 || CmpN(t, j, u, k, max) < 0 ==> CmpN(s, i, u, k, max) < 0
    decreases max
  {
    if max > 0 && CharAt(s, i) == CharAt(t, j) == CharAt(u, k) != NUL {
      CmpTransitive(s, i + 1, t, j + 1, u, k + 1, max - 1);
    }
  }

  // ---------------------------------------------------------------------------------------------
  // Single characters
  // ---------------------------------------------------------------------------------------------

  /** Index `p` is among the first `max` characters of the string at `at`, its NUL counted as part
      of it, and holds `c`. */
  ghost predicate IsMatch(s: seq<Char>, at: nat, max: nat, c: Char, p: nat) {
    at <= p < at + max && p <= at + LenN(s, at, max) && CharAt(s, p) == c
  }

  /** That is: within the limit, with no NUL before it. */
  lemma MatchMeans(s: seq<Char>, at: nat, max: nat, c: Char, p: nat)
    ensures IsMatch(s, at, max, c, p) <==>
      at <= p < at + max && CharAt(s, p) == c && forall k :: at <= k < p ==> CharAt(s, k) != 0
  {
    var n := LenN(s, at, max);
    assert n < max ==> CharAt(s, at + n) == NUL;
  }

  /** How far Str_Char_N() looks: to a NUL, a match, or one past the limit. */
  ghost predicate ReadableTo(s: seq<Char>, at: nat, max: nat, c: Char) {
    || Readable(s, at, max)
    || exists k :: at <= k < at + max && k < |s| && s[k] == c
  }

  /** Str_Char_N(): the first match. */
  method StrCharN(pstr: array?<Char>, at: nat, lenMax: U32, c: Char) returns (r: Option<nat>)
    requires pstr != null && lenMax >= 1 ==> ReadableTo(pstr[..], at, lenMax, c)
    ensures pstr == null || lenMax == 0 ==> r == None
    ensures pstr != null && r.Some? ==> IsMatch(pstr[..], at, lenMax, c, r.value)
    ensures pstr != null && r.Some? ==> forall p: nat :: p < r.value ==> !IsMatch(pstr[..], at, lenMax, c, p)
    ensures pstr != null && r.None? ==> forall p: nat :: !IsMatch(pstr[..], at, lenMax, c, p)
  {
    if pstr == null {
      return None;
    }
    if lenMax < 1 {
      return None;
    }
    ghost var s := pstr[..];
    var p, len := at, 0;
    InReach(s, at, lenMax, c, p);
    while pstr[p] != NUL && pstr[p] != c && len < lenMax
      invariant p == at + len && len <= lenMax && p < |s|
      invariant forall k :: at <= k < p ==> s[k] != NUL && s[k] != c
      decreases lenMax - len
    {
      p := p + 1;
      len := len + 1;
      InReach(s, at, lenMax, c, p);
    }
    LenAt(s, at, lenMax, p);
    if len >= lenMax {
      return None;
    }
    if pstr[p] != c {
      return None;
    }
    return Some(p);
  }

  /** Past characters that are neither NUL nor a match the memory goes on. */
  lemma InReach(s: seq<Char>, at: nat, max: nat, c: Char, p: nat)
    requires ReadableTo(s, at, max, c) && at <= p <= at + max
    requires forall k :: at <= k < p && k < |s| ==> s[k] != NUL && s[k] != c
    ensures p < |s|
  {
    var n := LenN(s, at, max);
    assert n < max ==> CharAt(s, at + n) == NUL;
  }

  /** Where the search stopped: everything before is part of the string. */
  lemma LenAt(s: seq<Char>, at: nat, max: nat, p: nat)
    requires at <= p <= at + max && p < |s|
    requires forall k :: at <= k < p ==> s[k] != NUL
    ensures p <= at + LenN(s, at, max)
    ensures p < at + max && s[p] == NUL ==> p == at + LenN(s, at, max)
  {
    var n := LenN(s, at, max);
    assert n < max ==> CharAt(s, at + n) == NUL;
    assert p < at + n ==> CharAt(s, p) != NUL;
  }

  /** Str_Char_Last_N(): the last match, found by measuring the string and searching back. */
  method StrCharLastN(pstr: array?<Char>, at: nat, lenMax: U32, c: Char) returns (r: Option<nat>)
    requires pstr != null && lenMax >= 1 ==> Readable(pstr[..], at, lenMax - 1)
    ensures pstr == null || lenMax == 0 ==> r == None
    ensures pstr != null && r.Some? ==> IsMatch(pstr[..], at, lenMax, c, r.value)
    ensures pstr != null && r.Some? ==> forall p: nat :: p > r.value ==> !IsMatch(pstr[..], at, lenMax, c, p)
    ensures pstr != null && r.None? ==> forall p: nat :: !IsMatch(pstr[..], at, lenMax, c, p)
  {
    if pstr == null {
      return None;
    }
    if lenMax < 1 {
      return None;
    }
    ghost var s := pstr[..];
    var strLen := StrLenN(pstr, at, lenMax - 1);
    LastReach(s, at, lenMax, strLen);
    var p := at + strLen;
    while p != at && pstr[p] != c
      invariant at <= p <= at + strLen < |s|
      invariant forall k :: p < k <= at + strLen ==> s[k] != c
      decreases p - at
    {
      p := p - 1;
    }
    if pstr[p] != c {
      return None;
    }
    return Some(p);
  }

  /** The last character that counts: the NUL, or number `max`. */
  lemma LastReach(s: seq<Char>, at: nat, max: nat, len: nat)
    requires max >= 1 && len == LenN(s, at, max - 1)
    ensures LenN(s, at, max) == len || (len == max - 1 && LenN(s, at, max) == max)
  {
    var n := LenN(s, at, max);
  }

  // ---------------------------------------------------------------------------------------------
  // Substrings
  // ---------------------------------------------------------------------------------------------

  /** The whole search string at `j` occurs at index `p`, within the first `max` characters of the
      string at `at`. A search string longer than `max` never does, and looking at one character
      more than `max` is enough to tell. */
  ghost predicate IsFound(s: seq<Char>, at: nat, t: seq<Char>, j: nat, max: nat, p: nat) {
    var m := LenN(t, j, max + 1);
    && at <= p && p + m <= at + LenN(s, at, max)
    && forall q: nat :: q < m ==> SameAt(t, j, s, p, q)
  }

  /** That is: for some `m` up to `max` the search string has `m` characters, all of them at `p`, and the
      string has no NUL and the search no end before they are over. */
  lemma FoundMeans(s: seq<Char>, at: nat, t: seq<Char>, j: nat, max: nat, p: nat)
    ensures IsFound(s, at, t, j, max, p) <==> exists m: nat :: Occurs(s, at, t, j, max, p, m)
  {
    var n, m := LenN(s, at, max), LenN(t, j, max + 1);
    if IsFound(s, at, t, j, max, p) {
      assert Occurs(s, at, t, j, max, p, m);
    }
    if k: nat :| Occurs(s, at, t, j, max, p, k) {
      assert !(m < k) && !(k < m);
      assert n < max ==> CharAt(s, at + n) == NUL;
      assert p + k <= at + n;
    }
  }

  ghost predicate Occurs(s: seq<Char>, at: nat, t: seq<Char>, j: nat, max: nat, p: nat, m: nat) {
    && CharAt(t, j + m) == 0
    && (forall k :: j <= k < j + m ==> CharAt(t, k) != 0)
    && at <= p && p + m <= at + max
    && (forall k :: at <= k < p + m ==> CharAt(s, k) != 0)
    && (forall q: nat :: q < m ==> SameAt(t, j, s, p, q))
  }

  /** Str_Str_N(): the first occurrence. No object is larger than the 32-bit size type can count. */
  method StrStrN(pstr: array?<Char>, at: nat, psrch: array?<Char>, j: nat, lenMax: U32) returns (r: Option<nat>)
    requires pstr != null && psrch != null && lenMax >= 1 ==>
      && pstr.Length <= INT_32U_MAX && psrch.Length <= INT_32U_MAX
      && Readable(pstr[..], at, lenMax)
      && Readable(psrch[..], j, Min(lenMax + 1, INT_32U_MAX))
    ensures pstr == null || psrch == null || lenMax == 0 ==> r == None
    ensures pstr != null && psrch != null && r.Some? ==> IsFound(pstr[..], at, psrch[..], j, lenMax, r.value)
    ensures pstr != null && psrch != null && r.Some? ==>
      forall p: nat :: p < r.value ==> !IsFound(pstr[..], at, psrch[..], j, lenMax, p)
    ensures pstr != null && psrch != null && lenMax >= 1 && r.None? ==>
      forall p: nat :: !IsFound(pstr[..], at, psrch[..], j, lenMax, p)
  {
    hide LenN, Readable, SameAt, IsFound;
    if pstr == null || psrch == null || lenMax < 1 {
      return None;
    }
    ghost var s, t := pstr[..], psrch[..];
    var lenMaxSrch := if lenMax < INT_32U_MAX then lenMax + 1 else INT_32U_MAX;
    var strLen := StrLenN(pstr, at, lenMax);
    var srchLen := StrLenN(psrch, j, lenMaxSrch);
    ClippedLength(t, j, lenMax);
    FoundRange(s, at, t, j, lenMax);
    if srchLen < 1 {
      return Some(at);
    }
    if srchLen > strLen {
      return None;
    }
    var last := strLen - srchLen;
    var ix: nat := 0;
    var p := at + ix;
    var cmp := CompareAt(pstr, at, psrch, j, lenMax, srchLen, p);
    ix := ix + 1;
    while cmp != 0 && ix <= last
      invariant 1 <= ix <= last + 1 && p == at + ix - 1
      invariant cmp == 0 <==> IsFound(s, at, t, j, lenMax, p)
      invariant forall k: nat :: k < p ==> !IsFound(s, at, t, j, lenMax, k)
      decreases last - ix
    {
      p := at + ix;
      cmp := CompareAt(pstr, at, psrch, j, lenMax, srchLen, p);
      ix := ix + 1;
    }
    if cmp != 0 {
      return None;
    }
    return Some(p);
  }

  /** Where an occurrence can be; an empty search string occurs at once. */
  lemma FoundRange(s: seq<Char>, at: nat, t: seq<Char>, j: nat, max: nat)
    ensures forall p: nat :: IsFound(s, at, t, j, max, p) ==>
      at <= p && p + LenN(t, j, max + 1) <= at + LenN(s, at, max)
    ensures LenN(t, j, max + 1) == 0 ==> IsFound(s, at, t, j, max, at)
  {
  }

  lemma ClippedLength(t: seq<Char>, j: nat, max: U32)
    requires |t| <= INT_32U_MAX && Readable(t, j, Min(max + 1, INT_32U_MAX))
    ensures LenN(t, j, Min(max + 1, INT_32U_MAX)) == LenN(t, j, max + 1)
    ensures j + LenN(t, j, max + 1) < |t|
  {
    if max == INT_32U_MAX {
      LastReach(t, j, max + 1, LenN(t, j, max));
    }
  }

  /** The comparison the search makes at one index. */
  method CompareAt(pstr: array<Char>, at: nat, psrch: array<Char>, j: nat, lenMax: U32, srchLen: U32, p: nat)
    returns (cmp: int)
    requires Readable(pstr[..], at, lenMax)
    requires srchLen == LenN(psrch[..], j, lenMax + 1) >= 1 && j + srchLen < psrch.Length
    requires at <= p && p + srchLen <= at + LenN(pstr[..], at, lenMax)
    ensures cmp == 0 <==> IsFound(pstr[..], at, psrch[..], j, lenMax, p)
  {
    hide LenN, CmpN, SameAt;
    ghost var s, t := pstr[..], psrch[..];
    cmp := StrCmpN(pstr, p, psrch, j, srchLen);
    CmpZero(t, j, s, p, srchLen);
    CmpAntisymmetric(t, j, s, p, srchLen);
    LenShorter(t, j, lenMax + 1, srchLen);
  }

  lemma LenShorter(t: seq<Char>, j: nat, max: nat, m: nat)
    requires m <= LenN(t, j, max)
    ensures LenN(t, j, m) == m
  {
    var n := LenN(t, j, m);
  }
}
