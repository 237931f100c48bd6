/** The zero-counting functions of cpu_core.c in their C form: decision trees over a 256-entry table
    for leading zeros, and the lowest-set-bit trick on top of them for trailing zeros. */
module CpuCountZeros {
  import opened Word
  import opened Arith
  import opened Binary
  import opened Positional

  // ---------------------------------------------------------------------------------------------
  // What is counted
  // ---------------------------------------------------------------------------------------------

  /** `n` zeros lead the `w`-bit value `v`. */
  ghost predicate IsLeadZeros(v: nat, w: nat, n: nat) {
    && v < Pow2(w)
    && n <= w
    && (v == 0 <==> n == w)
    && (v > 0 ==> Pow2(w - 1 - n) <= v < Pow2(w - n))
  }

  /** 2^k is the greatest power of two that divides the `w`-bit value `v` (k = w for zero). */
  ghost predicate IsTrailZeros(v: nat, w: nat, k: nat) {
    && v < Pow2(w)
    && if v == 0 then k == w else k < w && Divides2(k, v) && !Divides2(k + 1, v)
  }

  lemma LeadZerosUnique(v: nat, w: nat, m: nat, n: nat)
    requires IsLeadZeros(v, w, m) && IsLeadZeros(v, w, n)
    ensures m == n
  {
    if v > 0 && m < n {
      PowMonotone(2, w - n, w - 1 - m);
    } else if v > 0 && n < m {
      PowMonotone(2, w - m, w - 1 - n);
    }
  }

  lemma TrailZerosUnique(v: nat, w: nat, j: nat, k: nat)
    requires IsTrailZeros(v, w, j) && IsTrailZeros(v, w, k)
    ensures j == k
  {
    if v > 0 && j < k {
      Divides2Fewer(j + 1, k, v);
    } else if v > 0 && k < j {
      Divides2Fewer(k + 1, j, v);
    }
  }

  /** Seen as a wider word a value has that many more leading zeros, and unless it is zero just as
      many trailing ones. */
  lemma Widened(v: nat, w: nat, d: nat, n: nat)
    ensures IsLeadZeros(v, w, n) ==> IsLeadZeros(v, w + d, n + d)
    ensures v > 0 && IsTrailZeros(v, w, n) ==> IsTrailZeros(v, w + d, n)
  {
    PowMonotone(2, w, w + d);
  }

  // ---------------------------------------------------------------------------------------------
  // Leading zeros
  // ---------------------------------------------------------------------------------------------

  function Repeat(n: nat, times: nat): seq<nat> {
    seq<nat>(times, _ => n)
  }

  /** CPU_CntLeadZerosTbl[]. */
  const TBL: seq<nat> :=
    [8, 7, 6, 6, 5, 5, 5, 5, 4, 4, 4, 4, 4, 4, 4, 4] +
    Repeat(3, 16) + Repeat(2, 32) + Repeat(1, 64) + Repeat(0, 128)

  /** A look-up: the table is right for every octet. */
  function Lookup(ix: nat): (n: nat)
    requires ix < 256
    ensures IsLeadZeros(ix, 8, n)
  {
    TableRight(ix);
    TBL[ix]
  }

  lemma TableRight(v: nat)
    requires v < 256
    ensures |TBL| == 256 && IsLeadZeros(v, 8, TBL[v])
  {
    assert Pow2(1) == 2 && Pow2(2) == 4 && Pow2(3) == 8 && Pow2(4) == 16;
    assert Pow2(5) == 32 && Pow2(6) == 64 && Pow2(7) == 128 && Pow2(8) == 256;
  }

  /** Shifting right by `s` bits, down to a non-zero value, leaves the leading zeros as they are. */
  lemma ShiftKeepsLead(v: nat, s: nat, w: nat, n: nat)
    requires v / Pow2(s) > 0 && IsLeadZeros(v / Pow2(s), w, n)
    ensures IsLeadZeros(v, w + s, n)
  {
    PowSum(2, w - 1 - n, s);
    PowSum(2, w - n, s);
    PowMonotone(2, w - n + s, w + s);
    hide Pow2;
    QuotientBetween(v, Pow2(s), Pow2(w - 1 - n), Pow2(w - n));
  }

  lemma QuotientBetween(v: nat, p: nat, lo: nat, hi: nat)
    requires p >= 1 && lo <= v / p < hi
    ensures lo * p <= v < hi * p
  {
    assert v == v / p * p + v % p;
    Between(lo, hi, v / p, p, v % p);
  }

  lemma Between(lo: nat, hi: nat, q: nat, p: nat, r: nat)
    requires lo <= q < hi && r < p
    ensures lo * p <= q * p + r < hi * p
  {
    MulLe(lo, q, p);
    MulLe(q + 1, hi, p);
  }

  /** The table entry for the top byte in use, `s` bits up, and what to add to it in a `w`-bit word. */
  lemma ByteLead(v: nat, s: nat, p: nat, w: nat)
    requires p == Pow2(s) && s + 8 <= w
    requires v / p < 256 && (s == 0 || v / p > 0)
    ensures 0 <= v / p && IsLeadZeros(v, w, Lookup(v / p) + (w - 8 - s))
  {
    hide Lookup, IsLeadZeros;
    if s == 0 {
      assert v / 1 == v;
      Widened(v, 8, w - 8, Lookup(v));
    } else {
      var q := v / p;
      ShiftKeepsLead(v, s, 8, Lookup(q));
      Widened(v, 8 + s, w - 8 - s, Lookup(q));
    }
  }

  function CntLeadZeros08(v: U8): nat {
    Lookup(v)
  }

  function CntLeadZeros16(v: U16): nat {
    if v > 0xFF then
      Lookup(v / 0x100) + 0
    else
      Lookup(v) + 8
  }

  function CntLeadZeros32(v: U32): nat {
    if v > 0xFFFF then
      if v > 0xFF_FFFF then
        Lookup(v / 0x100_0000) + 0
      else
        Lookup(v / 0x1_0000) + 8
    else
      if v > 0xFF then
        Lookup(v / 0x100) + 16
      else
        Lookup(v) + 24
  }

  function CntLeadZeros64(v: U64): nat {
    if v > 0xFFFF_FFFF then
      if v > 0xFFFF_FFFF_FFFF then
        if v > 0xFF_FFFF_FFFF_FFFF then
          Lookup(v / 0x100_0000_0000_0000) + 0
        else
          Lookup(v / 0x1_0000_0000_0000) + 8
      else
        if v > 0xFF_FFFF_FFFF then
          Lookup(v / 0x100_0000_0000) + 16
        else
          Lookup(v / 0x1_0000_0000) + 24
    else
      if v > 0xFFFF then
        if v > 0xFF_FFFF then
          Lookup(v / 0x100_0000) + 32
        else
          Lookup(v / 0x1_0000) + 40
      else
        if v > 0xFF then
          Lookup(v / 0x100) + 48
        else
          Lookup(v) + 56
  }

  lemma LeadZeros08Right(v: U8)
    ensures IsLeadZeros(v, 8, CntLeadZeros08(v))
  {
  }

  lemma LeadZeros16Right(v: U16)
    ensures IsLeadZeros(v, 16, CntLeadZeros16(v))
  {
    hide Lookup, Pow2, IsLeadZeros;
    Pow2Bytes();
    if v > 0xFF {
      ByteLead(v, 8, 0x100, 16);
    } else {
      ByteLead(v, 0, 1, 16);
    }
  }

  lemma LeadZeros32Right(v: U32)
    ensures IsLeadZeros(v, 32, CntLeadZeros32(v))
  {
    hide Lookup, Pow2, IsLeadZeros;
    Pow2Bytes();
    if v > 0xFF_FFFF {
      ByteLead(v, 24, 0x100_0000, 32);
    } else if v > 0xFFFF {
      ByteLead(v, 16, 0x1_0000, 32);
    } else if v > 0xFF {
      ByteLead(v, 8, 0x100, 32);
    } else {
      ByteLead(v, 0, 1, 32);
    }
  }

  lemma LeadZeros64Right(v: U64)
    ensures IsLeadZeros(v, 64, CntLeadZeros64(v))
  {
    hide Lookup, Pow2, IsLeadZeros;
    Pow2Bytes();
    if v > 0xFF_FFFF_FFFF_FFFF {
      ByteLead(v, 56, 0x100_0000_0000_0000, 64);
    } else if v > 0xFFFF_FFFF_FFFF {
      ByteLead(v, 48, 0x1_0000_0000_0000, 64);
    } else if v > 0xFF_FFFF_FFFF {
      ByteLead(v, 40, 0x100_0000_0000, 64);
    } else if v > 0xFFFF_FFFF {
      ByteLead(v, 32, 0x1_0000_0000, 64);
    } else if v > 0xFF_FFFF {
      ByteLead(v, 24, 0x100_0000, 64);
    } else if v > 0xFFFF {
      ByteLead(v, 16, 0x1_0000, 64);
    } else if v > 0xFF {
      ByteLead(v, 8, 0x100, 64);
    } else {
      ByteLead(v, 0, 1, 64);
    }
  }

  // ---------------------------------------------------------------------------------------------
  // Trailing zeros
  // ---------------------------------------------------------------------------------------------

  /** Bitwise "and" of `w`-bit words, bit by bit. */
  function And(x: nat, y: nat, w: nat): (r: nat)
    ensures r <= x
  {
    if w == 0 then 0 else 2 * And(x / 2, y / 2, w - 1) + (if x % 2 == 1 && y % 2 == 1 then 1 else 0)
  }

  /** Bitwise complement of a word of 2^w = m values. */
  function Not(x: nat, m: nat): nat
    requires x < m
  {
    m - 1 - x
  }

  lemma {:induction false} AndNot(x: nat, w: nat)
    requires x < Pow2(w)
    ensures And(x, Not(x, Pow2(w)), w) == 0
    decreases w
  {
    if w > 0 {
      Halves(x, Pow2(w - 1));
      AndNot(x / 2, w - 1);
    }
  }

  lemma Halves(x: nat, h: nat)
    requires x < 2 * h
    ensures x / 2 < h
    ensures Not(x, 2 * h) / 2 == Not(x / 2, h)
    ensures x % 2 + Not(x, 2 * h) % 2 == 1
    ensures x % 2 == 1 ==> (Not(x, 2 * h) + 1) % 2 == 1 && (Not(x, 2 * h) + 1) / 2 == Not(x / 2, h)
    ensures x % 2 == 0 ==> (Not(x, 2 * h) + 1) % 2 == 0 && (Not(x, 2 * h) + 1) / 2 == Not(x / 2, h) + 1
  {
  }

  /** A value and its two's complement have just the lowest set bit in common. */
  lemma {:induction false} LowestBit(v: nat, w: nat) returns (k: nat)
    requires 0 < v < Pow2(w)
    ensures And(v, Not(v, Pow2(w)) + 1, w) == Pow2(k)
    ensures IsTrailZeros(v, w, k)
    decreases w
  {
    Halves(v, Pow2(w - 1));
    hide Not, IsTrailZeros;
    if v % 2 == 1 {
      k := 0;
      AndNot(v / 2, w - 1);
      TrailStep(v, w, k);
    } else {
      k := LowestBit(v / 2, w - 1);
      TrailStep(v, w, k);
      k := k + 1;
    }
  }

  lemma TrailStep(v: nat, w: nat, k: nat)
    requires 0 < v < Pow2(w) && w > 0
    ensures v % 2 == 1 ==> IsTrailZeros(v, w, 0)
    ensures v % 2 == 0 && IsTrailZeros(v / 2, w - 1, k) ==> IsTrailZeros(v, w, k + 1)
  {
  }

  lemma LeadOfPow2(k: nat, w: nat)
    requires k < w
    ensures IsLeadZeros(Pow2(k), w, w - 1 - k)
  {
    PowMonotone(2, k + 1, w);
  }

  /** The trailing zeros from the leading zeros `lead` of the lowest set bit. */
  lemma TrailFromLead(v: nat, w: nat, lead: nat)
    requires 0 < v < Pow2(w)
    requires IsLeadZeros(And(v, Not(v, Pow2(w)) + 1, w), w, lead)
    ensures lead < w && IsTrailZeros(v, w, w - 1 - lead)
  {
    var k := LowestBit(v, w);
    LeadOfPow2(k, w);
    LeadZerosUnique(Pow2(k), w, lead, w - 1 - k);
  }

  function CntTrailZeros08(v: U8): int {
    if v == 0 then 8
    else
      var mask := And(v, Not(v, MOD_8) + 1, 8);
      8 - 1 - CntLeadZeros08(mask)
  }

  function CntTrailZeros16(v: U16): int {
    if v == 0 then 16
    else
      var mask := And(v, Not(v, MOD_16) + 1, 16);
      16 - 1 - CntLeadZeros16(mask)
  }

  function CntTrailZeros32(v: U32): int {
    if v == 0 then 32
    else
      var mask := And(v, Not(v, MOD_32) + 1, 32);
      32 - 1 - CntLeadZeros32(mask)
  }

  function CntTrailZeros64(v: U64): int {
    if v == 0 then 64
    else
      var mask := And(v, Not(v, MOD_64) + 1, 64);
      64 - 1 - CntLeadZeros64(mask)
  }

  lemma TrailZeros08Right(v: U8)
    ensures CntTrailZeros08(v) >= 0 && IsTrailZeros(v, 8, CntTrailZeros08(v))
  {
    hide Pow2, And, CntLeadZeros08, IsLeadZeros;
    Pow2Bytes();
    if v > 0 {
      var mask := And(v, Not(v, MOD_8) + 1, 8);
      LeadZeros08Right(mask);
      TrailFromLead(v, 8, CntLeadZeros08(mask));
    }
  }

  lemma TrailZeros16Right(v: U16)
    ensures CntTrailZeros16(v) >= 0 && IsTrailZeros(v, 16, CntTrailZeros16(v))
  {
    hide Pow2, And, CntLeadZeros16, IsLeadZeros;
    Pow2Bytes();
    if v > 0 {
      var mask := And(v, Not(v, MOD_16) + 1, 16);
      LeadZeros16Right(mask);
      TrailFromLead(v, 16, CntLeadZeros16(mask));
    }
  }

  lemma TrailZeros32Right(v: U32)
    ensures CntTrailZeros32(v) >= 0 && IsTrailZeros(v, 32, CntTrailZeros32(v))
  {
    hide Pow2, And, CntLeadZeros32, IsLeadZeros;
    Pow2Bytes();
    if v > 0 {
      var mask := And(v, Not(v, MOD_32) + 1, 32);
      LeadZeros32Right(mask);
      TrailFromLead(v, 32, CntLeadZeros32(mask));
    }
  }

  lemma TrailZeros64Right(v: U64)
    ensures CntTrailZeros64(v) >= 0 && IsTrailZeros(v, 64, CntTrailZeros64(v))
  {
    hide Pow2, And, CntLeadZeros64, IsLeadZeros;
    Pow2Bytes();
    if v > 0 {
      var mask := And(v, Not(v, MOD_64) + 1, 64);
      LeadZeros64Right(mask);
      TrailFromLead(v, 64, CntLeadZeros64(mask));
    }
  }

  /** The functions of different widths agree on every value that fits the narrower, up to the
      difference in width. */
  lemma WidthsAgree(v: nat)
    ensures v < MOD_8 ==> CntLeadZeros16(v) == CntLeadZeros08(v) + 8
    ensures v < MOD_16 ==> CntLeadZeros32(v) == CntLeadZeros16(v) + 16
    ensures v < MOD_32 ==> CntLeadZeros64(v) == CntLeadZeros32(v) + 32
    ensures 0 < v < MOD_8 ==> CntTrailZeros16(v) == CntTrailZeros08(v)
    ensures 0 < v < MOD_16 ==> CntTrailZeros32(v) == CntTrailZeros16(v)
    ensures 0 < v < MOD_32 ==> CntTrailZeros64(v) == CntTrailZeros32(v)
  {
    if v < MOD_8 {
      Agree08(v);
    }
    if v < MOD_16 {
      Agree16(v);
    }
    if v < MOD_32 {
      Agree32(v);
    }
  }

  lemma Agree08(v: U8)
    ensures CntLeadZeros16(v) == CntLeadZeros08(v) + 8
    ensures v > 0 ==> CntTrailZeros16(v) == CntTrailZeros08(v)
  {
    hide *;
    LeadZeros08Right(v);
    LeadZeros16Right(v);
    TrailZeros08Right(v);
    TrailZeros16Right(v);
    WideAgrees(v, 8, 8, CntLeadZeros08(v), CntLeadZeros16(v), CntTrailZeros08(v), CntTrailZeros16(v));
  }

  lemma Agree16(v: U16)
    ensures CntLeadZeros32(v) == CntLeadZeros16(v) + 16
    ensures v > 0 ==> CntTrailZeros32(v) == CntTrailZeros16(v)
  {
    hide *;
    LeadZeros16Right(v);
    LeadZeros32Right(v);
    TrailZeros16Right(v);
    TrailZeros32Right(v);
    WideAgrees(v, 16, 16, CntLeadZeros16(v), CntLeadZeros32(v), CntTrailZeros16(v), CntTrailZeros32(v));
  }

  lemma Agree32(v: U32)
    ensures CntLeadZeros64(v) == CntLeadZeros32(v) + 32
    ensures v > 0 ==> CntTrailZeros64(v) == CntTrailZeros32(v)
  {
    hide *;
    LeadZeros32Right(v);
    LeadZeros64Right(v);
    TrailZeros32Right(v);
    TrailZeros64Right(v);
    WideAgrees(v, 32, 32, CntLeadZeros32(v), CntLeadZeros64(v), CntTrailZeros32(v), CntTrailZeros64(v));
  }

  lemma WideAgrees(v: nat, w: nat, d: nat, lead: nat, leadWide: nat, trail: nat, trailWide: nat)
    requires IsLeadZeros(v, w, lead) && IsLeadZeros(v, w + d, leadWide)
    requires IsTrailZeros(v, w, trail) && IsTrailZeros(v, w + d, trailWide)
    ensures leadWide == lead + d
    ensures v > 0 ==> trailWide == trail
  {
    Widened(v, w, d, lead);
    Widened(v, w, d, trail);
    LeadZerosUnique(v, w + d, lead + d, leadWide);
    if v > 0 {
      TrailZerosUnique(v, w + d, trail, trailWide);
    }
  }

  // ---------------------------------------------------------------------------------------------
  // In terms of binary digits
  // ---------------------------------------------------------------------------------------------

  lemma LeadIsDigits(v: nat, w: nat, n: nat)
    requires v > 0 && IsLeadZeros(v, w, n)
    ensures n + |Digits(v, 2)| == w
  {
    DigitCountUnique(v, 2, w - n);
  }

  /** A non-zero value has as many leading zeros as it has binary digits less than the width. */
  lemma LeadZerosAreMissingDigits(v: U64)
    requires v > 0
    ensures v < 0x100 ==> CntLeadZeros08(v) + |Digits(v, 2)| == 8
    ensures v < 0x1_0000 ==> CntLeadZeros16(v) + |Digits(v, 2)| == 16
    ensures v < 0x1_0000_0000 ==> CntLeadZeros32(v) + |Digits(v, 2)| == 32
    ensures CntLeadZeros64(v) + |Digits(v, 2)| == 64
  {
    hide *;
    if v < 0x100 {
      LeadZeros08Right(v);
      LeadIsDigits(v, 8, CntLeadZeros08(v));
    }
    if v < 0x1_0000 {
      LeadZeros16Right(v);
      LeadIsDigits(v, 16, CntLeadZeros16(v));
    }
    if v < 0x1_0000_0000 {
      LeadZeros32Right(v);
      LeadIsDigits(v, 32, CntLeadZeros32(v));
    }
    LeadZeros64Right(v);
    LeadIsDigits(v, 64, CntLeadZeros64(v));
  }

  /** 2^k divides v, and 2^(k+1) does not. */
  lemma TrailIsFactor(v: nat, w: nat, k: nat)
    requires v > 0 && IsTrailZeros(v, w, k)
    ensures v % Pow2(k) == 0 && v % Pow2(k + 1) != 0
  {
    Divides2IsMod(k, v);
    Divides2IsMod(k + 1, v);
  }

  /** The trailing zeros of a non-zero value are its factors of 2. */
  lemma TrailZerosAreFactors(v: U64)
    requires v > 0
    ensures v < 0x100 ==> var k := CntTrailZeros08(v); k >= 0 && v % Pow2(k) == 0 && v % Pow2(k + 1) != 0
    ensures v < 0x1_0000 ==> var k := CntTrailZeros16(v); k >= 0 && v % Pow2(k) == 0 && v % Pow2(k + 1) != 0
    ensures v < 0x1_0000_0000 ==> var k := CntTrailZeros32(v); k >= 0 && v % Pow2(k) == 0 && v % Pow2(k + 1) != 0
    ensures var k := CntTrailZeros64(v); k >= 0 && v % Pow2(k) == 0 && v % Pow2(k + 1) != 0
  {
    hide *;
    if v < 0x100 {
      TrailZeros08Right(v);
      TrailIsFactor(v, 8, CntTrailZeros08(v));
    }
    if v < 0x1_0000 {
      TrailZeros16Right(v);
      TrailIsFactor(v, 16, CntTrailZeros16(v));
    }
    if v < 0x1_0000_0000 {
      TrailZeros32Right(v);
      TrailIsFactor(v, 32, CntTrailZeros32(v));
    }
    TrailZeros64Right(v);
    TrailIsFactor(v, 64, CntTrailZeros64(v));
  }
}
