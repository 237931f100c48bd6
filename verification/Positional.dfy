/** Positional notation in an arbitrary base: most significant digit first. */
module Positional {
  import opened Arith

  predicate AreDigits(ds: seq<nat>, b: nat) {
    forall i :: 0 <= i < |ds| ==> ds[i] < b
  }

  /** The number a run of digits denotes. */
  function Value(ds: seq<nat>, b: nat): nat {
    if ds == [] then 0 else Value(ds[..|ds| - 1], b) * b + ds[|ds| - 1]
  }

  function Zeros(k: nat): seq<nat> {
    seq(k, _ => 0)
  }

  /** The shortest run of digits that denotes `n`; one digit for zero. */
  function Digits(n: nat, b: nat): seq<nat>
    requires b >= 2
  {
    if n < b then [n] else DivSmaller(n, b); Digits(n / b, b) + [n % b]
  }

  lemma DivSmaller(n: nat, b: nat)
    requires 2 <= b <= n
    ensures 0 < n / b < n
    ensures 0 <= n % b < b
    ensures n == n / b * b + n % b
  {
  }

  lemma {:induction false} DigitsValue(n: nat, b: nat)
    requires b >= 2
    ensures Digits(n, b) != [] && AreDigits(Digits(n, b), b)
    ensures Value(Digits(n, b), b) == n
  {
    if n < b {
      assert Value([], b) == 0;
      assert [n][..0] == [];
    } else {
      DivSmaller(n, b);
      DigitsValue(n / b, b);
      ValueSnoc(Digits(n / b, b), n % b, b);
    }
  }

  /** Appending a digit multiplies by the base and adds. */
  lemma ValueSnoc(ds: seq<nat>, d: nat, b: nat)
    ensures Value(ds + [d], b) == Value(ds, b) * b + d
  {
    assert (ds + [d])[..|ds|] == ds;
  }

  lemma SnocBound(v: nat, d: nat, p: nat, b: nat)
    requires v < p && d < b
    ensures v * b + d < b * p
  {
    assert (v + 1) * b <= p * b;
  }

  lemma {:induction false} ValueBound(ds: seq<nat>, b: nat)
    requires b >= 1 && AreDigits(ds, b)
    ensures Value(ds, b) < Pow(b, |ds|)
  {
    if ds != [] {
      var rest := ds[..|ds| - 1];
      ValueBound(rest, b);
      SnocBound(Value(rest, b), ds[|ds| - 1], Pow(b, |rest|), b);
    }
  }

  /** Splitting a run: the left part counts for its value shifted past the right part. */
  lemma {:induction false} ValueConcat(a: seq<nat>, c: seq<nat>, b: nat)
    ensures Value(a + c, b) == Value(a, b) * Pow(b, |c|) + Value(c, b)
    decreases |c|
  {
    if c == [] {
      assert a + c == a;
    } else {
      var r, d := c[..|c| - 1], c[|c| - 1];
      assert c == r + [d];
      assert a + c == (a + r) + [d];
      ValueConcat(a, r, b);
      ValueSnoc(a + r, d, b);
      ValueSnoc(r, d, b);
      ConcatStep(Value(a, b), Pow(b, |r|), Value(r, b), b, d);
    }
  }

  lemma ConcatStep(x: nat, p: nat, y: nat, b: nat, d: nat)
    ensures (x * p + y) * b + d == x * (b * p) + (y * b + d)
  {
    assert x * p * b == x * (b * p);
  }

  lemma {:induction false} ValueZeros(k: nat, b: nat)
    ensures Value(Zeros(k), b) == 0
  {
    if k > 0 {
      assert Zeros(k)[..k - 1] == Zeros(k - 1);
      ValueZeros(k - 1, b);
    }
  }

  /** Leading zeros do not count. */
  lemma LeadingZeros(k: nat, ds: seq<nat>, b: nat)
    ensures Value(Zeros(k) + ds, b) == Value(ds, b)
  {
    ValueZeros(k, b);
    ValueConcat(Zeros(k), ds, b);
  }

  /** A run grows with every digit appended to it. */
  lemma {:induction false} ValuePrefix(ds: seq<nat>, k: nat, b: nat)
    requires b >= 1 && k <= |ds|
    ensures Value(ds[..k], b) <= Value(ds, b)
    decreases |ds|
  {
    if k == |ds| {
      assert ds[..k] == ds;
    } else {
      var r := ds[..|ds| - 1];
      ValuePrefix(r, k, b);
      assert r[..k] == ds[..k];
      assert Value(r, b) * b >= Value(r, b) * 1;
    }
  }

  /** A leading digit other than zero does count. */
  lemma LeadingDigitAdds(vs: seq<nat>, ds: seq<nat>, b: nat)
    requires b >= 1 && vs != [] && vs[0] > 0
    ensures Value(vs + ds, b) > Value(ds, b)
  {
    ValueConcat(vs, ds, b);
    ValuePrefix(vs, 1, b);
    assert vs[..1] == [] + [vs[0]];
    ValueSnoc([], vs[0], b);
    PowPositive(b, |ds|);
    MulLe(1, Value(vs, b), Pow(b, |ds|));
  }

  /** `d` digits are needed for `n` in base `b`. */
  ghost predicate IsDigitCount(n: nat, b: nat, d: nat) {
    d >= 1 && n < Pow(b, d) && (d > 1 ==> Pow(b, d - 1) <= n)
  }

  lemma {:induction false} DigitsLower(n: nat, b: nat)
    requires b >= 2 && n >= b
    ensures Pow(b, |Digits(n, b)| - 1) <= n
  {
    DivSmaller(n, b);
    var q := n / b;
    var d := |Digits(q, b)|;
    if q >= b {
      DigitsLower(q, b);
    }
    MulLe(Pow(b, d - 1), q, b);
    assert Pow(b, d) <= q * b;
  }

  lemma DigitsCount(n: nat, b: nat)
    requires b >= 2
    ensures IsDigitCount(n, b, |Digits(n, b)|)
  {
    DigitsValue(n, b);
    ValueBound(Digits(n, b), b);
    if n >= b {
      DigitsLower(n, b);
    }
  }

  /** The digit count is the only d with b^(d-1) <= n < b^d (d = 1 for zero). */
  lemma DigitCountUnique(n: nat, b: nat, d: nat)
    requires b >= 2
    ensures IsDigitCount(n, b, d) <==> d == |Digits(n, b)|
  {
    DigitsCount(n, b);
    var e := |Digits(n, b)|;
    if IsDigitCount(n, b, d) {
      if d < e {
        PowMonotone(b, d, e - 1);
      } else if e < d {
        PowMonotone(b, e, d - 1);
      }
    }
  }

  /** What is left of `n` after `i` divisions by the base. */
  function Shifted(n: nat, b: nat, i: nat): nat
    requires b >= 2
  {
    if i == 0 then n else Shifted(n, b, i - 1) / b
  }

  lemma ShiftedStart(n: nat, b: nat)
    ensures b >= 2 ==> Shifted(n, b, 0) == n
  {
  }

  lemma {:induction false} ShiftedFirst(n: nat, b: nat, i: nat)
    requires b >= 2
    ensures Shifted(n, b, i + 1) == Shifted(n / b, b, i)
  {
    if i > 0 {
      ShiftedFirst(n, b, i - 1);
    }
  }

  /** Repeated division peels the digits off from the right, and is done exactly when they are all
      gone. */
  lemma {:induction false} ShiftedDigit(n: nat, b: nat, i: nat)
    requires b >= 2
    ensures var d := |Digits(n, b)|;
      && (i < d ==> Digits(n, b)[d - 1 - i] == Shifted(n, b, i) % b)
      && (0 < i < d ==> Shifted(n, b, i) > 0)
      && (i >= d ==> Shifted(n, b, i) == 0)
    decreases i
  {
    if n < b {
      DivSmall(n, b);
      if i > 0 {
        ShiftedFirst(n, b, i - 1);
        ShiftedZero(b, i - 1);
      }
    } else {
      DivSmaller(n, b);
      if i > 0 {
        ShiftedFirst(n, b, i - 1);
        ShiftedDigit(n / b, b, i - 1);
        ShiftedPositive(n, b, i);
      }
    }
  }

  lemma DivSmall(n: nat, b: nat)
    requires n < b
    ensures n / b == 0 && n % b == n
  {
  }

  lemma ShiftedPositive(n: nat, b: nat, i: nat)
    requires 2 <= b <= n && i > 0
    requires i > 1 && i - 1 < |Digits(n / b, b)| ==> Shifted(n / b, b, i - 1) > 0
    ensures i < |Digits(n, b)| ==> Shifted(n, b, i) > 0
  {
    ShiftedFirst(n, b, i - 1);
    DivSmaller(n, b);
  }

  lemma {:induction false} ShiftedZero(b: nat, i: nat)
    requires b >= 2
    ensures Shifted(0, b, i) == 0
  {
    if i > 0 {
      ShiftedZero(b, i - 1);
    }
  }

  lemma {:induction false} ShiftedPow(n: nat, b: nat, i: nat)
    requires b >= 2
    ensures Pow(b, i) >= 1 && Shifted(n, b, i) == n / Pow(b, i)
  {
    PowPositive(b, i);
    if i > 0 {
      ShiftedPow(n, b, i - 1);
      DivTwice(n, Pow(b, i - 1), b);
    }
  }

  /** Digit `i` from the right is what is left of the number after dividing by b^i, modulo b. */
  lemma DigitAt(n: nat, b: nat, i: nat)
    requires b >= 2 && i < |Digits(n, b)|
    ensures Pow(b, i) >= 1 && Digits(n, b)[|Digits(n, b)| - 1 - i] == n / Pow(b, i) % b
  {
    ShiftedPow(n, b, i);
    ShiftedDigit(n, b, i);
  }

  /** No number but zero starts with the digit 0. */
  lemma {:induction false} TopDigit(n: nat, b: nat)
    requires b >= 2 && n > 0
    ensures Digits(n, b) != [] && Digits(n, b)[0] > 0
  {
    if n >= b {
      DivSmaller(n, b);
      TopDigit(n / b, b);
    }
  }
}
