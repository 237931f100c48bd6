/** Powers of two and divisibility by them. */
module Binary {
  import opened Arith

  function Pow2(k: nat): (p: nat)
    ensures p >= 1
  {
    PowPositive(2, k);
    Pow(2, k)
  }

  /** 2^k divides n, one factor at a time: everything below stays linear. */
  predicate Divides2(k: nat, n: int) {
    k == 0 || (n % 2 == 0 && Divides2(k - 1, n / 2))
  }

  lemma {:induction false} Divides2IsMod(k: nat, n: int)
    ensures Divides2(k, n) <==> n % Pow2(k) == 0
  {
    if k > 0 {
      Divides2IsMod(k - 1, n / 2);
      HalfMod(n, Pow2(k - 1));
    }
  }

  lemma HalfMod(n: int, p: nat)
    requires p >= 1
    ensures n % (2 * p) == 0 <==> n % 2 == 0 && (n / 2) % p == 0
  {
    var q, r := n / (2 * p), n % (2 * p);
    assert n == 2 * p * q + r;
    if r == 0 {
      assert n == 2 * (p * q);
      MultMod(p, q);
    }
    if n % 2 == 0 && (n / 2) % p == 0 {
      var h := n / 2 / p;
      assert n / 2 == p * h;
      assert n == 2 * p * h;
      MultMod(2 * p, h);
    }
  }

  lemma {:induction false} Divides2Double(k: nat, n: int)
    requires k >= 1
    ensures Divides2(k, 2 * n) <==> Divides2(k - 1, n)
  {
    assert 2 * n / 2 == n;
  }

  lemma {:induction false} Divides2Sum(k: nat, m: int, n: int)
    requires Divides2(k, m)
    ensures Divides2(k, m + n) <==> Divides2(k, n)
  {
    if k > 0 {
      Divides2Half(k, m);
      Divides2Half(k, n);
      Divides2Half(k, m + n);
      hide Divides2;
      HalfSum(m, n);
      if n % 2 == 0 {
        Divides2Sum(k - 1, m / 2, n / 2);
      }
    }
  }

  lemma Divides2Half(k: nat, n: int)
    requires k >= 1
    ensures Divides2(k, n) <==> n % 2 == 0 && Divides2(k - 1, n / 2)
  {
  }

  lemma HalfSum(m: int, n: int)
    requires m % 2 == 0
    ensures (m + n) % 2 == n % 2
    ensures n % 2 == 0 ==> (m + n) / 2 == m / 2 + n / 2
  {
  }

  lemma {:induction false} Divides2Neg(k: nat, n: int)
    ensures Divides2(k, n) <==> Divides2(k, -n)
  {
    if k > 0 && n % 2 == 0 {
      assert -n / 2 == -(n / 2);
      Divides2Neg(k - 1, n / 2);
    }
  }

  lemma {:induction false} Divides2Times(k: nat, n: int, c: int)
    requires Divides2(k, n)
    ensures Divides2(k, n * c)
  {
    if k > 0 {
      var h := n / 2;
      assert n == 2 * h;
      Divides2Times(k - 1, h, c);
      assert n * c == 2 * (h * c);
      Divides2Double(k, h * c);
    }
  }

  /** An odd factor can be dropped. */
  lemma {:induction false} Divides2Odd(k: nat, n: int, c: int)
    requires c % 2 == 1
    ensures Divides2(k, n * c) <==> Divides2(k, n)
  {
    if k > 0 {
      OddProduct(n, c);
      if n % 2 == 0 {
        var h := n / 2;
        assert n * c == 2 * (h * c);
        Divides2Double(k, h * c);
        Divides2Odd(k - 1, h, c);
      }
    }
  }

  lemma OddProduct(n: int, c: int)
    requires c % 2 == 1
    ensures n * c % 2 == n % 2
  {
    var d := c / 2;
    assert c == 2 * d + 1;
    assert n * c == 2 * (n * d) + n;
  }

  lemma {:induction false} Divides2Fewer(j: nat, k: nat, n: int)
    requires j <= k && Divides2(k, n)
    ensures Divides2(j, n)
  {
    if j > 0 {
      Divides2Fewer(j - 1, k - 1, n / 2);
    }
  }

  /** Two odd multiples of 2^(k-1) add up to a multiple of 2^k. */
  lemma {:induction false} Divides2OddMultiples(k: nat, m: int, n: int)
    requires k >= 1
    requires Divides2(k - 1, m) && !Divides2(k, m)
    requires Divides2(k - 1, n) && !Divides2(k, n)
    ensures Divides2(k, m + n)
  {
    if k > 1 {
      HalfSum(m, n);
      Divides2OddMultiples(k - 1, m / 2, n / 2);
    }
  }

  lemma {:induction false} Divides2Zero(k: nat)
    ensures Divides2(k, 0)
  {
    if k > 0 {
      Divides2Zero(k - 1);
    }
  }

  lemma {:induction false} Pow2Factors(j: nat, k: nat)
    ensures Divides2(j, Pow2(k)) <==> j <= k
  {
    if j > 0 && k > 0 {
      Divides2Double(j, Pow2(k - 1));
      Pow2Factors(j - 1, k - 1);
    }
  }

  lemma Pow2Twice(k: nat)
    requires k >= 1
    ensures Pow2(k) == 2 * Pow2(k - 1)
  {
  }

  lemma Pow2Bytes()
    ensures Pow2(0) == 1
    ensures Pow2(8) == 0x100
    ensures Pow2(16) == 0x1_0000
    ensures Pow2(24) == 0x100_0000
    ensures Pow2(32) == 0x1_0000_0000
    ensures Pow2(40) == 0x100_0000_0000
    ensures Pow2(48) == 0x1_0000_0000_0000
    ensures Pow2(56) == 0x100_0000_0000_0000
    ensures Pow2(64) == 0x1_0000_0000_0000_0000
  {
    assert Pow2(0) == 1 && Pow2(8) == 0x100;
    hide Pow;
    PowSum(2, 8, 8);
    PowSum(2, 16, 8);
    PowSum(2, 24, 8);
    PowSum(2, 32, 8);
    PowSum(2, 40, 8);
    PowSum(2, 48, 8);
    PowSum(2, 56, 8);
  }
}
