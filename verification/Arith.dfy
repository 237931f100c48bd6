/** Powers, and facts about products and remainders that the solver needs one at a time. */
module Arith {

  function Pow(b: nat, k: nat): nat {
    if k == 0 then 1 else b * Pow(b, k - 1)
  }

  lemma MulLe(a: int, b: int, c: int)
    requires a <= b && 0 <= c
    ensures a * c <= b * c == c * b
  {
  }

  lemma MulAssoc(a: int, b: int, c: int)
    ensures a * b * c == a * (b * c)
  {
  }

  /** No multiple of p other than 0 lies strictly between -p and p. */
  lemma BetweenMultiples(p: int, q: int)
    requires p >= 1 && -p < p * q < p
    ensures p * q == 0
  {
    if q >= 1 {
      MulLe(1, q, p);
    } else if q <= -1 {
      MulLe(q, -1, p);
    }
  }

  /** Adding a multiple does not change the remainder. */
  lemma ModShift(a: int, q: int, p: int)
    requires p >= 1
    ensures (a + p * q) % p == a % p
  {
    var x, y := a % p, (a + p * q) % p;
    var d, e := a / p, (a + p * q) / p;
    assert a == p * d + x && a + p * q == p * e + y;
    assert y - x == p * (d + q - e);
    BetweenMultiples(p, d + q - e);
  }

  lemma MultMod(p: int, q: int)
    requires p >= 1
    ensures p * q % p == 0
  {
    ModShift(0, q, p);
  }

  lemma SameMod(a: int, b: int, p: int)
    requires p >= 1
    ensures (a - b) % p == 0 <==> a % p == b % p
  {
    var q, r := (a - b) / p, (a - b) % p;
    assert a == b + r + p * q;
    ModShift(b + r, q, p);
    if a % p == b % p {
      var d := a / p - b / p;
      assert a - b == p * d;
      MultMod(p, d);
    }
  }

  /** Reducing a summand first makes no difference. */
  lemma AddMod(a: int, b: int, p: int)
    requires p >= 1
    ensures (a % p + b) % p == (a + b) % p
  {
    assert a == p * (a / p) + a % p;
    ModShift(a % p + b, a / p, p);
  }

  /** Reducing by a multiple of the modulus first makes no difference. */
  lemma ModMod(a: int, p: int, k: int)
    requires p >= 1 && k >= 1
    ensures p * k >= 1 && a % (p * k) % p == a % p
  {
    MulLe(1, k, p);
    var q, r := a / (p * k), a % (p * k);
    assert a == p * k * q + r == r + p * (k * q);
    ModShift(r, k * q, p);
  }

  lemma PowPositive(b: nat, k: nat)
    requires b >= 1
    ensures Pow(b, k) >= 1
  {
    if k > 0 {
      PowPositive(b, k - 1);
    }
  }

  lemma {:induction false} PowMonotone(b: nat, j: nat, k: nat)
    requires b >= 1 && j <= k
    ensures Pow(b, j) <= Pow(b, k)
  {
    if j < k {
      PowMonotone(b, j, k - 1);
      assert Pow(b, k) == b * Pow(b, k - 1);
      assert b * Pow(b, k - 1) >= 1 * Pow(b, k - 1);
    }
  }

  lemma {:induction false} PowSum(b: nat, j: nat, k: nat)
    ensures Pow(b, j + k) == Pow(b, j) * Pow(b, k)
  {
    if j > 0 {
      PowSum(b, j - 1, k);
      assert Pow(b, j) == b * Pow(b, j - 1) && Pow(b, j + k) == b * Pow(b, j - 1 + k);
      hide Pow;
      MulAssoc(b, Pow(b, j - 1), Pow(b, k));
    }
  }

  lemma DivUnique(n: nat, d: nat, q: nat)
    requires d >= 1 && q * d <= n < (q + 1) * d
    ensures n / d == q
  {
    var e := n / d;
    assert n == d * e + n % d;
    if e < q {
      MulLe(e + 1, q, d);
    } else if q < e {
      MulLe(q + 1, e, d);
    }
  }

  /** Dividing twice is dividing by the product. */
  lemma DivTwice(n: nat, p: nat, b: nat)
    requires p >= 1 && b >= 1
    ensures b * p >= 1 && n / p / b == n / (b * p)
  {
    var q, r := n / p, n % p;
    var u, v := q / b, q % b;
    MulLe(1, b, p);
    assert n == q * p + r && q == u * b + v;
    NestedBounds(n, p, b, q, r, u, v);
    DivUnique(n, b * p, u);
  }

  lemma NestedBounds(n: nat, p: nat, b: nat, q: nat, r: nat, u: nat, v: nat)
    requires n == q * p + r && r < p
    requires q == u * b + v && v < b
    ensures u * (b * p) <= n < (u + 1) * (b * p)
  {
    assert q + 1 <= (u + 1) * b && n < (q + 1) * p;
    MulLe(u * b, q, p);
    MulLe(q + 1, (u + 1) * b, p);
    MulAssoc(u, b, p);
    MulAssoc(u + 1, b, p);
  }
}
