/** The linear congruential generator of lib_math.c. */
module MathRand {
  import opened Word
  import opened Arith
  import opened Binary

  const RAND_SEED_INIT_VAL: U32 := 1
  const RAND_LCG_PARAM_M: U32 := 0x7FFF_FFFF
  const RAND_LCG_PARAM_A: U32 := 1103515245
  const RAND_LCG_PARAM_B: U32 := 12345

  /** Math_RandSeed(), in 32-bit unsigned arithmetic: product and sum wrap before the remainder. */
  function RandSeed(seed: U32): (r: U32)
    ensures r <= RAND_LCG_PARAM_M
  {
    (RAND_LCG_PARAM_A * seed % MOD_32 + RAND_LCG_PARAM_B) % MOD_32 % (RAND_LCG_PARAM_M + 1)
  }

  /** The state after `n` calls. */
  function Iter(x: U32, n: nat): U32 {
    if n == 0 then x else RandSeed(Iter(x, n - 1))
  }

  /** The module's global seed and the functions on it; a critical section makes each one atomic. */
  class Generator {
    var seedCur: U32
    ghost var seed: U32
    ghost var calls: nat

    /** The current seed is the last one set, advanced once per call since. */
    ghost predicate Valid()
      reads this
    {
      seedCur == Iter(seed, calls)
    }

    /** Math_Init(). */
    constructor ()
      ensures Valid() && seed == seedCur == 1 && calls == 0
    {
      seedCur, seed, calls := RAND_SEED_INIT_VAL, RAND_SEED_INIT_VAL, 0;
    }

    /** Math_RandSetSeed(). */
    method SetSeed(newSeed: U32)
      modifies this
      ensures Valid() && seed == newSeed && calls == 0
    {
      seedCur, seed, calls := newSeed, newSeed, 0;
    }

    /** Math_Rand(). */
    method Rand() returns (r: U32)
      requires Valid()
      modifies this
      ensures Valid() && seed == old(seed) && calls == old(calls) + 1
      ensures r == Iter(seed, calls) == seedCur
    {
      var cur := seedCur;
      r := RandSeed(cur);
      seedCur := r;
      calls := calls + 1;
    }
  }

  // ---------------------------------------------------------------------------------------------
  // Congruence modulo powers of two
  // ---------------------------------------------------------------------------------------------

  /** Agreeing in the low k bits. */
  ghost predicate Cong(k: nat, a: int, b: int) {
    Divides2(k, a - b)
  }

  lemma CongTrans(k: nat, a: int, b: int, c: int)
    requires Cong(k, a, b)
    ensures Cong(k, b, c) <==> Cong(k, a, c)
  {
    Divides2Sum(k, a - b, b - c);
    assert (a - b) + (b - c) == a - c;
  }

  lemma CongSym(k: nat, a: int, b: int)
    ensures Cong(k, a, b) <==> Cong(k, b, a)
  {
    Divides2Neg(k, a - b);
  }

  lemma CongIsMod(k: nat, a: int, b: int)
    ensures Cong(k, a, b) <==> a % Pow2(k) == b % Pow2(k)
  {
    Divides2IsMod(k, a - b);
    SameMod(a, b, Pow2(k));
  }

  lemma Pow2Of31()
    ensures Pow2(31) == RAND_LCG_PARAM_M + 1 == 0x8000_0000
  {
    assert Pow2(8) == 0x100;
    assert Pow2(16) == 0x1_0000;
    assert Pow2(24) == 0x100_0000;
  }

  // ---------------------------------------------------------------------------------------------
  // The orbit without reductions
  // ---------------------------------------------------------------------------------------------

  /** The recurrence over the integers, never reduced. */
  ghost function Orbit(x: int, n: nat): int {
    if n == 0 then x else RAND_LCG_PARAM_A * Orbit(x, n - 1) + RAND_LCG_PARAM_B
  }

  lemma ParitySum(a: int, b: int)
    requires a % 2 == b % 2
    ensures (1 + a) % 2 == (1 + b) % 2
  {
  }

  /** 1 + A + ... + A^(n-1). */
  ghost function Geo(n: nat): int {
    if n == 0 then 0 else 1 + RAND_LCG_PARAM_A * Geo(n - 1)
  }

  lemma {:induction false} OrbitDistance(x: int, n: nat)
    ensures Orbit(x, n) - x == Geo(n) * ((RAND_LCG_PARAM_A - 1) * x + RAND_LCG_PARAM_B)
  {
    if n > 0 {
      OrbitDistance(x, n - 1);
      DistanceStep(RAND_LCG_PARAM_A, RAND_LCG_PARAM_B, x, Geo(n - 1), Orbit(x, n - 1));
    }
  }

  lemma DistanceStep(a: int, b: int, x: int, g: int, o: int)
    requires o - x == g * ((a - 1) * x + b)
    ensures a * o + b - x == (1 + a * g) * ((a - 1) * x + b)
  {
    var c := (a - 1) * x + b;
    assert a * (o - x) == a * (g * c) == a * g * c;
    assert a * o - a * x == a * g * c;
    assert c == a * x - x + b;
  }

  lemma {:induction false} OrbitSpread(x: int, y: int, n: nat)
    ensures Orbit(x, n) - Orbit(y, n) == (x - y) * Pow(RAND_LCG_PARAM_A, n)
  {
    if n > 0 {
      OrbitSpread(x, y, n - 1);
      SpreadStep(RAND_LCG_PARAM_A, x - y, Pow(RAND_LCG_PARAM_A, n - 1), Orbit(x, n - 1), Orbit(y, n - 1));
    }
  }

  lemma SpreadStep(a: int, d: int, p: int, o: int, u: int)
    requires o - u == d * p
    ensures a * o - a * u == d * (a * p)
  {
    assert a * (o - u) == a * (d * p) == d * (a * p);
  }

  lemma {:induction false} GeoSum(m: nat, n: nat)
    ensures Geo(m + n) == Geo(m) + Pow(RAND_LCG_PARAM_A, m) * Geo(n)
  {
    if m > 0 {
      GeoSum(m - 1, n);
      var p, g := Pow(RAND_LCG_PARAM_A, m - 1), Geo(n);
      assert Geo(m + n) == 1 + RAND_LCG_PARAM_A * Geo(m - 1 + n);
      hide Geo;
      MulAssoc(RAND_LCG_PARAM_A, p, g);
    }
  }

  /** A is 1 modulo 4, and so are its powers. */
  lemma {:induction false} PowAMod4(n: nat)
    ensures Pow(RAND_LCG_PARAM_A, n) % 4 == 1
  {
    if n > 0 {
      PowAMod4(n - 1);
      OneMod4(Pow(RAND_LCG_PARAM_A, n - 1));
    }
  }

  lemma OneMod4(p: int)
    requires p % 4 == 1
    ensures RAND_LCG_PARAM_A * p % 4 == 1
  {
    var q := p / 4;
    assert RAND_LCG_PARAM_A * p == 4 * (RAND_LCG_PARAM_A * q) + RAND_LCG_PARAM_A;
  }

  lemma {:induction false} GeoParity(n: nat)
    ensures Geo(n) % 2 == n % 2
  {
    if n > 0 {
      GeoParity(n - 1);
      OddProduct(Geo(n - 1), RAND_LCG_PARAM_A);
      ParitySum(Geo(n - 1) * RAND_LCG_PARAM_A, n - 1);
    }
  }

  lemma HalfOfSum(p: int)
    requires p % 4 == 1
    ensures (1 + p) / 2 % 2 == 1 && 1 + p == 2 * ((1 + p) / 2)
  {
  }

  lemma GeoDouble(m: nat) returns (c: int)
    ensures c % 2 == 1 && Geo(2 * m) == 2 * (Geo(m) * c)
  {
    PowAMod4(m);
    HalfOfSum(Pow(RAND_LCG_PARAM_A, m));
    GeoSum(m, m);
    c := (1 + Pow(RAND_LCG_PARAM_A, m)) / 2;
    DoubleFactor(Geo(m), Pow(RAND_LCG_PARAM_A, m), c);
  }

  lemma DoubleFactor(g: int, p: int, c: int)
    requires 1 + p == 2 * c
    ensures g + p * g == 2 * (g * c)
  {
    assert g + p * g == (1 + p) * g;
  }

  /** The sum has exactly the factors 2 of its number of terms. */
  lemma {:induction false} GeoFactors(k: nat, n: nat)
    ensures Divides2(k, Geo(n)) <==> Divides2(k, n)
  {
    hide Geo;
    if k > 0 {
      GeoParity(n);
      if n % 2 == 0 {
        var m := n / 2;
        assert n == 2 * m;
        var c := GeoDouble(m);
        Divides2Double(k, Geo(m) * c);
        Divides2Odd(k - 1, Geo(m), c);
        GeoFactors(k - 1, m);
      }
    }
  }

  // ---------------------------------------------------------------------------------------------
  // The generator follows the orbit
  // ---------------------------------------------------------------------------------------------

  lemma StepCong(x: U32)
    ensures Cong(31, RandSeed(x), RAND_LCG_PARAM_A * x + RAND_LCG_PARAM_B)
  {
    var q := StepQuotient(x);
    Pow2Of31();
    MultMod(0x8000_0000, q);
    Divides2IsMod(31, 0x8000_0000 * q);
  }

  /** The two wraps at 2^32 only take away multiples of 2^31. */
  lemma StepQuotient(x: U32) returns (q: int)
    ensures RandSeed(x) - (RAND_LCG_PARAM_A * x + RAND_LCG_PARAM_B) == 0x8000_0000 * q
  {
    var p := RAND_LCG_PARAM_A * x;
    var s := p % MOD_32 + RAND_LCG_PARAM_B;
    var t := s % MOD_32;
    q := -2 * (p / MOD_32) - 2 * (s / MOD_32) - t / 0x8000_0000;
  }

  /** The generator is the documented recurrence: the wraps at 2^32 make no difference. */
  lemma IsDocumentedLcg(x: U32)
    ensures RandSeed(x) == (1103515245 * x + 12345) % 0x8000_0000
  {
    var q := StepQuotient(x);
    ModShift(RAND_LCG_PARAM_A * x + RAND_LCG_PARAM_B, q, 0x8000_0000);
  }

  lemma {:induction false} IterCong(x: U32, n: nat)
    ensures Cong(31, Iter(x, n), Orbit(x, n))
  {
    if n == 0 {
      Divides2Zero(31);
    } else {
      IterCong(x, n - 1);
      var i, o := Iter(x, n - 1), Orbit(x, n - 1);
      StepCong(i);
      OrbitStepCong(31, i, o);
      CongTrans(31, Iter(x, n), RAND_LCG_PARAM_A * i + RAND_LCG_PARAM_B, Orbit(x, n));
    }
  }

  lemma OrbitStepCong(k: nat, i: int, o: int)
    requires Cong(k, i, o)
    ensures Cong(k, RAND_LCG_PARAM_A * i + RAND_LCG_PARAM_B, RAND_LCG_PARAM_A * o + RAND_LCG_PARAM_B)
  {
    Divides2Times(k, i - o, RAND_LCG_PARAM_A);
    assert (RAND_LCG_PARAM_A * i + RAND_LCG_PARAM_B) - (RAND_LCG_PARAM_A * o + RAND_LCG_PARAM_B)
        == (i - o) * RAND_LCG_PARAM_A;
  }

  // ---------------------------------------------------------------------------------------------
  // The period
  // ---------------------------------------------------------------------------------------------

  lemma OddIncrement(x: int)
    ensures ((RAND_LCG_PARAM_A - 1) * x + RAND_LCG_PARAM_B) % 2 == 1
  {
    EvenTimesPlusOdd(RAND_LCG_PARAM_A / 2, x, RAND_LCG_PARAM_B);
  }

  lemma EvenTimesPlusOdd(h: int, x: int, o: int)
    requires o % 2 == 1
    ensures (2 * h * x + o) % 2 == 1
  {
    assert 2 * h * x == 2 * (h * x);
  }

  lemma CongPeriod(x: U32, n: nat, k: nat)
    requires k <= 31
    ensures Cong(k, Iter(x, n), x) <==> Divides2(k, n)
  {
    hide Iter, RandSeed, Orbit, Geo, Divides2;
    var c := (RAND_LCG_PARAM_A - 1) * x + RAND_LCG_PARAM_B;
    IterCong(x, n);
    Divides2Fewer(k, 31, Iter(x, n) - Orbit(x, n));
    CongTrans(k, Iter(x, n), Orbit(x, n), x);
    OrbitDistance(x, n);
    OddIncrement(x);
    Divides2Odd(k, Geo(n), c);
    GeoFactors(k, n);
  }

  /** The low k bits of the state come back after n calls exactly when 2^k divides n. */
  lemma LowBitsPeriod(x: U32, n: nat, k: nat)
    requires k <= 31
    ensures Iter(x, n) % Pow2(k) == x % Pow2(k) <==> n % Pow2(k) == 0
  {
    hide Iter, RandSeed, Divides2, Pow2, Cong;
    CongPeriod(x, n, k);
    CongIsMod(k, Iter(x, n), x);
    Divides2IsMod(k, n);
  }

  /** The low k bits of every state depend on the low k bits of the seed only. */
  lemma LowBitsOnly(x: U32, y: U32, n: nat, k: nat)
    requires k <= 31 && x % Pow2(k) == y % Pow2(k)
    ensures Iter(x, n) % Pow2(k) == Iter(y, n) % Pow2(k)
  {
    hide Iter, RandSeed, Orbit, Pow, Divides2, Pow2;
    var i, j, o, u := Iter(x, n), Iter(y, n), Orbit(x, n), Orbit(y, n);
    CongIsMod(k, x, y);
    OrbitSpread(x, y, n);
    Divides2Times(k, x - y, Pow(RAND_LCG_PARAM_A, n));
    IterCong(x, n);
    IterCong(y, n);
    Divides2Fewer(k, 31, i - o);
    Divides2Fewer(k, 31, j - u);
    CongTrans(k, i, o, u);
    CongSym(k, j, u);
    CongTrans(k, i, u, j);
    CongIsMod(k, i, j);
  }

  lemma InState(x: U32, n: nat)
    requires n == 0 ==> x <= RAND_LCG_PARAM_M
    ensures Iter(x, n) <= RAND_LCG_PARAM_M
  {
  }

  /** States that agree in 31 bits are the same. */
  lemma CongStates(x: U32, y: U32)
    requires x <= RAND_LCG_PARAM_M && y <= RAND_LCG_PARAM_M
    ensures Cong(31, x, y) <==> x == y
  {
    hide Pow2, Cong;
    Pow2Of31();
    CongIsMod(31, x, y);
  }

  /** The period of the generator is 2^31, and no less, from every state it can be in. */
  lemma FullPeriod(x: U32, n: nat)
    requires x <= RAND_LCG_PARAM_M
    ensures Iter(x, n) == x <==> n % (RAND_LCG_PARAM_M + 1) == 0
  {
    InState(x, n);
    hide Iter, RandSeed, Divides2, Cong, Pow2;
    CongPeriod(x, n, 31);
    CongStates(Iter(x, n), x);
    Pow2Of31();
    Divides2IsMod(31, n);
  }

  lemma {:induction false} IterSum(x: U32, m: nat, n: nat)
    ensures Iter(x, m + n) == Iter(Iter(x, m), n)
  {
    if n > 0 {
      IterSum(x, m, n - 1);
    }
  }

  /** Any k low bits are reached within 2^k calls, adding one bit at a time: after 2^(k-1) calls the
      low k-1 bits are back and the next one is not. */
  lemma {:induction false} Reach(x: U32, y: U32, k: nat) returns (n: nat)
    requires k <= 31
    ensures n < Pow2(k) && Cong(k, Iter(x, n), y)
  {
    if k == 0 {
      n := 0;
    } else {
      n := Reach(x, y, k - 1);
      hide *;
      if !Cong(k, Iter(x, n), y) {
        NextBit(x, y, k, n);
        n := n + Pow2(k - 1);
      }
      Pow2Twice(k);
    }
  }

  lemma NextBit(x: U32, y: U32, k: nat, n: nat)
    requires 1 <= k <= 31
    requires Cong(k - 1, Iter(x, n), y) && !Cong(k, Iter(x, n), y)
    ensures Cong(k, Iter(x, n + Pow2(k - 1)), y)
  {
    hide Iter, RandSeed, Divides2, Pow2;
    var p, z := Pow2(k - 1), Iter(x, n);
    IterSum(x, n, p);
    CongPeriod(z, p, k - 1);
    CongPeriod(z, p, k);
    Pow2Factors(k - 1, k - 1);
    Pow2Factors(k, k - 1);
    Divides2OddMultiples(k, Iter(z, p) - z, z - y);
  }

  /** From any seed at all, the first 2^31 numbers returned are all of [0, RAND_LCG_PARAM_M], each
      exactly once. */
  lemma VisitsAllOnce(x: U32, y: U32) returns (n: nat)
    requires y <= RAND_LCG_PARAM_M
    ensures 1 <= n <= RAND_LCG_PARAM_M + 1 && Iter(x, n) == y
    ensures forall m: nat :: 1 <= m <= RAND_LCG_PARAM_M + 1 && Iter(x, m) == y ==> m == n
  {
    n := ReachState(x, y);
    forall m: nat | 1 <= m <= RAND_LCG_PARAM_M + 1 && Iter(x, m) == y
      ensures m == n
    {
      if m < n {
        OnlyOnce(x, m, n);
      } else if n < m {
        OnlyOnce(x, n, m);
      }
    }
  }

  lemma ReachState(x: U32, y: U32) returns (n: nat)
    requires y <= RAND_LCG_PARAM_M
    ensures 1 <= n <= RAND_LCG_PARAM_M + 1 && Iter(x, n) == y
  {
    Pow2Of31();
    hide Pow2, Divides2, Cong;
    n := Reach(x, y, 31);
    if n == 0 {
      n := RAND_LCG_PARAM_M + 1;
      Pow2Factors(31, 31);
      CongPeriod(x, n, 31);
      CongTrans(31, Iter(x, n), x, y);
    }
    InState(x, n);
    CongStates(Iter(x, n), y);
  }

  lemma OnlyOnce(x: U32, m: nat, n: nat)
    requires 1 <= m < n <= 0x8000_0000
    ensures Iter(x, m) != Iter(x, n)
  {
    hide *;
    InState(x, m);
    IterSum(x, m, n - m);
    CongPeriod(Iter(x, m), n - m, 31);
    SmallNotDivisible(n - m);
    CongSelf(31, Iter(x, m));
  }

  lemma CongSelf(k: nat, x: int)
    ensures Cong(k, x, x)
  {
    Divides2Zero(k);
  }

  lemma SmallNotDivisible(d: nat)
    requires 1 <= d <= 0x7FFF_FFFF
    ensures !Divides2(31, d)
  {
    hide Divides2;
    Pow2Of31();
    Divides2IsMod(31, d);
  }
}
