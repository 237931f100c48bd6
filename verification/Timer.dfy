/** The wrapping timer that timestamps and measurements read. */
module Timer {
  import opened Word
  import opened Arith
  import opened Binary

  /** CPU_CFG_TS_TMR_SIZE, in bits. */
  predicate TmrBits(bits: nat) {
    bits == 8 || bits == 16 || bits == 32 || bits == 64
  }

  /** The number of values the timer takes before it wraps. */
  function TmrMod(bits: nat): (m: nat)
    requires TmrBits(bits)
    ensures m >= 1
  {
    if bits == 8 then MOD_8 else if bits == 16 then MOD_16 else if bits == 32 then MOD_32 else MOD_64
  }

  lemma TmrModIsPow2(bits: nat)
    requires TmrBits(bits)
    ensures TmrMod(bits) == Pow2(bits)
  {
    Pow2Bytes();
  }

  /** The counts from one time or reading to another, in the timer's own width. */
  function Delta(from: int, to: int, m: nat): (d: nat)
    requires m >= 1
    ensures d < m
  {
    (to - from) % m
  }

  /** Subtracting wrapped readings is as good as subtracting the true times. */
  lemma DeltaOfReadings(a: int, b: int, m: nat)
    requires m >= 1
    ensures Delta(a % m, b % m, m) == Delta(a, b, m)
  {
    var qa, qb := a / m, b / m;
    assert a == m * qa + a % m && b == m * qb + b % m;
    assert b - a == (b % m - a % m) + m * (qb - qa);
    ModShift(b % m - a % m, qb - qa, m);
  }

  /** Less than one turn of the timer is measured exactly. */
  lemma DeltaShort(a: int, b: int, m: nat)
    requires m >= 1 && 0 <= b - a < m
    ensures Delta(a, b, m) == b - a
  {
  }
}
