/** The CPU timestamps of cpu_core.c: a narrow wrapping timer extended to 32 and 64 bits by
    accumulating the differences between successive readings. */
module CpuTimestamp {
  import opened Word
  import opened Arith
  import opened Timer

  // ---------------------------------------------------------------------------------------------
  // A run of updates
  // ---------------------------------------------------------------------------------------------

  /** An accumulator of `width` values with the previous timer reading. */
  datatype Extension = Extension(accum: nat, prev: nat)

  /** One update from the timer reading `cur`. */
  function Update(x: Extension, cur: nat, m: nat, width: nat): Extension
    requires m >= 1 && width >= 1
  {
    Extension((x.accum + Delta(x.prev, cur, m)) % width, cur)
  }

  /** The extension after updates at the true times `ts`, from a start at `t0`. */
  function Run(t0: nat, ts: seq<nat>, m: nat, width: nat): Extension
    requires m >= 1 && width >= 1
  {
    if ts == [] then Extension(0, t0 % m)
    else Update(Run(t0, ts[..|ts| - 1], m, width), ts[|ts| - 1] % m, m, width)
  }

  function Last(t0: nat, ts: seq<nat>): nat {
    if ts == [] then t0 else ts[|ts| - 1]
  }

  /** Time does not run backwards. */
  ghost predicate Ordered(t0: nat, ts: seq<nat>) {
    ts != [] ==> Ordered(t0, ts[..|ts| - 1]) && Last(t0, ts[..|ts| - 1]) <= Last(t0, ts)
  }

  /** Every update comes before the timer has gone round once since the one before. */
  ghost predicate Timely(t0: nat, ts: seq<nat>, m: nat) {
    ts != [] ==> Timely(t0, ts[..|ts| - 1], m) && Last(t0, ts) - Last(t0, ts[..|ts| - 1]) < m
  }

  /** How many whole turns of the timer fell between two updates, in all. */
  ghost function Missed(t0: nat, ts: seq<nat>, m: nat): int
    requires m >= 1
  {
    if ts == [] then 0
    else Missed(t0, ts[..|ts| - 1], m) + (Last(t0, ts) - Last(t0, ts[..|ts| - 1])) / m
  }

  lemma RunSnoc(t0: nat, ts: seq<nat>, t: nat, m: nat, width: nat)
    requires m >= 1 && width >= 1
    ensures Run(t0, ts + [t], m, width) == Update(Run(t0, ts, m, width), t % m, m, width)
    ensures Last(t0, ts + [t]) == t
    ensures Ordered(t0, ts) && Last(t0, ts) <= t ==> Ordered(t0, ts + [t])
  {
    assert (ts + [t])[..|ts|] == ts;
  }

  lemma WrappedDelta(a: int, b: int, m: nat)
    requires m >= 1
    ensures Delta(a % m, b % m, m) == (b - a) - m * ((b - a) / m)
  {
    DeltaOfReadings(a, b, m);
  }

  /** Whatever the updates, the accumulator holds the true elapsed time less exactly one turn of the
      timer for every turn that fell between two updates. */
  lemma {:induction false} AccumExact(t0: nat, ts: seq<nat>, m: nat, width: nat)
    requires m >= 1 && width >= 1 && Ordered(t0, ts)
    ensures var x := Run(t0, ts, m, width);
      && x.prev == Last(t0, ts) % m
      && x.accum == (Last(t0, ts) - t0 - m * Missed(t0, ts, m)) % width
  {
    if ts != [] {
      AccumExact(t0, ts[..|ts| - 1], m, width);
      AccumSnoc(t0, ts, m, width);
    }
  }

  lemma AccumSnoc(t0: nat, ts: seq<nat>, m: nat, width: nat)
    requires m >= 1 && width >= 1 && ts != []
    requires var us := ts[..|ts| - 1]; var x := Run(t0, us, m, width);
      && x.prev == Last(t0, us) % m
      && x.accum == (Last(t0, us) - t0 - m * Missed(t0, us, m)) % width
    ensures var x := Run(t0, ts, m, width);
      && x.prev == Last(t0, ts) % m
      && x.accum == (Last(t0, ts) - t0 - m * Missed(t0, ts, m)) % width
  {
    var us := ts[..|ts| - 1];
    var u, t, missed, q := Last(t0, us), Last(t0, ts), Missed(t0, us, m), (Last(t0, ts) - Last(t0, us)) / m;
    assert Run(t0, ts, m, width) ==
      Extension((Run(t0, us, m, width).accum + Delta(u % m, t % m, m)) % width, t % m);
    assert Missed(t0, ts, m) == missed + q;
    hide *;
    WrappedDelta(u, t, m);
    AccumStep(t0, u, t, missed, q, Delta(u % m, t % m, m), m, width);
  }

  lemma AccumStep(t0: int, u: int, t: int, missed: int, q: int, delta: int, m: int, width: nat)
    requires width >= 1 && delta == (t - u) - m * q
    ensures ((u - t0 - m * missed) % width + delta) % width == (t - t0 - m * (missed + q)) % width
  {
    AddMod(u - t0 - m * missed, delta, width);
    Regroup(t0, u, t, m, missed, q);
  }

  lemma Regroup(t0: int, u: int, t: int, m: int, missed: int, q: int)
    ensures (u - t0 - m * missed) + ((t - u) - m * q) == t - t0 - m * (missed + q)
  {
  }

  lemma {:induction false} MissedBound(t0: nat, ts: seq<nat>, m: nat)
    requires m >= 1 && Ordered(t0, ts)
    ensures 0 <= Missed(t0, ts, m)
    ensures 0 <= m * Missed(t0, ts, m) <= Last(t0, ts) - t0
    ensures Missed(t0, ts, m) == 0 <==> Timely(t0, ts, m)
  {
    if ts != [] {
      var us := ts[..|ts| - 1];
      MissedBound(t0, us, m);
      MissedStep(Last(t0, ts) - Last(t0, us), Missed(t0, us, m), m);
    }
  }

  lemma MissedStep(gap: nat, missed: int, m: nat)
    requires m >= 1
    ensures 0 <= gap / m
    ensures 0 <= m * (missed + gap / m) - m * missed <= gap
    ensures gap / m == 0 <==> gap < m
  {
    var q := gap / m;
    assert gap == m * q + gap % m;
    assert m * (missed + q) == m * missed + m * q;
    if q >= 1 {
      MulLe(1, q, m);
    }
  }

  /** Timely updates or not, the accumulator agrees with the true elapsed time modulo the timer. */
  lemma AccumCongruent(t0: nat, ts: seq<nat>, m: nat, k: nat)
    requires m >= 1 && k >= 1 && m * k >= 1 && Ordered(t0, ts)
    ensures Run(t0, ts, m, m * k).accum % m == (Last(t0, ts) - t0) % m
  {
    var e, c := Last(t0, ts) - t0, Missed(t0, ts, m);
    AccumExact(t0, ts, m, m * k);
    ModMod(e - m * c, m, k);
    ModShift(e - m * c, c, m);
  }

  /** With timely updates it is the true elapsed time, modulo its own width. */
  lemma AccumTimely(t0: nat, ts: seq<nat>, m: nat, width: nat)
    requires m >= 1 && width >= 1 && Ordered(t0, ts) && Timely(t0, ts, m)
    ensures Run(t0, ts, m, width).accum == (Last(t0, ts) - t0) % width
  {
    AccumExact(t0, ts, m, width);
    MissedBound(t0, ts, m);
  }

  /** Over any run the accumulator is right exactly when the turns missed add up to whole turns of the
      accumulator. While the true elapsed time fits it, that means timely updates; an accumulator that
      is wrong is then behind. */
  lemma AccumRightIff(t0: nat, ts: seq<nat>, m: nat, width: nat)
    requires m >= 1 && width >= 1 && Ordered(t0, ts)
    ensures Run(t0, ts, m, width).accum == (Last(t0, ts) - t0) % width <==> m * Missed(t0, ts, m) % width == 0
    ensures Last(t0, ts) - t0 < width ==>
      && Run(t0, ts, m, width).accum <= Last(t0, ts) - t0
      && (Run(t0, ts, m, width).accum == Last(t0, ts) - t0 <==> Timely(t0, ts, m))
  {
    var accum, e, lost := Run(t0, ts, m, width).accum, Last(t0, ts) - t0, m * Missed(t0, ts, m);
    AccumExact(t0, ts, m, width);
    MissedBound(t0, ts, m);
    SameMod(e, e - lost, width);
    if e < width {
      SmallMod(e - lost, width);
      if Missed(t0, ts, m) >= 1 {
        MulLe(1, Missed(t0, ts, m), m);
      }
    }
  }

  lemma SmallMod(a: int, p: nat)
    requires 0 <= a < p
    ensures a % p == a
  {
  }

  // ---------------------------------------------------------------------------------------------
  // The module
  // ---------------------------------------------------------------------------------------------

  /** The timestamp globals. Every reading of the timer comes in as a parameter `tmr`, with the true
      time `now` it was taken at; interrupts being disabled makes each operation atomic. */
  class Timestamps {
    const bits: nat
    var accum32: U32
    var prev32: nat
    var accum64: U64
    var prev64: nat

    ghost var start: nat
    ghost var updates32: seq<nat>
    ghost var updates64: seq<nat>

    /** Each extension is what the updates made to it since CPU_TS_Init() have left. */
    ghost predicate Valid()
      reads this
    {
      && TmrBits(bits)
      && Ordered(start, updates32) && Ordered(start, updates64)
      && Extension(accum32, prev32) == Run(start, updates32, TmrMod(bits), MOD_32)
      && Extension(accum64, prev64) == Run(start, updates64, TmrMod(bits), MOD_64)
    }

    /** CPU_TS_Init(): one reading starts both extensions. */
    constructor (bits: nat, tmr: nat, ghost now: nat)
      requires TmrBits(bits) && tmr == now % TmrMod(bits)
      ensures Valid() && this.bits == bits
      ensures start == now && updates32 == [] && updates64 == []
    {
      this.bits := bits;
      accum32, prev32 := 0, tmr;
      accum64, prev64 := 0, tmr;
      start, updates32, updates64 := now, [], [];
    }

    /** CPU_TS_Get32(): extends a timer narrower than 32 bits, and just reads any other. */
    method Get32(tmr: nat, ghost now: nat) returns (ts: U32)
      requires Valid() && tmr == now % TmrMod(bits) && Last(start, updates32) <= now
      modifies this`accum32, this`prev32, this`updates32
      ensures Valid()
      ensures updates32 == if bits < 32 then old(updates32) + [now] else old(updates32)
      ensures bits < 32 ==>
        ts == accum32 == (now - start - TmrMod(bits) * Missed(start, updates32, TmrMod(bits))) % MOD_32
      ensures bits >= 32 ==> ts == now % MOD_32
    {
      hide Missed, Run, Ordered;
      if bits >= 32 {
        ts := tmr % MOD_32;
        ModOfWord(now, bits);
      } else {
        var cur := tmr;
        var delta := Delta(prev32, cur, TmrMod(bits));
        accum32 := (accum32 + delta) % MOD_32;
        prev32 := cur;
        ts := accum32;
        RunSnoc(start, updates32, now, TmrMod(bits), MOD_32);
        updates32 := updates32 + [now];
        AccumExact(start, updates32, TmrMod(bits), MOD_32);
      }
    }

    /** CPU_TS_Get64(). */
    method Get64(tmr: nat, ghost now: nat) returns (ts: U64)
      requires Valid() && tmr == now % TmrMod(bits) && Last(start, updates64) <= now
      modifies this`accum64, this`prev64, this`updates64
      ensures Valid()
      ensures updates64 == if bits < 64 then old(updates64) + [now] else old(updates64)
      ensures bits < 64 ==>
        ts == accum64 == (now - start - TmrMod(bits) * Missed(start, updates64, TmrMod(bits))) % MOD_64
      ensures bits >= 64 ==> ts == now % MOD_64
    {
      hide Missed, Run, Ordered;
      if bits >= 64 {
        ts := tmr;
      } else {
        var cur := tmr;
        var delta := Delta(prev64, cur, TmrMod(bits));
        accum64 := (accum64 + delta) % MOD_64;
        prev64 := cur;
        ts := accum64;
        RunSnoc(start, updates64, now, TmrMod(bits), MOD_64);
        updates64 := updates64 + [now];
        AccumExact(start, updates64, TmrMod(bits), MOD_64);
      }
    }

    /** CPU_TS_Update(): updates whatever needs extending, each with a reading of its own. */
    method UpdateAll(tmr32: nat, ghost now32: nat, tmr64: nat, ghost now64: nat)
      requires Valid()
      requires tmr32 == now32 % TmrMod(bits) && Last(start, updates32) <= now32
      requires tmr64 == now64 % TmrMod(bits) && Last(start, updates64) <= now64
      modifies this`accum32, this`prev32, this`updates32, this`accum64, this`prev64, this`updates64
      ensures Valid()
      ensures updates32 == if bits < 32 then old(updates32) + [now32] else old(updates32)
      ensures updates64 == if bits < 64 then old(updates64) + [now64] else old(updates64)
    {
      if bits < 32 {
        var ts32 := Get32(tmr32, now32);
      }
      if bits < 64 {
        var ts64 := Get64(tmr64, now64);
      }
    }
  }

  /** After any run both extensions agree with the true time elapsed modulo the timer; those updated
      in time are right modulo their own width. */
  lemma TrueElapsed(x: Timestamps)
    requires x.Valid()
    ensures x.bits < 32 ==> IsElapsed(x.accum32, x.start, x.updates32, TmrMod(x.bits), MOD_32)
    ensures x.bits < 64 ==> IsElapsed(x.accum64, x.start, x.updates64, TmrMod(x.bits), MOD_64)
  {
    hide Run, Ordered, IsElapsed;
    if x.bits < 32 {
      RunElapsed(x.start, x.updates32, TmrMod(x.bits), MOD_32, MOD_32 / TmrMod(x.bits));
    }
    if x.bits < 64 {
      RunElapsed(x.start, x.updates64, TmrMod(x.bits), MOD_64, MOD_64 / TmrMod(x.bits));
    }
  }

  ghost predicate IsElapsed(accum: nat, t0: nat, ts: seq<nat>, m: nat, width: nat)
    requires m >= 1 && width >= 1
  {
    && accum % m == (Last(t0, ts) - t0) % m
    && (Timely(t0, ts, m) ==> accum == (Last(t0, ts) - t0) % width)
  }

  lemma RunElapsed(t0: nat, ts: seq<nat>, m: nat, width: nat, k: nat)
    requires m >= 1 && k >= 1 && width == m * k >= 1 && Ordered(t0, ts)
    ensures IsElapsed(Run(t0, ts, m, width).accum, t0, ts, m, width)
  {
    hide Run, Ordered, Timely, Last;
    AccumCongruent(t0, ts, m, k);
    if Timely(t0, ts, m) {
      AccumTimely(t0, ts, m, width);
    }
  }

  lemma ModOfWord(now: nat, bits: nat)
    requires bits == 32 || bits == 64
    ensures now % TmrMod(bits) % MOD_32 == now % MOD_32
  {
    ModMod(now, MOD_32, if bits == 32 then 1 else MOD_32);
  }
}
