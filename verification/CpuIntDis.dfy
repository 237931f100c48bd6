/** The interrupts-disabled-time measurement of cpu_core.c: a nested start/stop protocol that keeps
    two maxima. */
module CpuIntDis {
  import opened Word
  import opened Arith
  import opened Timer
  import opened Binary

  /** CPU_TIME_MEAS_NBR_MAX: the most empty sections that may be configured to learn the overhead. */
  const MEAS_NBR_MAX := 128

  // ---------------------------------------------------------------------------------------------
  // Histories
  // ---------------------------------------------------------------------------------------------

  /** What happened, with the true time of it: a critical section entered or left, or the current
      maximum cleared. */
  datatype Event = Enter(t: nat) | Exit(t: nat) | Clear

  function Change(e: Event): int {
    match e
    case Enter(_) => 1
    case Exit(_) => -1
    case Clear => 0
  }

  /** How many sections are open after the first `k` events. */
  function Depth(es: seq<Event>, k: nat): int
    requires k <= |es|
  {
    if k == 0 then 0 else Depth(es, k - 1) + Change(es[k - 1])
  }

  /** Never more sections left than entered, and never 2^16 open at once. */
  ghost predicate Bracketed(es: seq<Event>) {
    forall k: nat :: k <= |es| ==> 0 <= Depth(es, k) < MOD_16
  }

  /** Events i and j enter and leave an outermost section. */
  ghost predicate IsSection(es: seq<Event>, i: nat, j: nat) {
    && i < j < |es| && es[i].Enter? && es[j].Exit?
    && Depth(es, i) == 0 && Depth(es, j + 1) == 0
    && forall k: nat :: i < k <= j ==> Depth(es, k) > 0
  }

  /** Its duration in timer counts: the difference of two readings of a timer of `m` values. */
  function Counts(es: seq<Event>, i: nat, j: nat, m: nat): nat
    requires m >= 1
  {
    if i < |es| && es[i].Enter? && j < |es| && es[j].Exit? then Delta(es[i].t, es[j].t, m) else 0
  }

  /** The index after the last clearing. */
  function SinceClear(es: seq<Event>): (k: nat)
    ensures k <= |es|
  {
    if es == [] then 0
    else if es[|es| - 1].Clear? then |es|
    else SinceClear(es[..|es| - 1])
  }

  /** No outermost section left at index `from` or later took longer than `limit`. */
  ghost predicate AllWithin(es: seq<Event>, from: nat, limit: nat, m: nat)
    requires m >= 1
  {
    forall i: nat, j: nat :: IsSection(es, i, j) && j >= from ==> Counts(es, i, j, m) <= limit
  }

  /** `max` is the greatest duration of those sections, 0 if there is none. */
  ghost predicate IsMax(es: seq<Event>, from: nat, max: nat, m: nat)
    requires m >= 1
  {
    && AllWithin(es, from, max, m)
    && (max > 0 ==> exists i: nat, j: nat :: IsSection(es, i, j) && j >= from && Counts(es, i, j, m) == max)
  }

  /** An event changes nothing about the history before it. */
  lemma {:induction false} DepthPrefix(es: seq<Event>, e: Event, k: nat)
    requires k <= |es|
    ensures Depth(es + [e], k) == Depth(es, k)
  {
    if k > 0 {
      DepthPrefix(es, e, k - 1);
    }
  }

  lemma DepthSnoc(es: seq<Event>, e: Event)
    ensures forall k: nat :: k <= |es| ==> Depth(es + [e], k) == Depth(es, k)
    ensures Depth(es + [e], |es| + 1) == Depth(es, |es|) + Change(e)
  {
    forall k: nat | k <= |es|
      ensures Depth(es + [e], k) == Depth(es, k)
    {
      DepthPrefix(es, e, k);
    }
  }

  lemma SinceClearSnoc(es: seq<Event>, e: Event)
    ensures SinceClear(es + [e]) == if e.Clear? then |es| + 1 else SinceClear(es)
  {
    assert (es + [e])[..|es|] == es;
  }

  lemma BracketedSnoc(es: seq<Event>, e: Event)
    requires Bracketed(es) && 0 <= Depth(es, |es|) + Change(e) < MOD_16
    ensures Bracketed(es + [e])
  {
    DepthSnoc(es, e);
    hide Depth;
    forall k: nat | k <= |es| + 1
      ensures 0 <= Depth(es + [e], k) < MOD_16
    {
    }
  }

  /** Sections already left stay what they were. */
  lemma SectionKept(es: seq<Event>, e: Event, i: nat, j: nat, m: nat)
    requires m >= 1 && j < |es|
    ensures IsSection(es + [e], i, j) <==> IsSection(es, i, j)
    ensures IsSection(es, i, j) ==> Counts(es + [e], i, j, m) == Counts(es, i, j, m)
  {
    DepthSnoc(es, e);
    hide Depth;
  }

  /** The section entered at index i, at depth 0, is still open. */
  ghost predicate IsOpen(es: seq<Event>, i: nat) {
    && i < |es| && es[i].Enter? && Depth(es, i) == 0
    && forall k: nat :: i < k <= |es| ==> Depth(es, k) > 0
  }

  /** Leaving at depth 1 completes exactly one outermost section, the open one. */
  lemma SectionCompleted(es: seq<Event>, e: Event, open: nat, i: nat)
    requires IsOpen(es, open) && e.Exit? && Depth(es, |es|) == 1
    ensures open < |es| && es[open].Enter?
    ensures IsSection(es + [e], i, |es|) <==> i == open
  {
    DepthSnoc(es, e);
    hide Depth;
  }

  lemma NoSection(es: seq<Event>, e: Event, i: nat)
    requires e.Exit? ==> Depth(es, |es|) != 1
    ensures !IsSection(es + [e], i, |es|)
  {
    DepthSnoc(es, e);
    hide Depth;
  }

  lemma IsMaxSame(es: seq<Event>, e: Event, from: nat, max: nat, m: nat)
    requires m >= 1 && IsMax(es, from, max, m)
    requires e.Exit? ==> Depth(es, |es|) != 1
    ensures IsMax(es + [e], from, max, m)
  {
    var fs := es + [e];
    forall i: nat, j: nat | IsSection(fs, i, j) && j >= from
      ensures Counts(fs, i, j, m) <= max
    {
      if j == |es| {
        NoSection(es, e, i);
      } else {
        SectionKept(es, e, i, j, m);
      }
    }
    MaxWitness(es, e, from, max, m);
  }

  lemma MaxWitness(es: seq<Event>, e: Event, from: nat, max: nat, m: nat)
    requires m >= 1 && IsMax(es, from, max, m)
    ensures max > 0 ==> exists i: nat, j: nat ::
      IsSection(es + [e], i, j) && j >= from && Counts(es + [e], i, j, m) == max
  {
    if max > 0 {
      var i: nat, j: nat :| IsSection(es, i, j) && j >= from && Counts(es, i, j, m) == max;
      SectionKept(es, e, i, j, m);
    }
  }

  lemma IsMaxUpdate(es: seq<Event>, e: Event, open: nat, from: nat, max: nat, m: nat)
    requires m >= 1 && IsMax(es, from, max, m) && from <= |es|
    requires IsOpen(es, open) && e.Exit? && Depth(es, |es|) == 1
    ensures es[open].Enter?
    ensures IsMax(es + [e], from, Max(max, Delta(es[open].t, e.t, m)), m)
  {
    assert open < |es| && es[open].Enter?;
    var fs, c := es + [e], Delta(es[open].t, e.t, m);
    assert Counts(fs, open, |es|, m) == c;
    hide IsSection, IsOpen, Depth, Counts, Delta;
    SectionCompleted(es, e, open, open);
    forall i: nat, j: nat | IsSection(fs, i, j) && j >= from
      ensures Counts(fs, i, j, m) <= Max(max, c)
    {
      SectionInside(fs, i, j);
      if j == |es| {
        SectionCompleted(es, e, open, i);
      } else {
        SectionKept(es, e, i, j, m);
      }
    }
    MaxWitness(es, e, from, max, m);
  }

  lemma SectionInside(es: seq<Event>, i: nat, j: nat)
    requires IsSection(es, i, j)
    ensures i < j < |es|
  {
  }

  /** There is only one greatest duration: the history alone decides both maxima. */
  lemma IsMaxUnique(es: seq<Event>, from: nat, max: nat, other: nat, m: nat)
    requires m >= 1 && IsMax(es, from, max, m) && IsMax(es, from, other, m)
    ensures max == other
  {
  }

  /** One section after a clearing: its duration is the maximum since then. */
  lemma OneSection(es: seq<Event>, a: nat, b: nat, max: nat, m: nat)
    requires m >= 1 && Depth(es, |es|) == 0
    requires var fs := es + [Clear] + [Enter(a)] + [Exit(b)]; IsMax(fs, SinceClear(fs), max, m)
    ensures max == Delta(a, b, m)
  {
    hide Depth, IsMax, IsOpen, IsSection, SinceClear, Delta;
    var cs := es + [Clear];
    DepthSnoc(es, Clear);
    SinceClearSnoc(es, Clear);
    SinceClearSnoc(cs, Enter(a));
    SinceClearSnoc(cs + [Enter(a)], Exit(b));
    SectionMax(cs, a, b, m);
    IsMaxUnique(cs + [Enter(a)] + [Exit(b)], |cs|, max, Delta(a, b, m), m);
  }

  /** The maximum over a single section run with none open. */
  lemma SectionMax(es: seq<Event>, a: nat, b: nat, m: nat)
    requires m >= 1 && Depth(es, |es|) == 0
    ensures IsMax(es + [Enter(a)] + [Exit(b)], |es|, Delta(a, b, m), m)
  {
    hide Depth, IsMax, IsOpen, IsSection, Delta;
    DepthSnoc(es, Enter(a));
    IsMaxEmpty(es, m);
    IsMaxSame(es, Enter(a), |es|, 0, m);
    OpenSnoc(es, Enter(a), |es|, m);
    IsMaxUpdate(es + [Enter(a)], Exit(b), |es|, |es|, 0, m);
  }

  lemma IsMaxEmpty(es: seq<Event>, m: nat)
    requires m >= 1
    ensures IsMax(es, |es|, 0, m)
  {
  }

  /** However sections nest in between, a run that is never without an open section counts as one, from
      the first entry to the last exit. */
  lemma OneRun(es: seq<Event>, m: nat)
    requires m >= 1 && |es| >= 2 && es[0].Enter? && es[|es| - 1].Exit?
    requires Depth(es, |es|) == 0 && forall k: nat :: 0 < k < |es| ==> Depth(es, k) > 0
    ensures IsMax(es, 0, Delta(es[0].t, es[|es| - 1].t, m), m)
  {
    var last := |es| - 1;
    assert Depth(es, 0) == 0;
    hide Depth, Delta;
    assert IsSection(es, 0, last);
    forall i: nat, j: nat | IsSection(es, i, j)
      ensures i == 0 && j == last
    {
    }
    assert Counts(es, 0, last, m) == Delta(es[0].t, es[last].t, m);
  }

  /** A maximum over fewer sections is no greater. */
  lemma IsMaxOrder(es: seq<Event>, from: nat, max: nat, all: nat, m: nat)
    requires m >= 1 && IsMax(es, from, max, m) && IsMax(es, 0, all, m)
    ensures max <= all
  {
  }

  /** The reading taken when the section opened. */
  ghost function OpenedAt(es: seq<Event>, open: nat, m: nat): nat
    requires m >= 1
  {
    if open < |es| && es[open].Enter? then es[open].t % m else 0
  }

  /** Entering at depth 0 opens a section; anything that leaves the depth positive keeps it open. */
  lemma OpenSnoc(es: seq<Event>, e: Event, open: nat, m: nat)
    requires m >= 1 && Depth(es, |es|) + Change(e) > 0
    requires if Depth(es, |es|) == 0 then open == |es| && e.Enter? else IsOpen(es, open)
    ensures open <= |es| && (Depth(es, |es|) > 0 ==> open < |es|)
    ensures IsOpen(es + [e], open)
    ensures OpenedAt(es + [e], open, m) == if e.Enter? && open == |es| then e.t % m else OpenedAt(es, open, m)
  {
    DepthSnoc(es, e);
    hide Depth, Change;
    var fs := es + [e];
    forall k: nat | open < k <= |fs|
      ensures Depth(fs, k) > 0
    {
      if k <= |es| {
        assert Depth(fs, k) == Depth(es, k);
      }
    }
  }

  // ---------------------------------------------------------------------------------------------
  // The module
  // ---------------------------------------------------------------------------------------------

  /** A measurement less the overhead of measuring: CPU_IntDisMeasMaxCalc(). */
  function MaxCalc(tot: nat, ovrhd: nat): (r: nat)
    ensures r + ovrhd == Max(tot, ovrhd)
  {
    if tot > ovrhd then tot - ovrhd else 0
  }

  /** The durations, in counts, of the first `k` empty sections timed to learn the overhead. */
  function SumCounts(starts: seq<nat>, stops: seq<nat>, k: nat, m: nat): nat
    requires m >= 1 && k <= |starts| == |stops|
  {
    if k == 0 then 0 else SumCounts(starts, stops, k - 1, m) + Delta(starts[k - 1], stops[k - 1], m)
  }

  /** The width of the sum that rounds the average: the timer's, but no less than 32 bits. */
  function SumMod(bits: nat): (w: nat)
    requires TmrBits(bits)
    ensures w >= TmrMod(bits) >= 0x100 && w >= MOD_32
  {
    if bits == 64 then MOD_64 else MOD_32
  }

  /** The overhead CPU_IntDisMeasInit() settles on, from a sum kept in a timer-sized variable. */
  function Overhead(starts: seq<nat>, stops: seq<nat>, bits: nat): nat
    requires TmrBits(bits) && |starts| == |stops| >= 1
  {
    OverheadOf(SumCounts(starts, stops, |starts|, TmrMod(bits)) % TmrMod(bits), |starts|, bits)
  }

  function OverheadOf(tot: nat, nbr: nat, bits: nat): nat
    requires TmrBits(bits) && nbr >= 1
  {
    (tot + nbr / 2) % SumMod(bits) / nbr
  }

  /** `r` is `sum` / `n` to the nearest count: n * r is within n / 2 of the sum. */
  predicate IsRoundedAverage(r: int, sum: int, n: int) {
    0 - n <= 2 * (r * n - sum) <= n
  }

  /** The overhead is the average rounded to the nearest count if and only if the sum fits the
      timer-sized variable, and still fits its word with the rounding added. */
  lemma OverheadIsRoundedAverage(starts: seq<nat>, stops: seq<nat>, bits: nat)
    requires TmrBits(bits) && 1 <= |starts| == |stops| <= MEAS_NBR_MAX
    ensures var sum, n := SumCounts(starts, stops, |starts|, TmrMod(bits)), |starts|;
      0 - n <= 2 * (Overhead(starts, stops, bits) * n - sum) <= n <==>
      sum < TmrMod(bits) && sum + n / 2 < SumMod(bits)
  {
    hide SumCounts, OverheadOf;
    AverageExact(SumCounts(starts, stops, |starts|, TmrMod(bits)), |starts|, bits);
  }

  /** The sum is that of the durations: it adds up over any division of the timings. */
  lemma {:induction false} SumAdds(starts: seq<nat>, stops: seq<nat>, starts': seq<nat>, stops': seq<nat>, m: nat)
    requires m >= 1 && |starts| == |stops| && |starts'| == |stops'|
    ensures SumCounts(starts + starts', stops + stops', |starts| + |starts'|, m)
         == SumCounts(starts, stops, |starts|, m) + SumCounts(starts', stops', |starts'|, m)
    ensures |starts| == 1 ==> SumCounts(starts, stops, 1, m) == Delta(starts[0], stops[0], m)
    decreases |starts'|
  {
    hide Delta;
    assert |starts| == 1 ==> SumCounts(starts, stops, 0, m) == 0;
    if |starts'| == 0 {
      SumPrefix(starts + starts', stops + stops', starts, stops, |starts|, m);
    } else {
      var k := |starts'| - 1;
      SumAdds(starts, stops, starts'[..k], stops'[..k], m);
      SumPrefix(starts + starts', stops + stops', starts + starts'[..k], stops + stops'[..k], |starts| + k, m);
      SumPrefix(starts', stops', starts'[..k], stops'[..k], k, m);
    }
  }

  /** Later timings do not change the sum of the first `k`. */
  lemma {:induction false} SumPrefix(starts: seq<nat>, stops: seq<nat>, ss: seq<nat>, ts: seq<nat>, k: nat, m: nat)
    requires m >= 1 && k <= |starts| == |stops| && k <= |ss| == |ts|
    requires starts[..k] == ss[..k] && stops[..k] == ts[..k]
    ensures SumCounts(starts, stops, k, m) == SumCounts(ss, ts, k, m)
  {
    if k > 0 {
      assert starts[k - 1] == starts[..k][k - 1] && stops[k - 1] == stops[..k][k - 1];
      assert starts[..k - 1] == starts[..k][..k - 1] && stops[..k - 1] == stops[..k][..k - 1];
      assert ss[..k - 1] == ss[..k][..k - 1] && ts[..k - 1] == ts[..k][..k - 1];
      SumPrefix(starts, stops, ss, ts, k - 1, m);
    }
  }

  /** Unless the sum overflows, the overhead lies between the least and the greatest duration timed. */
  lemma OverheadBetween(starts: seq<nat>, stops: seq<nat>, bits: nat, least: nat, greatest: nat)
    requires TmrBits(bits) && 1 <= |starts| == |stops| <= MEAS_NBR_MAX
    requires forall i :: 0 <= i < |starts| ==> least <= Delta(starts[i], stops[i], TmrMod(bits)) <= greatest
    requires var sum := SumCounts(starts, stops, |starts|, TmrMod(bits));
      sum < TmrMod(bits) && sum + |starts| / 2 < SumMod(bits)
    ensures least <= Overhead(starts, stops, bits) <= greatest
  {
    hide Delta, SumCounts, OverheadOf;
    var n, m := |starts|, TmrMod(bits);
    SumBetween(starts, stops, n, m, least, greatest);
    var sum := SumCounts(starts, stops, n, m);
    OverheadFits(sum, n, bits);
    assert Overhead(starts, stops, bits) == (sum + n / 2) / n;
    AverageBetween(sum, n, least, greatest);
  }

  lemma OverheadFits(sum: nat, n: nat, bits: nat)
    requires TmrBits(bits) && n >= 1
    requires sum < TmrMod(bits) && sum + n / 2 < SumMod(bits)
    ensures OverheadOf(sum % TmrMod(bits), n, bits) == (sum + n / 2) / n
  {
    WrapStep(sum, TmrMod(bits));
    WrapStep(sum + n / 2, SumMod(bits));
  }

  lemma {:induction false} SumBetween(starts: seq<nat>, stops: seq<nat>, k: nat, m: nat, least: nat, greatest: nat)
    requires m >= 1 && k <= |starts| == |stops|
    requires forall i :: 0 <= i < |starts| ==> least <= Delta(starts[i], stops[i], m) <= greatest
    ensures least * k <= SumCounts(starts, stops, k, m) <= greatest * k
  {
    if k > 0 {
      SumBetween(starts, stops, k - 1, m, least, greatest);
      assert SumCounts(starts, stops, k, m) ==
        SumCounts(starts, stops, k - 1, m) + Delta(starts[k - 1], stops[k - 1], m);
      hide *;
      Times(least, k);
      Times(greatest, k);
    }
  }

  lemma Times(a: nat, k: nat)
    requires k >= 1
    ensures a * k == a * (k - 1) + a
  {
  }

  lemma AverageBetween(sum: nat, n: nat, least: nat, greatest: nat)
    requires n >= 1 && least * n <= sum <= greatest * n
    ensures least <= (sum + n / 2) / n <= greatest
  {
    var q, r := (sum + n / 2) / n, (sum + n / 2) % n;
    assert sum + n / 2 == n * q + r;
    if q < least {
      MulLe(q + 1, least, n);
    } else if q > greatest {
      MulLe(greatest + 1, q, n);
    }
  }

  /** With a single timing, as configured, the overhead is its duration. */
  lemma OverheadOfOne(start: nat, stop: nat, bits: nat)
    requires TmrBits(bits)
    ensures Overhead([start], [stop], bits) == Delta(start, stop, TmrMod(bits))
  {
    var c := Delta(start, stop, TmrMod(bits));
    SumAdds([start], [stop], [], [], TmrMod(bits));
    hide Delta, SumCounts;
    OverheadBetween([start], [stop], bits, c, c);
  }

  lemma SumModIsPow2(bits: nat)
    requires TmrBits(bits)
    ensures SumMod(bits) == Pow2(Max(bits, 32))
  {
    Pow2Bytes();
  }

  lemma AverageExact(sum: nat, n: nat, bits: nat)
    requires TmrBits(bits) && 1 <= n <= MEAS_NBR_MAX
    ensures IsRoundedAverage(OverheadOf(sum % TmrMod(bits), n, bits), sum, n) <==>
      sum < TmrMod(bits) && sum + n / 2 < SumMod(bits)
  {
    var lost := WrapLoss(sum, n, bits);
    RoundedDivision(sum, n, lost);
  }

  /** What the two wraps take off the sum: nothing, or more than the number of sections timed. */
  lemma WrapLoss(sum: nat, n: nat, bits: nat) returns (lost: nat)
    requires TmrBits(bits) && 1 <= n <= MEAS_NBR_MAX
    ensures lost <= sum + n / 2
    ensures OverheadOf(sum % TmrMod(bits), n, bits) == (sum + n / 2 - lost) / n
    ensures if sum < TmrMod(bits) && sum + n / 2 < SumMod(bits) then lost == 0 else lost > n
  {
    var m, w := TmrMod(bits), SumMod(bits);
    var tot := sum % m;
    var a := tot + n / 2;
    WrapStep(sum, m);
    WrapStep(a, w);
    lost := sum - tot + (a - a % w);
  }

  lemma WrapStep(a: nat, p: nat)
    requires p >= 1
    ensures 0 <= a % p <= a && if a < p then a % p == a else a - a % p >= p
  {
    if a >= p {
      assert a == p * (a / p) + a % p;
      MulLe(1, a / p, p);
    }
  }

  lemma RoundedDivision(sum: nat, n: nat, lost: nat)
    requires n >= 1 && lost <= sum + n / 2
    requires lost == 0 || lost > n
    ensures IsRoundedAverage((sum + n / 2 - lost) / n, sum, n) <==> lost == 0
  {
    var a := sum + n / 2 - lost;
    var p := a / n * n;
    assert a == p + a % n;
  }

  /** The measurement globals, with the history since CPU_IntDisMeasInit(). Readings of the timer
      come in as parameters `tmr`. */
  class Measurement {
    const bits: nat
    var measCtr: U16
    var nestCtr: U16
    var startCnts: nat
    var stopCnts: nat
    var maxCurCnts: nat
    var maxCnts: nat
    var ovrhdCnts: nat

    ghost var trace: seq<Event>
    ghost var open: nat

    /** Whatever the history, the counter and both maxima are its own. */
    ghost predicate Valid()
      reads this
    {
      && TmrBits(bits)
      && Bracketed(trace)
      && nestCtr == Depth(trace, |trace|)
      && (nestCtr > 0 ==> IsOpen(trace, open) && startCnts == OpenedAt(trace, open, TmrMod(bits)))
      && IsMax(trace, 0, maxCnts, TmrMod(bits))
      && IsMax(trace, SinceClear(trace), maxCurCnts, TmrMod(bits))
    }

    /** CPU_IntDisMeasInit(): times as many empty sections as there are pairs of readings
        (CPU_CFG_INT_DIS_MEAS_OVRHD_NBR), with interrupts disabled throughout. */
    constructor (bits: nat, starts: seq<nat>, stops: seq<nat>)
      requires TmrBits(bits) && 1 <= |starts| == |stops| <= MEAS_NBR_MAX
      requires forall i :: 0 <= i < |starts| ==> starts[i] < TmrMod(bits) && stops[i] < TmrMod(bits)
      ensures Valid() && trace == [] && this.bits == bits
      ensures maxCnts == 0 && maxCurCnts == 0 && ovrhdCnts == Overhead(starts, stops, bits)
    {
      this.bits := bits;
      measCtr, nestCtr, startCnts, stopCnts := 0, 0, 0, 0;
      maxCurCnts, maxCnts, ovrhdCnts := 0, 0, 0;
      trace, open := [], 0;
      new;
      hide OverheadOf;
      ghost var m := TmrMod(bits);
      var tot: nat := 0;
      for i := 0 to |starts|
        invariant Valid() && Depth(trace, |trace|) == 0
        invariant tot == SumCounts(starts, stops, i, m) % m
      {
        TimeEmptySection(starts[i], stops[i]);
        AddMod(SumCounts(starts, stops, i, m), maxCurCnts, m);
        tot := (tot + maxCurCnts) % TmrMod(bits);
      }
      ovrhdCnts := OverheadOf(tot, |starts|, bits);
      maxCurCnts := 0;
      maxCnts := 0;
      trace := [];
    }

    /** One turn of the loop of CPU_IntDisMeasInit(). */
    method TimeEmptySection(start: nat, stop: nat)
      requires Valid() && start < TmrMod(bits) && stop < TmrMod(bits) && Depth(trace, |trace|) == 0
      modifies this
      ensures Valid() && Depth(trace, |trace|) == 0
      ensures maxCurCnts == Delta(start, stop, TmrMod(bits))
    {
      hide IsOpen, IsMax, Depth, SinceClear, Bracketed, Delta;
      ghost var before := trace;
      ClearMaxCur();
      DepthSnoc(before, Clear);
      Start(start, start);
      DepthSnoc(before + [Clear], Enter(start));
      Stop(stop, stop);
      DepthSnoc(before + [Clear] + [Enter(start)], Exit(stop));
      OneSection(before, start, stop, maxCurCnts, TmrMod(bits));
    }

    /** CPU_IntDisMeasStart(). */
    method Start(tmr: nat, ghost now: nat)
      requires Valid() && tmr == now % TmrMod(bits)
      requires Depth(trace, |trace|) + 1 < MOD_16
      modifies this
      ensures Valid() && trace == old(trace) + [Enter(now)]
      ensures nestCtr == old(nestCtr) + 1
      ensures measCtr == (old(measCtr) + 1) % MOD_16
      ensures ovrhdCnts == old(ovrhdCnts)
      ensures maxCurCnts == old(maxCurCnts) && maxCnts == old(maxCnts)
      ensures startCnts == (if old(nestCtr) == 0 then tmr else old(startCnts)) && stopCnts == old(stopCnts)
    {
      hide IsOpen, IsMax, Depth, SinceClear, Bracketed;
      ghost var e := Enter(now);
      measCtr := (measCtr + 1) % MOD_16;
      if nestCtr == 0 {
        startCnts := tmr;
        open := |trace|;
      }
      nestCtr := nestCtr + 1;
      DepthSnoc(trace, e);
      SinceClearSnoc(trace, e);
      BracketedSnoc(trace, e);
      OpenSnoc(trace, e, open, TmrMod(bits));
      IsMaxSame(trace, e, 0, maxCnts, TmrMod(bits));
      IsMaxSame(trace, e, SinceClear(trace), maxCurCnts, TmrMod(bits));
      trace := trace + [e];
    }

    /** CPU_IntDisMeasStop(). */
    method Stop(tmr: nat, ghost now: nat)
      requires Valid() && tmr == now % TmrMod(bits)
      requires Depth(trace, |trace|) > 0
      modifies this
      ensures Valid() && trace == old(trace) + [Exit(now)]
      ensures nestCtr == old(nestCtr) - 1
      ensures measCtr == old(measCtr) && ovrhdCnts == old(ovrhdCnts)
      ensures maxCurCnts >= old(maxCurCnts) && maxCnts >= old(maxCnts)
      ensures nestCtr > 0 ==> maxCurCnts == old(maxCurCnts) && maxCnts == old(maxCnts)
      ensures startCnts == old(startCnts) && stopCnts == if nestCtr == 0 then tmr else old(stopCnts)
    {
      hide IsOpen, IsMax, Depth, SinceClear, Bracketed;
      ghost var e := Exit(now);
      DepthSnoc(trace, e);
      SinceClearSnoc(trace, e);
      BracketedSnoc(trace, e);
      nestCtr := nestCtr - 1;
      if nestCtr == 0 {
        SectionCompleted(trace, e, open, open);
        stopCnts := tmr;
        var disdCnts := Delta(startCnts, stopCnts, TmrMod(bits));
        IsMaxUpdate(trace, e, open, 0, maxCnts, TmrMod(bits));
        IsMaxUpdate(trace, e, open, SinceClear(trace), maxCurCnts, TmrMod(bits));
        DeltaOfReadings(trace[open].t, now, TmrMod(bits));
        if maxCurCnts < disdCnts {
          maxCurCnts := disdCnts;
        }
        if maxCnts < disdCnts {
          maxCnts := disdCnts;
        }
      } else {
        OpenSnoc(trace, e, open, TmrMod(bits));
        IsMaxSame(trace, e, 0, maxCnts, TmrMod(bits));
        IsMaxSame(trace, e, SinceClear(trace), maxCurCnts, TmrMod(bits));
      }
      trace := trace + [e];
    }

    /** CPU_IntDisMeasMaxCurGet(): by how much the longest section since the last clearing exceeds the
        overhead. */
    method MaxCurGet() returns (r: nat)
      requires Valid()
      ensures forall max: nat :: IsMax(trace, SinceClear(trace), max, TmrMod(bits)) ==>
        r + ovrhdCnts == Max(max, ovrhdCnts)
    {
      hide IsMax;
      ReadingIsMax(trace, SinceClear(trace), maxCurCnts, TmrMod(bits));
      var tot := maxCurCnts;
      r := MaxCalc(tot, ovrhdCnts);
    }

    /** CPU_IntDisMeasMaxGet(): by how much the longest section of all exceeds the overhead. */
    method MaxGet() returns (r: nat)
      requires Valid()
      ensures forall max: nat :: IsMax(trace, 0, max, TmrMod(bits)) ==> r + ovrhdCnts == Max(max, ovrhdCnts)
    {
      hide IsMax;
      ReadingIsMax(trace, 0, maxCnts, TmrMod(bits));
      var tot := maxCnts;
      r := MaxCalc(tot, ovrhdCnts);
    }

    /** The clearing inside CPU_IntDisMeasMaxCurReset(). */
    method ClearMaxCur()
      requires Valid()
      modifies this
      ensures Valid() && trace == old(trace) + [Clear] && maxCurCnts == 0
      ensures nestCtr == old(nestCtr) && measCtr == old(measCtr) && ovrhdCnts == old(ovrhdCnts)
      ensures maxCnts == old(maxCnts) && startCnts == old(startCnts) && stopCnts == old(stopCnts)
    {
      hide IsOpen, IsMax, Depth, SinceClear, Bracketed;
      ghost var e := Clear;
      DepthSnoc(trace, e);
      SinceClearSnoc(trace, e);
      BracketedSnoc(trace, e);
      if nestCtr > 0 {
        OpenSnoc(trace, e, open, TmrMod(bits));
      }
      IsMaxSame(trace, e, 0, maxCnts, TmrMod(bits));
      IsMaxEmpty(trace + [e], TmrMod(bits));
      maxCurCnts := 0;
      trace := trace + [e];
    }

    /** Critical sections entered and left by whatever runs while interrupts are enabled. */
    method Replay(events: seq<Event>)
      requires Valid() && Bracketed(trace + events)
      requires forall e <- events :: !e.Clear?
      modifies this
      ensures Valid() && trace == old(trace) + events
      ensures ovrhdCnts == old(ovrhdCnts) && maxCurCnts >= old(maxCurCnts)
    {
      for k := 0 to |events|
        invariant Valid() && trace == old(trace) + events[..k]
        invariant ovrhdCnts == old(ovrhdCnts) && maxCurCnts >= old(maxCurCnts)
      {
        ghost var all := old(trace) + events;
        assert all[..|trace|] == trace && trace + [events[k]] == old(trace) + events[..k + 1];
        BracketedStep(all, trace, events[k]);
        match events[k]
        case Enter(t) => Start(t % TmrMod(bits), t);
        case Exit(t) => Stop(t % TmrMod(bits), t);
      }
      assert events[..|events|] == events;
    }

    /** CPU_IntDisMeasMaxCurReset(): two separate regions with interrupts disabled, and `between` for
        the sections that run in between. It is to return the maximum it clears, less the overhead.
        It does if and only if no section left in between took longer than the overhead and all the
        sections before. */
    method MaxCurReset(between: seq<Event>) returns (r: nat, ghost full: nat)
      requires Valid() && Bracketed(trace + between)
      requires forall e <- between :: !e.Clear?
      modifies this
      ensures Valid() && trace == old(trace) + between + [Clear]
      ensures r == MaxCalc(old(maxCurCnts), ovrhdCnts) && ovrhdCnts == old(ovrhdCnts)
      ensures maxCurCnts == 0
      ensures IsMax(old(trace) + between, SinceClear(old(trace) + between), full, TmrMod(bits))
      ensures r == MaxCalc(full, ovrhdCnts) <==>
        AllWithin(old(trace) + between, |old(trace)|, Max(old(maxCurCnts), ovrhdCnts), TmrMod(bits))
    {
      ghost var es, read := trace, maxCurCnts;
      r := MaxCurGet();
      Replay(between);
      full := maxCurCnts;
      SinceClearKept(es, between);
      FullIsRead(es, between, read, full, ovrhdCnts, TmrMod(bits));
      ClearMaxCur();
    }
  }

  lemma ReadingIsMax(es: seq<Event>, from: nat, reading: nat, m: nat)
    requires m >= 1 && IsMax(es, from, reading, m)
    ensures forall max: nat :: IsMax(es, from, max, m) ==> max == reading
  {
    forall max: nat | IsMax(es, from, max, m)
      ensures max == reading
    {
      IsMaxUnique(es, from, max, reading, m);
    }
  }

  /** A later maximum is above both an earlier one and the overhead exactly when a section left in
      between is. */
  lemma FullIsRead(es: seq<Event>, between: seq<Event>, read: nat, full: nat, ovrhd: nat, m: nat)
    requires m >= 1 && read <= full
    requires IsMax(es, SinceClear(es), read, m) && IsMax(es + between, SinceClear(es), full, m)
    ensures full <= Max(read, ovrhd) <==> AllWithin(es + between, |es|, Max(read, ovrhd), m)
  {
    var fs := es + between;
    if full > Max(read, ovrhd) {
      var i: nat, j: nat :| IsSection(fs, i, j) && j >= SinceClear(es) && Counts(fs, i, j, m) == full;
      if j < |es| {
        SectionsKept(es, between, i, j, m);
      }
    }
  }

  lemma {:induction false} SectionsKept(es: seq<Event>, events: seq<Event>, i: nat, j: nat, m: nat)
    requires m >= 1 && j < |es|
    ensures IsSection(es + events, i, j) <==> IsSection(es, i, j)
    ensures IsSection(es, i, j) ==> Counts(es + events, i, j, m) == Counts(es, i, j, m)
  {
    hide IsSection, Counts;
    if events == [] {
      assert es + events == es;
    } else {
      var k := |events| - 1;
      SectionsKept(es, events[..k], i, j, m);
      SectionKept(es + events[..k], events[k], i, j, m);
      assert es + events == (es + events[..k]) + [events[k]];
    }
  }

  /** A run in which the reset loses a section: one of 5 counts that ends between its two steps is
      neither in what it returns nor in what is read afterwards. */
  method LosesSection() returns (r: nat, later: nat, ghost full: nat)
    ensures r == 0 && later == 0 && full == 5
    ensures IsMax([Enter(0), Exit(5)], 0, full, MOD_32)
  {
    hide IsMax;
    var x := new Measurement(32, [0], [0]);
    assert x.ovrhdCnts == 0 by {
      NoOverhead();
    }
    ghost var between := [Enter(0), Exit(5)];
    assert [] + between == between == [] + [Enter(0)] + [Exit(5)];
    assert Bracketed(between);
    SectionMax([], 0, 5, MOD_32);
    r, full := x.MaxCurReset([Enter(0), Exit(5)]);
    IsMaxUnique(between, 0, full, 5, MOD_32);
    later := x.MaxCurGet();
  }

  lemma NoOverhead()
    ensures Overhead([0], [0], 32) == 0
  {
    assert SumCounts([0], [0], 0, MOD_32) == 0;
  }

  lemma {:induction false} SinceClearKept(es: seq<Event>, events: seq<Event>)
    requires forall e <- events :: !e.Clear?
    ensures SinceClear(es + events) == SinceClear(es)
  {
    if events == [] {
      assert es + events == es;
    } else {
      var k := |events| - 1;
      SinceClearKept(es, events[..k]);
      SinceClearSnoc(es + events[..k], events[k]);
      assert es + events == (es + events[..k]) + [events[k]];
    }
  }

  /** A prefix of a bracketed history is bracketed, and says what can come next. */
  lemma BracketedStep(all: seq<Event>, es: seq<Event>, e: Event)
    requires Bracketed(all) && |es| < |all| && all[..|es|] == es && all[|es|] == e
    ensures 0 <= Depth(es, |es|) + Change(e) < MOD_16
  {
    DepthOfPrefix(all, es, |es|);
    assert Depth(all, |es| + 1) == Depth(all, |es|) + Change(e);
  }

  lemma {:induction false} DepthOfPrefix(all: seq<Event>, es: seq<Event>, k: nat)
    requires k <= |es| <= |all| && all[..|es|] == es
    ensures Depth(all, k) == Depth(es, k)
  {
    if k > 0 {
      DepthOfPrefix(all, es, k - 1);
      assert all[k - 1] == es[k - 1];
    }
  }

  // ---------------------------------------------------------------------------------------------
  // What the measurement says about the run
  // ---------------------------------------------------------------------------------------------

  /** Every outermost section takes less time than the timer takes to go round. */
  ghost predicate Short(es: seq<Event>, m: nat) {
    forall i: nat, j: nat :: IsSection(es, i, j) ==> 0 <= es[j].t - es[i].t < m
  }

  /** `max` is the greatest true duration of those sections. */
  ghost predicate IsTrueMax(es: seq<Event>, from: nat, max: nat) {
    && (forall i: nat, j: nat :: IsSection(es, i, j) && j >= from ==> es[j].t - es[i].t <= max)
    && (max > 0 ==> exists i: nat, j: nat :: IsSection(es, i, j) && j >= from && es[j].t - es[i].t == max)
  }

  lemma TrueMax(es: seq<Event>, from: nat, max: nat, m: nat)
    requires m >= 1 && Short(es, m) && IsMax(es, from, max, m)
    ensures IsTrueMax(es, from, max)
  {
    forall i: nat, j: nat | IsSection(es, i, j)
      ensures Counts(es, i, j, m) == es[j].t - es[i].t
    {
      DeltaShort(es[i].t, es[j].t, m);
    }
    hide Counts, Short, IsSection, Depth;
    if max > 0 {
      var i: nat, j: nat :| IsSection(es, i, j) && j >= from && Counts(es, i, j, m) == max;
      assert es[j].t - es[i].t == max;
    }
  }

  /** Then both maxima are of true durations: over the whole run, and since the last clearing. */
  lemma MaximaAreTrue(x: Measurement)
    requires x.Valid() && Short(x.trace, TmrMod(x.bits))
    ensures IsTrueMax(x.trace, 0, x.maxCnts)
    ensures IsTrueMax(x.trace, SinceClear(x.trace), x.maxCurCnts)
  {
    hide IsTrueMax, IsMax, Short;
    TrueMax(x.trace, 0, x.maxCnts, TmrMod(x.bits));
    TrueMax(x.trace, SinceClear(x.trace), x.maxCurCnts, TmrMod(x.bits));
  }

  /** The overhead correction never turns the two maxima round. */
  lemma GettersOrdered(x: Measurement)
    requires x.Valid()
    ensures x.maxCurCnts <= x.maxCnts
    ensures MaxCalc(x.maxCurCnts, x.ovrhdCnts) <= MaxCalc(x.maxCnts, x.ovrhdCnts)
  {
    IsMaxOrder(x.trace, SinceClear(x.trace), x.maxCurCnts, x.maxCnts, TmrMod(x.bits));
  }
}
