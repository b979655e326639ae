/**
 The uptime clock: a free-running hardware counter that wraps every 60 seconds,
 extended in software by a count of the wraps that were noticed.
 */
module Clock {

  const BASE_FREQUENCY: nat := 200000000
  const CYCLE_IN_SECONDS: nat := 60
  const CYCLE: nat := CYCLE_IN_SECONDS * BASE_FREQUENCY

  datatype Reading = Reading(metaTicks: nat, ticks: nat)

  // The down-counting timer register when `t` ticks have elapsed since it was loaded.
  function TimerRegister(t: nat): nat {
    CYCLE - t % CYCLE
  }

  function Updated(r: Reading, register: nat): Reading
    requires register <= CYCLE
  {
    var hsTicks := CYCLE - register;
    Reading(if hsTicks < r.ticks then r.metaTicks + 1 else r.metaTicks, hsTicks)
  }

  lemma QuotientWithin(q: nat, scale: nat)
    requires 0 < scale && q == BASE_FREQUENCY / scale && scale <= BASE_FREQUENCY
    ensures 0 < q <= BASE_FREQUENCY
  {
  }

  function UptimeScaledBy(r: Reading, scale: nat): nat
    requires 0 < scale <= BASE_FREQUENCY
  {
    QuotientWithin(BASE_FREQUENCY / scale, scale);
    r.metaTicks * CYCLE_IN_SECONDS * scale + r.ticks / (BASE_FREQUENCY / scale)
  }

  class UptimeClock {
    var uptimeClockMetaTicks: nat
    var uptimeClockTicks: nat

    ghost function State(): Reading
      reads this
    {
      Reading(uptimeClockMetaTicks, uptimeClockTicks)
    }

    constructor ()
      ensures State() == Reading(0, 0)
    {
      uptimeClockMetaTicks, uptimeClockTicks := 0, 0;
    }

    method Update(register: nat)
      requires register <= CYCLE
      modifies this
      ensures State() == Updated(old(State()), register)
    {
      var hsTicks := CYCLE - register;
      if hsTicks < uptimeClockTicks {
        uptimeClockMetaTicks := uptimeClockMetaTicks + 1;
      }
      uptimeClockTicks := hsTicks;
    }

    function GetUptimeScaledBy(scale: nat): nat
      requires 0 < scale <= BASE_FREQUENCY
      reads this
    {
      UptimeScaledBy(Reading(uptimeClockMetaTicks, uptimeClockTicks), scale)
    }
  }

  // The reading that represents `t` elapsed ticks exactly.
  function Exact(t: nat): Reading {
    Reading(t / CYCLE, t % CYCLE)
  }

  /** One update: an exact clock stays exact if and only if less than a whole
      timer cycle passed since the update before. */
  lemma {:induction false} UpdateExactIffWithinCycle(t: nat, t': nat)
    requires t <= t'
    ensures Updated(Exact(t), TimerRegister(t')) == Exact(t') <==> t' - t < 60 * 200000000
  {
    var q, r, q', r' := t / CYCLE, t % CYCLE, t' / CYCLE, t' % CYCLE;
    assert t == q * CYCLE + r && t' == q' * CYCLE + r';
  }

  // The clock after updates at the given true times, from power-on.
  function Run(times: seq<nat>): Reading {
    if times == [] then Exact(0)
    else Updated(Run(times[..|times| - 1]), TimerRegister(times[|times| - 1]))
  }

  function LastTime(times: seq<nat>): nat {
    if times == [] then 0 else times[|times| - 1]
  }

  ghost predicate UpdatedEveryCycle(times: seq<nat>) {
    forall i {:trigger times[i]} :: 0 <= i < |times| ==>
        LastTime(times[..i]) <= times[i] < LastTime(times[..i]) + CYCLE
  }

  lemma {:induction false} RunIsExact(times: seq<nat>)
    requires UpdatedEveryCycle(times)
    ensures Run(times) == Exact(LastTime(times))
  {
    if times != [] {
      var n := |times| - 1;
      var front := times[..n];
      forall i | 0 <= i < n
        ensures LastTime(front[..i]) <= front[i] < LastTime(front[..i]) + CYCLE
      {
        assert front[..i] == times[..i] && front[i] == times[i];
      }
      RunIsExact(front);
      assert LastTime(front) <= times[n] < LastTime(front) + CYCLE;
      UpdateExactIffWithinCycle(LastTime(front), times[n]);
    }
  }

  lemma DivisionScales(x: nat, d: nat, scale: nat)
    requires 0 < d && 0 < scale
    ensures x * scale / (d * scale) == x / d
  {
    var q, r := x / d, x % d;
    var n, m := x * scale, d * scale;
    assert x == d * q + r;
    assert n == m * q + r * scale by { assert (d * q + r) * scale == d * scale * q + r * scale; }
    assert 0 <= r * scale < m by { ProductBelow(r, d, scale); }
    QuotientUnique(n, m, q, r * scale);
  }

  lemma ProductBelow(r: nat, d: nat, scale: nat)
    requires r < d && 0 < scale
    ensures r * scale < d * scale
  {
  }

  lemma QuotientUnique(n: nat, m: nat, q: nat, r: nat)
    requires 0 < m && n == m * q + r && r < m
    ensures n / m == q
  {
    var q2, r2 := n / m, n % m;
    assert n == m * q2 + r2;
    if q < q2 {
      MultipleAbove(m, q, q2);
    } else if q2 < q {
      MultipleAbove(m, q2, q);
    }
  }

  lemma MultipleAbove(m: nat, a: nat, b: nat)
    requires a < b
    ensures m * a + m <= m * b
  {
    var d := b - a;
    assert m * (a + d) == m * a + m * d;
    assert m * d >= m by { assert m * d == m * (d - 1) + m; }
  }

  function TrueUptime(t: nat, scale: nat): nat {
    t * scale / BASE_FREQUENCY
  }

  lemma ExactUptime(t: nat, scale: nat)
    requires 0 < scale <= BASE_FREQUENCY && BASE_FREQUENCY % scale == 0
    ensures UptimeScaledBy(Exact(t), scale) == TrueUptime(t, scale)
  {
    var d := BASE_FREQUENCY / scale;
    assert d * scale == BASE_FREQUENCY;
    var m, r := t / CYCLE, t % CYCLE;
    DivisionScales(r, d, scale);
    var whole := m * CYCLE_IN_SECONDS * scale;
    assert t * scale == BASE_FREQUENCY * whole + r * scale by {
      assert t == m * CYCLE + r;
      assert (m * CYCLE + r) * scale == m * CYCLE * scale + r * scale;
      assert m * CYCLE * scale == BASE_FREQUENCY * whole;
    }
    var x := r * scale;
    QuotientUnique(t * scale, BASE_FREQUENCY, whole + x / BASE_FREQUENCY, x % BASE_FREQUENCY);
  }

  /** On an exact clock the scaled uptime is the true one at every time if and only if
      the scale divides the base frequency. */
  lemma {:induction false} UptimeExactIffScaleDivides(scale: nat)
    requires 0 < scale <= BASE_FREQUENCY
    ensures (forall t: nat :: UptimeScaledBy(Exact(t), scale) == TrueUptime(t, scale))
       <==> BASE_FREQUENCY % scale == 0
  {
    if BASE_FREQUENCY % scale == 0 {
      forall t: nat ensures UptimeScaledBy(Exact(t), scale) == TrueUptime(t, scale) {
        ExactUptime(t, scale);
      }
    } else {
      var q := BASE_FREQUENCY / scale;
      OtherScaleMisreads(scale, q);
    }
  }

  lemma OtherScaleMisreads(scale: nat, q: nat)
    requires 0 < scale <= BASE_FREQUENCY && BASE_FREQUENCY % scale != 0 && q == BASE_FREQUENCY / scale
    ensures UptimeScaledBy(Exact(q), scale) != TrueUptime(q, scale)
  {
    assert q * scale + BASE_FREQUENCY % scale == BASE_FREQUENCY;
    QuotientWithin(q, scale);
    assert Exact(q) == Reading(0, q);
    QuotientUnique(q, q, 1, 0);
    QuotientUnique(q * scale, BASE_FREQUENCY, 0, q * scale);
  }

  /** Over every run of updates less than a cycle apart, each dividing scale reads the
      true uptime, and a later reading is never smaller. */
  lemma {:induction false} UptimeRefinesTrueTime(times: seq<nat>, scale: nat, earlier: nat)
    requires UpdatedEveryCycle(times) && earlier <= |times|
    requires 0 < scale <= BASE_FREQUENCY && BASE_FREQUENCY % scale == 0
    ensures UptimeScaledBy(Run(times), scale) == TrueUptime(LastTime(times), scale)
    ensures UptimeScaledBy(Run(times[..earlier]), scale) <= UptimeScaledBy(Run(times), scale)
  {
    var front := times[..earlier];
    forall i | 0 <= i < earlier
      ensures LastTime(front[..i]) <= front[i] < LastTime(front[..i]) + CYCLE
    {
      assert front[..i] == times[..i] && front[i] == times[i];
    }
    RunIsExact(times);
    RunIsExact(front);
    ExactUptime(LastTime(times), scale);
    ExactUptime(LastTime(front), scale);
    LastTimeMonotone(times, earlier);
    TrueUptimeMonotone(LastTime(front), LastTime(times), scale);
  }

  lemma {:induction false} LastTimeMonotone(times: seq<nat>, earlier: nat)
    requires UpdatedEveryCycle(times) && earlier <= |times|
    ensures LastTime(times[..earlier]) <= LastTime(times)
    decreases |times| - earlier
  {
    if earlier < |times| {
      assert LastTime(times[..earlier]) <= times[earlier];
      assert times[..earlier + 1][earlier] == times[earlier];
      LastTimeMonotone(times, earlier + 1);
    } else {
      assert times[..earlier] == times;
    }
  }

  lemma TrueUptimeMonotone(a: nat, b: nat, scale: nat)
    requires a <= b
    ensures TrueUptime(a, scale) <= TrueUptime(b, scale)
  {
    assert b * scale == a * scale + (b - a) * scale;
  }
}
