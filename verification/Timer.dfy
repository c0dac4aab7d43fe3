/** The timer driver: a compare register that is moved on by whole periods, and reports of how many
    periods have passed, which must neither drift nor run ahead of the counter. */
module Timer {
  import opened Bitwise
  import opened Machine
  import opened Strides

  /** 100 ns units in a second. */
  const UNITS_PER_SECOND: nat := 10_000_000
  const UINT32_LIMIT: nat := 0x1_0000_0000

  function Sum(s: seq<nat>): nat {
    if s == [] then 0 else Sum(s[..|s| - 1]) + s[|s| - 1]
  }

  /** The time reported for `n` periods, in 64-bit arithmetic. */
  function Time(period: nat, n: nat): nat {
    period * n % WORD_LIMIT
  }

  lemma SumStep(s: seq<nat>, x: nat)
    ensures Sum(s + [x]) == Sum(s) + x
  {
    assert (s + [x])[..|s|] == s;
  }

  lemma TimeAtMost(period: nat, n: nat)
    ensures Time(period, n) <= period * n && (Time(period, n) == period * n <==> period * n < WORD_LIMIT)
  {
  }

  lemma Distribute(t: int, a: int, b: int)
    ensures t * (a + b) == t * a + t * b
  {
  }

  /** 64-bit products add up to at most the product of the sum, and to that only if none of them wraps. */
  lemma {:induction false} SumTimes(s: seq<nat>, t: seq<nat>, factor: nat)
    requires |t| == |s| && forall i :: 0 <= i < |s| ==> t[i] == Time(factor, s[i])
    ensures Sum(t) <= factor * Sum(s)
    ensures Sum(t) == factor * Sum(s) <==> forall i :: 0 <= i < |s| ==> factor * s[i] < WORD_LIMIT
    decreases |s|
  {
    var n := |s| - 1;
    if s != [] {
      SumTimes(s[..n], t[..n], factor);
      Distribute(factor, Sum(s[..n]), s[n]);
      TimeAtMost(factor, s[n]);
      assert forall i :: 0 <= i < n ==> s[..n][i] == s[i];
    }
  }

  lemma ScaledOrder(n: nat, x: int, y: int)
    requires n > 0
    ensures n * x <= n * y <==> x <= y
  {
    Distribute(n, x - y, y);
    assert x - y >= 1 ==> n * (x - y) >= 1;
    assert x - y <= 0 ==> n * (x - y) <= 0;
  }

  // ----- the period in ticks ------------------------------------------------------------------

  /** Counter ticks in a period of 100 ns units, in 64-bit arithmetic. */
  function TicksOf(period: nat, frequency: nat): nat {
    period * frequency % WORD_LIMIT / UNITS_PER_SECOND
  }

  /** The periods that are no ticks at all. */
  lemma TicksZeroIff(period: nat, frequency: nat)
    ensures TicksOf(period, frequency) == 0 <==> period * frequency % WORD_LIMIT < UNITS_PER_SECOND
  {
  }

  /** Converting `x` to ticks and back, in 64-bit arithmetic, loses nothing only if it is exact. */
  lemma Conversion(x: nat, ticks: nat)
    requires ticks == x % WORD_LIMIT / UNITS_PER_SECOND
    ensures x <= UNITS_PER_SECOND * ticks <==> x < WORD_LIMIT && x % UNITS_PER_SECOND == 0
    ensures x < WORD_LIMIT ==> x == UNITS_PER_SECOND * ticks + x % UNITS_PER_SECOND
  {
  }

  lemma ConcludeScaled(n: nat, x: nat, y: nat, r: nat)
    requires n > 0
    ensures n * x <= n * y <==> x <= y
    ensures x == y + r ==> n * x == n * y + n * r
  {
    ScaledOrder(n, x, y);
    Distribute(n, y, r);
  }

  /** Reporting `n` periods in 100 ns units does not exceed the `n * ticks` that the counter moved, after any
      number of periods, if and only if the period is a whole number of ticks and its conversion does not
      overflow. */
  lemma ReportsMatchCounterIff(period: nat, frequency: nat, n: nat)
    requires n > 0
    ensures n * (period * frequency) <= n * (UNITS_PER_SECOND * TicksOf(period, frequency))
      <==> period * frequency < WORD_LIMIT && period * frequency % UNITS_PER_SECOND == 0
    ensures period * frequency < WORD_LIMIT ==>
      n * (period * frequency)
      == n * (UNITS_PER_SECOND * TicksOf(period, frequency)) + n * (period * frequency % UNITS_PER_SECOND)
  {
    var x := period * frequency;
    var y := UNITS_PER_SECOND * TicksOf(period, frequency);
    Conversion(x, TicksOf(period, frequency));
    ConcludeScaled(n, x, y, x % UNITS_PER_SECOND);
  }

  /** At 62.5 MHz a 100 ns period is 6.25 ticks, and every report is ahead by a quarter of a tick. */
  lemma TruncatedPeriodExample()
    ensures TicksOf(1, 62_500_000) == 6
    ensures 4 * (1 * 62_500_000) > 4 * (UNITS_PER_SECOND * TicksOf(1, 62_500_000))
  {
    assert 1 * 62_500_000 % WORD_LIMIT == 62_500_000;
  }

  // ----- the catch-up loop --------------------------------------------------------------------

  /** The compare value `k` periods on, in 64-bit arithmetic. */
  function Later(compare: nat, ticks: nat, k: nat): (r: nat)
    ensures r < WORD_LIMIT
  {
    (compare + k * ticks) % WORD_LIMIT
  }

  /** Adding `k` periods to the compare value brings it up to the counter. */
  predicate Reaches(compare: nat, counter: nat, ticks: nat, k: nat) {
    Later(compare, ticks, k) >= counter
  }

  ghost predicate ReachesWithin(compare: nat, counter: nat, ticks: nat, horizon: nat) {
    exists k: nat :: 1 <= k <= horizon && Reaches(compare, counter, ticks, k)
  }

  lemma NextMultiple(k: nat, ticks: nat)
    ensures (k + 1) * ticks == k * ticks + ticks
  {
  }

  lemma AtLeast(k: nat, ticks: nat)
    ensures ticks > 0 ==> k * ticks >= k
  {
  }

  /** Up to the first number of periods that reaches the counter nothing wraps, as long as the counter is
      more than a period short of doing so. */
  lemma {:induction false} NoWrap(compare: nat, counter: nat, ticks: nat, k: nat)
    requires compare <= counter && counter + ticks < WORD_LIMIT && k >= 1
    requires forall j: nat :: 1 <= j < k ==> !Reaches(compare, counter, ticks, j)
    ensures compare + k * ticks < WORD_LIMIT && (k > 1 ==> compare + k * ticks - ticks < counter)
    ensures k > 1 && ticks > 0 ==> k <= counter
    decreases k
  {
    if k > 1 {
      NoWrap(compare, counter, ticks, k - 1);
      assert !Reaches(compare, counter, ticks, k - 1);
      NextMultiple(k - 1, ticks);
      AtLeast(k - 1, ticks);
      SmallMod(compare + (k - 1) * ticks, WORD_LIMIT);
    }
  }

  /** The loop ends, within 2^64 turns, if and only if the counter is not beyond the largest value that whole
      periods bring the compare value to. */
  lemma EndsIff(compare: nat, counter: nat, ticks: nat)
    requires compare < WORD_LIMIT
    ensures (exists horizon: nat :: ReachesWithin(compare, counter, ticks, horizon)) <==>
      counter <= Highest(compare, ticks)
    ensures ReachesWithin(compare, counter, ticks, WORD_LIMIT) <==> counter <= Highest(compare, ticks)
  {
    hide Highest;
    var k := HighestReached(compare, ticks);
    assert counter <= Highest(compare, ticks) ==> Reaches(compare, counter, ticks, k);
    assert counter <= Highest(compare, ticks) ==> ReachesWithin(compare, counter, ticks, WORD_LIMIT);
    forall horizon: nat | ReachesWithin(compare, counter, ticks, horizon) ensures counter <= Highest(compare, ticks) {
      var j: nat :| 1 <= j <= horizon && Reaches(compare, counter, ticks, j);
      NeverHigher(compare, ticks, j);
    }
  }

  lemma {:induction false} ZeroPower(n: nat)
    ensures CommonPower(0, n) == Pow2(n)
    decreases n
  {
    if n > 0 {
      ZeroPower(n - 1);
    }
  }

  lemma NoStride()
    ensures CommonPower(0, 64) == WORD_LIMIT
  {
    hide CommonPower, Pow2;
    ZeroPower(64);
    TwoTo64();
  }

  lemma EndsInTime(compare: nat, counter: nat, ticks: nat)
    requires compare <= counter && counter + ticks < WORD_LIMIT && ticks > 0
    ensures ReachesWithin(compare, counter, ticks, counter + 1)
  {
    if !ReachesWithin(compare, counter, ticks, counter + 1) {
      NoWrap(compare, counter, ticks, counter + 2);
    }
  }

  /** In particular it ends when the counter is more than a period short of wrapping, if and only if there are
      ticks to add or nothing to catch up with. */
  lemma EndsBelowWrapIff(compare: nat, counter: nat, ticks: nat)
    requires compare <= counter && counter + ticks < WORD_LIMIT
    ensures counter <= Highest(compare, ticks) <==> ticks > 0 || counter == compare
  {
    if ticks > 0 {
      EndsInTime(compare, counter, ticks);
      EndsIff(compare, counter, ticks);
    } else {
      NoStride();
    }
  }

  /** At 1 MHz a 100 ns period is no tick, and the loop never ends once the counter is past. */
  lemma EndlessExample(horizon: nat)
    ensures TicksOf(1, 1_000_000) == 0 && !ReachesWithin(0, 1, TicksOf(1, 1_000_000), horizon)
  {
    EndsIff(0, 1, 0);
    EndsBelowWrapIff(0, 1, 0);
  }

  /** At 20 MHz a 100 ns period is two ticks, and from an even compare value the loop never reaches the last
      value of the counter. */
  lemma EndlessAtWrapExample(horizon: nat)
    ensures TicksOf(1, 20_000_000) == 2 && !ReachesWithin(0, WORD_LIMIT - 1, TicksOf(1, 20_000_000), horizon)
  {
    EndsIff(0, WORD_LIMIT - 1, 2);
    assert 1 * 20_000_000 % WORD_LIMIT == 20_000_000;
    assert CommonPower(1, 63) == 1;
    assert CommonPower(2, 64) == 2;
  }

  /** The catch-up loop, for at most `horizon` turns: the least k >= 1 that reaches the counter. */
  method CatchUp(compare: nat, counter: nat, ticks: nat, horizon: nat) returns (ended: bool, k: nat, next: nat)
    requires compare < WORD_LIMIT
    ensures ended <==> ReachesWithin(compare, counter, ticks, horizon)
    ensures ended ==> 1 <= k <= horizon && Reaches(compare, counter, ticks, k)
    ensures forall j: nat :: 1 <= j < k ==> !Reaches(compare, counter, ticks, j)
    ensures next == Later(compare, ticks, k)
  {
    next, k, ended := compare, 0, false;
    while k < horizon && !ended
      invariant k <= horizon && next == Later(compare, ticks, k)
      invariant ended ==> k >= 1 && Reaches(compare, counter, ticks, k)
      invariant forall j: nat :: 1 <= j < k ==> !Reaches(compare, counter, ticks, j)
      invariant !ended && k >= 1 ==> !Reaches(compare, counter, ticks, k)
      decreases horizon - k, !ended
    {
      ModAdd(compare + k * ticks, ticks, WORD_LIMIT);
      NextMultiple(k, ticks);
      next := (next + ticks) % WORD_LIMIT;
      k := k + 1;
      ended := next >= counter;
    }
  }

  /** Where the compare value stands `n` periods after the start. */
  function After(start: nat, ticks: nat, n: nat): nat {
    start + ticks * n
  }

  lemma AfterMore(start: nat, ticks: nat, n: nat, k: nat)
    ensures After(start, ticks, n + k) == After(start, ticks, n) + k * ticks
  {
    Distribute(ticks, n, k);
  }

  lemma LaterAfter(start: nat, ticks: nat, n: nat, k: nat, compare: nat)
    requires compare == After(start, ticks, n) % WORD_LIMIT
    ensures Later(compare, ticks, k) == After(start, ticks, n + k) % WORD_LIMIT
    ensures After(start, ticks, n) == compare ==> After(start, ticks, n + k) == compare + k * ticks
  {
    AfterMore(start, ticks, n, k);
    ModAdd(After(start, ticks, n), k * ticks, WORD_LIMIT);
  }

  lemma ReachedNoWrap(compare: nat, counter: nat, ticks: nat, k: nat)
    requires compare <= counter && counter + ticks < WORD_LIMIT && k >= 1
    requires forall j: nat :: 1 <= j < k ==> !Reaches(compare, counter, ticks, j)
    ensures Later(compare, ticks, k) == compare + k * ticks
    ensures k == 1 || compare + k * ticks - ticks < counter
  {
    NoWrap(compare, counter, ticks, k);
    SmallMod(compare + k * ticks, WORD_LIMIT);
  }

  lemma Regroup(period: nat, n: nat, frequency: nat, ticks: nat)
    requires ticks == TicksOf(period, frequency)
    ensures (period * n) * frequency == n * (period * frequency)
    ensures UNITS_PER_SECOND * (ticks * n) == n * (UNITS_PER_SECOND * ticks)
  {
    assert (period * n) * frequency == n * (period * frequency);
    assert UNITS_PER_SECOND * (ticks * n) == n * (UNITS_PER_SECOND * ticks);
  }

  lemma Less(a: nat, b: nat, c: nat)
    requires a <= b
    ensures a * c <= b * c
  {
  }

  /** A total of `n` periods reported as `time`, in ticks. */
  lemma InTicks(period: nat, n: nat, frequency: nat, ticks: nat, time: nat, seen: nat, start: nat)
    requires ticks == TicksOf(period, frequency) && time <= period * n && After(start, ticks, n) <= seen
    ensures time == period * n && n > 0 ==>
      (time * frequency <= UNITS_PER_SECOND * (ticks * n)
       <==> period * frequency < WORD_LIMIT && period * frequency % UNITS_PER_SECOND == 0)
    ensures time == period * n && period * frequency < WORD_LIMIT ==>
      time * frequency == UNITS_PER_SECOND * (ticks * n) + n * (period * frequency % UNITS_PER_SECOND)
    ensures period * frequency < WORD_LIMIT && period * frequency % UNITS_PER_SECOND == 0 ==>
      time * frequency <= UNITS_PER_SECOND * (seen - start)
  {
    hide TicksOf;
    Regroup(period, n, frequency, ticks);
    if n > 0 {
      ReportsMatchCounterIff(period, frequency, n);
    }
    Less(time, period * n, frequency);
  }

  /** An interrupt: the count when the status bit is tested, and the count read later while reloading. */
  datatype Interrupt = Interrupt(now: nat, counter: nat)

  /** Interrupts come in the order of the counter, from `from` on. */
  ghost predicate Orderly(from: nat, interrupts: seq<Interrupt>) {
    && (forall i :: 0 <= i < |interrupts| ==> from <= interrupts[i].now <= interrupts[i].counter)
    && (forall i, j :: 0 <= i < j < |interrupts| ==> interrupts[i].counter <= interrupts[j].now)
  }

  /** Every count is more than a period short of wrapping. */
  ghost predicate NoneNearWrap(interrupts: seq<Interrupt>, ticks: nat) {
    forall i :: 0 <= i < |interrupts| ==> interrupts[i].counter + ticks < WORD_LIMIT
  }

  lemma SameHighest(start: nat, ticks: nat, n: nat)
    ensures Highest(After(start, ticks, n) % WORD_LIMIT, ticks) == Highest(start, ticks)
  {
    hide CommonPower;
    NeverHigher(start, ticks, n);
  }

  class Driver {
    var period: nat
    var ticks: nat
    /** Periods that pass before the pending interrupt: what it will report. */
    var elapsed: nat
    /** The hardware: the compare register and its enable bit. */
    var compare: nat
    var enabled: bool

    /** The frequency and the counter when the period was last set, the counter last seen, and the numbers of
        periods and the times reported since. */
    ghost var frequency: nat
    ghost var start: nat
    ghost var seen: nat
    ghost var reports: seq<nat>
    ghost var emitted: seq<nat>

    /** The start and all periods reported or pending, unbounded. */
    ghost function Target(): nat
      reads this
    {
      After(start, ticks, Sum(reports) + elapsed)
    }

    /** No drift: the compare register stands a whole number of periods after the start, namely those
        reported and those pending, in 64-bit arithmetic. */
    ghost predicate Valid()
      reads this
    {
      enabled ==>
        && elapsed >= 1 && start < WORD_LIMIT && compare == Target() % WORD_LIMIT && ticks == TicksOf(period, frequency)
        && |emitted| == |reports| && forall i :: 0 <= i < |reports| ==> emitted[i] == Time(period, reports[i])
    }

    /** The counter has not wrapped since the start, and the reports do not run ahead of it. */
    ghost predicate InStep()
      reads this
    {
      enabled ==> Target() < WORD_LIMIT && After(start, ticks, Sum(reports)) <= seen
    }

    constructor ()
      ensures Valid() && InStep() && !enabled && period == 0 && elapsed == 1
    {
      period, ticks, elapsed, compare, enabled := 0, 0, 1, 0, false;
      frequency, start, seen, reports, emitted := 0, 0, 0, [], [];
    }

    /** TimerDriverSetTimerPeriod: a zero period disables the timer, any other starts afresh.  The frequency
        register is taken as 32 bits. */
    method SetTimerPeriod(newPeriod: nat, frequencyRegister: nat, counter: nat)
      requires counter < WORD_LIMIT
      modifies this
      ensures Valid() && period == newPeriod && elapsed == 1 && (enabled <==> newPeriod != 0)
      ensures enabled ==>
        && start == counter && reports == [] && frequency == frequencyRegister % 0x1_0000_0000
        && ticks == TicksOf(newPeriod, frequency)
        && compare == (counter + ticks) % WORD_LIMIT && (counter + ticks < WORD_LIMIT ==> InStep())
      ensures !enabled ==> ticks == old(ticks) && compare == old(compare)
    {
      hide TicksOf, Time;
      enabled := false;
      if newPeriod != 0 {
        frequency := frequencyRegister % UINT32_LIMIT;
        ticks := TicksOf(newPeriod, frequencyRegister % UINT32_LIMIT);
        period := newPeriod;
        elapsed := 1;
        compare := (counter + ticks) % WORD_LIMIT;
        enabled := true;
        start, seen, reports, emitted := counter, counter, [], [];
      } else {
        period := newPeriod;
        elapsed := 1;
      }
    }

    /** TimerInterruptHandler, with `now` the count when the status bit is tested, `counter` the count read while
        reloading, and at most `horizon` turns of the catch-up loop.  If the compare value has been reached it
        reports the pending periods and moves the compare value on by the least positive number of periods
        that reaches the counter.  The no-drift law survives even a wrap of the counter. */
    method TimerInterrupt(now: nat, counter: nat, horizon: nat) returns (pending: bool, ended: bool, report: nat)
      requires Valid() && enabled
      modifies this`elapsed, this`compare, this`reports, this`emitted, this`seen
      ensures seen == now && pending == (old(compare) <= now)
      ensures !pending ==> ended && elapsed == old(elapsed) && compare == old(compare)
      ensures !pending ==> reports == old(reports) && emitted == old(emitted)
      ensures ended ==> Valid()
      ensures pending ==> report == Time(period, old(elapsed))
      ensures pending ==> reports == old(reports) + [old(elapsed)] && emitted == old(emitted) + [report]
      ensures pending ==> (ended <==> ReachesWithin(old(compare), counter, ticks, horizon))
      ensures pending && ended ==>
        && elapsed >= 1 && compare == Later(old(compare), ticks, elapsed) >= counter
        && forall j: nat :: 1 <= j < elapsed ==> !Reaches(old(compare), counter, ticks, j)
      ensures !pending && old(InStep()) && old(seen) <= now ==> InStep()
      ensures pending && ended && old(InStep()) && now <= counter && counter + ticks < WORD_LIMIT ==>
        && InStep() && After(start, ticks, Sum(reports)) == old(compare) <= now
        && compare == old(compare) + elapsed * ticks && (elapsed == 1 || compare - ticks < counter)
      ensures !ended ==> compare == old(compare)
    {
      hide TicksOf, ReachesWithin, After, Sum, Time, Later;
      ended, report := true, 0;
      seen := now;
      pending := compare <= now;
      if pending {
        report := Time(period, elapsed);
        SumStep(reports, elapsed);
        reports, emitted := reports + [elapsed], emitted + [report];
        var next;
        ended, elapsed, next := CatchUp(compare, counter, ticks, horizon);
        if ended {
          LaterAfter(start, ticks, Sum(reports), elapsed, compare);
          compare := next;
          if now <= counter && counter + ticks < WORD_LIMIT {
            ReachedNoWrap(old(compare), counter, ticks, elapsed);
          }
        }
      }
    }

    /** What a run has reported in 100 ns units.  It is the period times the periods reported if and only if no
        product wraps.  Then, in counter ticks, it is exactly the ticks of the periods reported and the
        remainder lost in converting each period; so the times reported keep to the counter if and only if
        the period is a whole number of ticks. */
    lemma ReportedTime()
      requires Valid() && enabled
      ensures Sum(emitted) <= period * Sum(reports)
      ensures Sum(emitted) == period * Sum(reports) <==>
        forall i :: 0 <= i < |reports| ==> period * reports[i] < WORD_LIMIT
      ensures Sum(emitted) == period * Sum(reports) && Sum(reports) > 0 ==>
        (Sum(emitted) * frequency <= UNITS_PER_SECOND * (ticks * Sum(reports))
         <==> period * frequency < WORD_LIMIT && period * frequency % UNITS_PER_SECOND == 0)
      ensures Sum(emitted) == period * Sum(reports) && period * frequency < WORD_LIMIT ==>
        Sum(emitted) * frequency
        == UNITS_PER_SECOND * (ticks * Sum(reports)) + Sum(reports) * (period * frequency % UNITS_PER_SECOND)
      ensures InStep() && period * frequency < WORD_LIMIT && period * frequency % UNITS_PER_SECOND == 0 ==>
        Sum(emitted) * frequency <= UNITS_PER_SECOND * (seen - start)
    {
      hide TicksOf, Time, Sum, After;
      SumTimes(reports, emitted, period);
      var n := Sum(reports);
      InTicks(period, n, frequency, ticks, Sum(emitted), if InStep() then seen else After(start, ticks, n), start);
    }

    /** Any run of interrupts for which the catch-up loop ends: every tick between the start and the compare
        register is in exactly one report or in the one pending.  As long as the counter does not wrap, what
        is reported is never ahead of the count at which it is reported. */
    method Run(interrupts: seq<Interrupt>)
      requires Valid() && enabled
      requires forall i :: 0 <= i < |interrupts| ==> interrupts[i].counter <= Highest(start, ticks)
      modifies this`elapsed, this`compare, this`reports, this`emitted, this`seen
      ensures Valid()
      ensures |reports| <= |old(reports)| + |interrupts| && old(reports) <= reports
      ensures compare == After(start, ticks, Sum(reports) + elapsed) % WORD_LIMIT
      ensures old(InStep()) && Orderly(old(seen), interrupts) && NoneNearWrap(interrupts, ticks) ==>
        && InStep() && compare == After(start, ticks, Sum(reports) + elapsed)
        && (interrupts != [] ==>
              After(start, ticks, Sum(reports)) <= interrupts[|interrupts| - 1].now <= compare)
    {
      hide TicksOf, ReachesWithin, Reaches, After, Sum, Time, Later, Highest;
      ghost var orderly := old(InStep()) && Orderly(old(seen), interrupts) && NoneNearWrap(interrupts, ticks);
      var i := 0;
      while i < |interrupts|
        invariant 0 <= i <= |interrupts| && Valid()
        invariant |old(reports)| <= |reports| <= |old(reports)| + i && old(reports) <= reports
        invariant orderly ==> InStep()
        invariant seen == if i == 0 then old(seen) else interrupts[i - 1].now
        invariant orderly && i > 0 ==> interrupts[i - 1].now <= compare
      {
        SameHighest(start, ticks, Sum(reports) + elapsed);
        EndsIff(compare, interrupts[i].counter, ticks);
        var pending, ended, r := TimerInterrupt(interrupts[i].now, interrupts[i].counter, WORD_LIMIT);
        i := i + 1;
      }
    }
  }
}
