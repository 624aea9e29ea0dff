/** The pacing of `run`: a next start time that moves on by one period per tick, and that is
    pulled up to one period after the clock when a tick overruns. */
module Pacing {
  import opened Reals

  /** The clock readings around one tick: at the head of the loop, when the tick starts (after
      the sleep, if any), and after it. */
  datatype Timing = Timing(arrive: real, start: real, finish: real)

  function NextTime(next: real, period: real, finish: real): real {
    if next + period < finish then finish + period else next + period
  }

  /** The scheduled start of tick `k`. */
  function Scheduled(t0: real, period: real, ticks: seq<Timing>, k: nat): real
    requires k <= |ticks|
  {
    if k == 0 then t0 else NextTime(Scheduled(t0, period, ticks, k - 1), period, ticks[k - 1].finish)
  }

  lemma NextScheduled(t0: real, period: real, ticks: seq<Timing>, k: nat)
    requires k < |ticks|
    ensures Scheduled(t0, period, ticks, k + 1) == NextTime(Scheduled(t0, period, ticks, k), period, ticks[k].finish)
  {
  }

  function Wait(next: real, arrive: real): real {
    if arrive < next then next - arrive else 0.0
  }

  /** The clock does not run backwards, and the sleep does not end early. */
  predicate TickOk(t0: real, period: real, ticks: seq<Timing>, k: nat)
    requires k < |ticks|
  {
    && ticks[k].arrive + Wait(Scheduled(t0, period, ticks, k), ticks[k].arrive) <= ticks[k].start
    && ticks[k].start <= ticks[k].finish
  }

  predicate ClockOk(t0: real, period: real, ticks: seq<Timing>) {
    forall k: nat :: k < |ticks| ==> TickOk(t0, period, ticks, k)
  }

  /** The length of n periods. */
  function Periods(n: nat, period: real): real {
    if n == 0 then 0.0 else Periods(n - 1, period) + period
  }

  lemma {:induction false} PeriodsMultiply(n: nat, period: real)
    ensures Periods(n, period) == n as real * period
  {
    if n > 0 {
      PeriodsMultiply(n - 1, period);
      OneMore((n - 1) as real, period);
    }
  }

  /** Scheduled starts are at least a period apart. */
  lemma {:induction false} ScheduleSpacing(t0: real, period: real, ticks: seq<Timing>, i: nat, n: nat)
    requires period >= 0.0 && i + n <= |ticks|
    ensures Scheduled(t0, period, ticks, i) + Periods(n, period) <= Scheduled(t0, period, ticks, i + n)
  {
    if n > 0 {
      ScheduleSpacing(t0, period, ticks, i, n - 1);
    }
  }

  /** No tick starts before its scheduled time, and its end is not later than the next one's. */
  lemma StartsWithinSchedule(t0: real, period: real, ticks: seq<Timing>, k: nat)
    requires period >= 0.0 && ClockOk(t0, period, ticks) && k < |ticks|
    ensures Scheduled(t0, period, ticks, k) <= ticks[k].start
    ensures ticks[k].finish <= Scheduled(t0, period, ticks, k + 1)
  {
    assert TickOk(t0, period, ticks, k);
  }

  /** Tick k never starts before t0 + k periods. */
  lemma NeverEarly(t0: real, period: real, ticks: seq<Timing>, k: nat)
    requires period >= 0.0 && ClockOk(t0, period, ticks) && k < |ticks|
    ensures t0 + k as real * period <= ticks[k].start
  {
    ScheduleSpacing(t0, period, ticks, 0, k);
    PeriodsMultiply(k, period);
    StartsWithinSchedule(t0, period, ticks, k);
  }

  /** Overruns are not made up for: whatever happened before, between the end of one
      tick and the start of the one n + 1 later lie at least n periods. So a stretch of time W
      holds at most W / period + 2 starts. */
  lemma NoCatchUpBurst(t0: real, period: real, ticks: seq<Timing>, i: nat, n: nat)
    requires period >= 0.0 && ClockOk(t0, period, ticks) && i + 1 + n < |ticks|
    ensures ticks[i].finish + Periods(n, period) <= ticks[i + 1 + n].start
  {
    StartsWithinSchedule(t0, period, ticks, i);
    ScheduleSpacing(t0, period, ticks, i + 1, n);
    StartsWithinSchedule(t0, period, ticks, i + 1 + n);
  }

  /** After an overrun the next tick is scheduled a whole period after the clock, so it starts at
      least a period after the overrunning tick ended. */
  lemma OverrunStartsAfresh(t0: real, period: real, ticks: seq<Timing>, k: nat)
    requires period >= 0.0 && ClockOk(t0, period, ticks) && k + 1 < |ticks|
    requires ticks[k].finish > Scheduled(t0, period, ticks, k) + period
    ensures ticks[k].finish + period <= ticks[k + 1].start
  {
    StartsWithinSchedule(t0, period, ticks, k + 1);
  }

  // ----- On time -----

  /** Tick `j` ends more than a period after its scheduled start. */
  predicate Overruns(t0: real, period: real, ticks: seq<Timing>, j: nat)
    requires j < |ticks|
  {
    ticks[j].finish > Scheduled(t0, period, ticks, j) + period
  }

  /** None of the ticks `lo`, ..., `hi - 1` overruns. */
  ghost predicate NoOverrun(t0: real, period: real, ticks: seq<Timing>, lo: nat, hi: nat) {
    forall j: nat :: lo <= j < hi && j < |ticks| ==> !Overruns(t0, period, ticks, j)
  }

  /** Without an overrun the schedule moves on by exactly one period a tick. */
  lemma {:induction false} SteadyStretch(t0: real, period: real, ticks: seq<Timing>, i: nat, n: nat)
    requires i + n <= |ticks| && NoOverrun(t0, period, ticks, i, i + n)
    ensures Scheduled(t0, period, ticks, i + n) == Scheduled(t0, period, ticks, i) + Periods(n, period)
  {
    if n > 0 {
      SteadyStretch(t0, period, ticks, i, n - 1);
      assert !Overruns(t0, period, ticks, i + n - 1);
    }
  }

  /** Main result: with no overrun before it, tick `k` is scheduled exactly `k` periods after the start. */
  lemma OnTime(t0: real, period: real, ticks: seq<Timing>, k: nat)
    requires k <= |ticks| && NoOverrun(t0, period, ticks, 0, k)
    ensures Scheduled(t0, period, ticks, k) == t0 + k as real * period
  {
    SteadyStretch(t0, period, ticks, 0, k);
    PeriodsMultiply(k, period);
  }

  /** Otherwise it is scheduled exactly so many periods after the end of the last tick that overran. */
  lemma OnTimeAfterOverrun(t0: real, period: real, ticks: seq<Timing>, j: nat, k: nat)
    requires j < k <= |ticks| && Overruns(t0, period, ticks, j) && NoOverrun(t0, period, ticks, j + 1, k)
    ensures Scheduled(t0, period, ticks, k) == ticks[j].finish + (k - j) as real * period
  {
    var n := k - j - 1;
    assert j + 1 + n == k;
    SteadyAfter(t0, period, ticks, j, n, k);
    PeriodsMultiply(n + 1, period);
  }

  lemma SteadyAfter(t0: real, period: real, ticks: seq<Timing>, j: nat, n: nat, k: nat)
    requires k == j + 1 + n <= |ticks| && Overruns(t0, period, ticks, j) && NoOverrun(t0, period, ticks, j + 1, k)
    ensures Scheduled(t0, period, ticks, k) == ticks[j].finish + Periods(n + 1, period)
  {
    AfterOverrun(t0, period, ticks, j);
    SteadyStretch(t0, period, ticks, j + 1, n);
    OnePeriodMore(n + 1, period);
  }

  lemma AfterOverrun(t0: real, period: real, ticks: seq<Timing>, j: nat)
    requires j < |ticks| && Overruns(t0, period, ticks, j)
    ensures Scheduled(t0, period, ticks, j + 1) == ticks[j].finish + period
  {
    NextScheduled(t0, period, ticks, j);
  }

  lemma OnePeriodMore(n: nat, period: real)
    requires n > 0
    ensures Periods(n, period) == Periods(n - 1, period) + period
  {
  }
}
