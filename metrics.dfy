/**
  Metrics of a schedule: makespan, the idle time ("delay") of each machine,
  the average delay as a fraction of the makespan, and utilization. Ratios are
  exact `real`s.
 */
module Metrics {
  import opened Tasks
  import opened Schedule

  /** What `calculate_metrics` returns, in its order. */
  datatype Summary = Summary(makespan: nat, delayM1: int, delayM2: nat, averageDelay: real, utilization: real)

  /** An idle gap as it is counted: a negative gap counts as none. */
  function Positive(x: int): (r: nat)
    ensures r >= x && (r == x || r == 0)
  {
    if x > 0 then x else 0
  }

  /** Machine 2's counted idle gaps before positions 1 .. k-1. */
  function IdleGaps(startM2: seq<nat>, finishM2: seq<nat>, k: nat): nat
    requires k <= |startM2| && k <= |finishM2| + 1
  {
    if k <= 1 then 0 else IdleGaps(startM2, finishM2, k - 1) + Positive(startM2[k - 1] as int - finishM2[k - 2])
  }

  /** Machine 2's delay: its wait before the first task plus every counted gap after it. */
  function DelayM2(startM2: seq<nat>, finishM2: seq<nat>): (d: nat)
    requires |startM2| > 0 && |startM2| <= |finishM2| + 1
    ensures d >= startM2[0]
  {
    startM2[0] + IdleGaps(startM2, finishM2, |startM2|)
  }

  /**
    `calculate_delays`: machine 1's delay is its idle time after its last task
    until `makespan`; machine 2's delay is accumulated over the positions after
    the first. `startM1` is received and not read, as in the source.
   */
  method CalculateDelays(startM1: seq<nat>, finishM1: seq<nat>, startM2: seq<nat>, finishM2: seq<nat>,
                         makespan: int)
    returns (delayM1: int, delayM2: nat)
    requires |finishM1| > 0 && |startM2| > 0 && |startM2| <= |finishM2| + 1
    ensures delayM1 == makespan - finishM1[|finishM1| - 1]
    ensures delayM2 == DelayM2(startM2, finishM2)
  {
    delayM1 := makespan - finishM1[|finishM1| - 1] as int;
    delayM2 := startM2[0];
    for i := 1 to |startM2|
      invariant delayM2 == startM2[0] + IdleGaps(startM2, finishM2, i)
    {
      var idle := startM2[i] as int - finishM2[i - 1];
      if idle > 0 {
        delayM2 := delayM2 + idle;
      }
    }
  }

  /** Halving the sum of two ratios over one positive denominator. */
  lemma MeanOfRatios(a: real, b: real, m: real)
    requires m > 0.0
    ensures (a / m + b / m) / 2.0 == (a + b) / (2.0 * m)
  {
    calc {
      (a / m + b / m) / 2.0;
      ((a + b) / m) / 2.0;
      (a + b) / (2.0 * m);
    }
  }

  /** A ratio's complement over the same denominator. */
  lemma ComplementRatio(x: real, d: real)
    requires d > 0.0
    ensures (d - x) / d == 1.0 - x / d
  {
    assert d / d + (-x) / d == (d + (-x)) / d;
    assert d / d == 1.0;
    assert (-x) / d == -(x / d);
  }

  /** A quantity between half of and all of a positive denominator gives a ratio between 1/2 and 1. */
  lemma RatioBetweenHalfAndOne(x: real, d: real)
    requires d > 0.0 && d / 2.0 <= x <= d
    ensures 0.5 <= x / d <= 1.0
  {
    assert (x / d) * d == x;
  }

  /**
    With each delay equal to the makespan minus the machine's work, and the
    makespan between the larger and the sum of the two works, the complement of
    the mean delay ratio is the work ratio, and it lies between one half and one.
   */
  lemma UtilizationFromWork(makespan: nat, work1: nat, work2: nat, delay1: int, delay2: int)
    requires makespan > 0 && work1 <= makespan && work2 <= makespan && makespan <= work1 + work2
    requires delay1 == makespan - work1 && delay2 == makespan - work2
    ensures var average := (delay1 + delay2) as real / (2 * makespan) as real;
      && 1.0 - average == (work1 + work2) as real / (2 * makespan) as real
      && 0.0 <= average <= 0.5
  {
    var ms, work := makespan as real, (work1 + work2) as real;
    assert (delay1 + delay2) as real == 2.0 * ms - work;
    assert (2 * makespan) as real == 2.0 * ms;
    ComplementRatio(work, 2.0 * ms);
    RatioBetweenHalfAndOne(work, 2.0 * ms);
  }

  /**
    `calculate_metrics`: the makespan is machine 2's last finish; the delays
    are those of `CalculateDelays`; the average delay is the mean of the two
    delays each taken as a fraction of the makespan; utilization is its
    complement.
   */
  function CalculateMetrics(finishM1: seq<nat>, finishM2: seq<nat>, startM1: seq<nat>, startM2: seq<nat>)
    : (m: Summary)
    requires |finishM1| > 0 && |finishM2| > 0 && |startM2| > 0 && |startM2| <= |finishM2| + 1
    requires finishM2[|finishM2| - 1] > 0
    ensures m.makespan == finishM2[|finishM2| - 1] && m.makespan > 0
    ensures m.delayM1 == m.makespan - finishM1[|finishM1| - 1]
    ensures m.delayM2 == DelayM2(startM2, finishM2)
    ensures m.averageDelay == (m.delayM1 + m.delayM2) as real / (2 * m.makespan) as real
    ensures m.utilization + m.averageDelay == 1.0
  {
    var makespan := finishM2[|finishM2| - 1];
    var delayM1 := makespan as int - finishM1[|finishM1| - 1];
    var delayM2 := DelayM2(startM2, finishM2);
    var averageDelay := (delayM1 as real / makespan as real + delayM2 as real / makespan as real) / 2.0;
    MeanOfRatios(delayM1 as real, delayM2 as real, makespan as real);
    Summary(makespan, delayM1, delayM2, averageDelay, 1.0 - averageDelay)
  }

  /**
    On a simulated schedule no gap is negative, and machine 2's wait plus its
    gaps up to position k-1 plus its work on the first k tasks is exactly its
    finish time at position k-1.
   */
  lemma {:induction false} IdleGapsOfSchedule(pt: seq<Times>, order: seq<nat>,
      startM1: seq<nat>, finishM1: seq<nat>, startM2: seq<nat>, finishM2: seq<nat>, k: nat)
    requires ValidIndices(pt, order)
    requires IsSchedule(pt, order, startM1, finishM1, startM2, finishM2)
    requires 1 <= k <= |order|
    ensures startM2[0] + IdleGaps(startM2, finishM2, k) + SumP2(pt, order[..k]) == finishM2[k - 1]
  {
    assert StepHolds(pt, order, startM1, finishM1, startM2, finishM2, k - 1);
    assert order[..k][..k - 1] == order[..k - 1];
    if k == 1 {
      assert order[..0] == [];
    } else {
      IdleGapsOfSchedule(pt, order, startM1, finishM1, startM2, finishM2, k - 1);
      assert order[..k - 1] == order[..k - 2 + 1];
    }
  }

  /**
    Idle-time conservation on a simulated schedule: each machine's delay is
    the makespan minus that machine's total work, and neither is negative.
   */
  lemma DelaysOfSchedule(pt: seq<Times>, order: seq<nat>,
      startM1: seq<nat>, finishM1: seq<nat>, startM2: seq<nat>, finishM2: seq<nat>)
    requires ValidIndices(pt, order)
    requires IsSchedule(pt, order, startM1, finishM1, startM2, finishM2)
    requires |order| > 0
    ensures finishM1[|order| - 1] == SumP1(pt, order) <= finishM2[|order| - 1]
    ensures DelayM2(startM2, finishM2) == finishM2[|order| - 1] as int - SumP2(pt, order) >= 0
  {
    var n := |order|;
    ScheduleClosedForm(pt, order, startM1, finishM1, startM2, finishM2, n - 1);
    IdleGapsOfSchedule(pt, order, startM1, finishM1, startM2, finishM2, n);
    assert order[..n] == order;
  }

  /**
    The makespan of a simulated schedule lies between the classic lower bounds
    (all machine-1 work plus the last task's machine-2 time; the first task's
    machine-1 time plus all machine-2 work) and the total of all work; in
    particular it is zero exactly when every task has zero time.
   */
  lemma MakespanBounds(pt: seq<Times>, order: seq<nat>,
      startM1: seq<nat>, finishM1: seq<nat>, startM2: seq<nat>, finishM2: seq<nat>)
    requires ValidIndices(pt, order)
    requires IsSchedule(pt, order, startM1, finishM1, startM2, finishM2)
    requires |order| > 0
    ensures finishM2[|order| - 1] >= SumP1(pt, order) + pt[order[|order| - 1]].1
    ensures finishM2[|order| - 1] >= pt[order[0]].0 + SumP2(pt, order)
    ensures finishM2[|order| - 1] <= SumP1(pt, order) + SumP2(pt, order)
    ensures finishM2[|order| - 1] == 0 <==> SumP1(pt, order) + SumP2(pt, order) == 0
  {
    var n := |order|;
    ScheduleClosedForm(pt, order, startM1, finishM1, startM2, finishM2, n - 1);
    IdleGapsOfSchedule(pt, order, startM1, finishM1, startM2, finishM2, n);
    assert order[..n] == order;
    assert StepHolds(pt, order, startM1, finishM1, startM2, finishM2, n - 1);
    assert StepHolds(pt, order, startM1, finishM1, startM2, finishM2, 0);
    Finish2AtMostTotal(pt, order);
  }

  /**
    The metrics of a simulated schedule: each delay is the makespan minus the
    machine's work, utilization is the total work over twice the makespan, and
    it lies between one half and one.
   */
  lemma MetricsOfSchedule(pt: seq<Times>, order: seq<nat>,
      startM1: seq<nat>, finishM1: seq<nat>, startM2: seq<nat>, finishM2: seq<nat>)
    requires ValidIndices(pt, order)
    requires IsSchedule(pt, order, startM1, finishM1, startM2, finishM2)
    requires |order| > 0 && finishM2[|order| - 1] > 0
    ensures var m := CalculateMetrics(finishM1, finishM2, startM1, startM2);
      && m.delayM1 == m.makespan - SumP1(pt, order)
      && m.delayM2 == m.makespan - SumP2(pt, order)
      && m.utilization == (SumP1(pt, order) + SumP2(pt, order)) as real / (2 * m.makespan) as real
      && 0.5 <= m.utilization <= 1.0
      && 0.0 <= m.averageDelay <= 0.5
  {
    var m := CalculateMetrics(finishM1, finishM2, startM1, startM2);
    DelaysOfSchedule(pt, order, startM1, finishM1, startM2, finishM2);
    MakespanBounds(pt, order, startM1, finishM1, startM2, finishM2);
    UtilizationFromWork(m.makespan, SumP1(pt, order), SumP2(pt, order), m.delayM1, m.delayM2);
  }
}
