/**
  Worked examples: the page's default table of ten tasks, a single task and a
  pair of tasks, each pinned down from the contracts of the compute pass.
 */
module Scenarios {
  import opened Tasks
  import opened Sequencer
  import opened Schedule
  import opened Metrics
  import opened Flow

  /** The default table: machine-1 times 3,6,2,7,6,5,5,3,6,10 and machine-2 times 5,2,8,6,6,9,4,2,8,4. */
  const DefaultRows: seq<(int, int)> :=
    [(3, 5), (6, 2), (2, 8), (7, 6), (6, 6), (5, 9), (5, 4), (3, 2), (6, 8), (10, 4)]

  const DefaultTimes: seq<Times> :=
    [(3, 5), (6, 2), (2, 8), (7, 6), (6, 6), (5, 9), (5, 4), (3, 2), (6, 8), (10, 4)]

  /** Johnson's sequence of the default table: T3 T1 T6 T5 T9 T4 T10 T7 T8 T2. */
  const DefaultOrder: seq<nat> := [2, 0, 5, 4, 8, 3, 9, 6, 7, 1]

  const DefaultStartM1: seq<nat> := [0, 2, 5, 10, 16, 22, 29, 39, 44, 47]
  const DefaultFinishM1: seq<nat> := [2, 5, 10, 16, 22, 29, 39, 44, 47, 53]
  const DefaultStartM2: seq<nat> := [2, 10, 15, 24, 30, 38, 44, 48, 52, 54]
  const DefaultFinishM2: seq<nat> := [10, 15, 24, 30, 38, 44, 48, 52, 54, 56]

  /** Validation passes a non-negative table on unchanged. */
  lemma ValidateKeeps(rows: seq<(int, int)>, pt: seq<Times>)
    requires NonNegative(rows) && |pt| == |rows|
    requires forall i :: 0 <= i < |rows| ==> pt[i].0 == rows[i].0 && pt[i].1 == rows[i].1
    ensures Validate(rows) == Some(pt)
  {
    var v := Validate(rows).value;
    assert |v| == |pt|;
    forall i | 0 <= i < |rows| ensures v[i] == pt[i] {
      assert v[i].0 == pt[i].0 && v[i].1 == pt[i].1;
    }
    assert v == pt;
  }

  /** Where each index stands in the default sequence: index i at position `DefaultPosition[i]`. */
  const DefaultPosition: seq<nat> := [1, 9, 0, 5, 3, 2, 7, 8, 4, 6]

  /** The default sequence lists each of the ten tasks once: its positions invert it. */
  lemma DefaultOrderIsPermutation()
    ensures IsPermutation(DefaultOrder, 10)
  {
    forall k | 0 <= k < 10 ensures DefaultOrder[k] < 10 && DefaultPosition[DefaultOrder[k]] == k {
    }
    forall i: nat | i < 10 ensures i in DefaultOrder {
      assert DefaultOrder[DefaultPosition[i]] == i;
    }
  }

  /** The default sequence has the shape Johnson's rule demands: checking each neighbouring pair suffices. */
  lemma DefaultOrderIsJohnson()
    ensures JohnsonOrder(DefaultTimes, DefaultOrder)
  {
    DefaultOrderIsPermutation();
    assert forall i :: 0 <= i < 9 ==> Precedes(DefaultTimes, DefaultOrder[i], DefaultOrder[i + 1]);
    SortedFromNeighbours(DefaultTimes, DefaultOrder);
  }

  /** The metrics of the default schedule: makespan 56, delays 3 and 2, utilization 107/112. */
  lemma DefaultMetrics()
    ensures CalculateMetrics(DefaultFinishM1, DefaultFinishM2, DefaultStartM1, DefaultStartM2)
         == Summary(56, 3, 2, 5.0 / 112.0, 107.0 / 112.0)
  {
    assert DelayM2(DefaultStartM2, DefaultFinishM2) == 2;
  }

  /** A report on the default table that meets the contract of the compute pass is the one listed above. */
  lemma DefaultReport(rep: Report)
    requires JohnsonOrder(DefaultTimes, rep.sequence)
    requires IsSchedule(DefaultTimes, rep.sequence, rep.startM1, rep.finishM1, rep.startM2, rep.finishM2)
    requires |rep.sequence| > 0 && rep.finishM2[|rep.finishM2| - 1] > 0
    requires rep.summary == CalculateMetrics(rep.finishM1, rep.finishM2, rep.startM1, rep.startM2)
    ensures rep == Report(DefaultOrder, DefaultStartM1, DefaultFinishM1, DefaultStartM2, DefaultFinishM2,
                          Summary(56, 3, 2, 5.0 / 112.0, 107.0 / 112.0))
  {
    DefaultOrderIsJohnson();
    JohnsonOrderUnique(DefaultTimes, rep.sequence, DefaultOrder);
    assert IsSchedule(DefaultTimes, DefaultOrder, DefaultStartM1, DefaultFinishM1, DefaultStartM2, DefaultFinishM2);
    ScheduleDeterministic(DefaultTimes, DefaultOrder,
      rep.startM1, rep.finishM1, rep.startM2, rep.finishM2,
      DefaultStartM1, DefaultFinishM1, DefaultStartM2, DefaultFinishM2);
    DefaultMetrics();
  }

  /**
    The page's default table: the sequence starts with T3 (index 2, smallest
    time 2 on machine 1) and ends with T2; the makespan is 56 hours, machine 1
    idles 3 hours at the end, machine 2 waits 2 hours at the start, and
    utilization is 107/112.
   */
  method DefaultRun() returns (r: Result<Report, Failure>)
    ensures r == Ok(Report(DefaultOrder, DefaultStartM1, DefaultFinishM1, DefaultStartM2, DefaultFinishM2,
                           Summary(56, 3, 2, 5.0 / 112.0, 107.0 / 112.0)))
  {
    r := Calculate(DefaultRows);
    ValidateKeeps(DefaultRows, DefaultTimes);
    assert !AllZero(DefaultRows) by {
      assert DefaultRows[0].0 != 0;
    }
    assert r.Ok? by {
      if r.Err? {
        match r.error
        case NegativeTime =>
        case NoTasks =>
        case ZeroMakespan =>
      }
    }
    DefaultReport(r.value);
  }

  /**
    A single task (5, 3): sequence [0]; machine 1 runs 0-5, machine 2 runs 5-8;
    makespan 8, delays 3 and 5, average delay and utilization one half.
   */
  method SingleTaskRun() returns (r: Result<Report, Failure>)
    ensures r == Ok(Report([0], [0], [5], [5], [8], Summary(8, 3, 5, 0.5, 0.5)))
  {
    var rows := [(5, 3)];
    r := Calculate(rows);
    ValidateKeeps(rows, [(5, 3)]);
    assert !AllZero(rows) by {
      assert rows[0].0 != 0;
    }
    assert r.Ok? by {
      if r.Err? {
        match r.error
        case NegativeTime =>
        case NoTasks =>
        case ZeroMakespan =>
      }
    }
    var rep := r.value;
    assert JohnsonOrder([(5, 3)], [0]);
    JohnsonOrderUnique([(5, 3)], rep.sequence, [0]);
    assert IsSchedule([(5, 3)], [0], [0], [5], [5], [8]);
    ScheduleDeterministic([(5, 3)], [0], rep.startM1, rep.finishM1, rep.startM2, rep.finishM2, [0], [5], [5], [8]);
  }

  /**
    Two tasks (4, 2) and (1, 3): the second has the smallest time, on machine
    1, and goes first; the first has its smaller time on machine 2 and goes
    last.
   */
  lemma TwoTaskOrder(order: seq<nat>)
    requires JohnsonOrder([(4, 2), (1, 3)], order)
    ensures order == [1, 0]
  {
    assert JohnsonOrder([(4, 2), (1, 3)], [1, 0]);
    JohnsonOrderUnique([(4, 2), (1, 3)], order, [1, 0]);
  }
}
