/**
  The page's compute pass: validate the table, sequence the tasks by
  Johnson's rule, simulate the schedule and derive the metrics. The ways the
  pass cannot produce metrics are returned as failures.
 */
module Flow {
  import opened Tasks
  import opened Sequencer
  import opened Schedule
  import opened Metrics

  datatype Result<T, E> = Ok(value: T) | Err(error: E)

  /**
    Why no metrics come out: a negative time is rejected by validation; an
    empty table has no last finish time; a makespan of zero leaves the
    delay ratios undefined.
   */
  datatype Failure = NegativeTime | NoTasks | ZeroMakespan

  /** Everything the page shows: the sequence, the four timing arrays and the metrics. */
  datatype Report = Report(sequence: seq<nat>,
                           startM1: seq<nat>, finishM1: seq<nat>, startM2: seq<nat>, finishM2: seq<nat>,
                           summary: Summary)

  /** Every row of the table is (0, 0). */
  predicate AllZero(rows: seq<(int, int)>) {
    forall i :: 0 <= i < |rows| ==> rows[i].0 == 0 && rows[i].1 == 0
  }

  /** The total work along a permutation is zero exactly when every task has zero times. */
  lemma ZeroWorkIffAllZero(pt: seq<Times>, order: seq<nat>)
    requires ValidIndices(pt, order) && IsPermutation(order, |pt|)
    ensures SumP1(pt, order) + SumP2(pt, order) == 0 <==>
      forall i :: 0 <= i < |pt| ==> pt[i].0 == 0 && pt[i].1 == 0
  {
    SumP1Zero(pt, order);
    SumP2Zero(pt, order);
    if SumP1(pt, order) + SumP2(pt, order) == 0 {
      forall i: nat | i < |pt| ensures pt[i].0 == 0 && pt[i].1 == 0 {
        assert i in order;
        var k :| 0 <= k < |order| && order[k] == i;
      }
    }
  }

  /**
    Lines 114-124 of the page: the metrics come out exactly when the table has
    no negative time, at least one task and some non-zero time; they are then
    the metrics of the simulated schedule of the Johnson sequence.
   */
  method Calculate(rows: seq<(int, int)>) returns (r: Result<Report, Failure>)
    ensures r == Err(NegativeTime) <==> !NonNegative(rows)
    ensures r == Err(NoTasks) <==> NonNegative(rows) && rows == []
    ensures r == Err(ZeroMakespan) <==> NonNegative(rows) && rows != [] && AllZero(rows)
    ensures r.Ok? ==>
      && Validate(rows).Some?
      && (var pt, rep := Validate(rows).value, r.value;
          && JohnsonOrder(pt, rep.sequence)
          && IsSchedule(pt, rep.sequence, rep.startM1, rep.finishM1, rep.startM2, rep.finishM2)
          && |rep.sequence| > 0 && rep.finishM2[|rep.finishM2| - 1] > 0
          && rep.summary == CalculateMetrics(rep.finishM1, rep.finishM2, rep.startM1, rep.startM2)
          && 0.5 <= rep.summary.utilization <= 1.0)
  {
    var checked := Validate(rows);
    if checked.None? {
      return Err(NegativeTime);
    }
    var pt := checked.value;
    var sequence := JohnsonsRule(pt);
    var startM1, finishM1, startM2, finishM2 := CalculateSchedule(pt, sequence);
    var n := |sequence|;
    if n == 0 {
      return Err(NoTasks);
    }
    MakespanBounds(pt, sequence, startM1[..], finishM1[..], startM2[..], finishM2[..]);
    ZeroWorkIffAllZero(pt, sequence);
    if finishM2[n - 1] == 0 {
      return Err(ZeroMakespan);
    }
    var summary := CalculateMetrics(finishM1[..], finishM2[..], startM1[..], startM2[..]);
    MetricsOfSchedule(pt, sequence, startM1[..], finishM1[..], startM2[..], finishM2[..]);
    r := Ok(Report(sequence, startM1[..], finishM1[..], startM2[..], finishM2[..], summary));
  }

  /** Five tasks with zero times: the table the page offers when five tasks are asked for. */
  const ZeroRows: seq<(int, int)> := [(0, 0), (0, 0), (0, 0), (0, 0), (0, 0)]

  /**
    The page as written: the non-negativity guard admits the zero table, and
    every schedule of its Johnson sequence ends at time 0, which is the
    divisor of both delay ratios.
   */
  lemma GuardAdmitsZeroMakespan(order: seq<nat>,
      startM1: seq<nat>, finishM1: seq<nat>, startM2: seq<nat>, finishM2: seq<nat>)
    requires JohnsonOrder(Validate(ZeroRows).value, order)
    requires IsSchedule(Validate(ZeroRows).value, order, startM1, finishM1, startM2, finishM2)
    ensures NonNegative(ZeroRows) && |order| == 5
    ensures finishM2[|finishM2| - 1] == 0
  {
    var pt := Validate(ZeroRows).value;
    assert forall i :: 0 <= i < 5 ==> pt[i] == (0, 0);
    MakespanBounds(pt, order, startM1, finishM1, startM2, finishM2);
    SumP1Zero(pt, order);
    SumP2Zero(pt, order);
  }

  /**
    The page as written: the guard admits a table with no rows, whose Johnson
    sequence and schedule are empty, so there is no last finish time to read
    the makespan from.
   */
  lemma GuardAdmitsEmptyTable(order: seq<nat>,
      startM1: seq<nat>, finishM1: seq<nat>, startM2: seq<nat>, finishM2: seq<nat>)
    requires JohnsonOrder([], order)
    requires IsSchedule([], order, startM1, finishM1, startM2, finishM2)
    ensures NonNegative([]) && Validate([]) == Some([])
    ensures order == [] && finishM2 == []
  {
  }
}
