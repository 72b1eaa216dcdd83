/**
  The schedule simulator: given a task sequence, the start and finish time of
  every task on both machines. Machine 1 runs the tasks back to back from time
  0; machine 2 starts a task once it is free and machine 1 has finished that
  task.
 */
module Schedule {
  import opened Tasks

  function Max(a: nat, b: nat): (m: nat)
    ensures m >= a && m >= b && (m == a || m == b)
  {
    if a >= b then a else b
  }

  /**
    The timing recurrences at position i of `order`: machine 1 starts the task
    when it finished the previous one (at 0 for the first), machine 2 starts it
    at the later of its own previous finish (0 for the first) and machine 1's
    finish of this task, and each finish is its start plus the task's time.
   */
  predicate StepHolds(pt: seq<Times>, order: seq<nat>,
                      startM1: seq<nat>, finishM1: seq<nat>, startM2: seq<nat>, finishM2: seq<nat>, i: nat)
    requires ValidIndices(pt, order)
    requires |startM1| == |finishM1| == |startM2| == |finishM2| == |order|
    requires i < |order|
  {
    && startM1[i] == (if i > 0 then finishM1[i - 1] else 0)
    && finishM1[i] == startM1[i] + pt[order[i]].0
    && startM2[i] == Max(if i > 0 then finishM2[i - 1] else 0, finishM1[i])
    && finishM2[i] == startM2[i] + pt[order[i]].1
  }

  /** The four timing arrays have the sequence's length and obey the recurrences everywhere. */
  predicate IsSchedule(pt: seq<Times>, order: seq<nat>,
                       startM1: seq<nat>, finishM1: seq<nat>, startM2: seq<nat>, finishM2: seq<nat>)
    requires ValidIndices(pt, order)
  {
    && |startM1| == |order| && |finishM1| == |order| && |startM2| == |order| && |finishM2| == |order|
    && forall i :: 0 <= i < |order| ==> StepHolds(pt, order, startM1, finishM1, startM2, finishM2, i)
  }

  /** The first `done` positions obey the recurrences, and machine 1's finish is a prefix sum there. */
  predicate DoneUpTo(pt: seq<Times>, order: seq<nat>,
                     startM1: seq<nat>, finishM1: seq<nat>, startM2: seq<nat>, finishM2: seq<nat>, done: nat)
    requires ValidIndices(pt, order)
  {
    && |startM1| == |order| && |finishM1| == |order| && |startM2| == |order| && |finishM2| == |order|
    && done <= |order|
    && forall i :: 0 <= i < done ==>
      StepHolds(pt, order, startM1, finishM1, startM2, finishM2, i) && finishM1[i] == SumP1(pt, order[..i + 1])
  }

  /** Writing position `done` by the recurrences extends the finished prefix by one. */
  lemma ExtendDone(pt: seq<Times>, order: seq<nat>,
      startM1: seq<nat>, finishM1: seq<nat>, startM2: seq<nat>, finishM2: seq<nat>, done: nat,
      s1: nat, f1: nat, s2: nat, f2: nat)
    requires ValidIndices(pt, order)
    requires DoneUpTo(pt, order, startM1, finishM1, startM2, finishM2, done) && done < |order|
    requires s1 == (if done > 0 then finishM1[done - 1] else 0) && f1 == s1 + pt[order[done]].0
    requires s2 == Max(if done > 0 then finishM2[done - 1] else 0, f1) && f2 == s2 + pt[order[done]].1
    ensures DoneUpTo(pt, order, startM1[done := s1], finishM1[done := f1],
                     startM2[done := s2], finishM2[done := f2], done + 1)
  {
    var a1, b1, a2, b2 := startM1[done := s1], finishM1[done := f1], startM2[done := s2], finishM2[done := f2];
    forall i | 0 <= i < done + 1
      ensures StepHolds(pt, order, a1, b1, a2, b2, i) && b1[i] == SumP1(pt, order[..i + 1])
    {
      if i < done {
        assert StepHolds(pt, order, startM1, finishM1, startM2, finishM2, i);
      } else {
        assert order[..done + 1][..done] == order[..done];
        if done > 0 {
          assert order[..done] == order[..done - 1 + 1];
        }
      }
    }
  }

  /**
    When machine 2 finishes the last task of `order` (0 for no tasks): the
    later of its finish of the tasks before and machine 1's finish of the
    whole prefix, plus the last task's machine-2 time.
   */
  function Finish2(pt: seq<Times>, order: seq<nat>): nat
    requires ValidIndices(pt, order)
  {
    if order == [] then 0
    else Max(Finish2(pt, order[..|order| - 1]), SumP1(pt, order)) + pt[order[|order| - 1]].1
  }

  /**
    `calculate_schedule`: four arrays of the sequence's length, filled position
    by position.
   */
  method CalculateSchedule(pt: seq<Times>, order: seq<nat>)
    returns (startM1: array<nat>, finishM1: array<nat>, startM2: array<nat>, finishM2: array<nat>)
    requires ValidIndices(pt, order)
    ensures fresh(startM1) && fresh(finishM1) && fresh(startM2) && fresh(finishM2)
    ensures IsSchedule(pt, order, startM1[..], finishM1[..], startM2[..], finishM2[..])
    ensures forall i :: 0 <= i < |order| ==> finishM1[i] == SumP1(pt, order[..i + 1])
  {
    var n := |order|;
    startM1 := new nat[n];
    finishM1 := new nat[n];
    startM2 := new nat[n];
    finishM2 := new nat[n];
    for i := 0 to n
      invariant DoneUpTo(pt, order, startM1[..], finishM1[..], startM2[..], finishM2[..], i)
    {
      var idx := order[i];
      var p1, p2 := pt[idx].0, pt[idx].1;
      var s1 := if i > 0 then finishM1[i - 1] else 0;
      var f1 := s1 + p1;
      var s2 := Max(if i > 0 then finishM2[i - 1] else 0, f1);
      var f2 := s2 + p2;
      ExtendDone(pt, order, startM1[..], finishM1[..], startM2[..], finishM2[..], i, s1, f1, s2, f2);
      startM1[i] := s1;
      finishM1[i] := f1;
      startM2[i] := s2;
      finishM2[i] := f2;
    }
  }

  /**
    Closed forms of the recurrences: machine 1 finishes position i at the sum
    of machine-1 times of the first i + 1 tasks, and machine 2 at `Finish2` of
    that prefix.
   */
  lemma {:induction false} ScheduleClosedForm(pt: seq<Times>, order: seq<nat>,
      startM1: seq<nat>, finishM1: seq<nat>, startM2: seq<nat>, finishM2: seq<nat>, i: nat)
    requires ValidIndices(pt, order)
    requires IsSchedule(pt, order, startM1, finishM1, startM2, finishM2)
    requires i < |order|
    ensures startM1[i] == SumP1(pt, order[..i])
    ensures finishM1[i] == SumP1(pt, order[..i + 1])
    ensures startM2[i] == Max(Finish2(pt, order[..i]), SumP1(pt, order[..i + 1]))
    ensures finishM2[i] == Finish2(pt, order[..i + 1])
  {
    assert StepHolds(pt, order, startM1, finishM1, startM2, finishM2, i);
    assert order[..i + 1][..i] == order[..i];
    if i > 0 {
      ScheduleClosedForm(pt, order, startM1, finishM1, startM2, finishM2, i - 1);
      assert order[..i - 1 + 1] == order[..i];
    } else {
      assert order[..0] == [];
      assert SumP1(pt, order[..0]) == 0 && Finish2(pt, order[..0]) == 0;
    }
  }

  /** The recurrences fix the timing completely: one sequence has only one schedule. */
  lemma ScheduleDeterministic(pt: seq<Times>, order: seq<nat>,
      s1: seq<nat>, f1: seq<nat>, s2: seq<nat>, f2: seq<nat>,
      s1': seq<nat>, f1': seq<nat>, s2': seq<nat>, f2': seq<nat>)
    requires ValidIndices(pt, order)
    requires IsSchedule(pt, order, s1, f1, s2, f2)
    requires IsSchedule(pt, order, s1', f1', s2', f2')
    ensures s1 == s1' && f1 == f1' && s2 == s2' && f2 == f2'
  {
    forall i | 0 <= i < |order|
      ensures s1[i] == s1'[i] && f1[i] == f1'[i] && s2[i] == s2'[i] && f2[i] == f2'[i]
    {
      ScheduleClosedForm(pt, order, s1, f1, s2, f2, i);
      ScheduleClosedForm(pt, order, s1', f1', s2', f2', i);
    }
  }

  /**
    Machine 2 never starts a task before machine 1 has finished it, and never
    starts a task before it has finished an earlier one: its intervals do not
    overlap and its finish times never decrease.
   */
  lemma {:induction false} MachineTwoNoOverlap(pt: seq<Times>, order: seq<nat>,
      startM1: seq<nat>, finishM1: seq<nat>, startM2: seq<nat>, finishM2: seq<nat>, i: nat, j: nat)
    requires ValidIndices(pt, order)
    requires IsSchedule(pt, order, startM1, finishM1, startM2, finishM2)
    requires i < j < |order|
    ensures startM2[j] >= finishM1[j]
    ensures finishM2[i] <= startM2[j]
    ensures finishM2[i] <= finishM2[j]
  {
    assert StepHolds(pt, order, startM1, finishM1, startM2, finishM2, j);
    if j > i + 1 {
      MachineTwoNoOverlap(pt, order, startM1, finishM1, startM2, finishM2, i, j - 1);
    }
  }

  /** Machine 2 can finish a sequence no later than the total of all its times. */
  lemma {:induction false} Finish2AtMostTotal(pt: seq<Times>, order: seq<nat>)
    requires ValidIndices(pt, order)
    ensures Finish2(pt, order) <= SumP1(pt, order) + SumP2(pt, order)
  {
    if order != [] {
      Finish2AtMostTotal(pt, order[..|order| - 1]);
    }
  }
}
