# Johnson's rule for a two-machine flow shop

This project models the scheduling core of `flow.py`, a small web page that
sequences tasks on two machines by Johnson's rule (S. M. Johnson, 1954) and
reports the resulting schedule and its metrics. The model covers:

- **Sequencing** (`johnsons_rule`, module `Sequencer`). The working list
  repeatedly yields the remaining task whose smaller processing time is
  smallest; on a tie it yields the first such task in the list. A task whose
  machine-1 time is at most its machine-2 time is appended to the front part.
  Any other task is inserted at the head of the back part. The result is the
  front part followed by the back part. The method is proved to return the
  unique permutation of the task indices that is sorted by the strict order
  `Precedes`:
  - every front task comes before every back task;
  - front tasks ascend by machine-1 time;
  - back tasks descend by machine-2 time;
  - equal times are ordered by index.

  The working list keeps ascending index order through every removal. Hence
  "first in the remaining list" and "lowest index" coincide.
- **Simulation** (`calculate_schedule`, module `Schedule`). Machine 1 runs the
  tasks back to back. Machine 2 starts each task at the later of its own
  previous finish and machine 1's finish of that task. The method fills four
  fresh arrays. It is proved to satisfy these recurrences at every position,
  and machine 1's finish times are proved to be prefix sums. The recurrences
  have closed forms and determine the schedule uniquely. Machine 2's
  intervals never overlap.
- **Metrics** (`calculate_delays`, `calculate_metrics`, module `Metrics`).
  The makespan is machine 2's last finish time. Machine 1's delay is its idle
  time after its last task. Machine 2's delay is its wait before the first
  task plus every positive gap between tasks. The average delay is the mean
  of the two delay ratios, and utilization is its complement. On a simulated
  schedule:
  - each delay is the makespan minus that machine's total work;
  - the makespan lies between the classic lower bounds and the total work;
  - utilization is the total work over twice the makespan, between 1/2 and 1.
- **The compute pass** (module `Flow`). This covers validating the table,
  sequencing, simulating and computing the metrics. Failures come back as
  `Err` values. The module also holds the defects listed under Findings.
- **Worked examples** (module `Scenarios`). The page's default ten-task table
  yields the sequence T3 T1 T6 T5 T9 T4 T10 T7 T8 T2, makespan 56, delays 3
  and 2, and utilization 107/112. Examples with one task and with two tasks
  are pinned down too.

Processing times are integers after validation (`nat`). Ratios are exact
`real`s.

## Model

| member | source | states |
|---|---|---|
| Tasks.Validate | flow.py:110-116 | the table is accepted exactly when no time is negative; an accepted table keeps its length and every value |
| Tasks.Indices | flow.py:45 | the initial working list holds the indices 0..n-1, each at its own position |
| Tasks.IndicesCount | flow.py:45 | each index below n occurs exactly once in the initial list, and nothing else occurs |
| Sequencer.FirstMin | flow.py:49 | the returned position holds a task of smallest key min(p1, p2), and every earlier position has a strictly larger key: the first minimum, as `min` picks it |
| Sequencer.RemoveFirst | flow.py:54 | `list.remove` shortens the list by one and removes exactly one copy of the value |
| Sequencer.RemoveFirstAt | flow.py:54 | when position k holds the first occurrence of the value, removing it removes exactly position k |
| Sequencer.StepLeft | flow.py:50-51 | appending the selected task to the front part keeps the loop invariant: the parts stay sorted, separated, and selected before every remaining task |
| Sequencer.StepRight | flow.py:52-53 | inserting the selected task at the head of the back part keeps the same loop invariant |
| Sequencer.MoveKeepsTasks | flow.py:50-54 | moving the selected task from the working list to either part keeps the multiset of all tasks |
| Sequencer.JoinedIsJohnson | flow.py:55 | once the working list is empty, front part + back part is a permutation of the indices sorted by `Precedes` |
| Sequencer.JohnsonsRule | flow.py:44-55 | the result is a permutation of 0..n-1 sorted by `Precedes`; a front task never follows a back task; front tasks ascend by (p1, index); back tasks descend by (p2, index) |
| Sequencer.MultisetPermutation | flow.py:44-55 | a sequence with the multiset of 0..n-1 has length n, stays in range, contains every index and repeats none |
| Sequencer.PrecedenceShape | flow.py:50-55 | a sequence sorted by `Precedes` puts front tasks first, ascending by machine-1 time, and back tasks last, descending by machine-2 time |
| Sequencer.SortedUnique | flow.py:44-55 | two sequences with the same tasks, both sorted by `Precedes`, are equal |
| Sequencer.JohnsonOrderUnique | flow.py:44-55 | Johnson's rule has exactly one possible output for a given table: any two sequences meeting its contract are equal |
| Sequencer.SortedFromNeighbours | flow.py:44-55 | a sequence is sorted by `Precedes` as soon as every neighbouring pair is |
| Schedule.CalculateSchedule | flow.py:58-70 | four fresh arrays of the sequence's length satisfy the start/finish recurrences at every position; machine 1's finish is the prefix sum of machine-1 times |
| Schedule.ExtendDone | flow.py:64-69 | writing position i by the recurrences extends the finished prefix by one position |
| Schedule.ScheduleClosedForm | flow.py:64-69 | machine 1 starts position i at the sum of the earlier machine-1 times and finishes at the sum including it; machine 2 finishes at `Finish2` of the prefix |
| Schedule.ScheduleDeterministic | flow.py:64-69 | one sequence has only one schedule satisfying the recurrences |
| Schedule.MachineTwoNoOverlap | flow.py:68-69 | machine 2 starts a task only after machine 1 has finished it and after machine 2 has finished every earlier task; its finish times never decrease |
| Schedule.Finish2AtMostTotal | flow.py:68-69 | machine 2 finishes no later than the total of all processing times |
| Metrics.CalculateDelays | flow.py:73-80 | machine 1's delay is the makespan minus its last finish; machine 2's delay is its first start plus every positive gap between consecutive tasks |
| Metrics.DelayM2 | flow.py:75-79 | machine 2's delay is at least its wait before the first task |
| Metrics.Positive | flow.py:77-79 | a gap counts with its own value when positive and as zero otherwise |
| Metrics.CalculateMetrics | flow.py:82-87 | the makespan is the last machine-2 finish; the delays are those of `calculate_delays`; the average delay is the summed delay over twice the makespan; utilization plus average delay is 1 |
| Metrics.MeanOfRatios | flow.py:85 | the mean of the two delay ratios equals the summed delay over twice the makespan |
| Metrics.UtilizationFromWork | flow.py:85-86 | with each delay equal to the makespan minus that machine's work, utilization is the total work over twice the makespan, and the average delay is between 0 and 1/2 |
| Metrics.IdleGapsOfSchedule | flow.py:75-79 | on a simulated schedule, machine 2's wait plus its gaps plus its work on the first k tasks is its finish time at position k-1 |
| Metrics.DelaysOfSchedule | flow.py:73-80 | on a simulated schedule, machine 1's last finish is its total work, at most the makespan; machine 2's delay is the makespan minus its total work |
| Metrics.MakespanBounds | flow.py:83 | the makespan is at least all machine-1 work plus the last task's machine-2 time, and at least the first task's machine-1 time plus all machine-2 work; it is at most the total work, and it is zero exactly when the total work is zero |
| Metrics.MetricsOfSchedule | flow.py:82-87 | each reported delay is the makespan minus that machine's work; utilization is the total work over twice the makespan, between 1/2 and 1 |
| Flow.ZeroWorkIffAllZero | flow.py:83-85 | along a permutation of the tasks, the total work is zero exactly when every row is (0, 0) |
| Flow.Calculate | flow.py:112-124 | a negative time, an empty table and an all-zero table each yield their own error, each exactly when it applies; otherwise the report holds the Johnson sequence, its schedule and its metrics, with utilization between 1/2 and 1 |
| Flow.GuardAdmitsZeroMakespan | flow.py:114-124 | the guard admits the five-task zero table, and its schedule ends at time 0, which is the divisor of both delay ratios |
| Flow.GuardAdmitsEmptyTable | flow.py:114-124 | the guard admits a table with no rows, whose sequence and machine-2 finish times are empty |
| Scenarios.ValidateKeeps | flow.py:114 | validation passes a non-negative table through unchanged |
| Scenarios.DefaultOrderIsPermutation | flow.py:13-14 | T3 T1 T6 T5 T9 T4 T10 T7 T8 T2 lists each of the ten default tasks exactly once |
| Scenarios.DefaultOrderIsJohnson | flow.py:13-14 | T3 T1 T6 T5 T9 T4 T10 T7 T8 T2 meets the contract of Johnson's rule on the default table |
| Scenarios.DefaultMetrics | flow.py:82-87 | the default schedule's metrics are makespan 56, delays 3 and 2, average delay 5/112 and utilization 107/112 |
| Scenarios.DefaultReport | flow.py:112-124 | any report on the default table that meets the contract of the compute pass is the listed sequence, timing arrays and metrics |
| Scenarios.DefaultRun | flow.py:13-14 | on the default table, the compute pass reports that sequence, its four timing arrays, makespan 56, delays 3 and 2, average delay 5/112 and utilization 107/112 |
| Scenarios.SingleTaskRun | flow.py:112-124 | a single task (5, 3) runs 0-5 on machine 1 and 5-8 on machine 2, with makespan 8, delays 3 and 5, and average delay and utilization both one half |
| Scenarios.TwoTaskOrder | flow.py:44-55 | tasks (4, 2) and (1, 3) are sequenced as [1, 0] |

## Left out

- The page itself is not modelled. This covers the title, the task-count input, the choice of the default table (flow.py:5-41), the button and the formatted output (flow.py:126-134). The default table appears only as data in `Scenarios`.
- `plot_gantt` (flow.py:90-107) draws a chart and computes nothing.
- The data editor's DataFrame is modelled as a sequence of integer pairs. The model does not cover empty cells, which pandas reads as NaN, or non-integer entries.
- Floating point is not modelled. The ratios are exact reals, so the model has no rounding.
- Flow.Calculate: the page shows NaN metrics for a zero makespan, and the model returns `Err(ZeroMakespan)` instead. See Findings.
- Flow.Calculate: the page raises `IndexError` at `finish_m2[-1]` for an empty table, and the model returns `Err(NoTasks)` instead. See Findings.
- Metrics.CalculateMetrics: requires a positive makespan, because a delay ratio is undefined at zero. `Flow.Calculate` decides that case before calling it.
- Sequencer.JohnsonsRule: the working list holds task indices rather than (index, times) pairs; the times are looked up by index. Indices are distinct, so removing the pair and removing the index are the same step.
- The model does not prove Johnson's theorem that this sequence minimises the makespan over all permutations. The model proves what the sequence is, that it is unique, and bounds on its makespan.

## Findings

| source | as written | input that shows it | evidently intended | confidence | as-written member | corrected member |
|---|---|---|---|---|---|---|
| flow.py:114-124 | only negative times are rejected, so an all-zero table reaches `calculate_metrics`, which divides 0 by a zero makespan and shows NaN as the average delay and utilization | the table the page itself offers for any task count other than 10, e.g. five rows of (0, 0) | report that there is nothing to schedule instead of NaN metrics | not executed; medium (numpy's 0/0 gives NaN, a plain Python int would raise) | Flow.GuardAdmitsZeroMakespan | Flow.Calculate |
| flow.py:114-124 | a table whose rows have all been deleted in the editor passes the guard, and `finish_m2[-1]` then has no element | a table with no rows | report that there are no tasks instead of raising `IndexError` | not executed; medium (depends on the editor letting every row be deleted) | Flow.GuardAdmitsEmptyTable | Flow.Calculate |
