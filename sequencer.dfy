/**
  Johnson's rule (S. M. Johnson, 1954) for a two-machine flow shop.

  The sequencer repeatedly takes the remaining task whose smaller processing
  time is smallest (the first such task in the remaining list on a tie). A
  task whose machine-1 time is at most its machine-2 time goes to the end of
  the front part; any other task goes to the front of the back part. The
  result is the front part followed by the back part.
 */
module Sequencer {
  import opened Tasks

  /** The selection key of task i: its smaller processing time. */
  function Key(pt: seq<Times>, i: nat): nat
    requires i < |pt|
  {
    if pt[i].0 <= pt[i].1 then pt[i].0 else pt[i].1
  }

  /** Task i belongs to the front part: its machine-1 time is not larger (ties go here). */
  predicate OnLeft(pt: seq<Times>, i: nat)
    requires i < |pt|
  {
    pt[i].0 <= pt[i].1
  }

  /** Lexicographic order on (time, index) pairs. */
  predicate Lex(x: nat, i: nat, y: nat, j: nat) {
    x < y || (x == y && i < j)
  }

  /** Task a is selected before task b: smaller key, or equal key and lower index. */
  predicate Earlier(pt: seq<Times>, a: nat, b: nat)
    requires a < |pt| && b < |pt|
  {
    Lex(Key(pt, a), a, Key(pt, b), b)
  }

  /**
    Where task a stands relative to task b in a Johnson sequence: every front
    task comes before every back task; front tasks ascend by machine-1 time,
    back tasks descend by machine-2 time, and equal times are ordered by index
    (ascending in front, descending at the back).
   */
  predicate Precedes(pt: seq<Times>, a: nat, b: nat)
    requires a < |pt| && b < |pt|
  {
    if OnLeft(pt, a) then !OnLeft(pt, b) || Lex(pt[a].0, a, pt[b].0, b)
    else !OnLeft(pt, b) && Lex(pt[b].1, b, pt[a].1, a)
  }

  /**
    `order` lists each of the indices 0..n-1 exactly once: it has length n,
    every entry is below n, every index below n occurs, and no entry repeats.
   */
  predicate IsPermutation(order: seq<nat>, n: nat) {
    && |order| == n
    && (forall k :: 0 <= k < |order| ==> order[k] < n)
    && (forall i: nat :: i < n ==> i in order)
    && (forall j, k :: 0 <= j < k < |order| ==> order[j] != order[k])
  }

  /** `order` is sorted strictly by `Precedes`. */
  predicate SortedByPrecedence(pt: seq<Times>, order: seq<nat>)
    requires ValidIndices(pt, order)
  {
    forall j, k :: 0 <= j < k < |order| ==> Precedes(pt, order[j], order[k])
  }

  /** What Johnson's rule produces: a permutation of the task indices, sorted by `Precedes`. */
  predicate JohnsonOrder(pt: seq<Times>, order: seq<nat>) {
    ValidIndices(pt, order) && IsPermutation(order, |pt|) && SortedByPrecedence(pt, order)
  }

  /** A value found at two positions is counted at least twice. */
  lemma CountTwice(s: seq<nat>, j: nat, k: nat)
    requires j < k < |s|
    ensures s[j] == s[k] ==> multiset(s)[s[j]] >= 2
  {
    if s[j] == s[k] {
      assert s == s[..j] + [s[j]] + s[j + 1..k] + [s[k]] + s[k + 1..];
    }
  }

  /** A sequence with the same multiset as 0..n-1 is a permutation of 0..n-1. */
  lemma MultisetPermutation(order: seq<nat>, n: nat)
    requires multiset(order) == multiset(Indices(n))
    ensures IsPermutation(order, n)
  {
    assert |multiset(order)| == |order|;
    assert |multiset(Indices(n))| == n;
    forall j, k | 0 <= j < k < |order| ensures order[j] != order[k] {
      CountTwice(order, j, k);
      IndicesCount(n, order[j]);
    }
    forall i: nat | i < n ensures i in order {
      IndicesCount(n, i);
      assert i in multiset(order);
    }
    forall k | 0 <= k < |order| ensures order[k] < n {
      IndicesCount(n, order[k]);
    }
  }

  /** `Precedes` is a strict order: never both ways. */
  lemma PrecedesAsymmetric(pt: seq<Times>, a: nat, b: nat)
    requires a < |pt| && b < |pt|
    ensures !(Precedes(pt, a, b) && Precedes(pt, b, a))
  {
  }

  /** `Precedes` is transitive. */
  lemma PrecedesTransitive(pt: seq<Times>, a: nat, b: nat, c: nat)
    requires a < |pt| && b < |pt| && c < |pt|
    requires Precedes(pt, a, b) && Precedes(pt, b, c)
    ensures Precedes(pt, a, c)
  {
  }

  /** In a sequence whose neighbours are in `Precedes` order, so is any earlier and later pair. */
  lemma {:induction false} PrecedesAlongChain(pt: seq<Times>, s: seq<nat>, j: nat, k: nat)
    requires ValidIndices(pt, s)
    requires forall i :: 0 <= i < |s| - 1 ==> Precedes(pt, s[i], s[i + 1])
    requires j < k < |s|
    ensures Precedes(pt, s[j], s[k])
  {
    if j + 1 < k {
      PrecedesAlongChain(pt, s, j, k - 1);
      PrecedesTransitive(pt, s[j], s[k - 1], s[k]);
    }
  }

  /** Checking neighbours suffices for a sequence to be sorted by `Precedes`. */
  lemma SortedFromNeighbours(pt: seq<Times>, s: seq<nat>)
    requires ValidIndices(pt, s)
    requires forall i :: 0 <= i < |s| - 1 ==> Precedes(pt, s[i], s[i + 1])
    ensures SortedByPrecedence(pt, s)
  {
    forall j, k | 0 <= j < k < |s| ensures Precedes(pt, s[j], s[k]) {
      PrecedesAlongChain(pt, s, j, k);
    }
  }

  /** In a sorted sequence the tail holds exactly the tasks other than the head. */
  lemma TailMembers(pt: seq<Times>, s: seq<nat>)
    requires ValidIndices(pt, s) && s != [] && SortedByPrecedence(pt, s)
    ensures forall x :: x in s[1..] <==> x in s && x != s[0]
  {
    forall x | x in s[1..] ensures x in s && x != s[0] {
      var k :| 0 <= k < |s| - 1 && s[1..][k] == x;
      assert Precedes(pt, s[0], s[k + 1]);
      PrecedesAsymmetric(pt, s[0], s[k + 1]);
    }
    forall x | x in s && x != s[0] ensures x in s[1..] {
      var k :| 0 <= k < |s| && s[k] == x;
      assert s[1..][k - 1] == x;
    }
  }

  /** Two sorted sequences holding the same tasks start with the same task. */
  lemma SameHead(pt: seq<Times>, s: seq<nat>, t: seq<nat>)
    requires ValidIndices(pt, s) && ValidIndices(pt, t) && s != [] && t != []
    requires forall x :: x in s <==> x in t
    requires SortedByPrecedence(pt, s) && SortedByPrecedence(pt, t)
    ensures s[0] == t[0]
  {
    assert s[0] in t;
    var k :| 0 <= k < |t| && t[k] == s[0];
    assert t[0] in s;
    var j :| 0 <= j < |s| && s[j] == t[0];
    if s[0] != t[0] {
      assert Precedes(pt, t[0], s[0]);
      assert Precedes(pt, s[0], t[0]);
      PrecedesAsymmetric(pt, s[0], t[0]);
      assert false;
    }
  }

  /** Two sequences holding the same tasks, both sorted by `Precedes`, are equal. */
  lemma {:induction false} SortedUnique(pt: seq<Times>, s: seq<nat>, t: seq<nat>)
    requires ValidIndices(pt, s) && ValidIndices(pt, t)
    requires forall x :: x in s <==> x in t
    requires SortedByPrecedence(pt, s) && SortedByPrecedence(pt, t)
    ensures s == t
  {
    if s != [] {
      assert s[0] in t;
    }
    if t != [] {
      assert t[0] in s;
    }
    if s != [] {
      SameHead(pt, s, t);
      TailMembers(pt, s);
      TailMembers(pt, t);
      SortedUnique(pt, s[1..], t[1..]);
      assert s == [s[0]] + s[1..] && t == [t[0]] + t[1..];
    }
  }

  /** Johnson's rule has exactly one possible result: its contract fixes the sequence. */
  lemma JohnsonOrderUnique(pt: seq<Times>, s: seq<nat>, t: seq<nat>)
    requires JohnsonOrder(pt, s) && JohnsonOrder(pt, t)
    ensures s == t
  {
    forall x | x in s ensures x in t {
      var k :| 0 <= k < |s| && s[k] == x;
    }
    forall x | x in t ensures x in s {
      var k :| 0 <= k < |t| && t[k] == x;
    }
    SortedUnique(pt, s, t);
  }

  /**
    Position of the first remaining task with the smallest key, as Python's
    `min(tasks, key=...)` picks it: it replaces its candidate only on a
    strictly smaller key.
   */
  method FirstMin(pt: seq<Times>, tasks: seq<nat>) returns (k: nat)
    requires |tasks| > 0
    requires ValidIndices(pt, tasks)
    ensures k < |tasks|
    ensures forall j :: 0 <= j < |tasks| ==> Key(pt, tasks[k]) <= Key(pt, tasks[j])
    ensures forall j :: 0 <= j < k ==> Key(pt, tasks[k]) < Key(pt, tasks[j])
  {
    k := 0;
    var i := 1;
    while i < |tasks|
      invariant 1 <= i <= |tasks| && k < i
      invariant forall j :: 0 <= j < i ==> Key(pt, tasks[k]) <= Key(pt, tasks[j])
      invariant forall j :: 0 <= j < k ==> Key(pt, tasks[k]) < Key(pt, tasks[j])
    {
      if Key(pt, tasks[i]) < Key(pt, tasks[k]) {
        k := i;
      }
      i := i + 1;
    }
  }

  /** Python's `list.remove(x)`: drops the first occurrence of x. */
  function RemoveFirst(s: seq<nat>, x: nat): (r: seq<nat>)
    requires x in s
    ensures |r| == |s| - 1
    ensures multiset(r) == multiset(s) - multiset{x}
  {
    assert s == [s[0]] + s[1..];
    if s[0] == x then s[1..] else [s[0]] + RemoveFirst(s[1..], x)
  }

  /** Dropping position k of a non-empty list is keeping its head and dropping position k-1 of its tail. */
  lemma DropConsAt(s: seq<nat>, k: nat)
    requires 0 < k < |s|
    ensures [s[0]] + (s[1..][..k - 1] + s[1..][k..]) == s[..k] + s[k + 1..]
  {
    assert [s[0]] + s[1..][..k - 1] == s[..k];
    assert s[1..][k..] == s[k + 1..];
  }

  /** When position k holds the first occurrence of x, removing x removes position k. */
  lemma {:induction false} RemoveFirstAt(s: seq<nat>, x: nat, k: nat)
    requires k < |s| && s[k] == x
    requires forall j :: 0 <= j < k ==> s[j] != x
    ensures RemoveFirst(s, x) == s[..k] + s[k + 1..]
  {
    if k > 0 {
      var tail := s[1..];
      assert tail[k - 1] == x;
      RemoveFirstAt(tail, x, k - 1);
      assert RemoveFirst(s, x) == [s[0]] + RemoveFirst(tail, x);
      DropConsAt(s, k);
    }
  }

  /** The remaining list keeps the input's ascending index order. */
  predicate Ascending(s: seq<nat>) {
    forall j, k :: 0 <= j < k < |s| ==> s[j] < s[k]
  }

  /** Every task of `done` was selected before every task of `rest`. */
  predicate AllEarlier(pt: seq<Times>, done: seq<nat>, rest: seq<nat>)
    requires ValidIndices(pt, done) && ValidIndices(pt, rest)
  {
    forall j, t :: 0 <= j < |done| && 0 <= t < |rest| ==> Earlier(pt, done[j], rest[t])
  }

  /** Position k holds the first task of smallest key, as `FirstMin` returns it. */
  predicate IsFirstMin(pt: seq<Times>, tasks: seq<nat>, k: nat)
    requires ValidIndices(pt, tasks)
  {
    k < |tasks|
    && (forall j :: 0 <= j < |tasks| ==> Key(pt, tasks[k]) <= Key(pt, tasks[j]))
    && (forall j :: 0 <= j < k ==> Key(pt, tasks[k]) < Key(pt, tasks[j]))
  }

  /** The loop invariant of `JohnsonsRule`, apart from the count of tasks. */
  predicate Placed(pt: seq<Times>, left: seq<nat>, right: seq<nat>, tasks: seq<nat>)
    requires ValidIndices(pt, left) && ValidIndices(pt, right) && ValidIndices(pt, tasks)
  {
    && Ascending(tasks)
    && (forall j :: 0 <= j < |left| ==> OnLeft(pt, left[j]))
    && (forall j :: 0 <= j < |right| ==> !OnLeft(pt, right[j]))
    && SortedByPrecedence(pt, left) && SortedByPrecedence(pt, right)
    && AllEarlier(pt, left, tasks) && AllEarlier(pt, right, tasks)
  }

  /**
    Taking the first task of smallest key out of an ascending list leaves an
    ascending list, every task of which the taken one is selected before.
   */
  lemma RemoveSelected(pt: seq<Times>, tasks: seq<nat>, k: nat)
    requires ValidIndices(pt, tasks) && Ascending(tasks) && IsFirstMin(pt, tasks, k)
    ensures ValidIndices(pt, tasks[..k] + tasks[k + 1..])
    ensures Ascending(tasks[..k] + tasks[k + 1..])
    ensures AllEarlier(pt, [tasks[k]], tasks[..k] + tasks[k + 1..])
  {
  }

  /** A task done before all of `tasks` is done before all of what remains once one is removed. */
  lemma EarlierAfterRemove(pt: seq<Times>, done: seq<nat>, tasks: seq<nat>, k: nat)
    requires ValidIndices(pt, done) && ValidIndices(pt, tasks) && k < |tasks|
    requires AllEarlier(pt, done, tasks)
    ensures ValidIndices(pt, tasks[..k] + tasks[k + 1..])
    ensures AllEarlier(pt, done, tasks[..k] + tasks[k + 1..])
  {
    var rest := tasks[..k] + tasks[k + 1..];
    assert forall t :: 0 <= t < |rest| ==> rest[t] == tasks[if t < k then t else t + 1];
  }

  /** Moving the task at position k of `tasks` to either part keeps the multiset of all tasks. */
  lemma MoveKeepsTasks(left: seq<nat>, right: seq<nat>, tasks: seq<nat>, k: nat)
    requires k < |tasks|
    ensures multiset(left + [tasks[k]]) + multiset(right) + multiset(tasks[..k] + tasks[k + 1..])
         == multiset(left) + multiset(right) + multiset(tasks)
    ensures multiset(left) + multiset([tasks[k]] + right) + multiset(tasks[..k] + tasks[k + 1..])
         == multiset(left) + multiset(right) + multiset(tasks)
  {
    assert tasks == tasks[..k] + [tasks[k]] + tasks[k + 1..];
  }

  /** One round that appends the selected task to the front part keeps the invariant. */
  lemma StepLeft(pt: seq<Times>, left: seq<nat>, right: seq<nat>, tasks: seq<nat>, k: nat)
    requires ValidIndices(pt, left) && ValidIndices(pt, right) && ValidIndices(pt, tasks)
    requires Placed(pt, left, right, tasks) && IsFirstMin(pt, tasks, k) && OnLeft(pt, tasks[k])
    ensures ValidIndices(pt, left + [tasks[k]]) && ValidIndices(pt, tasks[..k] + tasks[k + 1..])
    ensures Placed(pt, left + [tasks[k]], right, tasks[..k] + tasks[k + 1..])
  {
    var idx, rest, left' := tasks[k], tasks[..k] + tasks[k + 1..], left + [tasks[k]];
    RemoveSelected(pt, tasks, k);
    EarlierAfterRemove(pt, left, tasks, k);
    EarlierAfterRemove(pt, right, tasks, k);
    assert forall j :: 0 <= j < |left| ==> Earlier(pt, left[j], idx);
    assert SortedByPrecedence(pt, left') by {
      forall j, i | 0 <= j < i < |left'| ensures Precedes(pt, left'[j], left'[i]) {
        if i < |left| {
          assert left'[j] == left[j] && left'[i] == left[i];
        } else {
          assert left'[j] == left[j] && left'[i] == idx;
        }
      }
    }
    assert AllEarlier(pt, left', rest) by {
      forall j, t | 0 <= j < |left'| && 0 <= t < |rest| ensures Earlier(pt, left'[j], rest[t]) {
        if j < |left| {
          assert left'[j] == left[j];
        } else {
          assert left'[j] == [idx][0];
        }
      }
    }
  }

  /** One round that puts the selected task at the front of the back part keeps the invariant. */
  lemma StepRight(pt: seq<Times>, left: seq<nat>, right: seq<nat>, tasks: seq<nat>, k: nat)
    requires ValidIndices(pt, left) && ValidIndices(pt, right) && ValidIndices(pt, tasks)
    requires Placed(pt, left, right, tasks) && IsFirstMin(pt, tasks, k) && !OnLeft(pt, tasks[k])
    ensures ValidIndices(pt, [tasks[k]] + right) && ValidIndices(pt, tasks[..k] + tasks[k + 1..])
    ensures Placed(pt, left, [tasks[k]] + right, tasks[..k] + tasks[k + 1..])
  {
    var idx, rest, right' := tasks[k], tasks[..k] + tasks[k + 1..], [tasks[k]] + right;
    RemoveSelected(pt, tasks, k);
    EarlierAfterRemove(pt, left, tasks, k);
    EarlierAfterRemove(pt, right, tasks, k);
    assert forall j :: 0 <= j < |right| ==> Earlier(pt, right[j], idx);
    assert SortedByPrecedence(pt, right') by {
      forall j, i | 0 <= j < i < |right'| ensures Precedes(pt, right'[j], right'[i]) {
        if j == 0 {
          assert right'[j] == idx && right'[i] == right[i - 1];
        } else {
          assert right'[j] == right[j - 1] && right'[i] == right[i - 1];
        }
      }
    }
    assert AllEarlier(pt, right', rest) by {
      forall j, t | 0 <= j < |right'| && 0 <= t < |rest| ensures Earlier(pt, right'[j], rest[t]) {
        if j == 0 {
          assert right'[j] == [idx][0];
        } else {
          assert right'[j] == right[j - 1];
        }
      }
    }
  }

  /** A front part followed by a back part, each sorted, is sorted as a whole. */
  lemma JoinSorted(pt: seq<Times>, left: seq<nat>, right: seq<nat>)
    requires ValidIndices(pt, left) && ValidIndices(pt, right)
    requires forall j :: 0 <= j < |left| ==> OnLeft(pt, left[j])
    requires forall j :: 0 <= j < |right| ==> !OnLeft(pt, right[j])
    requires SortedByPrecedence(pt, left) && SortedByPrecedence(pt, right)
    ensures ValidIndices(pt, left + right) && SortedByPrecedence(pt, left + right)
  {
    var order := left + right;
    forall j, k | 0 <= j < k < |order| ensures Precedes(pt, order[j], order[k]) {
      if k < |left| {
        assert order[j] == left[j] && order[k] == left[k];
      } else if j >= |left| {
        assert order[j] == right[j - |left|] && order[k] == right[k - |left|];
      } else {
        assert order[j] == left[j] && order[k] == right[k - |left|];
      }
    }
  }

  /**
    What sorting by `Precedes` means for the two parts: a task kept at the
    front never follows one sent to the back, front tasks ascend by machine-1
    time and back tasks descend by machine-2 time, ties going to the lower
    index.
   */
  lemma PrecedenceShape(pt: seq<Times>, order: seq<nat>)
    requires ValidIndices(pt, order) && SortedByPrecedence(pt, order)
    ensures forall j, k :: 0 <= j < k < |order| && OnLeft(pt, order[k]) ==> OnLeft(pt, order[j])
    ensures forall j, k :: 0 <= j < k < |order| && OnLeft(pt, order[k]) ==>
      Lex(pt[order[j]].0, order[j], pt[order[k]].0, order[k])
    ensures forall j, k :: 0 <= j < k < |order| && !OnLeft(pt, order[j]) ==>
      !OnLeft(pt, order[k]) && Lex(pt[order[k]].1, order[k], pt[order[j]].1, order[j])
  {
    forall j, k | 0 <= j < k < |order| ensures Precedes(pt, order[j], order[k]) {
    }
  }

  /** Once no task remains, the front part followed by the back part is Johnson's sequence. */
  lemma JoinedIsJohnson(pt: seq<Times>, left: seq<nat>, right: seq<nat>)
    requires ValidIndices(pt, left) && ValidIndices(pt, right) && Placed(pt, left, right, [])
    requires multiset(left) + multiset(right) == multiset(Indices(|pt|))
    ensures JohnsonOrder(pt, left + right)
  {
    JoinSorted(pt, left, right);
    MultisetPermutation(left + right, |pt|);
  }

  /**
    `johnsons_rule`: the working list `tasks` starts as every index in
    ascending order; each round removes the selected task from it, appends it
    to `left` or inserts it at the front of `right`.
   */
  method JohnsonsRule(pt: seq<Times>) returns (order: seq<nat>)
    ensures JohnsonOrder(pt, order)
    ensures |order| == |pt|
    ensures forall j, k :: 0 <= j < k < |order| && OnLeft(pt, order[k]) ==> OnLeft(pt, order[j])
    ensures forall j, k :: 0 <= j < k < |order| && OnLeft(pt, order[k]) ==>
      Lex(pt[order[j]].0, order[j], pt[order[k]].0, order[k])
    ensures forall j, k :: 0 <= j < k < |order| && !OnLeft(pt, order[j]) ==>
      !OnLeft(pt, order[k]) && Lex(pt[order[k]].1, order[k], pt[order[j]].1, order[j])
  {
    var tasks := Indices(|pt|);
    var left: seq<nat> := [];
    var right: seq<nat> := [];
    while tasks != []
      invariant ValidIndices(pt, tasks) && ValidIndices(pt, left) && ValidIndices(pt, right)
      invariant Placed(pt, left, right, tasks)
      invariant multiset(left) + multiset(right) + multiset(tasks) == multiset(Indices(|pt|))
      decreases |tasks|
    {
      var k := FirstMin(pt, tasks);
      var idx := tasks[k];
      RemoveFirstAt(tasks, idx, k);
      MoveKeepsTasks(left, right, tasks, k);
      if pt[idx].0 <= pt[idx].1 {
        StepLeft(pt, left, right, tasks, k);
        left := left + [idx];
      } else {
        StepRight(pt, left, right, tasks, k);
        right := [idx] + right;
      }
      tasks := RemoveFirst(tasks, idx);
    }
    assert multiset(tasks) == multiset{};
    JoinedIsJohnson(pt, left, right);
    order := left + right;
    PrecedenceShape(pt, order);
  }
}
