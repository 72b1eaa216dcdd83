/**
  Tasks of a two-machine flow shop: each task is known by its zero-based
  position in the input table and carries two processing times, one for
  machine 1 and one for machine 2.
 */
module Tasks {

  /** Processing times of one task: (machine 1, machine 2). */
  type Times = (nat, nat)

  datatype Option<T> = None | Some(value: T)

  /** The page's validation: no row has a negative processing time. */
  predicate NonNegative(rows: seq<(int, int)>) {
    forall i :: 0 <= i < |rows| ==> rows[i].0 >= 0 && rows[i].1 >= 0
  }

  /** Accepts the table only when every time is non-negative, keeping every value. */
  function Validate(rows: seq<(int, int)>): (r: Option<seq<Times>>)
    ensures r.Some? <==> NonNegative(rows)
    ensures r.Some? ==> |r.value| == |rows|
    ensures r.Some? ==> forall i :: 0 <= i < |rows| ==> r.value[i].0 == rows[i].0 && r.value[i].1 == rows[i].1
  {
    if NonNegative(rows) then
      Some(seq(|rows|, i requires 0 <= i < |rows| => (rows[i].0 as nat, rows[i].1 as nat)))
    else
      None
  }

  /** The indices 0, 1, ..., n-1 in ascending order, as `enumerate` yields them. */
  function Indices(n: nat): (s: seq<nat>)
    ensures |s| == n
    ensures forall i :: 0 <= i < n ==> s[i] == i
  {
    if n == 0 then [] else Indices(n - 1) + [n - 1]
  }

  /** Every index of `order` names a task of `pt`. */
  predicate ValidIndices(pt: seq<Times>, order: seq<nat>) {
    forall k :: 0 <= k < |order| ==> order[k] < |pt|
  }

  /** Total machine-1 time of the tasks in `order`. */
  function SumP1(pt: seq<Times>, order: seq<nat>): nat
    requires ValidIndices(pt, order)
  {
    if order == [] then 0 else SumP1(pt, order[..|order| - 1]) + pt[order[|order| - 1]].0
  }

  /** Total machine-2 time of the tasks in `order`. */
  function SumP2(pt: seq<Times>, order: seq<nat>): nat
    requires ValidIndices(pt, order)
  {
    if order == [] then 0 else SumP2(pt, order[..|order| - 1]) + pt[order[|order| - 1]].1
  }

  /** Appending x adds one to the count of x and leaves every other count alone. */
  lemma CountAppend(s: seq<nat>, x: nat, v: nat)
    ensures multiset(s + [x])[v] == multiset(s)[v] + (if v == x then 1 else 0)
  {
    assert multiset(s + [x]) == multiset(s) + multiset{x};
  }

  /** Each index below n occurs in `Indices(n)` once, and no other value occurs. */
  lemma {:induction false} IndicesCount(n: nat, v: nat)
    ensures multiset(Indices(n))[v] == if v < n then 1 else 0
  {
    if n > 0 {
      var last: nat := n - 1;
      IndicesCount(last, v);
      assert Indices(n) == Indices(last) + [last];
      CountAppend(Indices(last), last, v);
    }
  }

  /** A sum of machine-1 times is zero exactly when every task in it has zero machine-1 time. */
  lemma {:induction false} SumP1Zero(pt: seq<Times>, order: seq<nat>)
    requires ValidIndices(pt, order)
    ensures SumP1(pt, order) == 0 <==> forall k :: 0 <= k < |order| ==> pt[order[k]].0 == 0
  {
    if order != [] {
      var init := order[..|order| - 1];
      SumP1Zero(pt, init);
      assert forall k :: 0 <= k < |init| ==> init[k] == order[k];
    }
  }

  /** A sum of machine-2 times is zero exactly when every task in it has zero machine-2 time. */
  lemma {:induction false} SumP2Zero(pt: seq<Times>, order: seq<nat>)
    requires ValidIndices(pt, order)
    ensures SumP2(pt, order) == 0 <==> forall k :: 0 <= k < |order| ==> pt[order[k]].1 == 0
  {
    if order != [] {
      var init := order[..|order| - 1];
      SumP2Zero(pt, init);
      assert forall k :: 0 <= k < |init| ==> init[k] == order[k];
    }
  }
}
