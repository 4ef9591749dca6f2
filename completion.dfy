/** Results gathered from a pool of submitted tasks in the order they complete
    (`as_completed`), an order the model takes as an arbitrary permutation. */
module Completion {
  import opened Wrappers

  /** The submission indices `0, 1, ..., n-1`. */
  function Indices(n: nat): (r: seq<int>)
    ensures |r| == n && forall i :: 0 <= i < n ==> r[i] == i
  {
    seq(n, i => i)
  }

  /** `order` lists every one of the `n` submitted tasks exactly once. */
  predicate IsCompletionOrder(order: seq<int>, n: nat)
  {
    multiset(order) == multiset(Indices(n))
  }

  /** What a loop over completed tasks appends: for each task index in completion
      order, its value when it produced one (`None`: it raised or produced
      nothing worth keeping); indices outside the pool are skipped. */
  function Completed<T>(outcome: int -> Option<T>, order: seq<int>): seq<T>
  {
    if order == [] then []
    else
      var prev := Completed(outcome, order[..|order| - 1]);
      match outcome(order[|order| - 1])
      case Some(v) => prev + [v]
      case None => prev
  }

  /** At most one value per completed task. */
  lemma {:induction false} CompletedLength<T>(outcome: int -> Option<T>, order: seq<int>)
    ensures |Completed(outcome, order)| <= |order|
  {
    if order != [] {
      CompletedLength(outcome, order[..|order| - 1]);
    }
  }

  /** A completion order of `n` tasks has length `n`. */
  lemma CompletionOrderLength(order: seq<int>, n: nat)
    requires IsCompletionOrder(order, n)
    ensures |order| == n
  {
    assert |multiset(order)| == |order|;
    assert |multiset(Indices(n))| == n;
  }

  /** Every gathered value is the value of some completed task. */
  lemma {:induction false} CompletedMembers<T>(outcome: int -> Option<T>, order: seq<int>)
    ensures forall k :: 0 <= k < |Completed(outcome, order)| ==>
      exists p :: 0 <= p < |order| && outcome(order[p]) == Some(Completed(outcome, order)[k])
  {
    if order != [] {
      var front := order[..|order| - 1];
      CompletedMembers(outcome, front);
      var c := Completed(outcome, order);
      var prev := Completed(outcome, front);
      forall k | 0 <= k < |c|
        ensures exists p :: 0 <= p < |order| && outcome(order[p]) == Some(c[k])
      {
        if k < |prev| {
          var p :| 0 <= p < |front| && outcome(front[p]) == Some(prev[k]);
          assert order[p] == front[p];
          assert c[k] == prev[k];
        } else {
          assert outcome(order[|order| - 1]) == Some(c[k]);
        }
      }
    } else {
      assert Completed(outcome, order) == [];
    }
  }

  /** A task listed in the completion order contributes its value. */
  lemma {:induction false} CompletedIncludes<T>(outcome: int -> Option<T>, order: seq<int>, p: int)
    requires 0 <= p < |order| && outcome(order[p]).Some?
    ensures outcome(order[p]).value in Completed(outcome, order)
  {
    var front := order[..|order| - 1];
    if p < |order| - 1 {
      assert order[p] == front[p];
      CompletedIncludes(outcome, front, p);
    }
  }

  /** Under a real completion order every task that produced a value is gathered:
      a failing task does not hide the others. */
  lemma CompletedComplete<T>(outcome: int -> Option<T>, order: seq<int>, n: nat, j: int)
    requires IsCompletionOrder(order, n)
    requires 0 <= j < n && outcome(j).Some?
    ensures outcome(j).value in Completed(outcome, order)
  {
    assert Indices(n)[j] == j;
    assert j in multiset(Indices(n));
    assert j in multiset(order);
    var p :| 0 <= p < |order| && order[p] == j;
    CompletedIncludes(outcome, order, p);
  }

  /** Hence nothing is gathered exactly when no task produced a value. */
  lemma CompletedEmptyIff<T>(outcome: int -> Option<T>, order: seq<int>, n: nat)
    requires IsCompletionOrder(order, n)
    requires forall i :: outcome(i).Some? ==> 0 <= i < n
    ensures Completed(outcome, order) == [] <==> forall j :: 0 <= j < n ==> outcome(j).None?
  {
    if Completed(outcome, order) == [] {
      forall j | 0 <= j < n
        ensures outcome(j).None?
      {
        if outcome(j).Some? {
          CompletedComplete(outcome, order, n, j);
        }
      }
    } else {
      CompletedMembers(outcome, order);
      var c := Completed(outcome, order);
      var p :| 0 <= p < |order| && outcome(order[p]) == Some(c[0]);
      assert 0 <= order[p] < n;
    }
  }
}
