/**
 * Operations on kernel maps that may fail. The operations on one map are numbered in the order they are
 * tried; `refused` holds the numbers of those that fail. A run is finite, so a finite set will do.
 */
module Faults {

  function Count(b: bool): (n: nat)
  {
    if b then 1 else 0
  }

  /** None of the operations numbered `lo` up to `hi` fails. */
  ghost predicate Clean(refused: set<nat>, lo: nat, hi: nat)
  {
    forall n: nat :: lo <= n < hi ==> n !in refused
  }

  lemma CleanStep(refused: set<nat>, lo: nat, hi: nat)
    requires lo <= hi
    ensures Clean(refused, lo, lo)
    ensures Clean(refused, lo, hi + 1) <==> Clean(refused, lo, hi) && hi !in refused
  {
  }

  lemma CleanJoin(refused: set<nat>, lo: nat, mid: nat, hi: nat)
    requires lo <= mid <= hi
    ensures Clean(refused, lo, hi) <==> Clean(refused, lo, mid) && Clean(refused, mid, hi)
  {
  }

  /** How many of the first `n` operations fail. */
  ghost function Failed(refused: set<nat>, n: nat): (c: nat)
  {
    if n == 0 then 0 else Failed(refused, n - 1) + Count(n - 1 in refused)
  }

  lemma {:induction false} FailedIs(refused: set<nat>, n: nat)
    ensures Failed(refused, n) == |set i: nat | i in refused && i < n|
  {
    var upTo := set i: nat | i in refused && i < n;
    if n == 0 {
      assert upTo == {};
    } else {
      FailedIs(refused, n - 1);
      var before := set i: nat | i in refused && i < n - 1;
      assert upTo == before + (if n - 1 in refused then {n - 1} else {});
    }
  }

  /** The number of failures stands still exactly while nothing fails. */
  lemma {:induction false} CleanMeansNoneFailed(refused: set<nat>, lo: nat, hi: nat)
    requires lo <= hi
    ensures Failed(refused, lo) <= Failed(refused, hi)
    ensures Clean(refused, lo, hi) <==> Failed(refused, lo) == Failed(refused, hi)
    decreases hi
  {
    if hi > lo {
      CleanMeansNoneFailed(refused, lo, hi - 1);
      CleanStep(refused, lo, hi - 1);
    }
  }
}
