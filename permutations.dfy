/**
 * Itineraries as sequences of site ids, and the counting facts the repair
 * loop of Main.checkArrayForIntegrity relies on. An itinerary of length n is
 * valid when it holds every id in [0, n) exactly once.
 */
module Permutations {

  /** Every entry is a site id below the itinerary's length. */
  predicate InRange(s: seq<int>) {
    forall i :: 0 <= i < |s| ==> 0 <= s[i] < |s|
  }

  /** The itinerary invariant: ids in range, each of 0..|s|-1 exactly once. */
  predicate IsPermutation(s: seq<int>) {
    InRange(s) && forall v :: 0 <= v < |s| ==> multiset(s)[v] == 1
  }

  /** No id of 0..|s|-1 occurs more than twice (what crossover of two permutations leaves). */
  predicate AtMostTwice(s: seq<int>) {
    forall v :: 0 <= v < |s| ==> multiset(s)[v] <= 2
  }

  /** The ids of 0..|s|-1 that do not occur in s. */
  function MissingSet(s: seq<int>): set<int> {
    set v | 0 <= v < |s| && multiset(s)[v] == 0
  }

  /** Number of ids in [0, k) that occur exactly c times in s. */
  function CountWith(s: seq<int>, k: nat, c: nat): (r: nat)
    ensures r <= k
  {
    if k == 0 then 0
    else CountWith(s, k - 1, c) + (if multiset(s)[k - 1] == c then 1 else 0)
  }

  /** Sum of the occurrence counts of the ids in [0, k). */
  function SumBelow(s: seq<int>, k: nat): nat {
    if k == 0 then 0 else SumBelow(s, k - 1) + multiset(s)[k - 1]
  }

  /** A set of ids drawn from [0, n) has at most n members. */
  lemma {:induction false} BoundedSetSize(a: set<int>, n: nat)
    requires forall v :: v in a ==> 0 <= v < n
    ensures |a| <= n
  {
    if n == 0 {
      assert forall v :: v !in a;
      assert a == {};
    } else {
      var rest := a - {n - 1};
      BoundedSetSize(rest, n - 1);
      if n - 1 in a {
        assert a == rest + {n - 1};
      } else {
        assert a == rest;
      }
    }
  }

  /** Appending one element adds one to the sum of counts exactly when it is below k. */
  lemma {:induction false} SumBelowSnoc(t: seq<int>, x: int, k: nat)
    ensures SumBelow(t + [x], k) == SumBelow(t, k) + (if 0 <= x < k then 1 else 0)
  {
    if k > 0 {
      SumBelowSnoc(t, x, k - 1);
      assert multiset(t + [x]) == multiset(t) + multiset{x};
    }
  }

  /** When every entry is below k, the counts of the ids below k add up to the length. */
  lemma {:induction false} SumBelowIsLength(s: seq<int>, k: nat)
    requires forall i :: 0 <= i < |s| ==> 0 <= s[i] < k
    ensures SumBelow(s, k) == |s|
  {
    if s == [] {
      SumBelowEmpty(k);
    } else {
      var t, x := s[..|s| - 1], s[|s| - 1];
      assert s == t + [x];
      SumBelowIsLength(t, k);
      SumBelowSnoc(t, x, k);
    }
  }

  lemma {:induction false} SumBelowEmpty(k: nat)
    ensures SumBelow([], k) == 0
  {
    if k > 0 {
      SumBelowEmpty(k - 1);
    }
  }

  /** With counts in {0, 1, 2}, ids split into three classes and the sum weighs them 0, 1 and 2. */
  lemma {:induction false} SumSplits(s: seq<int>, k: nat)
    requires forall v :: 0 <= v < k ==> multiset(s)[v] <= 2
    ensures k == CountWith(s, k, 0) + CountWith(s, k, 1) + CountWith(s, k, 2)
    ensures SumBelow(s, k) == CountWith(s, k, 1) + 2 * CountWith(s, k, 2)
  {
    if k > 0 {
      SumSplits(s, k - 1);
    }
  }

  lemma {:induction false} CountWithPositive(s: seq<int>, k: nat, c: nat)
    ensures CountWith(s, k, c) > 0 <==> exists v :: 0 <= v < k && multiset(s)[v] == c
  {
    if k > 0 {
      CountWithPositive(s, k - 1, c);
      if multiset(s)[k - 1] == c {
        assert 0 <= k - 1 < k && multiset(s)[k - 1] == c;
      }
    }
  }

  /**
   * When ids are in range and none occurs more than twice, there are exactly
   * as many missing ids as duplicated ones; in particular one kind exists iff
   * the other does, so the repair loop never finds a missing id without a
   * duplicate (or the reverse).
   */
  lemma {:induction false} MissingMatchesDuplicated(s: seq<int>)
    requires InRange(s) && AtMostTwice(s)
    ensures CountWith(s, |s|, 0) == CountWith(s, |s|, 2)
    ensures (exists v :: 0 <= v < |s| && multiset(s)[v] == 0) <==> (exists v :: 0 <= v < |s| && multiset(s)[v] == 2)
  {
    SumBelowIsLength(s, |s|);
    SumSplits(s, |s|);
    CountWithPositive(s, |s|, 0);
    CountWithPositive(s, |s|, 2);
  }
}
