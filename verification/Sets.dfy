/** Sizes of sets of numbers. */
module Sets {
  /** The numbers below n. */
  function Below(n: nat): (r: set<nat>)
    ensures |r| == n && forall x: nat :: x in r <==> x < n
  {
    if n == 0 then {} else Below(n - 1) + {n - 1}
  }

  lemma SubsetAll(a: set<nat>, n: nat)
    requires forall x :: x in a ==> x < n
    ensures |a| <= n && (|a| == n ==> a == Below(n))
  {
    assert a <= Below(n);
    CardinalityLess(a, Below(n));
    if |a| == n { CardinalitySubset(a, Below(n)); }
  }

  lemma {:induction false} CardinalityLess(a: set<nat>, b: set<nat>)
    requires a <= b
    ensures |a| <= |b|
  {
    assert b == a + (b - a);
  }

  lemma CardinalitySubset(a: set<nat>, b: set<nat>)
    requires a <= b && |a| == |b|
    ensures a == b
  {
    assert b == a + (b - a);
    assert |b - a| == 0;
  }
}
