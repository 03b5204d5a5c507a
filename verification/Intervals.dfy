/** The numbers from one to another, as a set. */
module Intervals {

  predicate Lies(i: nat, base: nat, limit: nat) {
    base <= i < limit
  }

  function Interval(base: nat, limit: nat): (s: set<nat>)
    ensures forall i: nat :: i in s <==> base <= i < limit
  {
    set i: nat | base <= i < limit && Lies(i, base, limit)
  }

  lemma {:induction false} IntervalCount(base: nat, limit: nat)
    requires base <= limit
    ensures |Interval(base, limit)| == limit - base
    decreases limit - base
  {
    if base < limit {
      IntervalCount(base, limit - 1);
      assert Interval(base, limit) == Interval(base, limit - 1) + {limit - 1};
    } else {
      assert Interval(base, limit) == {};
    }
  }

  lemma IntervalSize(s: set<nat>, base: nat, limit: nat)
    requires base <= limit && s !! Interval(base, limit)
    ensures |s + Interval(base, limit)| == |s| + limit - base
  {
    IntervalCount(base, limit);
  }

  lemma IntervalStep(s: set<nat>, base: nat, i: nat)
    requires base <= i
    ensures s + Interval(base, i + 1) == s + Interval(base, i) + {i}
  {
  }

  lemma UnionCount(s: set<nat>, t: set<nat>)
    ensures |s + t| == |s| + |t - s|
  {
    assert s + t == s + (t - s);
  }

  lemma SubsetSize(s: set<nat>, t: set<nat>)
    requires s <= t
    ensures |s| <= |t|
  {
    assert t == s + (t - s);
  }
}
