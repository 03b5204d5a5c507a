/** Searching a bit table for a run of reset bits, skipping whatever cannot start or end one. */
module BitSearches {
  import opened BitTables
  import opened Intervals

  function Min(a: int, b: int): int {
    if a < b then a else b
  }

  function Max(a: int, b: int): int {
    if a < b then b else a
  }

  ghost function Bits(t: BT): (bits: seq<bool>)
    reads t
    ensures |bits| == t.Length * WORD_WIDTH
    ensures forall i | 0 <= i < |bits| :: bits[i] == Get(t, i)
  {
    seq(t.Length * WORD_WIDTH, i requires 0 <= i < t.Length * WORD_WIDTH reads t => Get(t, i))
  }

  ghost predicate ResRun(bits: seq<bool>, base: int, limit: int) {
    0 <= base <= limit <= |bits| && forall i | base <= i < limit :: !bits[i]
  }

  /** A run of reset bits of a given length starts, or ends, at a bit. */
  ghost predicate RunFrom(bits: seq<bool>, base: int, length: int) {
    ResRun(bits, base, base + length)
  }

  ghost predicate RunTo(bits: seq<bool>, limit: int, length: int) {
    ResRun(bits, limit - length, limit)
  }

  /** The answer to a search from the bottom up: the lowest run of minLength, extended up to maxLength or
      the end of the search or a set bit. */
  ghost predicate LowRange(bits: seq<bool>, searchBase: int, searchLimit: int, minLength: int, maxLength: int,
      base: int, limit: int)
  {
    && 0 <= searchBase <= base && base + minLength <= limit <= Min(base + maxLength, searchLimit)
    && searchLimit <= |bits| && ResRun(bits, base, limit)
    && (forall b | searchBase <= b < base :: !RunFrom(bits, b, minLength))
    && (limit < Min(base + maxLength, searchLimit) ==> bits[limit])
  }

  /** The answer to a search from the top down. */
  ghost predicate HighRange(bits: seq<bool>, searchBase: int, searchLimit: int, minLength: int, maxLength: int,
      base: int, limit: int)
  {
    && limit <= searchLimit <= |bits| && Max(limit - maxLength, searchBase) <= base <= limit - minLength
    && 0 <= searchBase && ResRun(bits, base, limit)
    && (forall l | limit < l <= searchLimit :: !RunTo(bits, l, minLength))
    && (Max(limit - maxLength, searchBase) < base ==> bits[base - 1])
  }

  ghost predicate NoRun(bits: seq<bool>, searchBase: int, searchLimit: int, minLength: int) {
    forall b | searchBase <= b <= searchLimit - minLength :: !RunFrom(bits, b, minLength)
  }

  /** What a search has cost: how many tests of bits it has made, and of which bits. */
  datatype Tests = Tests(count: nat, bits: set<nat>) {
    /** No bit has been tested twice, and all those tested are in a range. */
    predicate Once(base: nat, limit: nat) {
      count == |bits| && forall i | i in bits :: base <= i < limit
    }

    /** More bits have been tested, each once, whether or not any has been before. */
    function Add(more: set<nat>): Tests {
      Tests(count + |more|, bits + more)
    }

    lemma OnceMore(base: nat, limit: nat, newBase: nat, newLimit: nat)
      requires Once(base, limit) && base <= limit <= newBase <= newLimit
      ensures Add(Interval(newBase, newLimit)).Once(base, newLimit)
    {
      IntervalSize(bits, newBase, newLimit);
      IntervalCount(newBase, newLimit);
    }

    lemma OnceMoreBelow(base: nat, limit: nat, newBase: nat, newLimit: nat)
      requires Once(base, limit) && newBase <= newLimit <= base <= limit
      ensures Add(Interval(newBase, newLimit)).Once(newBase, limit)
    {
      IntervalSize(bits, newBase, newLimit);
      IntervalCount(newBase, newLimit);
    }

    /** So there are no more tests than bits. */
    lemma Bounded(base: nat, limit: nat)
      requires Once(base, limit) && base <= limit
      ensures count <= limit - base
    {
      IntervalCount(base, limit);
      SubsetSize(bits, Interval(base, limit));
    }
  }

  // ---------- Mirror images ----------

  ghost function Mirror(bits: seq<bool>): (r: seq<bool>)
    ensures |r| == |bits| && forall i | 0 <= i < |r| :: r[i] == bits[|bits| - 1 - i]
  {
    seq(|bits|, i requires 0 <= i < |bits| => bits[|bits| - 1 - i])
  }

  lemma RunMirrors(bits: seq<bool>, base: int, limit: int)
    ensures ResRun(Mirror(bits), |bits| - limit, |bits| - base) <==> ResRun(bits, base, limit)
  {
    var m, n := Mirror(bits), |bits|;
    if ResRun(bits, base, limit) {
      assert forall i | n - limit <= i < n - base :: !m[i];
    }
    if ResRun(m, n - limit, n - base) {
      forall i | base <= i < limit ensures !bits[i] {
        assert !m[n - 1 - i];
      }
    }
  }

  /** The mirror law: searching from the top down is searching the mirror image from the bottom up. */
  lemma SearchMirrors(bits: seq<bool>, searchBase: int, searchLimit: int, minLength: int, maxLength: int,
      base: int, limit: int)
    requires 0 <= searchBase <= searchLimit <= |bits|
    ensures var n := |bits|;
            HighRange(Mirror(bits), n - searchLimit, n - searchBase, minLength, maxLength, n - limit, n - base) <==>
            LowRange(bits, searchBase, searchLimit, minLength, maxLength, base, limit)
  {
    var m, n := Mirror(bits), |bits|;
    RunMirrors(bits, base, limit);
    forall b ensures RunTo(m, n - b, minLength) <==> RunFrom(bits, b, minLength) {
      RunMirrors(bits, b, b + minLength);
    }
    if forall b | searchBase <= b < base :: !RunFrom(bits, b, minLength) {
      forall l | n - base < l <= n - searchBase ensures !RunTo(m, l, minLength) {
        assert !RunFrom(bits, n - l, minLength) && RunTo(m, n - (n - l), minLength) <==>
                  RunFrom(bits, n - l, minLength);
      }
    }
    if forall l | n - base < l <= n - searchBase :: !RunTo(m, l, minLength) {
      forall b | searchBase <= b < base ensures !RunFrom(bits, b, minLength) {
        assert !RunTo(m, n - b, minLength);
      }
    }
  }

  /** There is at most one answer. */
  lemma LowRangeUnique(bits: seq<bool>, searchBase: int, searchLimit: int, minLength: int, maxLength: int,
      base: int, limit: int, base': int, limit': int)
    requires 0 < minLength <= maxLength
    requires LowRange(bits, searchBase, searchLimit, minLength, maxLength, base, limit)
    requires LowRange(bits, searchBase, searchLimit, minLength, maxLength, base', limit')
    ensures base == base' && limit == limit'
  {
    assert RunFrom(bits, base, minLength) && RunFrom(bits, base', minLength);
  }

  /** So the two searches find mirror images of the same run, or neither finds any. */
  lemma MirrorLaw(bits: seq<bool>, searchBase: int, searchLimit: int, minLength: int, maxLength: int,
      base: int, limit: int, highBase: int, highLimit: int)
    requires 0 <= searchBase <= searchLimit <= |bits| && 0 < minLength <= maxLength
    requires LowRange(bits, searchBase, searchLimit, minLength, maxLength, base, limit)
    requires HighRange(Mirror(bits), |bits| - searchLimit, |bits| - searchBase, minLength, maxLength,
                       highBase, highLimit)
    ensures highBase == |bits| - limit && highLimit == |bits| - base
  {
    var n := |bits|;
    SearchMirrors(bits, searchBase, searchLimit, minLength, maxLength, n - highLimit, n - highBase);
    LowRangeUnique(bits, searchBase, searchLimit, minLength, maxLength, base, limit, n - highLimit, n - highBase);
  }

  lemma NoRunMirrors(bits: seq<bool>, searchBase: int, searchLimit: int, minLength: int)
    ensures NoRun(Mirror(bits), |bits| - searchLimit, |bits| - searchBase, minLength) <==>
            NoRun(bits, searchBase, searchLimit, minLength)
  {
    var m, n := Mirror(bits), |bits|;
    forall b ensures RunFrom(m, n - minLength - b, minLength) <==> RunFrom(bits, b, minLength) {
      RunMirrors(bits, b, b + minLength);
    }
    forall b | searchBase <= b <= searchLimit - minLength
      ensures NoRun(m, n - searchLimit, n - searchBase, minLength) ==> !RunFrom(bits, b, minLength)
    {
      assert RunFrom(m, n - minLength - b, minLength) <==> RunFrom(bits, b, minLength);
    }
    forall b | n - searchLimit <= b <= n - searchBase - minLength
      ensures NoRun(bits, searchBase, searchLimit, minLength) ==> !RunFrom(m, b, minLength)
    {
      assert RunFrom(m, n - minLength - (n - minLength - b), minLength) <==>
                RunFrom(bits, n - minLength - b, minLength);
    }
  }

  // ---------- Searching ----------

  /** A run cannot start at set bits, nor close below one. */
  lemma NoRunAtSet(bits: seq<bool>, base: int, limit: int, minLength: int)
    requires 0 < minLength && 0 <= base && limit <= |bits| && forall i | base <= i < limit :: bits[i]
    ensures forall b | base <= b < limit :: !RunFrom(bits, b, minLength)
  {
    forall b | base <= b < limit ensures !RunFrom(bits, b, minLength) {
      assert bits[b];
    }
  }

  lemma NoRunOverSet(bits: seq<bool>, base: int, set0: int, minLength: int)
    requires 0 <= base <= set0 < base + minLength && set0 < |bits| && bits[set0]
    ensures forall b | base <= b <= set0 :: !RunFrom(bits, b, minLength)
  {
    forall b | base <= b <= set0 ensures !RunFrom(bits, b, minLength) {
      assert b <= set0 < b + minLength;
    }
  }

  /** Extends a run found from the bottom up. */
  method Extend(t: BT, ghost searchBase: nat, searchLimit: nat, minLength: nat, maxLength: nat,
      resBase: nat, minLimit: nat, ghost was: Tests)
    returns (limit: nat, ghost tests: Tests)
    requires 0 < minLength <= maxLength && searchBase <= resBase && minLimit == resBase + minLength <= searchLimit
    requires Holds(t, searchLimit) && ResRun(Bits(t), resBase, minLimit)
    requires forall b | searchBase <= b < resBase :: !RunFrom(Bits(t), b, minLength)
    requires was.Once(searchBase, minLimit)
    ensures LowRange(Bits(t), searchBase, searchLimit, minLength, maxLength, resBase, limit)
    ensures tests.Once(searchBase, searchLimit)
  {
    var setLimit := resBase + maxLength;
    if searchLimit < setLimit {
      setLimit := searchLimit;
    }
    limit, tests := setLimit, was;
    if minLimit < setLimit {
      var found, setIndex;
      ghost var seen;
      found, setIndex, seen := Find(t, minLimit, setLimit, true);
      tests := was.Add(seen);
      was.OnceMore(searchBase, minLimit, minLimit, if found then setIndex + 1 else setLimit);
      if found {
        limit := setIndex;
      }
    }
    assert minLength <= limit - resBase <= maxLength;
  }

  /** The next reset bit, where a run could start. */
  method FindStart(t: BT, ghost searchBase: nat, unseenBase: nat, resLimit: nat, ghost minLength: nat, ghost was: Tests)
    returns (found: bool, resBase: nat, ghost tests: Tests)
    requires searchBase <= unseenBase < resLimit && Holds(t, resLimit) && 0 < minLength
    requires was.Once(searchBase, unseenBase)
    ensures found ==> unseenBase <= resBase < resLimit && !Bits(t)[resBase] && tests.Once(searchBase, resBase + 1)
    ensures !found ==> tests.Once(searchBase, resLimit)
    ensures forall b | unseenBase <= b < (if found then resBase else resLimit) :: !RunFrom(Bits(t), b, minLength)
  {
    ghost var seen;
    found, resBase, seen := Find(t, unseenBase, resLimit, false);
    tests := was.Add(seen);
    was.OnceMore(searchBase, unseenBase, unseenBase, if found then resBase + 1 else resLimit);
    NoRunAtSet(Bits(t), unseenBase, if found then resBase else resLimit, minLength);
  }

  /** The last set bit that spoils a candidate, looking from its far end back to what has been seen. */
  method FindLastSet(t: BT, ghost searchBase: nat, ghost resBase: nat, unseenBase: nat, minLimit: nat,
      ghost minLength: nat, ghost was: Tests)
    returns (found: bool, setIndex: nat, ghost tests: Tests)
    requires searchBase <= resBase < unseenBase <= minLimit == resBase + minLength && Holds(t, minLimit)
    requires ResRun(Bits(t), resBase, unseenBase) && was.Once(searchBase, unseenBase)
    ensures tests.Once(searchBase, minLimit)
    ensures found ==> unseenBase <= setIndex < minLimit && ResRun(Bits(t), setIndex + 1, minLimit)
    ensures found ==> forall b | resBase <= b <= setIndex :: !RunFrom(Bits(t), b, minLength)
    ensures !found ==> ResRun(Bits(t), resBase, minLimit)
  {
    ghost var seen;
    found, setIndex, seen := FindHigh(t, unseenBase, minLimit, true);
    tests := was.Add(seen);
    was.OnceMore(searchBase, unseenBase, if found then setIndex else unseenBase, minLimit);
    if found {
      NoRunOverSet(Bits(t), resBase, setIndex, minLength);
    }
  }

  /** BTFindResRange: the lowest run of at least minLength reset bits, if there is one, without testing
      any bit twice. */
  method FindResRange(t: BT, searchBase: nat, searchLimit: nat, minLength: nat, maxLength: nat)
    returns (found: bool, base: nat, limit: nat, ghost tests: Tests)
    requires searchBase < searchLimit && Holds(t, searchLimit)
    requires 0 < minLength <= maxLength <= searchLimit - searchBase
    ensures if found then LowRange(Bits(t), searchBase, searchLimit, minLength, maxLength, base, limit)
            else NoRun(Bits(t), searchBase, searchLimit, minLength)
    ensures tests.Once(searchBase, searchLimit) && tests.count <= searchLimit - searchBase
  {
    ghost var bits := Bits(t);
    var foundRes := false;
    var minLimit := 0;
    var resBase, unseenBase := searchBase, searchBase;
    var resLimit := searchLimit - minLength + 1;
    tests := Tests(0, {});
    while resBase < resLimit
      invariant searchBase <= resBase <= unseenBase <= searchLimit && tests.Once(searchBase, unseenBase)
      invariant forall b | searchBase <= b < resBase && b < resLimit :: !RunFrom(bits, b, minLength)
      invariant if foundRes then minLimit == resBase + minLength && resBase < unseenBase <= minLimit &&
                ResRun(bits, resBase, unseenBase)
                else resBase == unseenBase
      decreases resLimit - resBase
    {
      if !foundRes {
        foundRes, resBase, tests := FindStart(t, searchBase, unseenBase, resLimit, minLength, tests);
        if !foundRes {
          tests.Bounded(searchBase, searchLimit);
          return false, 0, 0, tests;
        }
        unseenBase := resBase + 1;
        minLimit := resBase + minLength;
      }
      var foundSet, setIndex;
      foundSet, setIndex, tests := FindLastSet(t, searchBase, resBase, unseenBase, minLimit, minLength, tests);
      if !foundSet {
        limit, tests := Extend(t, searchBase, searchLimit, minLength, maxLength, resBase, minLimit, tests);
        tests.Bounded(searchBase, searchLimit);
        return true, resBase, limit, tests;
      }
      unseenBase := minLimit;
      resBase := setIndex + 1;
      if resBase != minLimit {
        minLimit := resBase + minLength;
      } else {
        foundRes := false;
      }
    }
    tests.Bounded(searchBase, searchLimit);
    return false, 0, 0, tests;
  }

  // ---------- Searching from the top down ----------

  lemma NoRunToSet(bits: seq<bool>, base: int, limit: int, minLength: int)
    requires 0 < minLength && 0 <= base && limit <= |bits| && forall i | base <= i < limit :: bits[i]
    ensures forall l | base < l <= limit :: !RunTo(bits, l, minLength)
  {
    forall l | base < l <= limit ensures !RunTo(bits, l, minLength) {
      assert bits[l - 1];
    }
  }

  lemma NoRunToOverSet(bits: seq<bool>, set0: int, limit: int, minLength: int)
    requires limit - minLength <= set0 < limit <= |bits| && 0 <= set0 && bits[set0]
    ensures forall l | set0 < l <= limit :: !RunTo(bits, l, minLength)
  {
    forall l | set0 < l <= limit ensures !RunTo(bits, l, minLength) {
      assert l - minLength <= set0 < l;
    }
  }

  /** The next reset bit down, where a run could end. */
  method FindEnd(t: BT, resBase: nat, unseenLimit: nat, ghost searchLimit: nat, ghost minLength: nat, ghost was: Tests)
    returns (found: bool, resIndex: nat, ghost tests: Tests)
    requires resBase < unseenLimit <= searchLimit && Holds(t, searchLimit) && 0 < minLength
    requires was.Once(unseenLimit, searchLimit)
    ensures found ==> resBase <= resIndex < unseenLimit && !Bits(t)[resIndex] && tests.Once(resIndex, searchLimit)
    ensures !found ==> tests.Once(resBase, searchLimit)
    ensures forall l | (if found then resIndex + 1 else resBase) < l <= unseenLimit :: !RunTo(Bits(t), l, minLength)
  {
    ghost var seen;
    found, resIndex, seen := FindHigh(t, resBase, unseenLimit, false);
    tests := was.Add(seen);
    was.OnceMoreBelow(unseenLimit, searchLimit, if found then resIndex else resBase, unseenLimit);
    NoRunToSet(Bits(t), if found then resIndex + 1 else resBase, unseenLimit, minLength);
  }

  /** The first set bit that spoils a candidate, looking from its base up to what has been seen. */
  method FindFirstSet(t: BT, minBase: nat, unseenLimit: nat, ghost resLimit: nat, ghost searchLimit: nat,
      ghost minLength: nat, ghost was: Tests)
    returns (found: bool, setIndex: nat, ghost tests: Tests)
    requires minBase <= unseenLimit < resLimit == minBase + minLength <= searchLimit && Holds(t, searchLimit)
    requires ResRun(Bits(t), unseenLimit, resLimit) && was.Once(unseenLimit, searchLimit)
    ensures tests.Once(minBase, searchLimit)
    ensures found ==> minBase <= setIndex < unseenLimit && ResRun(Bits(t), minBase, setIndex)
    ensures found ==> forall l | setIndex < l <= resLimit :: !RunTo(Bits(t), l, minLength)
    ensures !found ==> ResRun(Bits(t), minBase, resLimit)
  {
    ghost var seen;
    found, setIndex, seen := Find(t, minBase, unseenLimit, true);
    tests := was.Add(seen);
    was.OnceMoreBelow(unseenLimit, searchLimit, minBase, if found then setIndex + 1 else unseenLimit);
    if found {
      NoRunToOverSet(Bits(t), setIndex, resLimit, minLength);
    }
  }

  /** Extends a run found from the top down. */
  method ExtendHigh(t: BT, searchBase: nat, ghost searchLimit: nat, minLength: nat, maxLength: nat,
      minBase: nat, resLimit: nat, ghost was: Tests)
    returns (base: nat, ghost tests: Tests)
    requires 0 < minLength <= maxLength <= searchLimit - searchBase
    requires searchBase <= minBase == resLimit - minLength && resLimit <= searchLimit
    requires Holds(t, searchLimit) && ResRun(Bits(t), minBase, resLimit)
    requires forall l | resLimit < l <= searchLimit :: !RunTo(Bits(t), l, minLength)
    requires was.Once(minBase, searchLimit)
    ensures HighRange(Bits(t), searchBase, searchLimit, minLength, maxLength, base, resLimit)
    ensures tests.Once(searchBase, searchLimit)
  {
    var setBase := if resLimit < searchBase + maxLength then searchBase else resLimit - maxLength;
    base, tests := setBase, was;
    if setBase < minBase {
      var found, setIndex;
      ghost var seen;
      found, setIndex, seen := FindHigh(t, setBase, minBase, true);
      tests := was.Add(seen);
      was.OnceMoreBelow(minBase, searchLimit, if found then setIndex else setBase, minBase);
      if found {
        base := setIndex + 1;
      }
    }
    assert minLength <= resLimit - base <= maxLength;
  }

  /** BTFindResRangeHigh: the highest run of at least minLength reset bits, if there is one, without
      testing any bit twice. */
  method FindResRangeHigh(t: BT, searchBase: nat, searchLimit: nat, minLength: nat, maxLength: nat)
    returns (found: bool, base: nat, limit: nat, ghost tests: Tests)
    requires searchBase < searchLimit && Holds(t, searchLimit)
    requires 0 < minLength <= maxLength <= searchLimit - searchBase
    ensures if found then HighRange(Bits(t), searchBase, searchLimit, minLength, maxLength, base, limit)
            else NoRun(Bits(t), searchBase, searchLimit, minLength)
    ensures tests.Once(searchBase, searchLimit) && tests.count <= searchLimit - searchBase
  {
    ghost var bits := Bits(t);
    var foundRes := false;
    // This may wrap below zero when the search is about to end, and is then not used.
    var minBase: int := 0;
    var resLimit, unseenLimit := searchLimit, searchLimit;
    var resBase := searchBase + minLength - 1;
    tests := Tests(0, {});
    while resBase < resLimit
      invariant searchBase <= unseenLimit <= resLimit <= searchLimit && tests.Once(unseenLimit, searchLimit)
      invariant forall l | resLimit < l <= searchLimit && resBase < l :: !RunTo(bits, l, minLength)
      invariant if foundRes then minBase == resLimit - minLength && minBase <= unseenLimit < resLimit &&
                ResRun(bits, unseenLimit, resLimit)
                else resLimit == unseenLimit
    {
      if !foundRes {
        var resIndex;
        foundRes, resIndex, tests := FindEnd(t, resBase, unseenLimit, searchLimit, minLength, tests);
        if !foundRes {
          assert Bits(t) == bits;
          NoneEnds(bits, searchBase, searchLimit, minLength);
          tests.Bounded(searchBase, searchLimit);
          return false, 0, 0, tests;
        }
        resLimit := resIndex + 1;
        unseenLimit := resIndex;
        minBase := resLimit - minLength;
      }
      var foundSet, setIndex;
      foundSet, setIndex, tests := FindFirstSet(t, minBase, unseenLimit, resLimit, searchLimit, minLength, tests);
      if !foundSet {
        base, tests := ExtendHigh(t, searchBase, searchLimit, minLength, maxLength, minBase, resLimit, tests);
        tests.Bounded(searchBase, searchLimit);
        return true, base, resLimit, tests;
      }
      unseenLimit := minBase;
      resLimit := setIndex;
      if resLimit != minBase {
        minBase := resLimit - minLength;
      } else {
        foundRes := false;
      }
    }
    NoneEnds(bits, searchBase, searchLimit, minLength);
    tests.Bounded(searchBase, searchLimit);
    return false, 0, 0, tests;
  }

  /** If no run ends in a range then none starts far enough below its end. */
  lemma NoneEnds(bits: seq<bool>, searchBase: int, searchLimit: int, minLength: int)
    requires forall l | searchBase + minLength <= l <= searchLimit :: !RunTo(bits, l, minLength)
    ensures NoRun(bits, searchBase, searchLimit, minLength)
  {
    forall b | searchBase <= b <= searchLimit - minLength ensures !RunFrom(bits, b, minLength) {
      assert !RunTo(bits, b + minLength, minLength);
    }
  }

  // ---------- Short and long searches ----------

  /** A short search finds a run of exactly the length; a long one extends it as far as it goes. */
  method FindShortResRange(t: BT, searchBase: nat, searchLimit: nat, length: nat)
    returns (found: bool, base: nat, limit: nat)
    requires searchBase < searchLimit && Holds(t, searchLimit) && 0 < length <= searchLimit - searchBase
    ensures if found then
              && searchBase <= base && limit == base + length <= searchLimit && RunFrom(Bits(t), base, length)
              && forall b | searchBase <= b < base :: !RunFrom(Bits(t), b, length)
            else NoRun(Bits(t), searchBase, searchLimit, length)
  {
    ghost var tests;
    found, base, limit, tests := FindResRange(t, searchBase, searchLimit, length, length);
  }

  method FindLongResRange(t: BT, searchBase: nat, searchLimit: nat, length: nat)
    returns (found: bool, base: nat, limit: nat)
    requires searchBase < searchLimit && Holds(t, searchLimit) && 0 < length <= searchLimit - searchBase
    ensures if found then
              && searchBase <= base && base + length <= limit <= searchLimit && ResRun(Bits(t), base, limit)
              && (forall b | searchBase <= b < base :: !RunFrom(Bits(t), b, length))
              && (limit == searchLimit || Bits(t)[limit])
            else NoRun(Bits(t), searchBase, searchLimit, length)
  {
    ghost var tests;
    found, base, limit, tests := FindResRange(t, searchBase, searchLimit, length, searchLimit - searchBase);
  }

  method FindShortResRangeHigh(t: BT, searchBase: nat, searchLimit: nat, length: nat)
    returns (found: bool, base: nat, limit: nat)
    requires searchBase < searchLimit && Holds(t, searchLimit) && 0 < length <= searchLimit - searchBase
    ensures if found then
              && searchBase <= base == limit - length && limit <= searchLimit && RunTo(Bits(t), limit, length)
              && forall l | limit < l <= searchLimit :: !RunTo(Bits(t), l, length)
            else NoRun(Bits(t), searchBase, searchLimit, length)
  {
    ghost var tests;
    found, base, limit, tests := FindResRangeHigh(t, searchBase, searchLimit, length, length);
  }

  method FindLongResRangeHigh(t: BT, searchBase: nat, searchLimit: nat, length: nat)
    returns (found: bool, base: nat, limit: nat)
    requires searchBase < searchLimit && Holds(t, searchLimit) && 0 < length <= searchLimit - searchBase
    ensures if found then
              && searchBase <= base && base + length <= limit <= searchLimit && ResRun(Bits(t), base, limit)
              && (forall l | limit < l <= searchLimit :: !RunTo(Bits(t), l, length))
              && (base == searchBase || Bits(t)[base - 1])
            else NoRun(Bits(t), searchBase, searchLimit, length)
  {
    ghost var tests;
    found, base, limit, tests := FindResRangeHigh(t, searchBase, searchLimit, length, searchLimit - searchBase);
  }
}
