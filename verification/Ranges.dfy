/** Address ranges, and what it means for a set of them to be isolated.

  A free-memory structure keeps the free addresses as isolated ranges: nonempty, pairwise disjoint
  and pairwise non-adjacent.  An isolated set is determined by the addresses it covers, which is why
  several structures together can be said to denote one set of free addresses.
*/
module Ranges {

  datatype Range = Range(base: nat, limit: nat) {

    predicate Contains(a: nat) {
      base <= a < limit
    }

    predicate Overlaps(r: Range) {
      base < r.limit && r.base < limit
    }

    /** Neither overlapping nor adjacent. */
    predicate Apart(r: Range) {
      limit < r.base || r.limit < base
    }

    predicate Touches(r: Range) {
      limit == r.base || base == r.limit
    }

    function Size(): int {
      limit - base
    }
  }

  ghost predicate Isolated(rs: set<Range>) {
    && (forall r | r in rs :: r.base < r.limit)
    && (forall r, s | r in rs && s in rs && r != s :: r.Apart(s))
  }

  ghost predicate Covered(rs: set<Range>, a: nat) {
    exists r :: r in rs && r.Contains(a)
  }

  /** The addresses covered by a set of ranges. */
  ghost function Cover(rs: set<Range>): iset<nat> {
    iset a: nat | Covered(rs, a)
  }

  ghost function Addresses(r: Range): iset<nat> {
    iset a: nat | r.Contains(a)
  }

  ghost predicate Meets(rs: set<Range>, r: Range) {
    exists s :: s in rs && s.Overlaps(r)
  }

  ghost function Touching(rs: set<Range>, r: Range): set<Range> {
    set s | s in rs && s.Touches(r)
  }

  /** Every two ranges of different sets are apart or overlap. */
  ghost predicate Unadjoined(rs: set<Range>, ss: set<Range>) {
    forall r, s | r in rs && s in ss :: !r.Touches(s)
  }

  ghost predicate HasLeft(rs: set<Range>, r: Range) {
    exists s :: s in rs && s.limit == r.base
  }

  ghost predicate HasRight(rs: set<Range>, r: Range) {
    exists s :: s in rs && s.base == r.limit
  }

  /** The range r, extended over the members of rs adjacent to it. */
  ghost function Merged(rs: set<Range>, r: Range): (m: Range)
    ensures HasLeft(rs, r) ==> Range(m.base, r.base) in rs
    ensures HasRight(rs, r) ==> Range(r.limit, m.limit) in rs
    ensures !HasLeft(rs, r) ==> m.base == r.base
    ensures !HasRight(rs, r) ==> m.limit == r.limit
  {
    Range(if HasLeft(rs, r) then (var s :| s in rs && s.limit == r.base; s.base) else r.base,
          if HasRight(rs, r) then (var s :| s in rs && s.base == r.limit; s.limit) else r.limit)
  }

  /** What the isolated ranges rs become when r is freed. */
  ghost function Coalesced(rs: set<Range>, r: Range): set<Range> {
    rs - Touching(rs, r) + {Merged(rs, r)}
  }

  /** What is left of q when r is taken out of it. */
  function Fragments(q: Range, r: Range): set<Range> {
    (if q.base < r.base then {Range(q.base, r.base)} else {}) +
    (if r.limit < q.limit then {Range(r.limit, q.limit)} else {})
  }

  /** What the isolated ranges rs become when r, part of the member q, is allocated. */
  ghost function Carved(rs: set<Range>, q: Range, r: Range): set<Range> {
    rs - {q} + Fragments(q, r)
  }

  /** The range between two addresses, if there is anything between them. */
  function Between(base: nat, limit: nat): set<Range> {
    if base < limit then {Range(base, limit)} else {}
  }

  /** Allocating the low end of a range leaves what is above it, and the high end what is below. */
  lemma CarvedEnds(rs: set<Range>, q: Range, size: nat)
    requires 0 < size <= q.Size()
    ensures Carved(rs, q, Range(q.base, q.base + size)) == rs - {q} + Between(q.base + size, q.limit)
    ensures Carved(rs, q, Range(q.limit - size, q.limit)) == rs - {q} + Between(q.base, q.limit - size)
    ensures Carved(rs, q, q) == rs - {q}
  {
  }

  /** There is only one way to hold a set of addresses as isolated ranges. */
  lemma CoverDeterminesRanges(rs: set<Range>, ss: set<Range>)
    requires Isolated(rs) && Isolated(ss)
    requires Cover(rs) == Cover(ss)
    ensures rs == ss
  {
    forall r | r in rs ensures r in ss { CoverDeterminesRange(rs, ss, r); }
    forall r | r in ss ensures r in rs { CoverDeterminesRange(ss, rs, r); }
  }

  lemma CoverDeterminesRange(rs: set<Range>, ss: set<Range>, r: Range)
    requires Isolated(rs) && Isolated(ss)
    requires Cover(rs) == Cover(ss)
    requires r in rs
    ensures r in ss
  {
    assert r.Contains(r.base);
    assert r.base in Cover(rs);
    var s :| s in ss && s.Contains(r.base);
    assert s.base < r.base ==> r.base - 1 in Cover(ss);
    assert s.limit < r.limit ==> s.limit in Cover(rs);
    assert r.limit < s.limit ==> r.limit in Cover(ss);
  }

  /** A run of free addresses lies inside one isolated range. */
  lemma CoveredRunIsInOneRange(rs: set<Range>, r: Range)
    requires Isolated(rs) && r.base < r.limit
    ensures Addresses(r) <= Cover(rs) <==> exists q :: q in rs && q.base <= r.base && r.limit <= q.limit
  {
    if Addresses(r) <= Cover(rs) {
      assert r.base in Addresses(r);
      var q :| q in rs && q.Contains(r.base);
      assert q.limit < r.limit ==> q.limit in Addresses(r) && Covered(rs, q.limit);
    }
  }

  /** A range meets an isolated set just when it shares an address with it. */
  lemma MeetsIsSharing(rs: set<Range>, r: Range)
    requires Isolated(rs) && r.base < r.limit
    ensures Meets(rs, r) <==> exists a :: a in Cover(rs) && a in Addresses(r)
  {
    if Meets(rs, r) {
      var s :| s in rs && s.Overlaps(r);
      var a := if s.base < r.base then r.base else s.base;
      assert s.Contains(a) && r.Contains(a);
      assert a in Cover(rs) && a in Addresses(r);
    }
  }

  lemma CoalescedIsIsolated(rs: set<Range>, r: Range)
    requires Isolated(rs) && r.base < r.limit && !Meets(rs, r)
    ensures Isolated(Coalesced(rs, r))
    ensures Cover(Coalesced(rs, r)) == Cover(rs) + Addresses(r)
    ensures Merged(rs, r).base <= r.base && r.limit <= Merged(rs, r).limit
  {
    var m := Merged(rs, r);
    assert forall s | s in rs :: s.limit <= r.base || r.limit <= s.base;
    assert m.base <= r.base && r.limit <= m.limit;
    forall a: nat ensures Covered(Coalesced(rs, r), a) <==> Covered(rs, a) || r.Contains(a) {
      CoalescedCovers(rs, r, a);
    }
  }

  lemma CoalescedCovers(rs: set<Range>, r: Range, a: nat)
    requires Isolated(rs) && r.base < r.limit && !Meets(rs, r)
    requires Merged(rs, r).base <= r.base && r.limit <= Merged(rs, r).limit
    ensures Covered(Coalesced(rs, r), a) <==> Covered(rs, a) || r.Contains(a)
  {
    var m := Merged(rs, r);
    var cs := Coalesced(rs, r);
    assert m in cs;
    if m.Contains(a) {
      assert Covered(cs, a);
      if a < r.base {
        assert Range(m.base, r.base).Contains(a);
      } else if r.limit <= a {
        assert Range(r.limit, m.limit).Contains(a);
      }
    } else {
      assert forall s | s in rs && s.Touches(r) :: !s.Contains(a) by {
        forall s | s in rs && s.Touches(r) ensures m.base <= s.base && s.limit <= m.limit {
          if s.limit == r.base {
            assert s == Range(m.base, r.base);
          } else {
            assert s == Range(r.limit, m.limit);
          }
        }
      }
    }
  }

  lemma CarvedIsIsolated(rs: set<Range>, q: Range, r: Range)
    requires Isolated(rs) && q in rs
    requires q.base <= r.base < r.limit <= q.limit
    ensures Isolated(Carved(rs, q, r))
    ensures Cover(Carved(rs, q, r)) == Cover(rs) - Addresses(r)
    ensures rs - {q} !! Fragments(q, r)
  {
    var cs := Carved(rs, q, r);
    forall a: nat ensures a in Cover(cs) <==> a in Cover(rs) && !r.Contains(a) {
      if a in Cover(cs) {
        var s :| s in cs && s.Contains(a);
        if s in Fragments(q, r) {
          assert q.Contains(a);
        } else {
          assert s in rs && s.Apart(q);
        }
      }
      if a in Cover(rs) && !r.Contains(a) {
        var s :| s in rs && s.Contains(a);
        if s == q {
          var f := if a < r.base then Range(q.base, r.base) else Range(r.limit, q.limit);
          assert f in Fragments(q, r) && f.Contains(a);
          assert f in cs;
        } else {
          assert s in cs;
        }
      }
    }
  }

  /** Where the blocks have been absorbed, no grain touches or overlaps. */
  lemma BlocksOut(bs: set<Range>, gs: set<Range>, r: Range)
    requires Isolated(bs + gs) && bs !! gs && r.base < r.limit && !Meets(bs, r)
    ensures var m := Merged(bs, r);
            && m.base <= r.base && r.limit <= m.limit
            && (forall s | s in gs :: s.Overlaps(r) <==> s.Overlaps(m))
            && (HasLeft(bs, r) ==> forall s | s in gs :: s.limit != m.base && s.limit != r.base)
            && (HasRight(bs, r) ==> forall s | s in gs :: s.base != m.limit && s.base != r.limit)
  {
    var m := Merged(bs, r);
    if HasLeft(bs, r) { assert Range(m.base, r.base) in bs + gs; }
    if HasRight(bs, r) { assert Range(r.limit, m.limit) in bs + gs; }
    assert forall s, b | s in gs && b in bs :: s.Apart(b);
  }

  lemma SecondMerge(bs: set<Range>, gs: set<Range>, r: Range)
    requires Isolated(bs + gs) && bs !! gs && r.base < r.limit && !Meets(bs, r)
    ensures Merged(gs, Merged(bs, r)) == Merged(bs + gs, r)
  {
    BlocksOut(bs, gs, r);
    var m := Merged(bs, r);
    var n := Merged(gs, m);
    var w := Merged(bs + gs, r);
    if HasLeft(bs, r) {
      assert Range(m.base, r.base) in bs + gs && Range(w.base, r.base) in bs + gs;
    } else if HasLeft(gs, r) {
      assert Range(n.base, r.base) in bs + gs && Range(w.base, r.base) in bs + gs;
    }
    if HasRight(bs, r) {
      assert Range(r.limit, m.limit) in bs + gs && Range(r.limit, w.limit) in bs + gs;
    } else if HasRight(gs, r) {
      assert Range(r.limit, n.limit) in bs + gs && Range(r.limit, w.limit) in bs + gs;
    }
  }

  /** Freeing r against two structures in turn is freeing it against both together. */
  lemma CoalesceInTwoSteps(ts: set<Range>, es: set<Range>, r: Range)
    requires Isolated(ts + es) && ts !! es
    requires r.base < r.limit && !Meets(ts + es, r)
    ensures !Meets(ts, Merged(es, r))
    ensures Coalesced(ts + es, r) == Coalesced(ts, Merged(es, r)) + (es - Touching(es, r))
    ensures Coalesced(ts, Merged(es, r)) !! es - Touching(es, r)
    ensures Merged(ts, Merged(es, r)) == Merged(ts + es, r)
    ensures Merged(ts + es, r).base <= Merged(es, r).base <= r.base
    ensures r.limit <= Merged(es, r).limit <= Merged(ts + es, r).limit
  {
    var m := Merged(es, r);
    assert ts + es == es + ts;
    BlocksOut(es, ts, r);
    SecondMerge(es, ts, r);
    CoalescedIsIsolated(ts + es, r);
    var n := Merged(ts, m);
    assert !Meets(ts, m) by {
      assert forall s | s in ts && s.Overlaps(r) :: s in ts + es;
    }
    assert Touching(ts + es, r) == Touching(ts, m) + Touching(es, r);
    assert forall s | s in es - Touching(es, r) :: s in Coalesced(ts + es, r) && s != n;
  }

  // ---------- Freeing against two lists of free ranges ----------

  ghost function Lefts(rs: set<Range>, r: Range): set<Range> {
    set s | s in rs && s.limit == r.base
  }

  /** Freeing r overlaps a grain, but the scan has found two neighbours before it reaches that grain:
      a block just above r, and a block or grain just below. */
  ghost predicate Hidden(blocks: set<Range>, grains: set<Range>, r: Range) {
    && !Meets(blocks, r) && Meets(grains, r)
    && HasRight(blocks, r) && HasLeft(blocks + grains, r)
  }

  /** Where the scans have missed an overlap, the range they extend goes beyond r on both sides and adjoins
      nothing; every range still on the lists is apart from it, or is one of the grains missed, inside it. */
  lemma HiddenMerge(ts: set<Range>, bs: set<Range>, gs: set<Range>, r: Range)
    requires Isolated(ts + (bs + gs)) && ts !! bs + gs && bs !! gs && r.base < r.limit && Hidden(bs, gs, r)
    ensures var es := bs + gs;
            var m, rest := Merged(es, r), es - Touching(es, r);
            && m.base < r.base && r.limit < m.limit
            && (forall g | g in gs && g.Overlaps(r) :: g in rest)
            && (forall e | e in rest :: e.Apart(m) || (e in gs && r.base < e.base && e.limit < r.limit))
            && (Meets(ts, m) <==> Meets(ts, r)) && Touching(ts, m) == {}
            && Meets(es, r) && LostRanges(bs, gs, r) == Touching(es, r)
  {
    var es := bs + gs;
    var m := Merged(es, r);
    assert HasRight(es, r) by { assert forall s | s in bs :: s in es; }
    assert Meets(es, r) by { assert forall s | s in gs :: s in es; }
    var left, right := Range(m.base, r.base), Range(r.limit, m.limit);
    assert left in ts + es && right in ts + es;
    assert right in bs by {
      var s :| s in bs && s.base == r.limit;
      assert s in ts + es;
    }
    forall t | t in ts ensures !t.Touches(m) && (t.Overlaps(m) <==> t.Overlaps(r)) {
      assert t in ts + es && t != left && t != right;
    }
    forall e | e in es && !e.Touches(r) ensures e.Apart(m) || (e in gs && r.base < e.base && e.limit < r.limit) {
      assert e in ts + es && e != left && e != right;
    }
    forall g | g in gs && g.Overlaps(r) ensures !g.Touches(r) {
      assert g in ts + es && g != left && g != right;
    }
    assert Touching(es, r) == Touching(bs, r) + Lefts(gs, r) by {
      forall g | g in gs ensures g.base != r.limit {
        assert g in ts + es && g != right;
      }
    }
  }

  /** What the two scans have already dropped when they find that r overlaps a list. */
  ghost function Dropped(blocks: set<Range>, grains: set<Range>, r: Range): set<Range> {
    if Meets(blocks, r) then Lefts(blocks, r) else Touching(blocks, r) + Lefts(grains, r)
  }

  /** The emergency ranges lost when r is freed although it overlaps free memory: those already taken
      off their lists when the overlap is found. */
  ghost function LostRanges(blocks: set<Range>, grains: set<Range>, r: Range): set<Range> {
    if Meets(blocks + grains, r) then Dropped(blocks, grains, r) else Touching(blocks + grains, r)
  }

  /** The scans find an overlap, in either list or neither, before they have dropped anything. */
  ghost predicate StopsShort(blocks: set<Range>, grains: set<Range>, r: Range) {
    && !HasLeft(blocks, r)
    && (Meets(blocks, r) || (!HasRight(blocks, r) && !HasLeft(grains, r)
                             && (Meets(grains, r) || !HasRight(grains, r))))
  }

  /** When freeing overlapping memory fails without losing any of the free ranges. */
  lemma NothingLostIff(all: set<Range>, blocks: set<Range>, grains: set<Range>, r: Range)
    requires blocks + grains <= all
    ensures all - LostRanges(blocks, grains, r) == all <==> StopsShort(blocks, grains, r)
  {
    var lost := LostRanges(blocks, grains, r);
    assert lost <= all && (all - lost == all <==> lost == {});
    assert forall s | s in blocks && s.limit == r.base :: s in lost;
    assert !Meets(blocks, r) ==> forall s | s in blocks && s.base == r.limit :: s in lost;
    assert !Meets(blocks, r) ==> forall s | s in grains && s.limit == r.base :: s in lost;
    assert !Meets(blocks + grains, r) ==> forall s | s in grains && s.base == r.limit :: s in lost;
    assert Meets(blocks + grains, r) <==> Meets(blocks, r) || Meets(grains, r) by {
      assert forall s | s in blocks + grains :: s in blocks || s in grains;
      assert forall s | s in blocks || s in grains :: s in blocks + grains;
    }
  }
}
