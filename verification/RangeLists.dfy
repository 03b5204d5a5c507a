/** Address-ordered sequences of isolated ranges, and how splicing one changes its set of ranges. */
module RangeLists {
  import opened Ranges

  ghost predicate Ascending(s: seq<Range>) {
    && (forall i | 0 <= i < |s| :: s[i].base < s[i].limit)
    && (forall i, j | 0 <= i < j < |s| :: s[i].limit < s[j].base)
  }

  ghost function Elems(s: seq<Range>): set<Range> {
    set r | r in s
  }

  function RemoveAt<T>(s: seq<T>, i: nat): seq<T>
    requires i < |s|
  {
    s[..i] + s[i + 1..]
  }

  function InsertAt<T>(s: seq<T>, i: nat, x: T): seq<T>
    requires i <= |s|
  {
    s[..i] + [x] + s[i..]
  }

  lemma RemoveAtIndices<T>(s: seq<T>, i: nat)
    requires i < |s|
    ensures |RemoveAt(s, i)| == |s| - 1
    ensures forall j | 0 <= j < |s| - 1 :: RemoveAt(s, i)[j] == s[if j < i then j else j + 1]
  {
  }

  lemma InsertAtIndices<T>(s: seq<T>, i: nat, x: T)
    requires i <= |s|
    ensures |InsertAt(s, i, x)| == |s| + 1
    ensures InsertAt(s, i, x)[i] == x
    ensures forall j | 0 <= j < |s| :: s[j] == InsertAt(s, i, x)[if j < i then j else j + 1]
  {
  }

  lemma AscendingIsIsolated(s: seq<Range>)
    requires Ascending(s)
    ensures Isolated(Elems(s))
  {
  }

  lemma ElemsRemoveAt(s: seq<Range>, i: nat)
    requires Ascending(s) && i < |s|
    ensures Ascending(RemoveAt(s, i))
    ensures Elems(RemoveAt(s, i)) == Elems(s) - {s[i]}
  {
    var t := RemoveAt(s, i);
    assert forall j | 0 <= j < |t| :: t[j] == if j < i then s[j] else s[j + 1];
    forall r | r in Elems(s) - {s[i]} ensures r in t {
      var j :| 0 <= j < |s| && s[j] == r;
      assert r == t[if j < i then j else j - 1];
    }
  }

  lemma ElemsInsertAt(s: seq<Range>, i: nat, r: Range)
    requires Ascending(s) && i <= |s| && r.base < r.limit
    requires forall j | 0 <= j < i :: s[j].limit < r.base
    requires forall j | i <= j < |s| :: r.limit < s[j].base
    ensures Ascending(InsertAt(s, i, r))
    ensures Elems(InsertAt(s, i, r)) == Elems(s) + {r}
  {
    assert s == s[..i] + s[i..];
    InsertAtAscends(s, i, r);
  }

  lemma InsertAtAscends(s: seq<Range>, i: nat, r: Range)
    requires Ascending(s) && i <= |s| && r.base < r.limit
    requires forall j | 0 <= j < i :: s[j].limit < r.base
    requires forall j | i <= j < |s| :: r.limit < s[j].base
    ensures Ascending(InsertAt(s, i, r))
  {
    var t := InsertAt(s, i, r);
    assert forall j | 0 <= j < |t| :: t[j] == if j < i then s[j] else if j == i then r else s[j - 1];
  }

  /** A cursor has passed the ranges `kept` and is at the first of `rest`. */
  lemma CursorAt(kept: seq<Range>, rest: seq<Range>)
    requires Ascending(rest)
    ensures Elems(kept + rest) == Elems(kept) + Elems(rest)
    ensures rest != [] ==>
              && Elems(kept + [rest[0]]) == Elems(kept) + {rest[0]}
              && Elems(rest) == {rest[0]} + Elems(rest[1..])
              && Ascending(rest[1..])
              && (forall r | r in rest[1..] :: rest[0].limit < r.base)
              && (forall r | r in rest :: rest[0].base <= r.base && rest[0].limit <= r.limit)
  {
    if rest != [] {
      assert rest == [rest[0]] + rest[1..];
      assert (kept + [rest[0]])[|kept|] == rest[0];
    }
  }

  lemma CursorStep(kept: seq<Range>, rest: seq<Range>)
    requires rest != []
    ensures (kept + rest)[|kept|] == rest[0]
    ensures RemoveAt(kept + rest, |kept|) == kept + rest[1..]
    ensures kept + rest == kept + [rest[0]] + rest[1..]
  {
  }

  // ---------- Scanning for the neighbours of a range ----------

  function OneIf(b: bool): nat {
    if b then 1 else 0
  }

  /** Some ranges have been scanned, in address order, for neighbours of r: those absorbed have been
      dropped, extending r to [base, limit), and the others are kept. */
  ghost predicate Scanned(seen: set<Range>, r: Range, kept: set<Range>, base: nat, limit: nat, count: nat) {
    && base <= r.base && r.limit <= limit
    && kept == seen - Touching(seen, r)
    && !Meets(seen, r)
    && (if base != r.base then Range(base, r.base) in seen else !HasLeft(seen, r))
    && (if limit != r.limit then Range(r.limit, limit) in seen else !HasRight(seen, r))
    && count == OneIf(base != r.base) + OneIf(limit != r.limit)
  }

  lemma ScanStep(seen: set<Range>, r: Range, kept: set<Range>, base: nat, limit: nat, count: nat, s: Range)
    requires r.base < r.limit && s.base < s.limit
    requires forall t | t in seen :: t.limit < s.base
    requires Scanned(seen, r, kept, base, limit, count)
    requires s.base <= limit
    ensures limit == r.limit
    ensures if s.limit == base then base == r.base && Scanned(seen + {s}, r, kept, s.base, limit, count + 1)
            else if s.base == limit then Scanned(seen + {s}, r, kept, base, s.limit, count + 1)
            else if s.limit > base then s.Overlaps(r)
            else Scanned(seen + {s}, r, kept + {s}, base, limit, count)
  {
    if base != r.base {
      assert Range(base, r.base).limit < s.base;
    }
    if s.limit == base || (s.base == limit && s.limit != base) {
      assert Touching(seen + {s}, r) == Touching(seen, r) + {s};
    } else {
      assert s.limit <= base ==> Touching(seen + {s}, r) == Touching(seen, r);
    }
  }

  /** The scan stops at a range that meets r: only the left neighbour has been dropped. */
  lemma ScanStopsShort(seen: set<Range>, r: Range, kept: set<Range>, base: nat, limit: nat, count: nat,
      rest: set<Range>)
    requires r.base < r.limit == limit
    requires Scanned(seen, r, kept, base, limit, count)
    requires forall t | t in rest :: r.base < t.limit
    ensures kept + rest == seen + rest - (set t | t in seen + rest && t.limit == r.base)
    ensures count == OneIf(HasLeft(seen + rest, r))
  {
  }

  lemma ScanDone(seen: set<Range>, r: Range, kept: set<Range>, base: nat, limit: nat, count: nat, rest: set<Range>)
    requires r.base < r.limit && Isolated(seen + rest)
    requires Scanned(seen, r, kept, base, limit, count)
    requires forall t | t in rest :: !t.Touches(r)
    ensures kept + rest == seen + rest - Touching(seen + rest, r)
    ensures Range(base, limit) == Merged(seen + rest, r)
    ensures HasLeft(seen + rest, r) <==> base != r.base
    ensures HasRight(seen + rest, r) <==> limit != r.limit
  {
    var m := Merged(seen + rest, r);
    if base != r.base { assert Range(m.base, r.base) in seen + rest; }
    if limit != r.limit { assert Range(r.limit, m.limit) in seen + rest; }
  }

  /** A scan in progress: the ranges `kept` have been passed and `rest` are still to see, and at most
      `budget` more of them may be absorbed into [base, limit). */
  datatype Cursor = Cursor(kept: seq<Range>, rest: seq<Range>, base: nat, limit: nat, budget: nat) {

    /** There is no more to see. */
    predicate AtEnd() {
      rest == [] || limit < rest[0].base || budget == 0
    }

    predicate Hits()
      requires !AtEnd()
    {
      rest[0].limit != base && rest[0].base != limit && base < rest[0].limit
    }

    function Next(): Cursor
      requires !AtEnd() && !Hits()
    {
      if rest[0].limit == base then this.(rest := rest[1..], base := rest[0].base, budget := budget - 1)
      else if rest[0].base == limit then this.(rest := rest[1..], limit := rest[0].limit, budget := budget - 1)
      else this.(kept := kept + [rest[0]], rest := rest[1..])
    }
  }

  datatype Scan = Scan(ok: bool, base: nat, limit: nat, budget: nat, list: seq<Range>)

  /** What one scan of an emergency list does, from where it has got to. */
  ghost function ScanFrom(c: Cursor): Scan
    decreases c.rest
  {
    if c.AtEnd() then Scan(true, c.base, c.limit, c.budget, c.kept + c.rest)
    else if c.Hits() then Scan(false, c.base, c.limit, c.budget, c.kept + c.rest)
    else ScanFrom(c.Next())
  }

  lemma ScanUnfolds(c: Cursor)
    ensures c.AtEnd() ==> ScanFrom(c) == Scan(true, c.base, c.limit, c.budget, c.kept + c.rest)
    ensures !c.AtEnd() && c.Hits() ==> ScanFrom(c) == Scan(false, c.base, c.limit, c.budget, c.kept + c.rest)
    ensures !c.AtEnd() && !c.Hits() ==> ScanFrom(c) == ScanFrom(c.Next())
  {
  }

  /** What a scan of the ranges `all` with the given budget should find. */
  ghost predicate ScanFinds(all: set<Range>, r: Range, budget: nat, n: Scan) {
    && (n.ok <==> !Meets(all, r) || budget == OneIf(HasLeft(all, r)))
    && (!n.ok ==> Elems(n.list) == all - (set s | s in all && s.limit == r.base))
    && (n.ok ==> Elems(n.list) == all - Touching(all, r))
    && (n.ok ==> Range(n.base, n.limit) == Merged(all, r))
    && (n.ok ==> n.budget == budget - OneIf(HasLeft(all, r)) - OneIf(HasRight(all, r)))
  }

  lemma ScanFromMeaning(all: set<Range>, seen: set<Range>, r: Range, c: Cursor, count: nat, budget: nat)
    requires Ascending(c.rest) && r.base < r.limit && Isolated(all) && all == seen + Elems(c.rest)
    requires forall s, t | s in seen && t in c.rest :: s.limit < t.base
    requires Scanned(seen, r, Elems(c.kept), c.base, c.limit, count)
    requires count + c.budget == budget
    requires OneIf(HasLeft(all, r)) + OneIf(HasRight(all, r)) <= budget
    ensures ScanFinds(all, r, budget, ScanFrom(c))
    decreases c.rest
  {
    if c.AtEnd() || c.Hits() {
      ScanStops(all, seen, r, c, count, budget);
    } else {
      ScanAdvances(seen, r, c, count);
      ScanUnfolds(c);
      ScanFromMeaning(all, seen + {c.rest[0]}, r, c.Next(), budget - c.Next().budget, budget);
    }
  }

  lemma ScanStops(all: set<Range>, seen: set<Range>, r: Range, c: Cursor, count: nat, budget: nat)
    requires Ascending(c.rest) && r.base < r.limit && Isolated(all) && all == seen + Elems(c.rest)
    requires forall s, t | s in seen && t in c.rest :: s.limit < t.base
    requires Scanned(seen, r, Elems(c.kept), c.base, c.limit, count)
    requires count + c.budget == budget
    requires OneIf(HasLeft(all, r)) + OneIf(HasRight(all, r)) <= budget
    requires c.AtEnd() || c.Hits()
    ensures ScanFinds(all, r, budget, ScanFrom(c))
  {
    if c.AtEnd() {
      ScanEnds(seen, r, c.kept, c.rest, c.base, c.limit, count, budget);
    } else {
      ScanStep(seen, r, Elems(c.kept), c.base, c.limit, count, c.rest[0]);
      ScanFails(seen, r, c.kept, c.rest, c.base, c.limit, count, budget);
    }
  }

  lemma ScanAdvances(seen: set<Range>, r: Range, c: Cursor, count: nat)
    requires Ascending(c.rest) && r.base < r.limit && !c.AtEnd() && !c.Hits()
    requires forall s, t | s in seen && t in c.rest :: s.limit < t.base
    requires Scanned(seen, r, Elems(c.kept), c.base, c.limit, count)
    ensures Scanned(seen + {c.rest[0]}, r, Elems(c.Next().kept), c.Next().base, c.Next().limit,
                    count + c.budget - c.Next().budget)
    ensures c.Next().rest == c.rest[1..] && Ascending(c.Next().rest)
    ensures seen + {c.rest[0]} + Elems(c.Next().rest) == seen + Elems(c.rest)
    ensures forall s, t | s in seen + {c.rest[0]} && t in c.Next().rest :: s.limit < t.base
  {
    CursorAt(c.kept, c.rest);
    ScanStep(seen, r, Elems(c.kept), c.base, c.limit, count, c.rest[0]);
  }

  lemma ScanEnds(seen: set<Range>, r: Range, kept: seq<Range>, rest: seq<Range>,
                 base: nat, limit: nat, count: nat, budget: nat)
    requires Ascending(rest) && r.base < r.limit && Isolated(seen + Elems(rest))
    requires forall s, t | s in seen && t in rest :: s.limit < t.base
    requires Scanned(seen, r, Elems(kept), base, limit, count)
    requires count <= budget
    requires OneIf(HasLeft(seen + Elems(rest), r)) + OneIf(HasRight(seen + Elems(rest), r)) <= budget
    requires rest == [] || limit < rest[0].base || count == budget
    ensures ScanFinds(seen + Elems(rest), r, budget, Scan(true, base, limit, budget - count, kept + rest))
  {
    CursorAt(kept, rest);
    var all := seen + Elems(rest);
    assert HasLeft(seen, r) ==> HasLeft(all, r);
    assert HasRight(seen, r) ==> HasRight(all, r);
    if rest == [] || limit < rest[0].base {
      assert forall t | t in rest :: limit < t.base;
    } else {
      assert forall t | t in rest :: t.limit == r.base ==> HasLeft(all, r);
      assert forall t | t in rest :: t.base == r.limit ==> HasRight(all, r);
      assert limit == r.limit;
    }
    ScanDone(seen, r, Elems(kept), base, limit, count, Elems(rest));
  }

  lemma ScanFails(seen: set<Range>, r: Range, kept: seq<Range>, rest: seq<Range>,
                  base: nat, limit: nat, count: nat, budget: nat)
    requires Ascending(rest) && r.base < r.limit && rest != []
    requires Scanned(seen, r, Elems(kept), base, limit, count)
    requires count < budget && limit == r.limit && rest[0].Overlaps(r)
    ensures ScanFinds(seen + Elems(rest), r, budget, Scan(false, base, limit, budget - count, kept + rest))
  {
    CursorAt(kept, rest);
    ScanStopsShort(seen, r, Elems(kept), base, limit, count, Elems(rest));
    assert rest[0] in seen + Elems(rest);
  }

  // ---------- Scanning two lists, one after the other ----------

  /** The block scan absorbs at most two ranges; the grain scan gets what is left of two. */
  lemma FirstScan(bs: set<Range>, gs: set<Range>, r: Range, n: Scan)
    requires Isolated(bs + gs) && bs !! gs && r.base < r.limit
    requires ScanFinds(bs, r, 3, n)
    ensures n.ok <==> !Meets(bs, r)
    ensures !n.ok ==> Elems(n.list) + gs == bs + gs - Dropped(bs, gs, r) && Meets(bs + gs, r) && !Hidden(bs, gs, r)
    ensures Elems(n.list) <= bs
    ensures n.ok ==> 1 <= n.budget && n.base < n.limit
    ensures n.ok ==>
              var m := Range(n.base, n.limit);
              OneIf(HasLeft(gs, m)) + OneIf(HasRight(gs, m)) <= n.budget - 1
  {
    if n.ok {
      var m := Merged(bs, r);
      if HasLeft(bs, r) { assert Range(m.base, r.base) in bs + gs; }
      if HasRight(bs, r) { assert Range(r.limit, m.limit) in bs + gs; }
    } else {
      assert forall s | s in Lefts(bs, r) :: s in bs;
    }
  }

  lemma SecondScan(bs: set<Range>, gs: set<Range>, r: Range, n1: Scan, n2: Scan)
    requires Isolated(bs + gs) && bs !! gs && r.base < r.limit
    requires ScanFinds(bs, r, 3, n1) && n1.ok && 1 <= n1.budget && n1.base < n1.limit
    requires ScanFinds(gs, Range(n1.base, n1.limit), n1.budget - 1, n2)
    ensures n2.ok <==> !Meets(bs + gs, r) || Hidden(bs, gs, r)
    ensures Elems(n1.list) + Elems(n2.list) ==
            bs + gs - if n2.ok then Touching(bs + gs, r) else Dropped(bs, gs, r)
    ensures Elems(n2.list) <= gs
    ensures n2.ok ==> Range(n2.base, n2.limit) == Merged(bs + gs, r)
  {
    var m := Merged(bs, r);
    BlocksOut(bs, gs, r);
    assert Meets(bs + gs, r) <==> Meets(gs, r) by {
      assert forall s | s in bs + gs && s.Overlaps(r) :: s in gs;
    }
    assert Meets(gs, r) <==> Meets(gs, m) by {
      assert forall s | s in gs :: s.Overlaps(r) <==> s.Overlaps(m);
    }
    assert HasLeft(bs, r) ==> !HasLeft(gs, m) && !HasLeft(gs, r);
    assert HasRight(bs, r) ==> !HasRight(gs, m) && !HasRight(gs, r);
    assert Touching(bs + gs, r) == Touching(bs, r) + Touching(gs, m);
    assert Lefts(gs, m) == Lefts(gs, r);
    assert HasLeft(bs + gs, r) <==> HasLeft(bs, r) || HasLeft(gs, r);
    SecondMerge(bs, gs, r);
  }
}
