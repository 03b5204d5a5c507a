/** An emergency list: isolated ranges of free memory, chained in address order through that memory.

  The emergency block list has two-word nodes (next, limit); the emergency grain list has one-word
  nodes (next), every grain being of the same size.  A node stands at the base of its own range.
*/
module EmergencyLists {
  import opened Ranges
  import opened RangeLists

  datatype Kind = Blocks | Grains(size: nat) {

    function NodeWords(): nat {
      if Blocks? then 2 else 1
    }

    /** Whether a range has room for a node of this kind of list. */
    predicate Fits(r: Range) {
      0 < r.base && r.base + NodeWords() <= r.limit && (Grains? ==> r.limit == r.base + size)
    }
  }

  /** The address of the i-th node of a list, or NULL beyond its end. */
  function NodeAt(s: seq<Range>, i: nat): nat {
    if i < |s| then s[i].base else 0
  }

  function LastNode(s: seq<Range>): nat {
    if s == [] then 0 else s[|s| - 1].base
  }

  ghost function Bases(s: seq<Range>): set<nat> {
    set r | r in s :: r.base
  }

  /** The memory m has the node of the range r, and it leads to `next`. */
  ghost predicate NodeOf(k: Kind, m: seq<nat>, r: Range, next: nat) {
    k.Fits(r) && r.limit <= |m| && m[r.base] == next && (k.Blocks? ==> m[r.base + 1] == r.limit)
  }

  /** The node of the i-th range leads to the next one. */
  ghost predicate Node(k: Kind, m: seq<nat>, s: seq<Range>, i: nat)
    requires i < |s|
  {
    NodeOf(k, m, s[i], NodeAt(s, i + 1))
  }

  ghost predicate Chained(k: Kind, m: seq<nat>, head: nat, s: seq<Range>) {
    && Ascending(s)
    && head == NodeAt(s, 0)
    && forall i | 0 <= i < |s| :: Node(k, m, s, i)
  }

  /** The memory after a node is unlinked: only the node before it changes. */
  function Unlinked(m: seq<nat>, prev: nat, next: nat): seq<nat> {
    if 0 < prev < |m| then m[prev := next] else m
  }

  lemma ChainUnlink(k: Kind, m: seq<nat>, head: nat, s: seq<Range>, i: nat)
    requires Chained(k, m, head, s) && i < |s|
    ensures var prev, next := LastNode(s[..i]), NodeAt(s, i + 1);
            Chained(k, Unlinked(m, prev, next), if prev == 0 then next else head, RemoveAt(s, i))
  {
    assert 0 < i ==> s[..i][i - 1] == s[i - 1] && Node(k, m, s, i - 1);
    ElemsRemoveAt(s, i);
    RemoveAtIndices(s, i);
    UnlinkedNodes(k, m, Unlinked(m, LastNode(s[..i]), NodeAt(s, i + 1)), s, RemoveAt(s, i), i);
  }

  lemma UnlinkedNodes(k: Kind, m: seq<nat>, m': seq<nat>, s: seq<Range>, t: seq<Range>, i: nat)
    requires forall j | 0 <= j < |s| :: Node(k, m, s, j)
    requires i < |s| == |t| + 1 && Ascending(s)
    requires forall j | 0 <= j < |t| :: t[j] == s[if j < i then j else j + 1]
    requires |m'| == |m|
    requires 0 < i ==> s[i - 1].base < |m| && m'[s[i - 1].base] == NodeAt(s, i + 1)
    requires forall a | 0 <= a < |m| && (0 < i ==> a != s[i - 1].base) :: m'[a] == m[a]
    ensures forall j | 0 <= j < |t| :: Node(k, m', t, j)
  {
    forall j | 0 <= j < |t| ensures Node(k, m', t, j) {
      var was := if j < i then j else j + 1;
      assert Node(k, m, s, was);
      assert 0 < i && was + 1 < i ==> s[was].limit < s[i - 1].base;
      assert 0 < i <= was ==> s[i - 1].limit < s[was].base;
    }
  }

  /** The memory after a node is linked in for r. */
  function Linked(k: Kind, m: seq<nat>, r: Range, prev: nat, next: nat): seq<nat>
    requires k.Fits(r) && r.limit <= |m| && prev < |m|
  {
    var m1 := if k.Blocks? then m[r.base := next][r.base + 1 := r.limit] else m[r.base := next];
    if prev == 0 then m1 else m1[prev := r.base]
  }

  lemma ChainLink(k: Kind, m: seq<nat>, head: nat, s: seq<Range>, i: nat, r: Range)
    requires Chained(k, m, head, s) && i <= |s| && k.Fits(r) && r.limit <= |m|
    requires forall j | 0 <= j < i :: s[j].limit < r.base
    requires forall j | i <= j < |s| :: r.limit < s[j].base
    ensures var prev, next := LastNode(s[..i]), NodeAt(s, i);
            && prev < r.base
            && Chained(k, Linked(k, m, r, prev, next), if prev == 0 then r.base else head, InsertAt(s, i, r))
  {
    var prev, next := LastNode(s[..i]), NodeAt(s, i);
    assert prev == (if 0 < i then s[i - 1].base else 0);
    assert 0 < i ==> Node(k, m, s, i - 1);
    InsertAtAscends(s, i, r);
    InsertAtIndices(s, i, r);
    var t := InsertAt(s, i, r);
    assert 0 < i ==> t[i - 1] == s[i - 1];
    LinkedWords(k, m, r, prev, next);
    LinkedNodes(k, m, Linked(k, m, r, prev, next), s, t, i);
    assert NodeAt(t, 0) == if prev == 0 then r.base else head;
  }

  /** Linking a node writes its words and the word of the node before it. */
  lemma LinkedWords(k: Kind, m: seq<nat>, r: Range, prev: nat, next: nat)
    requires k.Fits(r) && r.limit <= |m| && prev < r.base
    ensures var m' := Linked(k, m, r, prev, next);
            && |m'| == |m| && m'[r.base] == next && (k.Blocks? ==> m'[r.base + 1] == r.limit)
            && (prev != 0 ==> m'[prev] == r.base)
            && forall a | 0 <= a < |m| && !r.Contains(a) && (prev == 0 || a != prev) :: m'[a] == m[a]
  {
  }

  lemma LinkedNodes(k: Kind, m: seq<nat>, m': seq<nat>, s: seq<Range>, t: seq<Range>, i: nat)
    requires forall j | 0 <= j < |s| :: Node(k, m, s, j)
    requires i < |t| == |s| + 1 && Ascending(t) && k.Fits(t[i]) && t[i].limit <= |m|
    requires forall j | 0 <= j < |s| :: s[j] == t[if j < i then j else j + 1]
    requires |m'| == |m|
    requires m'[t[i].base] == NodeAt(s, i) && (k.Blocks? ==> m'[t[i].base + 1] == t[i].limit)
    requires 0 < i ==> t[i - 1].base < |m| && m'[t[i - 1].base] == t[i].base
    requires forall a | 0 <= a < |m| && !t[i].Contains(a) && (0 < i ==> a != t[i - 1].base) :: m'[a] == m[a]
    ensures forall j | 0 <= j < |t| :: Node(k, m', t, j)
  {
    forall j | 0 <= j < i ensures Node(k, m', t, j) {
      assert s[j] == t[j] && Node(k, m, s, j);
      assert t[j].limit < t[i].base;
      assert j < i - 1 ==> t[j].limit < t[i - 1].base && s[j + 1] == t[j + 1];
    }
    forall j | i < j < |t| ensures Node(k, m', t, j) {
      assert s[j - 1] == t[j] && Node(k, m, s, j - 1);
      assert t[i].limit < t[j].base;
      assert 0 < i ==> t[i - 1].limit < t[j].base;
      assert NodeAt(s, j) == NodeAt(t, j + 1);
    }
    assert NodeAt(s, i) == NodeAt(t, i + 1);
  }

  /** A list survives any change outside the ranges it holds. */
  lemma ChainFrame(k: Kind, m: seq<nat>, m': seq<nat>, head: nat, s: seq<Range>)
    requires Chained(k, m, head, s) && |m'| == |m|
    requires forall a, r | 0 <= a < |m| && r in s && r.Contains(a) :: m'[a] == m[a]
    ensures Chained(k, m', head, s)
  {
    forall i | 0 <= i < |s| ensures Node(k, m', s, i) {
      assert Node(k, m, s, i) && s[i] in s;
      assert s[i].Contains(s[i].base);
      assert k.Blocks? ==> s[i].Contains(s[i].base + 1);
    }
  }

  class EmergencyList {
    const kind: Kind
    const memory: array<nat>
    var head: nat
    ghost var ranges: seq<Range>

    ghost predicate Valid()
      reads this, memory
    {
      Chained(kind, memory[..], head, ranges)
    }

    constructor (kind: Kind, memory: array<nat>)
      ensures Valid() && ranges == [] && this.kind == kind && this.memory == memory
    {
      this.kind, this.memory, head, ranges := kind, memory, 0, [];
    }

    function Limit(node: nat): nat
      requires node + kind.NodeWords() <= memory.Length
      reads memory
    {
      match kind
      case Blocks => memory[node + 1]
      case Grains(size) => node + size
    }

    method Unlink(ghost i: nat, prev: nat, node: nat)
      requires Valid() && i < |ranges| && node == ranges[i].base && prev == LastNode(ranges[..i])
      modifies this, memory
      ensures Valid() && ranges == RemoveAt(old(ranges), i)
      ensures forall a | 0 <= a < memory.Length && (a != prev || prev == 0) :: memory[a] == old(memory[a])
    {
      ghost var m := memory[..];
      assert Node(kind, m, ranges, i);
      assert 0 < i ==> ranges[..i][i - 1] == ranges[i - 1] && Node(kind, m, ranges, i - 1);
      ChainUnlink(kind, m, head, ranges, i);
      var next := memory[node];
      if prev == 0 {
        head := next;
      } else {
        memory[prev] := next;
      }
      ranges := RemoveAt(ranges, i);
      assert memory[..] == Unlinked(m, prev, next);
    }

    /** One turn of the loop that absorbs neighbouring ranges. */
    method ScanNode(ghost c: Cursor, base: nat, limit: nat, prev: nat, node: nat)
      returns (hit: bool, absorbed: bool, newBase: nat, newLimit: nat, newPrev: nat, next: nat)
      requires Valid() && ranges == c.kept + c.rest && !c.AtEnd()
      requires base == c.base && limit == c.limit && prev == LastNode(c.kept) && node == c.rest[0].base
      modifies this, memory
      ensures Valid()
      ensures hit <==> c.Hits()
      ensures hit ==> ranges == old(ranges) && newBase == base && newLimit == limit && !absorbed
      ensures !hit ==> ranges == c.Next().kept + c.Next().rest
      ensures !hit ==> newBase == c.Next().base && newLimit == c.Next().limit && newPrev == LastNode(c.Next().kept)
      ensures !hit ==> next == NodeAt(c.Next().rest, 0)
      ensures !hit ==> c.Next().budget == if absorbed then c.budget - 1 else c.budget
      ensures forall a | 0 <= a < memory.Length && (a != prev || prev == 0) :: memory[a] == old(memory[a])
    {
      CursorNode(c);
      newBase, newLimit, newPrev, next := base, limit, prev, memory[node];
      hit, absorbed := false, false;
      var nodeLimit := Limit(node);
      if nodeLimit == base {
        newBase := node;
        UnlinkNext(c, prev, node);
        absorbed := true;
      } else if node == limit {
        newLimit := nodeLimit;
        UnlinkNext(c, prev, node);
        absorbed := true;
      } else if nodeLimit > base {
        hit := true;
      } else {
        newPrev := node;
      }
    }

    /** The node a scan has come to, and the one it goes to next. */
    lemma CursorNode(c: Cursor)
      requires Valid() && ranges == c.kept + c.rest && !c.AtEnd()
      ensures var node := c.rest[0].base;
              && node + kind.NodeWords() <= memory.Length && Limit(node) == c.rest[0].limit
              && memory[node] == NodeAt(c.rest[1..], 0)
      ensures c.kept + [c.rest[0]] + c.rest[1..] == ranges && LastNode(c.kept + [c.rest[0]]) == c.rest[0].base
    {
      CursorStep(c.kept, c.rest);
      assert Node(kind, memory[..], ranges, |c.kept|);
      assert NodeAt(ranges, |c.kept| + 1) == NodeAt(c.rest[1..], 0);
    }

    /** Takes out the node that a scan has come to. */
    method UnlinkNext(ghost c: Cursor, prev: nat, node: nat)
      requires Valid() && ranges == c.kept + c.rest && c.rest != []
      requires prev == LastNode(c.kept) && node == c.rest[0].base
      modifies this, memory
      ensures Valid() && ranges == c.kept + c.rest[1..]
      ensures forall a | 0 <= a < memory.Length && (a != prev || prev == 0) :: memory[a] == old(memory[a])
    {
      CursorStep(c.kept, c.rest);
      assert ranges[..|c.kept|] == c.kept;
      Unlink(|c.kept|, prev, node);
    }

    /** Absorbs into [base0, limit0) the ranges of the list adjacent to it, at most `budget` of them. */
    method Coalesce(base0: nat, limit0: nat, budget: nat, ghost outcome: Scan)
      returns (ok: bool, base: nat, limit: nat, left: nat)
      requires Valid() && outcome == ScanFrom(Cursor([], ranges, base0, limit0, budget))
      modifies this, memory
      ensures Valid()
      ensures Scan(ok, base, limit, left, ranges) == outcome
      ensures forall a | 0 <= a < memory.Length && memory[a] != old(memory[a]) :: a in Bases(ranges)
    {
      ok, base, limit, left := true, base0, limit0, budget;
      ghost var c := Cursor([], ranges, base, limit, budget);
      var prev, node := 0, head;
      assert [] + ranges == ranges;
      while node != 0 && node <= limit && left > 0
        invariant Valid() && ScanFrom(c) == outcome
        invariant ranges == c.kept + c.rest && c.base == base && c.limit == limit && c.budget == left
        invariant node == NodeAt(c.rest, 0) && prev == LastNode(c.kept)
        invariant forall a | 0 <= a < memory.Length && memory[a] != old(memory[a]) :: a in Bases(c.kept)
        decreases |c.rest|
      {
        ScanUnfolds(c);
        CursorMoves(c);
        var hit, absorbed;
        hit, absorbed, base, limit, prev, node := ScanNode(c, base, limit, prev, node);
        if hit {
          ok := false;
          return;
        }
        c := c.Next();
        if absorbed {
          left := left - 1;
        }
      }
      assert c.rest != [] ==> ranges[|c.kept|] == c.rest[0] && Node(kind, memory[..], ranges, |c.kept|);
      ScanUnfolds(c);
      CursorMoves(c);
    }

    static lemma CursorMoves(c: Cursor)
      ensures Bases(c.kept) <= Bases(c.kept + c.rest)
      ensures c.kept != [] ==> LastNode(c.kept) in Bases(c.kept)
      ensures !c.AtEnd() && !c.Hits() ==> Bases(c.kept) <= Bases(c.Next().kept)
    {
    }

    /** Adds a range apart from every range of the list. */
    method Add(base: nat, limit: nat) returns (ok: bool)
      requires Valid() && kind.Fits(Range(base, limit)) && limit <= memory.Length
      requires forall s | s in ranges :: s.Apart(Range(base, limit))
      modifies this, memory
      ensures ok && Valid() && Elems(ranges) == Elems(old(ranges)) + {Range(base, limit)}
      ensures forall a | 0 <= a < memory.Length && memory[a] != old(memory[a]) ::
                a in Bases(old(ranges)) || base <= a < base + kind.NodeWords()
    {
      var r := Range(base, limit);
      InitNode(base, limit);
      ghost var i;
      var prev, node;
      i, prev, node := PlaceFor(base);
      AddPlace(i, prev, node, r);
      if prev != 0 && Limit(prev) >= base {
        return false;
      }
      if node != 0 && limit >= node {
        return false;
      }
      ElemsInsertAt(ranges, i, r);
      assert 0 < i ==> ranges[i - 1] in Elems(ranges);
      Link(i, r, prev, node);
      ok := true;
    }

    /** The nodes between which a node at the given base belongs. */
    method PlaceFor(base: nat) returns (ghost i: nat, prev: nat, node: nat)
      requires Valid()
      ensures i <= |ranges| && node == NodeAt(ranges, i) && prev == LastNode(ranges[..i])
      ensures forall j | 0 <= j < i :: ranges[j].base < base
      ensures node == 0 || base <= node
    {
      i, prev, node := 0, 0, head;
      while node != 0 && node < base
        invariant i <= |ranges| && node == NodeAt(ranges, i) && prev == LastNode(ranges[..i])
        invariant forall j | 0 <= j < i :: ranges[j].base < base
        decreases |ranges| - i
      {
        assert Node(kind, memory[..], ranges, i);
        assert ranges[..i + 1][i] == ranges[i];
        i, prev, node := i + 1, node, memory[node];
      }
    }

    method Link(ghost i: nat, r: Range, prev: nat, next: nat)
      requires Valid() && i <= |ranges| && kind.Fits(r) && r.limit <= memory.Length
      requires prev == LastNode(ranges[..i]) && next == NodeAt(ranges, i)
      requires kind.Blocks? ==> memory[r.base + 1] == r.limit
      requires forall j | 0 <= j < i :: ranges[j].limit < r.base
      requires forall j | i <= j < |ranges| :: r.limit < ranges[j].base
      modifies this, memory
      ensures Valid() && ranges == InsertAt(old(ranges), i, r)
      ensures forall a | 0 <= a < memory.Length && (a != prev || prev == 0) && a != r.base ::
                memory[a] == old(memory[a])
    {
      ghost var m := memory[..];
      ChainLink(kind, m, head, ranges, i, r);
      if prev == 0 {
        head := r.base;
      } else {
        memory[prev] := r.base;
      }
      memory[r.base] := next;
      ranges := InsertAt(ranges, i, r);
      assert memory[..] == Linked(kind, m, r, prev, next);
    }

    lemma AddPlace(i: nat, prev: nat, node: nat, r: Range)
      requires Valid() && r.base < r.limit
      requires forall s | s in ranges :: s.Apart(r)
      requires i <= |ranges| && node == NodeAt(ranges, i) && prev == LastNode(ranges[..i])
      requires forall j | 0 <= j < i :: ranges[j].base < r.base
      requires node == 0 || r.base <= node
      ensures forall j | 0 <= j < i :: ranges[j].limit < r.base
      ensures forall j | i <= j < |ranges| :: r.limit < ranges[j].base
      ensures prev == (if 0 < i then ranges[i - 1].base else 0)
      ensures 0 < i ==> 0 < prev && prev + kind.NodeWords() <= ranges[i - 1].limit <= memory.Length
      ensures 0 < i ==> Limit(prev) == ranges[i - 1].limit
    {
      assert forall j | 0 <= j < i :: ranges[j] in ranges;
      if i < |ranges| {
        assert ranges[i] in ranges && Node(kind, memory[..], ranges, i);
      }
      if 0 < i {
        assert ranges[..i][i - 1] == ranges[i - 1] && Node(kind, memory[..], ranges, i - 1);
      }
    }

    /** Writes a node at the base of a range apart from every range of the list. */
    method InitNode(base: nat, limit: nat)
      requires Valid() && kind.Fits(Range(base, limit)) && limit <= memory.Length
      requires forall s | s in ranges :: s.Apart(Range(base, limit))
      modifies memory
      ensures Valid()
      ensures memory[..] == if kind.Blocks? then old(memory[..])[base := 0][base + 1 := limit]
                            else old(memory[..])[base := 0]
    {
      ghost var m := memory[..];
      memory[base] := 0;
      if kind.Blocks? {
        memory[base + 1] := limit;
      }
      ChainFrame(kind, m, memory[..], head, ranges);
    }

    /** Takes off the list the range holding [base, limit). */
    method Take(base: nat, limit: nat) returns (ok: bool, nodeBase: nat, nodeLimit: nat)
      requires Valid() && base < limit
      modifies this, memory
      ensures Valid()
      ensures ok <==> exists q :: q in old(ranges) && q.base <= base && limit <= q.limit
      ensures ok ==> Range(nodeBase, nodeLimit) in old(ranges) && nodeBase <= base && limit <= nodeLimit
      ensures ok ==> Elems(ranges) == Elems(old(ranges)) - {Range(nodeBase, nodeLimit)}
      ensures !ok ==> ranges == old(ranges) && memory[..] == old(memory[..])
      ensures forall a | 0 <= a < memory.Length && memory[a] != old(memory[a]) :: a in Bases(ranges)
    {
      ok, nodeBase, nodeLimit := false, 0, 0;
      ghost var i := 0;
      var prev, node := 0, head;
      assert ranges != [] ==> Node(kind, memory[..], ranges, 0);
      while node != 0 && Limit(node) < limit
        invariant i <= |ranges| && node == NodeAt(ranges, i) && prev == LastNode(ranges[..i])
        invariant i < |ranges| ==> Node(kind, memory[..], ranges, i)
        invariant forall j | 0 <= j < i :: ranges[j].limit < limit
        decreases |ranges| - i
      {
        if kind.Blocks? && node >= base {
          HoldsOnlyAt(i, base, limit);
          return;
        }
        assert i + 1 < |ranges| ==> Node(kind, memory[..], ranges, i + 1);
        assert ranges[..i + 1][i] == ranges[i];
        i, prev, node := i + 1, node, memory[node];
      }
      HoldsOnlyAt(i, base, limit);
      if node != 0 && node <= base && limit <= Limit(node) {
        ok, nodeBase, nodeLimit := true, node, Limit(node);
        assert ranges[i] == Range(nodeBase, nodeLimit);
        TakeNode(i, prev, node);
      }
    }

    /** Takes out the i-th node; the word written is in the node before it. */
    method TakeNode(ghost i: nat, prev: nat, node: nat)
      requires Valid() && i < |ranges| && node == ranges[i].base && prev == LastNode(ranges[..i])
      modifies this, memory
      ensures Valid() && Elems(ranges) == Elems(old(ranges)) - {old(ranges[i])}
      ensures forall a | 0 <= a < memory.Length && memory[a] != old(memory[a]) :: a in Bases(ranges)
    {
      ElemsRemoveAt(ranges, i);
      RemoveAtIndices(ranges, i);
      Unlink(i, prev, node);
      assert 0 < i ==> ranges[i - 1] in ranges;
    }

    /** When the ranges before the i-th end too low to hold [base, limit), only the i-th can, or none
        at all if it is too high too. */
    lemma HoldsOnlyAt(i: nat, base: nat, limit: nat)
      requires Ascending(ranges) && i <= |ranges| && base < limit
      requires forall j | 0 <= j < i :: ranges[j].limit < limit
      requires i == |ranges| || limit <= ranges[i].limit || base <= ranges[i].base
      ensures (exists q :: q in ranges && q.base <= base && limit <= q.limit) <==>
              i < |ranges| && ranges[i].base <= base && limit <= ranges[i].limit
    {
      if q :| q in ranges && q.base <= base && limit <= q.limit {
        var j :| 0 <= j < |ranges| && ranges[j] == q;
        assert i < j ==> ranges[i].limit < ranges[j].base;
      }
    }

    /** Takes the first range off the list. */
    method Pop()
      requires Valid() && ranges != []
      modifies this
      ensures Valid() && ranges == old(ranges)[1..]
    {
      ghost var m, all := memory[..], ranges;
      assert Node(kind, m, all, 0);
      head := memory[head];
      ranges := all[1..];
      forall i | 0 <= i < |ranges| ensures Node(kind, m, ranges, i) {
        assert Node(kind, m, all, i + 1);
      }
    }

    lemma OnlyEndIsNull(i: nat)
      requires Valid() && i <= |ranges|
      ensures NodeAt(ranges, i) == 0 <==> i == |ranges|
    {
      assert i < |ranges| ==> Node(kind, memory[..], ranges, i);
    }

    /** The first range of at least the given size, if it is below `before` (no bound if null). */
    method FirstFit(size: nat, bounded: bool, before: nat) returns (found: bool, base: nat, limit: nat)
      requires Valid()
      ensures found ==> Range(base, limit) in ranges && limit - base >= size && (bounded ==> base < before)
      ensures found ==> forall r | r in ranges && r.Size() >= size :: base <= r.base
      ensures !found ==> forall r | r in ranges && r.Size() >= size :: bounded && before <= r.base
    {
      found, base, limit := false, 0, 0;
      ghost var i := 0;
      var node := head;
      while node != 0 && (!bounded || node < before)
        invariant i <= |ranges| && node == NodeAt(ranges, i)
        invariant forall j | 0 <= j < i :: ranges[j].Size() < size
        decreases |ranges| - i
      {
        assert Node(kind, memory[..], ranges, i);
        if Limit(node) - node >= size {
          found, base, limit := true, node, Limit(node);
          assert ranges[i] == Range(base, limit);
          return;
        }
        i, node := i + 1, memory[node];
      }
      OnlyEndIsNull(i);
    }

    /** The last range of at least the given size, if it is above `after` (no bound if not bounded). */
    method LastFit(size: nat, bounded: bool, after: nat) returns (found: bool, base: nat, limit: nat)
      requires Valid()
      ensures found ==> Range(base, limit) in ranges && limit - base >= size && (bounded ==> base > after)
      ensures found ==> forall r | r in ranges && r.Size() >= size :: r.base <= base
      ensures !found ==> forall r | r in ranges && r.Size() >= size :: bounded && r.base <= after
    {
      found, base, limit := false, 0, 0;
      ghost var i, best := 0, 0;
      var node := head;
      while node != 0
        invariant i <= |ranges| && node == NodeAt(ranges, i)
        invariant found ==> best < i && ranges[best] == Range(base, limit)
        invariant found ==> limit - base >= size && (bounded ==> base > after)
        invariant found ==> forall j | 0 <= j < i && ranges[j].Size() >= size :: ranges[j].base <= base
        invariant !found ==> forall j | 0 <= j < i && ranges[j].Size() >= size :: bounded && ranges[j].base <= after
        decreases |ranges| - i
      {
        assert Node(kind, memory[..], ranges, i);
        if Limit(node) - node >= size && (if found then node > base else !bounded || node > after) {
          found, base, limit := true, node, Limit(node);
          best := i;
        }
        i, node := i + 1, memory[node];
      }
      OnlyEndIsNull(i);
    }

    /** The largest range, the last of them on a tie, if it is at least the given size. */
    method LargestFit(size: nat) returns (found: bool, base: nat, limit: nat)
      requires Valid()
      ensures found ==> Range(base, limit) in ranges && limit - base >= size
      ensures found ==> forall r | r in ranges :: r.Size() <= limit - base
      ensures !found ==> forall r | r in ranges :: r.Size() < size
    {
      found, base, limit := false, 0, 0;
      var best := size;
      ghost var i, at := 0, 0;
      var node := head;
      while node != 0
        invariant i <= |ranges| && node == NodeAt(ranges, i)
        invariant if found then at < i && ranges[at] == Range(base, limit) else best == size
        invariant found ==> limit - base == best >= size
        invariant found ==> forall j | 0 <= j < i :: ranges[j].Size() <= best
        invariant !found ==> forall j | 0 <= j < i :: ranges[j].Size() < size
        decreases |ranges| - i
      {
        assert Node(kind, memory[..], ranges, i);
        if Limit(node) - node >= best {
          found, base, limit := true, node, Limit(node);
          best, at := limit - base, i;
        }
        i, node := i + 1, memory[node];
      }
      OnlyEndIsNull(i);
    }

    method First() returns (base: nat, limit: nat)
      requires Valid() && ranges != []
      ensures Range(base, limit) == ranges[0]
      ensures forall r | r in ranges :: base <= r.base
    {
      assert Node(kind, memory[..], ranges, 0);
      base, limit := head, Limit(head);
    }

    method Last() returns (base: nat, limit: nat)
      requires Valid() && ranges != []
      ensures Range(base, limit) == ranges[|ranges| - 1]
      ensures forall r | r in ranges :: r.base <= base
    {
      ghost var i := 0;
      var node := head;
      assert Node(kind, memory[..], ranges, 0);
      while memory[node] != 0
        invariant i < |ranges| && node == ranges[i].base && Node(kind, memory[..], ranges, i)
        decreases |ranges| - i
      {
        i, node := i + 1, memory[node];
        assert Node(kind, memory[..], ranges, i);
      }
      base, limit := node, Limit(node);
    }
  }
}
