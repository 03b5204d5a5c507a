/** Runs of the coalescing block structure, against a reference that holds a set of isolated ranges. */
module CbsRuns {
  import opened Ranges
  import opened EmergencyLists
  import opened CoalescingBlocks

  datatype Op =
    | Insert(r: Range)
    | Delete(r: Range)
    | FindFirst(size: nat, findDelete: FindDelete)
    | FindLast(size: nat, findDelete: FindDelete)
    | FindLargest(findDelete: FindDelete)
    | SetMinSize(minSize: nat)
    | Write(address: nat, value: nat)

  /** What the client is told: whether the operation succeeded, and a range. */
  datatype Answer = Answer(ok: bool, range: Range)

  ghost predicate Holds(s: set<Range>, r: Range, q: Range) {
    q in s && q.base <= r.base && r.limit <= q.limit
  }

  ghost predicate IsLowest(s: set<Range>, size: nat, q: Range) {
    q in s && q.Size() >= size && forall r | r in s && r.Size() >= size :: q.base <= r.base
  }

  ghost predicate IsHighest(s: set<Range>, size: nat, q: Range) {
    q in s && q.Size() >= size && forall r | r in s && r.Size() >= size :: r.base <= q.base
  }

  ghost predicate IsLargest(s: set<Range>, q: Range) {
    q in s && forall r | r in s :: r.Size() <= q.Size()
  }

  ghost predicate Adequate(s: set<Range>, size: nat) {
    exists r :: r in s && r.Size() >= size
  }

  /** The range answered by a find that has found q: an end of it, or all of it. */
  ghost predicate IsAnswer(q: Range, size: nat, findDelete: FindDelete, r: Range) {
    match findDelete
    case FindDeleteLOW => r.base == q.base && r.limit == q.base + size
    case FindDeleteHIGH => r.limit == q.limit && r.base == q.limit - size
    case _ => r == q
  }

  /** The answers that are right when the free ranges are s. */
  ghost predicate IsRight(s: set<Range>, op: Op, a: Answer) {
    match op
    case Insert(r) => (a.ok <==> !Meets(s, r)) && (a.ok ==> a.range == Merged(s, r))
    case Delete(r) => (a.ok <==> exists q :: Holds(s, r, q)) && a.range == r
    case FindFirst(size, f) =>
      (a.ok <==> Adequate(s, size)) && (a.ok ==> exists q :: IsLowest(s, size, q) && IsAnswer(q, size, f, a.range))
    case FindLast(size, f) =>
      (a.ok <==> Adequate(s, size)) && (a.ok ==> exists q :: IsHighest(s, size, q) && IsAnswer(q, size, f, a.range))
    case FindLargest(_) => (a.ok <==> s != {}) && (a.ok ==> IsLargest(s, a.range))
    case _ => a.ok
  }

  /** The free ranges once r has been taken from the one that holds it. */
  ghost function Taken(s: set<Range>, r: Range): set<Range>
    requires exists q :: Holds(s, r, q)
  {
    var q :| Holds(s, r, q);
    Carved(s, q, r)
  }

  /** The operation takes nothing, whatever its answer. */
  predicate TakesNothing(op: Op) {
    op.SetMinSize? || op.Write? || (!op.Insert? && !op.Delete? && op.findDelete == FindDeleteNONE)
  }

  /** The free ranges after an operation rightly answered. */
  ghost function After(s: set<Range>, op: Op, a: Answer): set<Range> {
    if !a.ok then s
    else if op.Insert? then Coalesced(s, op.r)
    else if TakesNothing(op) then s
    else if exists q :: Holds(s, a.range, q) then Taken(s, a.range)
    else s
  }

  ghost predicate Proper(op: Op) {
    match op
    case Insert(r) => r.base < r.limit
    case Delete(r) => r.base < r.limit
    case FindFirst(size, _) => 0 < size
    case FindLast(size, _) => 0 < size
    case _ => true
  }

  /** Freeing adds exactly the addresses of its range and allocating takes exactly those answered, and the
      ranges stay isolated. */
  lemma StepKeepsIsolation(s: set<Range>, op: Op, a: Answer)
    requires Isolated(s) && Proper(op) && IsRight(s, op, a)
    ensures Isolated(After(s, op, a))
    ensures Cover(After(s, op, a)) ==
              if !a.ok || TakesNothing(op) then Cover(s)
              else if op.Insert? then Cover(s) + Addresses(op.r)
              else Cover(s) - Addresses(a.range)
    ensures op.Delete? ==> (a.ok <==> Addresses(op.r) <= Cover(s))
  {
    if op.Insert? {
      if a.ok { CoalescedIsIsolated(s, op.r); }
    } else {
      if op.Delete? { HoldsIsCovering(s, op.r); }
      if a.ok && !TakesNothing(op) {
        AnswerIsHeld(s, op, a);
        TakenIsIsolated(s, a.range);
      }
    }
  }

  lemma AnswerIsHeld(s: set<Range>, op: Op, a: Answer)
    requires Isolated(s) && Proper(op) && IsRight(s, op, a) && a.ok && !op.Insert? && !TakesNothing(op)
    ensures a.range.base < a.range.limit && exists q :: Holds(s, a.range, q)
  {
    match op
    case FindFirst(size, f) =>
      var q :| IsLowest(s, size, q) && IsAnswer(q, size, f, a.range);
      assert Holds(s, a.range, q);
    case FindLast(size, f) =>
      var q :| IsHighest(s, size, q) && IsAnswer(q, size, f, a.range);
      assert Holds(s, a.range, q);
    case FindLargest(_) =>
      assert Holds(s, a.range, a.range);
    case _ =>
  }

  lemma TakenIsIsolated(s: set<Range>, r: Range)
    requires Isolated(s) && r.base < r.limit && exists q :: Holds(s, r, q)
    ensures Isolated(Taken(s, r)) && Cover(Taken(s, r)) == Cover(s) - Addresses(r)
    ensures forall q | Holds(s, r, q) :: Taken(s, r) == Carved(s, q, r)
  {
    forall q | Holds(s, r, q) ensures Taken(s, r) == Carved(s, q, r) {
      forall p | Holds(s, r, p) ensures p == q { OneRangeOnly(s, r, p, q); }
    }
    var q :| Holds(s, r, q);
    CarvedIsIsolated(s, q, r);
  }

  /** What a find leaves of the range it has found. */
  lemma FindLeaves(s: set<Range>, op: Op, a: Answer, q: Range)
    requires Isolated(s) && Proper(op) && IsRight(s, op, a) && a.ok
    requires (op.FindFirst? && IsLowest(s, op.size, q)) || (op.FindLast? && IsHighest(s, op.size, q))
    ensures op.findDelete == FindDeleteNONE ==> After(s, op, a) == s
    ensures op.findDelete == FindDeleteLOW ==> After(s, op, a) == s - {q} + Between(q.base + op.size, q.limit)
    ensures op.findDelete == FindDeleteHIGH ==> After(s, op, a) == s - {q} + Between(q.base, q.limit - op.size)
    ensures op.findDelete == FindDeleteENTIRE ==> After(s, op, a) == s - {q}
  {
    OnlyOneFound(s, op, a, q);
    FindTakes(s, op, q, a);
    CarvedEnds(s, q, op.size);
    match op.findDelete
    case FindDeleteLOW => assert After(s, op, a) == Carved(s, q, Range(q.base, q.base + op.size));
    case FindDeleteHIGH => assert After(s, op, a) == Carved(s, q, Range(q.limit - op.size, q.limit));
    case _ =>
  }

  /** Isolated ranges differ in their bases, so only one is the lowest adequate one, or the highest. */
  lemma OnlyOneFound(s: set<Range>, op: Op, a: Answer, q: Range)
    requires Isolated(s) && Proper(op) && IsRight(s, op, a) && a.ok
    requires (op.FindFirst? && IsLowest(s, op.size, q)) || (op.FindLast? && IsHighest(s, op.size, q))
    ensures IsAnswer(q, op.size, op.findDelete, a.range) && Holds(s, a.range, q) && a.range.base < a.range.limit
  {
    if op.FindFirst? {
      var p :| IsLowest(s, op.size, p) && IsAnswer(p, op.size, op.findDelete, a.range);
      assert p == q;
    } else {
      var p :| IsHighest(s, op.size, p) && IsAnswer(p, op.size, op.findDelete, a.range);
      assert p == q;
    }
  }

  /** Taking the low end of the lowest adequate range takes the lowest run of free addresses of that size. */
  lemma LowIsLowestRun(s: set<Range>, size: nat, a: Answer)
    requires Isolated(s) && 0 < size && IsRight(s, FindFirst(size, FindDeleteLOW), a)
    ensures a.ok <==> exists b: nat :: FreeRun(s, b, size)
    ensures a.ok ==> a.range == Range(a.range.base, a.range.base + size) && FreeRun(s, a.range.base, size)
    ensures a.ok ==> forall b: nat | FreeRun(s, b, size) :: a.range.base <= b
  {
    FreeRuns(s, size);
    if a.ok {
      var q :| IsLowest(s, size, q) && IsAnswer(q, size, FindDeleteLOW, a.range);
      assert FitsIn(s, q, q.base, size);
    }
  }

  /** Taking the high end of the highest takes the highest such run. */
  lemma HighIsHighestRun(s: set<Range>, size: nat, a: Answer)
    requires Isolated(s) && 0 < size && IsRight(s, FindLast(size, FindDeleteHIGH), a)
    ensures a.ok <==> exists b: nat :: FreeRun(s, b, size)
    ensures a.ok ==> a.range == Range(a.range.base, a.range.base + size) && FreeRun(s, a.range.base, size)
    ensures a.ok ==> forall b: nat | FreeRun(s, b, size) :: b <= a.range.base
  {
    FreeRuns(s, size);
    if a.ok {
      var q :| IsHighest(s, size, q) && IsAnswer(q, size, FindDeleteHIGH, a.range);
      assert FitsIn(s, q, q.limit - size, size);
    }
  }

  /** The addresses from b on, as many as size, are free. */
  ghost predicate FreeRun(s: set<Range>, b: nat, size: nat) {
    Addresses(Range(b, b + size)) <= Cover(s)
  }

  ghost predicate FitsIn(s: set<Range>, q: Range, b: nat, size: nat) {
    q in s && q.base <= b && b + size <= q.limit
  }

  lemma FreeRuns(s: set<Range>, size: nat)
    requires Isolated(s) && 0 < size
    ensures forall b: nat :: FreeRun(s, b, size) <==> exists q :: FitsIn(s, q, b, size)
    ensures (exists b: nat :: FreeRun(s, b, size)) <==> Adequate(s, size)
  {
    forall b: nat ensures FreeRun(s, b, size) <==> exists q :: FitsIn(s, q, b, size) {
      HoldsIsCovering(s, Range(b, b + size));
      if Addresses(Range(b, b + size)) <= Cover(s) {
        var q :| Holds(s, Range(b, b + size), q);
        assert FitsIn(s, q, b, size);
      } else {
        assert forall q {:trigger FitsIn(s, q, b, size)} :: FitsIn(s, q, b, size) ==> Holds(s, Range(b, b + size), q);
      }
    }
    if Adequate(s, size) {
      var r :| r in s && r.Size() >= size;
      assert FitsIn(s, r, r.base, size) && FreeRun(s, r.base, size);
    }
  }

  lemma HoldsIsCovering(s: set<Range>, r: Range)
    requires Isolated(s) && r.base < r.limit
    ensures (exists q :: Holds(s, r, q)) <==> Addresses(r) <= Cover(s)
  {
    CoveredRunIsInOneRange(s, r);
    if Addresses(r) <= Cover(s) {
      var q :| q in s && q.base <= r.base && r.limit <= q.limit;
      assert Holds(s, r, q);
    }
  }

  /** The range an operation takes from is determined by the free ranges, wherever each is kept. */
  lemma OneRangeOnly(s: set<Range>, r: Range, p: Range, q: Range)
    requires Isolated(s) && r.base < r.limit && Holds(s, r, p) && Holds(s, r, q)
    ensures p == q
  {
  }

  // ---------- Runs ----------

  /** A client chooses each operation by the answers to those before it. */
  type Client = seq<Answer> -> Op

  ghost function AfterAll(client: Client, answers: seq<Answer>): set<Range> {
    if answers == [] then {}
    else
      var before := answers[..|answers| - 1];
      After(AfterAll(client, before), client(before), answers[|answers| - 1])
  }

  /** What the client has written and not freed since. */
  function Contents(client: Client, answers: seq<Answer>): map<nat, nat> {
    if answers == [] then map[]
    else
      var before := answers[..|answers| - 1];
      ContentsAfter(Contents(client, before), client(before), answers[|answers| - 1])
  }

  function ContentsAfter(m: map<nat, nat>, op: Op, a: Answer): map<nat, nat> {
    match op
    case Insert(r) => if a.ok then map x | x in m && !r.Contains(x) :: m[x] else m
    case Write(address, value) => m[address := value]
    case _ => m
  }

  /** Memory has in it what the client has written, where it is not free. */
  ghost predicate Keeps(memory: seq<nat>, free: iset<nat>, m: map<nat, nat>) {
    forall x | x in m :: KeepsAt(memory, free, x, m[x])
  }

  ghost predicate KeepsAt(memory: seq<nat>, free: iset<nat>, x: nat, value: nat) {
    x < |memory| && memory[x] == value && x !in free
  }

  /** Every answer is right where it comes. */
  ghost predicate AllRight(client: Client, answers: seq<Answer>) {
    answers == [] ||
    (var before := answers[..|answers| - 1];
     AllRight(client, before) && IsRight(AfterAll(client, before), client(before), answers[|answers| - 1]))
  }

  /** Over every run the free ranges stay isolated. */
  lemma {:induction false} RunsKeepIsolation(client: Client, answers: seq<Answer>)
    requires AllRight(client, answers) && forall before :: AllRight(client, before) ==> Proper(client(before))
    ensures Isolated(AfterAll(client, answers))
  {
    if answers != [] {
      var before := answers[..|answers| - 1];
      RunsKeepIsolation(client, before);
      StepKeepsIsolation(AfterAll(client, before), client(before), answers[|answers| - 1]);
    }
  }

  /** What the source demands of the arguments: word-aligned nonempty ranges in memory, aligned sizes.  The
      client writes to memory, too. */
  ghost predicate Allowed(cbs: CBS, op: Op) {
    0 < cbs.alignment &&
    match op
    case Insert(r) => cbs.Proper(r)
    case Delete(r) => cbs.Proper(r)
    case FindFirst(size, _) => 0 < size && size % cbs.alignment == 0
    case FindLast(size, _) => 0 < size && size % cbs.alignment == 0
    case Write(a, _) => a < cbs.memory.Length
    case _ => true
  }

  /** A client that keeps to that, frees only what is not free, and writes only to what is not free. */
  ghost predicate KeepsRules(cbs: CBS, client: Client) {
    forall answers :: AllRight(client, answers) ==>
      && Allowed(cbs, client(answers))
      && (client(answers).Insert? ==> !Meets(AfterAll(client, answers), client(answers).r))
      && (client(answers).Write? ==> client(answers).address !in Cover(AfterAll(client, answers)))
  }

  /** No word has changed but in memory that is free. */
  twostate predicate OnlyFreeChanges(cbs: CBS)
    reads cbs, cbs.splayTree, cbs.emergencyBlocks, cbs.emergencyGrains, cbs.memory
  {
    forall x | 0 <= x < cbs.memory.Length && cbs.memory[x] != old(cbs.memory[x]) :: x in cbs.Free()
  }

  method Perform(cbs: CBS, op: Op) returns (a: Answer)
    requires cbs.Valid() && cbs.mayUseInline && Allowed(cbs, op)
    requires op.Insert? ==> !Meets(cbs.All(), op.r)
    requires op.Write? ==> op.address !in cbs.Free()
    modifies cbs`splayTree, cbs`announced, cbs`minSize,
             cbs.splayTree, cbs.emergencyBlocks, cbs.emergencyGrains, cbs.memory
    ensures cbs.Valid() && IsRight(old(cbs.All()), op, a) && cbs.All() == After(old(cbs.All()), op, a)
    ensures forall b | b in cbs.splayTree :: b in old(cbs.splayTree) || fresh(b)
    ensures cbs.minSize == if op.SetMinSize? then op.minSize else old(cbs.minSize)
    ensures op.Write? ==> cbs.memory[..] == old(cbs.memory[..])[op.address := op.value]
    ensures !op.Write? ==> OnlyFreeChanges(cbs)
  {
    match op {
      case Insert(r) =>
        EmergencyIsApart(cbs, r);
        var res, base, limit;
        ghost var held, refused;
        res, base, limit, held, refused := cbs.Insert(r.base, r.limit);
        a := Answer(res == ResOK, Range(base, limit));
      case Delete(r) =>
        a := PerformDelete(cbs, r);
      case SetMinSize(size) =>
        cbs.SetMinSize(size);
        a := Answer(true, Range(0, 0));
      case Write(address, value) =>
        WriteWord(cbs, address, value);
        a := Answer(true, Range(0, 0));
      case FindFirst(_, _) =>
        a := PerformFindFirst(cbs, op);
      case FindLast(_, _) =>
        a := PerformFindLast(cbs, op);
      case FindLargest(_) =>
        a := PerformFindLargest(cbs, op);
    }
  }

  /** What the client writes to its own memory does not disturb the lists kept in free memory. */
  method WriteWord(cbs: CBS, address: nat, value: nat)
    requires cbs.Valid() && address < cbs.memory.Length && address !in cbs.Free()
    modifies cbs.memory
    ensures cbs.Valid() && cbs.All() == old(cbs.All()) && cbs.Tree() == old(cbs.Tree())
    ensures cbs.memory[..] == old(cbs.memory[..])[address := value]
  {
    ghost var m, blocks, grains := cbs.memory[..], cbs.emergencyBlocks, cbs.emergencyGrains;
    assert forall r | r in blocks.ranges || r in grains.ranges :: r in cbs.All() && !r.Contains(address);
    cbs.memory[address] := value;
    ChainFrame(blocks.kind, m, cbs.memory[..], blocks.head, blocks.ranges);
    ChainFrame(grains.kind, m, cbs.memory[..], grains.head, grains.ranges);
  }

  method PerformDelete(cbs: CBS, r: Range) returns (a: Answer)
    requires cbs.Valid() && cbs.mayUseInline && Allowed(cbs, Delete(r))
    modifies cbs`splayTree, cbs`announced, cbs.splayTree, cbs.emergencyBlocks, cbs.emergencyGrains, cbs.memory
    ensures cbs.Valid() && IsRight(old(cbs.All()), Delete(r), a) && cbs.All() == After(old(cbs.All()), Delete(r), a)
    ensures forall b | b in cbs.splayTree :: b in old(cbs.splayTree) || fresh(b)
    ensures OnlyFreeChanges(cbs)
  {
    ghost var s := cbs.All();
    ghost var q, refused;
    var res;
    res, q, refused := cbs.Delete(r.base, r.limit);
    a := Answer(res == ResOK, r);
    DeleteTakes(s, r, q, a);
  }

  lemma DeleteTakes(s: set<Range>, r: Range, q: Range, a: Answer)
    requires Isolated(s) && r.base < r.limit && a.range == r && (a.ok <==> Addresses(r) <= Cover(s))
    requires a.ok ==> Holds(s, r, q)
    ensures IsRight(s, Delete(r), a)
    ensures After(s, Delete(r), a) == if a.ok then Carved(s, q, r) else s
  {
    HoldsIsCovering(s, r);
    if a.ok {
      TakenIsIsolated(s, r);
    }
  }

  method PerformFindFirst(cbs: CBS, op: Op) returns (a: Answer)
    requires cbs.Valid() && cbs.mayUseInline && Allowed(cbs, op) && op.FindFirst?
    modifies cbs`splayTree, cbs`announced, cbs.splayTree, cbs.emergencyBlocks, cbs.emergencyGrains, cbs.memory
    ensures cbs.Valid() && IsRight(old(cbs.All()), op, a) && cbs.All() == After(old(cbs.All()), op, a)
    ensures forall b | b in cbs.splayTree :: b in old(cbs.splayTree) || fresh(b)
    ensures OnlyFreeChanges(cbs)
  {
    ghost var s := cbs.All();
    ghost var q, refused;
    var found, base, limit;
    found, base, limit, q, refused := cbs.FindFirst(op.size, op.findDelete);
    assert found ==> IsLowest(s, op.size, q);
    a := Answer(found, Range(base, limit));
    if found {
      FindTakes(s, op, q, a);
    }
  }

  method PerformFindLast(cbs: CBS, op: Op) returns (a: Answer)
    requires cbs.Valid() && cbs.mayUseInline && Allowed(cbs, op) && op.FindLast?
    modifies cbs`splayTree, cbs`announced, cbs.splayTree, cbs.emergencyBlocks, cbs.emergencyGrains, cbs.memory
    ensures cbs.Valid() && IsRight(old(cbs.All()), op, a) && cbs.All() == After(old(cbs.All()), op, a)
    ensures forall b | b in cbs.splayTree :: b in old(cbs.splayTree) || fresh(b)
    ensures OnlyFreeChanges(cbs)
  {
    ghost var s := cbs.All();
    ghost var q, refused;
    var found, base, limit;
    found, base, limit, q, refused := cbs.FindLast(op.size, op.findDelete);
    assert found ==> IsHighest(s, op.size, q);
    a := Answer(found, Range(base, limit));
    if found {
      FindTakes(s, op, q, a);
    }
  }

  method PerformFindLargest(cbs: CBS, op: Op) returns (a: Answer)
    requires cbs.Valid() && cbs.mayUseInline && Allowed(cbs, op) && op.FindLargest?
    modifies cbs`splayTree, cbs`announced, cbs.splayTree, cbs.emergencyBlocks, cbs.emergencyGrains, cbs.memory
    ensures cbs.Valid() && IsRight(old(cbs.All()), op, a) && cbs.All() == After(old(cbs.All()), op, a)
    ensures forall b | b in cbs.splayTree :: b in old(cbs.splayTree) || fresh(b)
    ensures OnlyFreeChanges(cbs)
  {
    ghost var s := cbs.All();
    ghost var q, refused;
    var found, base, limit;
    found, base, limit, q, refused := cbs.FindLargest(op.findDelete);
    a := Answer(found, Range(base, limit));
    if found {
      FindTakes(s, op, q, a);
    }
  }

  /** What a find takes from the range it has found. */
  lemma FindTakes(s: set<Range>, op: Op, q: Range, a: Answer)
    requires Isolated(s) && a.ok && Holds(s, a.range, q) && a.range.base < a.range.limit
    requires op.FindFirst? || op.FindLast? || op.FindLargest?
    ensures After(s, op, a) == if op.findDelete == FindDeleteNONE then s else Carved(s, q, a.range)
    ensures a.range == q ==> Carved(s, q, a.range) == s - {q}
  {
    TakenIsIsolated(s, a.range);
  }

  lemma EmergencyIsApart(cbs: CBS, r: Range)
    requires cbs.Valid() && !Meets(cbs.All(), r)
    ensures !Hidden(cbs.Blocks(), cbs.Grains(), r)
  {
    assert forall s | s in cbs.Grains() :: s in cbs.All();
  }

  /** An operation leaves alone what the client has written and not freed. */
  lemma StillKept(was: seq<nat>, memory: seq<nat>, s: set<Range>, m: map<nat, nat>, op: Op, a: Answer)
    requires Isolated(s) && Proper(op) && IsRight(s, op, a) && Keeps(was, Cover(s), m) && |memory| == |was|
    requires if op.Write? then
               op.address < |was| && op.address !in Cover(s) && memory == was[op.address := op.value]
             else forall x | 0 <= x < |was| && memory[x] != was[x] :: x in Cover(After(s, op, a))
    ensures Keeps(memory, Cover(After(s, op, a)), ContentsAfter(m, op, a))
  {
    StepKeepsIsolation(s, op, a);
    var now := ContentsAfter(m, op, a);
    forall x | x in now ensures KeepsAt(memory, Cover(After(s, op, a)), x, now[x]) {
      assert x in m ==> KeepsAt(was, Cover(s), x, m[x]);
      assert op.Insert? && a.ok ==> x !in Addresses(op.r);
    }
  }

  method PerformKept(cbs: CBS, op: Op, ghost m: map<nat, nat>) returns (a: Answer)
    requires cbs.Valid() && cbs.mayUseInline && Allowed(cbs, op) && Keeps(cbs.memory[..], cbs.Free(), m)
    requires op.Insert? ==> !Meets(cbs.All(), op.r)
    requires op.Write? ==> op.address !in cbs.Free()
    modifies cbs`splayTree, cbs`announced, cbs`minSize,
             cbs.splayTree, cbs.emergencyBlocks, cbs.emergencyGrains, cbs.memory
    ensures cbs.Valid() && IsRight(old(cbs.All()), op, a) && cbs.All() == After(old(cbs.All()), op, a)
    ensures forall b | b in cbs.splayTree :: b in old(cbs.splayTree) || fresh(b)
    ensures Keeps(cbs.memory[..], cbs.Free(), ContentsAfter(m, op, a))
  {
    ghost var was, s := cbs.memory[..], cbs.All();
    a := Perform(cbs, op);
    StillKept(was, cbs.memory[..], s, m, op, a);
  }

  lemma OneMore(client: Client, before: seq<Answer>, a: Answer)
    ensures AfterAll(client, before + [a]) == After(AfterAll(client, before), client(before), a)
    ensures Contents(client, before + [a]) == ContentsAfter(Contents(client, before), client(before), a)
    ensures AllRight(client, before + [a]) <==>
            AllRight(client, before) && IsRight(AfterAll(client, before), client(before), a)
  {
    assert (before + [a])[..|before|] == before;
  }

  method RunOne(cbs: CBS, client: Client, before: seq<Answer>) returns (answers: seq<Answer>)
    requires cbs.Valid() && cbs.mayUseInline && KeepsRules(cbs, client)
    requires AllRight(client, before) && cbs.All() == AfterAll(client, before)
    requires Keeps(cbs.memory[..], cbs.Free(), Contents(client, before))
    modifies cbs`splayTree, cbs`announced, cbs`minSize,
             cbs.splayTree, cbs.emergencyBlocks, cbs.emergencyGrains, cbs.memory
    ensures cbs.Valid() && |answers| == |before| + 1
    ensures AllRight(client, answers) && cbs.All() == AfterAll(client, answers)
    ensures Keeps(cbs.memory[..], cbs.Free(), Contents(client, answers))
    ensures forall b | b in cbs.splayTree :: b in old(cbs.splayTree) || fresh(b)
  {
    var answer := PerformKept(cbs, client(before), Contents(client, before));
    answers := before + [answer];
    OneMore(client, before, answer);
  }

  /** Over any run of any client that frees and writes only what is not free, however often a block cannot be
      allocated, the tree and the two emergency lists together hold the reference's ranges, every answer is right,
      and what the client has written is still there until it frees it. */
  method Run(cbs: CBS, client: Client, n: nat) returns (answers: seq<Answer>)
    requires cbs.Valid() && cbs.All() == {} && cbs.mayUseInline && KeepsRules(cbs, client)
    modifies cbs`splayTree, cbs`announced, cbs`minSize,
             cbs.splayTree, cbs.emergencyBlocks, cbs.emergencyGrains, cbs.memory
    ensures cbs.Valid() && |answers| == n
    ensures AllRight(client, answers) && cbs.All() == AfterAll(client, answers)
    ensures Keeps(cbs.memory[..], cbs.Free(), Contents(client, answers))
  {
    answers := [];
    while |answers| < n
      invariant cbs.Valid() && |answers| <= n
      invariant AllRight(client, answers) && cbs.All() == AfterAll(client, answers)
      invariant Keeps(cbs.memory[..], cbs.Free(), Contents(client, answers))
      invariant forall b | b in cbs.splayTree :: b in old(cbs.splayTree) || fresh(b)
    {
      answers := RunOne(cbs, client, answers);
    }
  }
}
