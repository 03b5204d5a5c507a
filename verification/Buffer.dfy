/** Allocation buffers: the two-phase reserve and commit protocol, and the flips it races with.

  A client reserves memory by advancing alloc, initializes an object there, and commits it by advancing
  init.  A collector flip may happen between any two of the client's memory accesses.  Setting limit to
  zero traps the buffer, so that the client's next access to limit takes it out of line.
*/
module Buffers {
  import opened DivMod

  /** Addresses are words, and adding to them wraps round. */
  const SPACE := 0x1_0000_0000

  function AddrAdd(addr: nat, size: nat): nat {
    (addr + size) % SPACE
  }

  predicate IsAligned(addr: nat, alignment: nat) {
    0 < alignment && addr % alignment == 0
  }

  datatype BufferState = BufferState(
    base: nat, initAtFlip: nat, init: nat, alloc: nat, limit: nat, poolLimit: nat,
    attached: bool, flipped: bool, logged: bool,
    ranked: bool, isMutator: bool, alignment: nat) {

    predicate IsTrapped() {
      flipped || logged
    }

    predicate IsReady() {
      init == alloc
    }

    /** How far it is safe to scan. */
    function ScanLimit(): nat {
      if flipped then initAtFlip else init
    }

    /** The consistency of a buffer, as the source checks it. */
    ghost predicate Check() {
      Ordered() && Aligned()
    }

    predicate Ordered() {
      && (!attached ==> base == initAtFlip == init == alloc == limit == poolLimit == 0 && !flipped)
      && (attached ==> 0 < base <= init <= alloc <= poolLimit < SPACE)
      && (attached && IsTrapped() ==> limit == 0)
      && (flipped ==> (init == initAtFlip || init == alloc) && base <= initAtFlip <= init)
      && (attached && !IsTrapped() ==> limit == poolLimit)
      && (!flipped ==> initAtFlip == 0)
    }

    ghost predicate Aligned() {
      && IsAligned(base, alignment) && IsAligned(initAtFlip, alignment) && IsAligned(init, alignment)
      && IsAligned(alloc, alignment) && IsAligned(limit, alignment) && IsAligned(poolLimit, alignment)
    }

    function Unflipped(): BufferState {
      this.(flipped := false, initAtFlip := 0, limit := if logged then limit else poolLimit)
    }

    function Flipped(): BufferState {
      if ranked && !flipped && attached then this.(initAtFlip := init, limit := 0, flipped := true) else this
    }

    function Detached(): BufferState {
      this.(base := 0, initAtFlip := 0, init := 0, alloc := 0, limit := 0, poolLimit := 0, attached := false,
            flipped := false)
    }

    /** What lies below init in the region is allocated already. */
    function Attached(region: Region, init: nat, size: nat): BufferState {
      this.(attached := true, base := region.base, init := init, alloc := AddrAdd(init, size),
        limit := if logged then limit else region.limit, poolLimit := region.limit)
    }

    /** Whether there is room below an address for size more bytes. */
    predicate HasRoom(size: nat, below: nat) {
      alloc < AddrAdd(alloc, size) <= below
    }

    /** A trapped buffer is first unflipped and then tried again, up to the limit the pool gave. */
    function Retried(): BufferState {
      if attached && limit == 0 && flipped then Unflipped() else this
    }
  }

  datatype Region = Region(base: nat, limit: nat)
  datatype Grant = Refused | Granted(region: Region)

  /** The arena's totals.  The source keeps them as floating point numbers. */
  datatype Totals = Totals(fillMutator: int, emptyMutator: int, allocMutator: int, fillInternal: int,
      emptyInternal: int) {
    function AfterDetach(b: BufferState): Totals {
      if b.isMutator then
        this.(emptyMutator := emptyMutator + (b.poolLimit - b.init), allocMutator := allocMutator + (b.init - b.base))
      else this.(emptyInternal := emptyInternal + (b.poolLimit - b.init))
    }

    /** What a region holds already is taken off what has been allocated, since detaching the buffer will count
        it as allocated from the buffer. */
    function AfterAttach(b: BufferState, region: Region, init: nat): Totals {
      if b.isMutator then
        this.(fillMutator := fillMutator + (region.limit - init), allocMutator := allocMutator - (init - region.base))
      else this.(fillInternal := fillInternal + (region.limit - init))
    }

    function NetMutator(): int {
      fillMutator - emptyMutator - allocMutator
    }
  }

  /** What a pool undertakes when it grants a region. */
  ghost predicate Suits(b: BufferState, region: Region, size: nat) {
    && 0 < region.base && region.base + size <= region.limit < SPACE
    && IsAligned(region.base, b.alignment) && IsAligned(region.limit, b.alignment)
  }

  /** Where the client is in the protocol. */
  datatype Pc =
    | Idle
    | Filling(size: nat)
    | Bumping(next: nat, size: nat)
    | Reserved(p: nat, size: nat)
    | Updated(p: nat, size: nat)
    | Tripping(p: nat, size: nat)

  datatype Machine = Machine(b: BufferState, t: Totals, pc: Pc)

  /** The atomic steps: the client's accesses to the buffer, the calls that hold the arena lock, and flips. */
  datatype Event =
    | ReserveTest(size: nat) | ReserveBump | Fill(grant: Grant)
    | CommitUpdate | CommitTest | Trip
    | Flip | Detach

  ghost predicate Enabled(m: Machine, e: Event) {
    match e
    case ReserveTest(size) => m.pc.Idle? && 0 < size < SPACE && IsAligned(size, m.b.alignment)
    case Fill(grant) => m.pc.Filling? && (grant.Granted? ==> Suits(m.b, grant.region, m.pc.size))
    case ReserveBump => m.pc.Bumping?
    case CommitUpdate => m.pc.Reserved?
    case CommitTest => m.pc.Updated?
    case Trip => m.pc.Tripping?
    case Flip => true
    case Detach => m.pc.Idle?
  }

  /** Whether a fill of a trapped buffer finds room without a new region. */
  predicate FillsInPlace(b: BufferState, size: nat) {
    b.attached && b.limit == 0 && b.HasRoom(size, b.poolLimit)
  }

  function FillStep(m: Machine, size: nat, grant: Grant): Machine {
    var b := m.b.Retried();
    if FillsInPlace(m.b, size) then
      Machine(b.(alloc := AddrAdd(b.alloc, size)), m.t, Reserved(b.init, size))
    else
      var d := if b.attached then b.Detached() else b;
      var t := if b.attached then m.t.AfterDetach(b) else m.t;
      match grant
      case Refused => Machine(d, t, Idle)
      case Granted(region) =>
        var base := region.base;
        Machine(d.Attached(region, base, size), t.AfterAttach(d, region, base), Reserved(base, size))
  }

  /** A trip undoes the reservation if a flip came before the commit updated init. */
  predicate TripFails(b: BufferState) {
    b.flipped && b.init != b.initAtFlip
  }

  function Step(m: Machine, e: Event): Machine {
    match (e, m.pc)
    case (ReserveTest(size), Idle) =>
      m.(pc := if m.b.HasRoom(size, m.b.limit) then Bumping(AddrAdd(m.b.alloc, size), size) else Filling(size))
    case (ReserveBump, Bumping(next, size)) => m.(b := m.b.(alloc := next), pc := Reserved(m.b.init, size))
    case (Fill(grant), Filling(size)) => FillStep(m, size, grant)
    case (CommitUpdate, Reserved(p, size)) => m.(b := m.b.(init := m.b.alloc), pc := Updated(p, size))
    case (CommitTest, Updated(p, size)) => m.(pc := if m.b.limit == 0 then Tripping(p, size) else Idle)
    case (Trip, Tripping(p, size)) =>
      if TripFails(m.b) then m.(b := m.b.(init := p, alloc := p), pc := Idle) else m.(pc := Idle)
    case (Flip, _) => m.(b := m.b.Flipped())
    case (Detach, Idle) => if m.b.attached then m.(b := m.b.Detached(), t := m.t.AfterDetach(m.b)) else m
    case _ => m
  }

  // ---------- Runs ----------

  /** The state after a sequence of events, in whatever order the client and the collector make them. */
  ghost predicate Possible(m: Machine, es: seq<Event>) {
    es == [] || (Possible(m, Before(es)) && Enabled(After(m, Before(es)), Last(es)))
  }

  function After(m: Machine, es: seq<Event>): Machine {
    if es == [] then m else Step(After(m, Before(es)), Last(es))
  }

  function Before(es: seq<Event>): seq<Event>
    requires es != []
  {
    es[..|es| - 1]
  }

  function Last(es: seq<Event>): Event
    requires es != []
  {
    es[|es| - 1]
  }

  /** A buffer fresh from initialization. */
  ghost predicate Initial(m: Machine) {
    m.pc.Idle? && !m.b.attached && m.b.Check()
  }

  /** A flip that does something: the buffer has references, is attached and is not already flipped. */
  predicate Effective(b: BufferState, e: Event) {
    e.Flip? && b.ranked && b.attached && !b.flipped
  }

  /** Whether an effective flip has fallen between the last reservation and the update of init that commits it. */
  ghost predicate Hit(m: Machine, es: seq<Event>) {
    es != [] && StillHit(After(m, Before(es)), Last(es), Hit(m, Before(es)))
  }

  /** Whether a step completes a commit, and whether the commit succeeds. */
  predicate Commits(m: Machine, e: Event) {
    (e.CommitTest? && m.pc.Updated? && m.b.limit != 0) || (e.Trip? && m.pc.Tripping? && !TripFails(m.b))
  }

  predicate FailsCommit(m: Machine, e: Event) {
    e.Trip? && m.pc.Tripping? && TripFails(m.b)
  }

  /** Whether a step detaches the buffer from its region. */
  predicate Detaches(m: Machine, e: Event) {
    && m.b.attached
    && ((e.Detach? && m.pc.Idle?) || (e.Fill? && m.pc.Filling? && !FillsInPlace(m.b, m.pc.size)))
  }

  /** The ends of the objects committed since the buffer was last detached. */
  ghost function Committed(m: Machine, es: seq<Event>): seq<nat> {
    if es == [] then []
    else
      var was := After(m, Before(es));
      if Detaches(was, Last(es)) then []
      else if Commits(was, Last(es)) then Committed(m, Before(es)) + [was.pc.p + was.pc.size]
      else Committed(m, Before(es))
  }

  ghost function Failures(m: Machine, es: seq<Event>): nat {
    if es == [] then 0
    else Failures(m, Before(es)) + if FailsCommit(After(m, Before(es)), Last(es)) then 1 else 0
  }

  ghost function Flips(m: Machine, es: seq<Event>): nat {
    if es == [] then 0
    else Flips(m, Before(es)) + if Effective(After(m, Before(es)).b, Last(es)) then 1 else 0
  }

  /** What holds of the buffer at each point of the client's protocol. */
  ghost predicate PcHolds(m: Machine, hit: bool) {
    var b := m.b;
    match m.pc
    case Idle => b.IsReady() && (b.flipped ==> b.initAtFlip == b.init)
    case Filling(size) =>
      && b.IsReady() && (b.flipped ==> b.initAtFlip == b.init)
      && 0 < size < SPACE && (b.limit != 0 ==> !b.HasRoom(size, b.limit))
    case Bumping(next, size) =>
      && b.attached && b.IsReady() && 0 < size && next == b.alloc + size <= b.poolLimit
      && (b.flipped <==> hit) && (b.flipped ==> b.initAtFlip == b.init)
    case Reserved(p, size) =>
      && b.attached && 0 < size && p == b.init && b.alloc == p + size
      && (b.flipped <==> hit) && (b.flipped ==> b.initAtFlip == b.init)
    case _ =>
      var p, size := m.pc.p, m.pc.size;
      && b.attached && 0 < size && b.IsReady() && b.init == p + size && b.base <= p
      && (hit ==> b.flipped && b.initAtFlip == p)
      && (b.flipped && !hit ==> b.initAtFlip == b.init)
      && (m.pc.Tripping? ==> b.limit == 0)
  }

  ghost predicate Holds(m: Machine, hit: bool) {
    m.b.Ordered() && PcHolds(m, hit)
  }

  /** Whether a flip has fallen between reservation and update, after one more step. */
  ghost predicate StillHit(m: Machine, e: Event, hit: bool) {
    if e.ReserveTest? || e.Fill? then false
    else hit || (Effective(m.b, e) && (m.pc.Bumping? || m.pc.Reserved?))
  }

  /** Every step keeps the buffer's fields in order. */
  lemma StepHolds(m: Machine, e: Event, hit: bool)
    requires Holds(m, hit) && Enabled(m, e)
    ensures Holds(Step(m, e), StillHit(m, e, hit))
  {
    match e
    case Fill(grant) => FillHolds(m, m.pc.size, grant);
    case Trip => TripHolds(m, hit);
    case Flip => FlipHolds(m, hit);
    case _ =>
  }

  lemma FlipHolds(m: Machine, hit: bool)
    requires Holds(m, hit)
    ensures Holds(Step(m, Flip), StillHit(m, Flip, hit))
  {
  }

  /** A fill finds room in a trapped buffer or attaches a new region; when it detaches there is really no room. */
  lemma FillHolds(m: Machine, size: nat, grant: Grant)
    requires m.b.Ordered() && m.b.IsReady() && (m.b.flipped ==> m.b.initAtFlip == m.b.init) && 0 < size < SPACE
    requires m.b.limit != 0 ==> !m.b.HasRoom(size, m.b.limit)
    requires grant.Granted? ==> Suits(m.b, grant.region, size)
    ensures Holds(FillStep(m, size, grant), false)
    ensures !FillsInPlace(m.b, size) ==>
              m.b.poolLimit < AddrAdd(m.b.alloc, size) || AddrAdd(m.b.alloc, size) < m.b.alloc
  {
    var b := m.b.Retried();
    SumIfNoWrap(m.b.alloc, size);
    if FillsInPlace(m.b, size) {
      assert AddrAdd(b.alloc, size) == b.alloc + size;
    } else {
      var d := if b.attached then b.Detached() else b;
      assert d.Ordered() && !d.attached;
      if grant.Granted? {
        AttachedHolds(d, grant.region, size);
      }
    }
  }

  lemma SumIfNoWrap(addr: nat, size: nat)
    requires addr < SPACE && 0 < size < SPACE
    ensures AddrAdd(addr, size) == if addr + size < SPACE then addr + size else addr + size - SPACE
  {
  }

  lemma AttachedHolds(d: BufferState, region: Region, size: nat)
    requires d.Ordered() && !d.attached && 0 < size && Suits(d, region, size)
    ensures var b := d.Attached(region, region.base, size);
            b.Ordered() && b.alloc == region.base + size && !b.flipped
  {
  }

  lemma TripHolds(m: Machine, hit: bool)
    requires Holds(m, hit) && m.pc.Tripping?
    ensures Holds(Step(m, Trip), hit)
    ensures TripFails(m.b) <==> hit
  {
  }

  // ---------- Alignment ----------

  ghost predicate PcAligned(m: Machine) {
    match m.pc
    case Idle => true
    case Filling(size) => IsAligned(size, m.b.alignment)
    case Bumping(next, size) => IsAligned(next, m.b.alignment)
    case _ => IsAligned(m.pc.p, m.b.alignment)
  }

  /** Every step keeps the buffer's fields aligned. */
  lemma StepAligned(m: Machine, e: Event, hit: bool)
    requires Holds(m, hit) && Enabled(m, e) && m.b.Aligned() && PcAligned(m)
    ensures Step(m, e).b.Aligned() && PcAligned(Step(m, e))
  {
    match e
    case ReserveTest(size) => AlignedSum(m.b.alloc, size, m.b.alignment);
    case Fill(grant) => FillAligned(m, m.pc.size, grant);
    case _ =>
  }

  lemma AlignedSum(addr: nat, size: nat, alignment: nat)
    requires IsAligned(addr, alignment) && IsAligned(size, alignment)
    ensures IsAligned(addr + size, alignment)
  {
    ModAddMultiple(addr, size, alignment);
  }

  lemma ZeroAligned(alignment: nat)
    requires 0 < alignment
    ensures IsAligned(0, alignment)
  {
    DivModUnique(0, alignment, 0, 0);
  }

  lemma FillAligned(m: Machine, size: nat, grant: Grant)
    requires m.b.Ordered() && m.b.Aligned() && m.b.IsReady() && 0 < size < SPACE && IsAligned(size, m.b.alignment)
    requires grant.Granted? ==> Suits(m.b, grant.region, size)
    ensures FillStep(m, size, grant).b.Aligned() && PcAligned(FillStep(m, size, grant))
  {
    ZeroAligned(m.b.alignment);
    if FillsInPlace(m.b, size) {
      AlignedSum(m.b.alloc, size, m.b.alignment);
      assert AddrAdd(m.b.alloc, size) == m.b.alloc + size;
    } else if grant.Granted? {
      AlignedSum(grant.region.base, size, m.b.alignment);
      assert AddrAdd(grant.region.base, size) == grant.region.base + size;
    }
  }

  // ---------- What every run keeps ----------

  lemma {:induction false} RunHolds(m: Machine, es: seq<Event>)
    requires Initial(m) && Possible(m, es)
    ensures Holds(After(m, es), Hit(m, es)) && After(m, es).b.Check() && PcAligned(After(m, es))
  {
    if es != [] {
      RunHolds(m, Before(es));
      StepHolds(After(m, Before(es)), Last(es), Hit(m, Before(es)));
      StepAligned(After(m, Before(es)), Last(es), Hit(m, Before(es)));
    }
  }

  /** Consistency: base, init, alloc and the pool's limit stay in order, whatever the interleaving. */
  lemma BufferIsConsistent(m: Machine, es: seq<Event>)
    requires Initial(m) && Possible(m, es)
    ensures After(m, es).b.Check()
  {
    RunHolds(m, es);
  }

  /** A commit fails exactly if an effective flip fell between its reservation and its update of init. */
  lemma CommitFailsIffHit(m: Machine, es: seq<Event>, e: Event)
    requires Initial(m) && Possible(m, es + [e])
    ensures FailsCommit(After(m, es), e) ==> Hit(m, es)
    ensures Commits(After(m, es), e) ==> !Hit(m, es)
  {
    assert Before(es + [e]) == es;
    RunHolds(m, es);
    if FailsCommit(After(m, es), e) {
      TripHolds(After(m, es), Hit(m, es));
    }
  }

  /** Objects committed since the last detachment are below the scan limit, now and until detachment,
      and below anything reserved later. */
  lemma {:induction false} CommittedAreScanned(m: Machine, es: seq<Event>)
    requires Initial(m) && Possible(m, es)
    ensures forall end | end in Committed(m, es) :: end <= After(m, es).b.ScanLimit() && end <= After(m, es).b.init
    ensures Committed(m, es) != [] ==> After(m, es).b.attached
  {
    if es != [] {
      CommittedAreScanned(m, Before(es));
      RunHolds(m, Before(es));
      RunHolds(m, es);
    }
  }

  /** No more commits fail than there are effective flips, so retrying ends when flips do. */
  lemma {:induction false} FailuresAreFlips(m: Machine, es: seq<Event>)
    requires Initial(m) && Possible(m, es)
    ensures Failures(m, es) + (if Hit(m, es) && !After(m, es).pc.Idle? then 1 else 0) <= Flips(m, es)
  {
    if es != [] {
      FailuresAreFlips(m, Before(es));
      RunHolds(m, Before(es));
    }
  }

  /** After a failed commit the buffer is still trapped: the next reservation must go to fill, which
      unflips the buffer before allocating. */
  lemma RetryUnflips(m: Machine, es: seq<Event>, size: nat, grant: Grant)
    requires Initial(m) && Possible(m, es + [Trip]) && FailsCommit(After(m, es), Trip)
    requires Possible(m, es + [Trip] + [ReserveTest(size)] + [Fill(grant)])
    ensures After(m, es + [Trip] + [ReserveTest(size)]).pc == Filling(size)
    ensures !After(m, es + [Trip] + [ReserveTest(size)] + [Fill(grant)]).b.flipped
    ensures FillsInPlace(After(m, es + [Trip] + [ReserveTest(size)]).b, size) ==>
              After(m, es + [Trip] + [ReserveTest(size)] + [Fill(grant)]).pc == Reserved(After(m, es).pc.p, size)
  {
    var es1, es2 := es + [Trip], es + [Trip] + [ReserveTest(size)];
    assert Before(es1) == es && Before(es2) == es1 && Before(es2 + [Fill(grant)]) == es2;
    RunHolds(m, es);
    RunHolds(m, es1);
  }

  // ---------- Accounting ----------

  /** The bytes of a mutator buffer's region. */
  function Extent(b: BufferState): int {
    if b.isMutator then b.poolLimit - b.base else 0
  }

  function Extents(cs: seq<(BufferState, Pc)>): int {
    if cs == [] then 0 else Extents(cs[..|cs| - 1]) + Extent(cs[|cs| - 1].0)
  }

  /** Any number of buffers share the totals. */
  datatype World = World(clients: seq<(BufferState, Pc)>, t: Totals) {
    function Client(i: nat): Machine
      requires i < |clients|
    {
      Machine(clients[i].0, t, clients[i].1)
    }

    function Next(i: nat, e: Event): World
      requires i < |clients|
    {
      var m := Step(Client(i), e);
      World(clients[i := (m.b, m.pc)], m.t)
    }
  }

  ghost predicate WorldHolds(w: World, hits: seq<bool>) {
    |hits| == |w.clients| && forall i | 0 <= i < |hits| :: Holds(w.Client(i), hits[i])
  }

  /** What has been filled and neither emptied nor allocated is what the attached buffers have. */
  ghost predicate Balanced(w: World) {
    w.t.NetMutator() == Extents(w.clients)
  }

  lemma {:induction false} ExtentsChange(cs: seq<(BufferState, Pc)>, i: nat, c: (BufferState, Pc))
    requires i < |cs|
    ensures Extents(cs[i := c]) - Extent(c.0) == Extents(cs) - Extent(cs[i].0)
  {
    var n := |cs| - 1;
    if i == n {
      assert cs[..n] == cs[i := c][..n];
    } else {
      ExtentsChange(cs[..n], i, c);
      assert cs[..n][i := c] == cs[i := c][..n];
    }
  }

  /** Attaching a region changes the net total by its whole extent, whatever it holds already.  Detaching the
      buffer at once takes it all off again: all that was filled has been emptied, and nothing has been allocated. */
  lemma AttachBalances(t: Totals, b: BufferState, region: Region, init: nat, size: nat)
    requires Extent(b) == 0
    ensures var c := b.Attached(region, init, size);
            && t.AfterAttach(b, region, init).NetMutator() - Extent(c) == t.NetMutator()
            && t.AfterAttach(b, region, init).AfterDetach(c).NetMutator() == t.NetMutator()
    ensures var t' := t.AfterAttach(b, region, init).AfterDetach(b.Attached(region, init, size));
            t' == if b.isMutator then t.(fillMutator := t.fillMutator + (region.limit - init),
                                         emptyMutator := t.emptyMutator + (region.limit - init))
                  else t.(fillInternal := t.fillInternal + (region.limit - init),
                          emptyInternal := t.emptyInternal + (region.limit - init))
  {
  }

  /** A step changes the totals by as much as it changes the extent of its buffer. */
  lemma StepBalances(m: Machine, e: Event, hit: bool)
    requires Holds(m, hit) && Enabled(m, e)
    ensures Step(m, e).t.NetMutator() - Extent(Step(m, e).b) == m.t.NetMutator() - Extent(m.b)
  {
  }

  /** Every step of any buffer keeps the accounts balanced. */
  lemma WorldStepBalances(w: World, hits: seq<bool>, i: nat, e: Event)
    requires WorldHolds(w, hits) && Balanced(w) && i < |hits| && Enabled(w.Client(i), e)
    ensures WorldHolds(w.Next(i, e), hits[i := StillHit(w.Client(i), e, hits[i])]) && Balanced(w.Next(i, e))
  {
    var m := w.Client(i);
    StepHolds(m, e, hits[i]);
    StepBalances(m, e, hits[i]);
    ExtentsChange(w.clients, i, (Step(m, e).b, Step(m, e).pc));
  }

  ghost predicate WorldPossible(w: World, es: seq<(nat, Event)>)
    decreases |es|
  {
    es == [] ||
    (es[0].0 < |w.clients| && Enabled(w.Client(es[0].0), es[0].1) && WorldPossible(w.Next(es[0].0, es[0].1), es[1..]))
  }

  function WorldAfter(w: World, es: seq<(nat, Event)>): World
    decreases |es|
  {
    if es == [] || es[0].0 >= |w.clients| then w else WorldAfter(w.Next(es[0].0, es[0].1), es[1..])
  }

  lemma {:induction false} ExtentsNonNegative(w: World, hits: seq<bool>, n: nat)
    requires WorldHolds(w, hits) && n <= |hits|
    ensures 0 <= Extents(w.clients[..n])
  {
    if 0 < n {
      ExtentsNonNegative(w, hits, n - 1);
      assert w.clients[..n][..n - 1] == w.clients[..n - 1];
      assert Holds(w.Client(n - 1), hits[n - 1]);
    }
  }

  /** Over every run of any number of buffers: what has been filled and neither emptied nor allocated is what
      the attached mutator buffers have, so it is never negative. */
  lemma {:induction false} AccountsBalance(w: World, hits: seq<bool>, es: seq<(nat, Event)>)
    requires WorldHolds(w, hits) && Balanced(w) && WorldPossible(w, es)
    ensures Balanced(WorldAfter(w, es)) && 0 <= WorldAfter(w, es).t.NetMutator()
    decreases |es|
  {
    if es == [] {
      ExtentsNonNegative(w, hits, |hits|);
      assert w.clients[..|hits|] == w.clients;
    } else {
      var i, e := es[0].0, es[0].1;
      WorldStepBalances(w, hits, i, e);
      AccountsBalance(w.Next(i, e), hits[i := StillHit(w.Client(i), e, hits[i])], es[1..]);
    }
  }

  // ---------- Each total by itself ----------

  /** The size a buffer's region was granted with, and the sizes of the objects committed in it since. */
  datatype Log = Log(granted: int, committed: int)

  predicate Attaches(m: Machine, e: Event) {
    e.Fill? && m.pc.Filling? && !FillsInPlace(m.b, m.pc.size) && e.grant.Granted?
  }

  function GrantedBy(m: Machine, e: Event): int {
    if Attaches(m, e) then e.grant.region.limit - e.grant.region.base else 0
  }

  function CommittedBy(m: Machine, e: Event): int {
    if Commits(m, e) then m.pc.size else 0
  }

  function Logged(m: Machine, e: Event, l: Log): Log {
    if Attaches(m, e) then Log(GrantedBy(m, e), 0)
    else if Detaches(m, e) then Log(0, 0)
    else Log(l.granted, l.committed + CommittedBy(m, e))
  }

  /** What the fields of an attached buffer mean: its region is what was granted, and below init are the objects
      committed, and perhaps one that the client has yet to learn about. */
  ghost predicate LogHolds(m: Machine, l: Log) {
    if m.b.attached then
      && m.b.poolLimit - m.b.base == l.granted
      && m.b.init - m.b.base == l.committed + if m.pc.Updated? || m.pc.Tripping? then m.pc.size else 0
    else l == Log(0, 0)
  }

  lemma LogStep(m: Machine, e: Event, hit: bool, l: Log)
    requires Holds(m, hit) && Enabled(m, e) && LogHolds(m, l)
    ensures LogHolds(Step(m, e), Logged(m, e, l)) && Step(m, e).b.isMutator == m.b.isMutator
  {
  }

  /** What a step adds to each of the totals: attaching adds the size granted to what has been filled, and detaching
      adds the objects committed to what has been allocated, and the rest to what has been emptied. */
  lemma StepCounts(m: Machine, e: Event, hit: bool, l: Log)
    requires Holds(m, hit) && Enabled(m, e) && LogHolds(m, l)
    ensures var (t, t', detaches) := (m.t, Step(m, e).t, Detaches(m, e));
            if m.b.isMutator then
              && t'.fillMutator == t.fillMutator + GrantedBy(m, e)
              && t'.allocMutator == t.allocMutator + (if detaches then l.committed else 0)
              && t'.emptyMutator == t.emptyMutator + (if detaches then l.granted - l.committed else 0)
              && t'.fillInternal == t.fillInternal && t'.emptyInternal == t.emptyInternal
            else
              && t'.fillInternal == t.fillInternal + GrantedBy(m, e)
              && t'.emptyInternal == t.emptyInternal + (if detaches then l.granted - l.committed else 0)
              && t'.fillMutator == t.fillMutator && t'.allocMutator == t.allocMutator
              && t'.emptyMutator == t.emptyMutator
  {
  }

  /** The log of a run. */
  ghost function LogOf(m: Machine, es: seq<Event>): Log {
    if es == [] then Log(0, 0) else Logged(After(m, Before(es)), Last(es), LogOf(m, Before(es)))
  }

  lemma {:induction false} RunLogs(m: Machine, es: seq<Event>)
    requires Initial(m) && Possible(m, es)
    ensures LogHolds(After(m, es), LogOf(m, es)) && After(m, es).b.isMutator == m.b.isMutator
  {
    if es != [] {
      RunLogs(m, Before(es));
      RunHolds(m, Before(es));
      LogStep(After(m, Before(es)), Last(es), Hit(m, Before(es)), LogOf(m, Before(es)));
    }
  }

  /** What may be scanned in a region is exactly the objects committed in it, and perhaps one that is about to be:
      never one whose commit is going to fail. */
  lemma ScanLimitIsExact(m: Machine, es: seq<Event>)
    requires Initial(m) && Possible(m, es) && After(m, es).b.attached
    ensures var (b, pc) := (After(m, es).b, After(m, es).pc);
            b.ScanLimit() - b.base ==
            LogOf(m, es).committed + if (pc.Updated? || pc.Tripping?) && !Hit(m, es) then pc.size else 0
  {
    RunHolds(m, es);
    RunLogs(m, es);
  }

  /** Over every run, whatever detaches a mutator's buffer adds the sizes of the objects committed since it was
      attached to what has been allocated, and the rest of the region granted to what has been emptied. */
  lemma DetachCounts(m: Machine, es: seq<Event>, e: Event)
    requires Initial(m) && Possible(m, es + [e]) && Detaches(After(m, es), e)
    ensures var (t, t', l) := (After(m, es).t, After(m, es + [e]).t, LogOf(m, es));
            if m.b.isMutator then
              && t'.allocMutator == t.allocMutator + l.committed
              && t'.emptyMutator == t.emptyMutator + l.granted - l.committed && t'.emptyInternal == t.emptyInternal
            else
              && t'.allocMutator == t.allocMutator && t'.emptyMutator == t.emptyMutator
              && t'.emptyInternal == t.emptyInternal + l.granted - l.committed
  {
    assert Before(es + [e]) == es;
    RunHolds(m, es);
    RunLogs(m, es);
    StepCounts(After(m, es), e, Hit(m, es), LogOf(m, es));
  }

  /** A fill that the pool grants reserves the first of the region, all of which the buffer has then. */
  lemma GrantedFillReserves(m: Machine, es: seq<Event>, region: Region)
    requires Initial(m) && Possible(m, es + [Fill(Granted(region))])
    requires !FillsInPlace(After(m, es).b, After(m, es).pc.size)
    ensures var (size, now) := (After(m, es).pc.size, After(m, es + [Fill(Granted(region))]));
            && now.pc == Reserved(region.base, size) && now.b.attached && !now.b.flipped
            && now.b.base == now.b.init == region.base && now.b.poolLimit == region.limit
            && now.b.alloc == region.base + size && now.b.limit == (if now.b.logged then 0 else region.limit)
  {
    assert Before(es + [Fill(Granted(region))]) == es;
    RunHolds(m, es);
  }

  /** A fill that the pool refuses leaves the buffer detached and reset, with no reservation. */
  lemma RefusedFillResets(m: Machine, es: seq<Event>)
    requires Initial(m) && Possible(m, es + [Fill(Refused)])
    requires !FillsInPlace(After(m, es).b, After(m, es).pc.size)
    ensures var (was, now) := (After(m, es), After(m, es + [Fill(Refused)]));
            && now.pc == Idle && !now.b.attached && !now.b.flipped
            && now.b.base == now.b.init == now.b.alloc == now.b.limit == now.b.poolLimit == now.b.initAtFlip == 0
            && (was.b.attached ==> Detaches(was, Fill(Refused))) && (!was.b.attached ==> now.t == was.t)
  {
    assert Before(es + [Fill(Refused)]) == es;
    RunHolds(m, es);
  }

  /** The logs of all the buffers that are, or are not, a mutator's. */
  function Live(cs: seq<(BufferState, Pc)>, logs: seq<Log>, mutator: bool): Log
    requires |logs| == |cs|
  {
    if cs == [] then Log(0, 0)
    else
      var n := |cs| - 1;
      var rest := Live(cs[..n], logs[..n], mutator);
      if cs[n].0.isMutator == mutator then Log(rest.granted + logs[n].granted, rest.committed + logs[n].committed)
      else rest
  }

  lemma {:induction false} LiveChange(cs: seq<(BufferState, Pc)>, logs: seq<Log>, i: nat, c: (BufferState, Pc), l: Log,
      mutator: bool)
    requires i < |cs| == |logs| && c.0.isMutator == cs[i].0.isMutator
    ensures var (was, now) := (Live(cs, logs, mutator), Live(cs[i := c], logs[i := l], mutator));
            if c.0.isMutator == mutator then
              && now.granted - was.granted == l.granted - logs[i].granted
              && now.committed - was.committed == l.committed - logs[i].committed
            else now == was
  {
    var n := |cs| - 1;
    if i == n {
      assert cs[..n] == cs[i := c][..n] && logs[..n] == logs[i := l][..n];
    } else {
      LiveChange(cs[..n], logs[..n], i, c, l, mutator);
      assert cs[..n][i := c] == cs[i := c][..n] && logs[..n][i := l] == logs[i := l][..n];
    }
  }

  ghost predicate WorldLogged(w: World, logs: seq<Log>) {
    |logs| == |w.clients| && forall i | 0 <= i < |logs| :: LogHolds(w.Client(i), logs[i])
  }

  /** What the pools grant to buffers of a kind, and the sizes of the objects committed in them, over a run. */
  function GrantedIn(w: World, es: seq<(nat, Event)>, mutator: bool): int
    decreases |es|
  {
    if es == [] || es[0].0 >= |w.clients| then 0
    else
      var m := w.Client(es[0].0);
      (if m.b.isMutator == mutator then GrantedBy(m, es[0].1) else 0)
      + GrantedIn(w.Next(es[0].0, es[0].1), es[1..], mutator)
  }

  function CommittedIn(w: World, es: seq<(nat, Event)>, mutator: bool): int
    decreases |es|
  {
    if es == [] || es[0].0 >= |w.clients| then 0
    else
      var m := w.Client(es[0].0);
      (if m.b.isMutator == mutator then CommittedBy(m, es[0].1) else 0)
      + CommittedIn(w.Next(es[0].0, es[0].1), es[1..], mutator)
  }

  function WorldLogs(w: World, logs: seq<Log>, es: seq<(nat, Event)>): seq<Log>
    requires |logs| == |w.clients|
    decreases |es|
  {
    if es == [] || es[0].0 >= |w.clients| then logs
    else
      var i, e := es[0].0, es[0].1;
      WorldLogs(w.Next(i, e), logs[i := Logged(w.Client(i), e, logs[i])], es[1..])
  }

  /** How the totals of two worlds differ, given what has been granted and committed between them: what has been
      filled is what has been granted; what has been allocated is what has been committed, and what has been emptied
      is the rest of what has been granted, except in the regions that buffers are attached to. */
  ghost predicate Accounted(w: World, logs: seq<Log>, v: World, logs': seq<Log>, mutatorGranted: int,
      mutatorCommitted: int, granted: int, committed: int)
    requires |logs| == |w.clients| && |logs'| == |v.clients|
  {
    var (l, l') := (Live(w.clients, logs, true), Live(v.clients, logs', true));
    var (k, k') := (Live(w.clients, logs, false), Live(v.clients, logs', false));
    && v.t.fillMutator == w.t.fillMutator + mutatorGranted
    && v.t.allocMutator + l'.committed == w.t.allocMutator + l.committed + mutatorCommitted
    && v.t.emptyMutator + l'.granted - l'.committed
       == w.t.emptyMutator + l.granted - l.committed + mutatorGranted - mutatorCommitted
    && v.t.fillInternal == w.t.fillInternal + granted
    && v.t.emptyInternal + k'.granted - k'.committed
       == w.t.emptyInternal + k.granted - k.committed + granted - committed
  }

  lemma WorldStepCounts(w: World, hits: seq<bool>, logs: seq<Log>, i: nat, e: Event)
    requires WorldHolds(w, hits) && WorldLogged(w, logs) && i < |hits| && Enabled(w.Client(i), e)
    ensures var (m, v, logs') := (w.Client(i), w.Next(i, e), logs[i := Logged(w.Client(i), e, logs[i])]);
            && WorldLogged(v, logs')
            && if m.b.isMutator then Accounted(w, logs, v, logs', GrantedBy(m, e), CommittedBy(m, e), 0, 0)
               else Accounted(w, logs, v, logs', 0, 0, GrantedBy(m, e), CommittedBy(m, e))
  {
    var m, l := w.Client(i), logs[i];
    LogStep(m, e, hits[i], l);
    StepCounts(m, e, hits[i], l);
    NothingCommittedLost(m, e, hits[i], l);
    LiveChange(w.clients, logs, i, (Step(m, e).b, Step(m, e).pc), Logged(m, e, l), true);
    LiveChange(w.clients, logs, i, (Step(m, e).b, Step(m, e).pc), Logged(m, e, l), false);
  }

  /** No step both detaches a buffer, or attaches it, and completes a commit; and a buffer that is attached was not. */
  lemma NothingCommittedLost(m: Machine, e: Event, hit: bool, l: Log)
    requires Holds(m, hit) && Enabled(m, e) && LogHolds(m, l)
    ensures Attaches(m, e) || Detaches(m, e) ==> CommittedBy(m, e) == 0
    ensures Attaches(m, e) && !Detaches(m, e) ==> l == Log(0, 0)
  {
  }

  /** Over every run of any number of buffers each of the totals is accounted for. */
  lemma {:induction false} EachTotal(w: World, hits: seq<bool>, logs: seq<Log>, es: seq<(nat, Event)>)
    requires WorldHolds(w, hits) && WorldLogged(w, logs) && Balanced(w) && WorldPossible(w, es)
    ensures WorldLogged(WorldAfter(w, es), WorldLogs(w, logs, es))
    ensures Accounted(w, logs, WorldAfter(w, es), WorldLogs(w, logs, es), GrantedIn(w, es, true),
                      CommittedIn(w, es, true), GrantedIn(w, es, false), CommittedIn(w, es, false))
    decreases |es|
  {
    if es != [] {
      var i, e := es[0].0, es[0].1;
      WorldStepBalances(w, hits, i, e);
      WorldStepCounts(w, hits, logs, i, e);
      EachTotal(w.Next(i, e), hits[i := StillHit(w.Client(i), e, hits[i])],
                logs[i := Logged(w.Client(i), e, logs[i])], es[1..]);
    }
  }

  ghost predicate NoLess(t: Totals, t': Totals) {
    && t.fillMutator <= t'.fillMutator && t.emptyMutator <= t'.emptyMutator && t.allocMutator <= t'.allocMutator
    && t.fillInternal <= t'.fillInternal && t.emptyInternal <= t'.emptyInternal
  }

  /** No step takes anything off a total. */
  lemma StepAdds(m: Machine, e: Event, hit: bool, l: Log)
    requires Holds(m, hit) && Enabled(m, e) && LogHolds(m, l)
    ensures NoLess(m.t, Step(m, e).t)
  {
    StepCounts(m, e, hit, l);
  }

  /** So over every run of any number of buffers no total ever becomes negative. */
  lemma {:induction false} TotalsGrow(w: World, hits: seq<bool>, logs: seq<Log>, es: seq<(nat, Event)>)
    requires WorldHolds(w, hits) && WorldLogged(w, logs) && Balanced(w) && WorldPossible(w, es)
    ensures NoLess(w.t, WorldAfter(w, es).t)
    decreases |es|
  {
    if es != [] {
      var i, e := es[0].0, es[0].1;
      StepAdds(w.Client(i), e, hits[i], logs[i]);
      WorldStepBalances(w, hits, i, e);
      WorldStepCounts(w, hits, logs, i, e);
      TotalsGrow(w.Next(i, e), hits[i := StillHit(w.Client(i), e, hits[i])],
                 logs[i := Logged(w.Client(i), e, logs[i])], es[1..]);
    }
  }

  ghost predicate AllDetached(w: World) {
    forall i | 0 <= i < |w.clients| :: !w.clients[i].0.attached
  }

  lemma {:induction false} NothingLive(cs: seq<(BufferState, Pc)>, logs: seq<Log>, mutator: bool)
    requires |logs| == |cs| && forall i | 0 <= i < |logs| :: logs[i] == Log(0, 0)
    ensures Live(cs, logs, mutator) == Log(0, 0)
  {
    if cs != [] {
      NothingLive(cs[..|cs| - 1], logs[..|cs| - 1], mutator);
    }
  }

  /** So between times when no buffer is attached, mutators' buffers have allocated exactly the objects committed,
      and every buffer has emptied exactly what it was granted and did not commit. */
  lemma TotalsWhenDetached(w: World, hits: seq<bool>, es: seq<(nat, Event)>)
    requires WorldHolds(w, hits) && Balanced(w) && WorldPossible(w, es)
    requires AllDetached(w) && AllDetached(WorldAfter(w, es))
    ensures var (t, t') := (w.t, WorldAfter(w, es).t);
            && t'.fillMutator == t.fillMutator + GrantedIn(w, es, true)
            && t'.allocMutator == t.allocMutator + CommittedIn(w, es, true)
            && t'.emptyMutator == t.emptyMutator + GrantedIn(w, es, true) - CommittedIn(w, es, true)
            && t'.fillInternal == t.fillInternal + GrantedIn(w, es, false)
            && t'.emptyInternal == t.emptyInternal + GrantedIn(w, es, false) - CommittedIn(w, es, false)
  {
    var logs := seq(|w.clients|, _ => Log(0, 0));
    assert forall i | 0 <= i < |w.clients| :: w.Client(i).b == w.clients[i].0;
    EachTotal(w, hits, logs, es);
    var v, logs' := WorldAfter(w, es), WorldLogs(w, logs, es);
    forall i | 0 <= i < |logs'| ensures logs'[i] == Log(0, 0) {
      assert LogHolds(v.Client(i), logs'[i]) && v.Client(i).b == v.clients[i].0;
    }
    NothingLive(w.clients, logs, true);
    NothingLive(w.clients, logs, false);
    NothingLive(v.clients, logs', true);
    NothingLive(v.clients, logs', false);
  }

  // ---------- The operations, as the client and the collector call them ----------

  class Globals {
    var fillMutatorSize: int
    var emptyMutatorSize: int
    var allocMutatorSize: int
    var fillInternalSize: int
    var emptyInternalSize: int

    ghost function Sizes(): Totals
      reads this
    {
      Totals(fillMutatorSize, emptyMutatorSize, allocMutatorSize, fillInternalSize, emptyInternalSize)
    }
  }

  class Buffer {
    const globals: Globals
    const logged: bool
    const ranked: bool
    const isMutator: bool
    const alignment: nat
    var base: nat
    var initAtFlip: nat
    var init: nat
    var alloc: nat
    var limit: nat
    var poolLimit: nat
    var attached: bool
    var flipped: bool

    constructor (globals: Globals, logged: bool, ranked: bool, isMutator: bool, alignment: nat)
      requires 0 < alignment
      ensures Initial(Machine(State(), globals.Sizes(), Idle)) && this.globals == globals
    {
      this.globals, this.logged, this.ranked, this.isMutator := globals, logged, ranked, isMutator;
      this.alignment := alignment;
      base, initAtFlip, init, alloc, limit, poolLimit, attached, flipped := 0, 0, 0, 0, 0, 0, false, false;
    }

    function State(): BufferState
      reads this
    {
      BufferState(base, initAtFlip, init, alloc, limit, poolLimit, attached, flipped, logged, ranked, isMutator,
            alignment)
    }

    ghost function At(pc: Pc): Machine
      reads this, globals
    {
      Machine(State(), globals.Sizes(), pc)
    }

    /** The client is at a point of the protocol it can have come to. */
    ghost predicate HoldsAt(pc: Pc, hit: bool)
      reads this, globals
    {
      Holds(At(pc), hit)
    }

    method SetUnflipped()
      requires flipped
      modifies this
      ensures State() == old(State()).Unflipped()
    {
      flipped := false;
      if !State().IsTrapped() {
        limit := poolLimit;
      }
      initAtFlip := 0;
    }

    method BufferDetach()
      requires HoldsAt(Idle, false)
      modifies this, globals
      ensures At(Idle) == Step(old(At(Idle)), Detach)
    {
      if attached {
        var spare := poolLimit - init;
        if isMutator {
          globals.emptyMutatorSize := globals.emptyMutatorSize + spare;
          globals.allocMutatorSize := globals.allocMutatorSize + (init - base);
        } else {
          globals.emptyInternalSize := globals.emptyInternalSize + spare;
        }
        base, initAtFlip, init, alloc, limit, poolLimit := 0, 0, 0, 0, 0, 0;
        attached, flipped := false, false;
      }
    }

    method BufferAttach(region: Region, init: nat, size: nat)
      requires !attached && (logged ==> limit == 0) && 0 < size && region.base + size <= region.limit
      requires region.base <= init <= region.limit
      modifies this, globals
      ensures State() == old(State()).Attached(region, init, size)
      ensures globals.Sizes() == old(globals.Sizes().AfterAttach(State(), region, init))
    {
      attached := true;
      this.base, this.init, alloc := region.base, init, AddrAdd(init, size);
      if !logged {
        limit := region.limit;
      }
      poolLimit := region.limit;
      var filled := region.limit - init;
      if isMutator {
        if base != init {
          var prealloc := init - base;
          globals.allocMutatorSize := globals.allocMutatorSize - prealloc;
        }
        globals.fillMutatorSize := globals.fillMutatorSize + filled;
      } else {
        globals.fillInternalSize := globals.fillInternalSize + filled;
      }
    }

    /** Refills the buffer; the pool's answer, if it comes to that, is the grant. */
    method BufferFill(size: nat, grant: Grant) returns (ok: bool, p: nat)
      requires HoldsAt(Filling(size), false) && (grant.Granted? ==> Suits(State(), grant.region, size))
      modifies this, globals
      ensures At(if ok then Reserved(p, size) else Idle) == Step(old(At(Filling(size))), Fill(grant))
    {
      FillHolds(At(Filling(size)), size, grant);
      if attached && limit == 0 {
        if flipped {
          SetUnflipped();
        }
        var next := AddrAdd(alloc, size);
        if alloc < next <= poolLimit {
          alloc := next;
          return true, init;
        }
      }
      assert poolLimit < AddrAdd(alloc, size) || AddrAdd(alloc, size) < alloc;
      BufferDetach();
      if grant == Refused {
        return false, 0;
      }
      BufferAttach(grant.region, grant.region.base, size);
      return true, grant.region.base;
    }

    /** Reserves memory, when nothing comes between the steps. */
    method BufferReserve(size: nat, grant: Grant) returns (ok: bool, p: nat)
      requires HoldsAt(Idle, false) && Enabled(At(Idle), ReserveTest(size))
      requires grant.Granted? ==> Suits(State(), grant.region, size)
      modifies this, globals
      ensures var tested := Step(old(At(Idle)), ReserveTest(size));
              At(if ok then Reserved(p, size) else Idle)
                == Step(tested, if tested.pc.Bumping? then ReserveBump else Fill(grant))
    {
      var next := AddrAdd(alloc, size);
      if alloc < next <= limit {
        alloc := next;
        return true, init;
      }
      ok, p := BufferFill(size, grant);
    }

    method BufferTrip(p: nat, size: nat) returns (ok: bool)
      requires exists hit :: HoldsAt(Tripping(p, size), hit)
      modifies this
      ensures At(Idle) == Step(old(At(Tripping(p, size))), Trip)
      ensures ok <==> Commits(old(At(Tripping(p, size))), Trip)
    {
      assert limit == 0 && State().IsTrapped() && init == alloc && p + size == init;
      if flipped && init != initAtFlip {
        init := p;
        alloc := p;
        return false;
      }
      return true;
    }

    /** Commits memory, when nothing comes between the steps. */
    method BufferCommit(p: nat, size: nat) returns (ok: bool)
      requires exists hit :: HoldsAt(Reserved(p, size), hit)
      modifies this
      ensures var tested := Step(Step(old(At(Reserved(p, size))), CommitUpdate), CommitTest);
              At(Idle) == Step(tested, Trip) && (ok <==> (tested.pc.Idle? || Commits(tested, Trip)))
    {
      ghost var hit :| HoldsAt(Reserved(p, size), hit);
      StepHolds(At(Reserved(p, size)), CommitUpdate, hit);
      init := alloc;
      StepHolds(At(Updated(p, size)), CommitTest, hit);
      if limit == 0 {
        assert HoldsAt(Tripping(p, size), hit);
        ok := BufferTrip(p, size);
        return;
      }
      return true;
    }

    method BufferFlip()
      modifies this
      ensures State() == old(State()).Flipped()
      ensures forall pc :: At(pc) == Step(old(At(pc)), Flip)
    {
      if ranked && !flipped && attached {
        initAtFlip := init;
        limit := 0;
        flipped := true;
      }
    }
  }
}
