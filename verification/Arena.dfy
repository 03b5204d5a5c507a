/** A virtual memory arena of a fixed set of chunks: allocating, freeing, purging and changing the limits. */
module Arenas {
  import opened Intervals
  import opened VmArenas

  /** What the arena needs to know of a chunk: what it has committed, how much of that is spare, which pages
      are held by which pools, and which pages of its page table are mapped. */
  datatype View = View(committed: nat, spare: nat, held: map<nat, nat>, tables: set<nat>) {
    predicate Valid() {
      committed == |held| + spare + |tables|
    }
  }

  function CommittedTotal(vs: seq<View>): nat {
    if vs == [] then 0 else CommittedTotal(vs[..|vs| - 1]) + vs[|vs| - 1].committed
  }

  function SpareTotal(vs: seq<View>): nat {
    if vs == [] then 0 else SpareTotal(vs[..|vs| - 1]) + vs[|vs| - 1].spare
  }

  /** Changing one chunk changes the totals by as much. */
  lemma {:induction false} TotalsChange(vs: seq<View>, c: nat, v: View)
    requires c < |vs|
    ensures CommittedTotal(vs[c := v]) - v.committed == CommittedTotal(vs) - vs[c].committed
    ensures SpareTotal(vs[c := v]) - v.spare == SpareTotal(vs) - vs[c].spare
    ensures vs[c].committed <= CommittedTotal(vs) && vs[c].spare <= SpareTotal(vs)
  {
    var n := |vs| - 1;
    if c == n {
      assert vs[..n] == vs[c := v][..n];
    } else {
      TotalsChange(vs[..n], c, v);
      assert vs[..n][c := v] == vs[c := v][..n];
    }
  }

  lemma {:induction false} NothingSpare(vs: seq<View>)
    requires forall c | 0 <= c < |vs| :: vs[c].spare == 0
    ensures SpareTotal(vs) == 0
  {
    if vs != [] {
      NothingSpare(vs[..|vs| - 1]);
    }
  }

  lemma {:induction false} NothingCommitted(vs: seq<View>)
    requires forall c | 0 <= c < |vs| :: vs[c].committed == 0
    ensures CommittedTotal(vs) == 0
  {
    if vs != [] {
      NothingCommitted(vs[..|vs| - 1]);
    }
  }

  /** The pages of each chunk that are held, and by which pools. */
  type Holdings = seq<map<nat, nat>>

  function Held(vs: seq<View>): Holdings {
    seq(|vs|, c requires 0 <= c < |vs| => vs[c].held)
  }

  lemma HeldChange(vs: seq<View>, c: nat, v: View)
    requires c < |vs|
    ensures Held(vs[c := v]) == Held(vs)[c := v.held]
  {
  }

  /** The holdings after an allocation in a chunk. */
  lemma HeldAfter(vs: seq<View>, c: nat, v: View, op: Op, res: Res)
    requires c < |vs| && op.Alloc? && op.chunk == c
    requires v.held == if res == ResOK then vs[c].held + VMChunk.Run(op.base, op.base + op.size, op.pool)
               else vs[c].held
    ensures Held(vs[c := v]) == After(Held(vs), op, res)
  {
    HeldChange(vs, c, v);
    assert Held(vs)[c := vs[c].held] == Held(vs);
  }

  /** No page of a chunk's page table is mapped that was not. */
  ghost predicate NoMoreTables(start: seq<View>, vs: seq<View>, c: nat)
    requires c < |vs| == |start|
  {
    vs[c].tables <= start[c].tables
  }

  /** The first chunks have been purged: nothing there is spare, and at least as much has been given back. */
  ghost predicate Purging(start: seq<View>, vs: seq<View>, c: nat) {
    && Held(vs) == Held(start) && (forall d | 0 <= d < c && d < |vs| :: vs[d].spare == 0)
    && |vs| == |start| && (forall d | 0 <= d < |vs| :: NoMoreTables(start, vs, d))
    && CommittedTotal(vs) - SpareTotal(vs) <= CommittedTotal(start) - SpareTotal(start)
  }

  lemma PurgingStep(start: seq<View>, vs: seq<View>, c: nat, v: View)
    requires Purging(start, vs, c) && c < |vs|
    requires v.held == vs[c].held && v.spare == 0 && v.committed <= vs[c].committed - vs[c].spare
    requires v.tables <= vs[c].tables
    ensures Purging(start, vs[c := v], c + 1)
  {
    TotalsChange(vs, c, v);
    HeldChange(vs, c, v);
    assert Held(vs)[c := v.held] == Held(vs);
    var now := vs[c := v];
    forall d | 0 <= d < |vs| ensures NoMoreTables(start, now, d) {
      assert NoMoreTables(start, vs, d);
    }
  }

  /** What is committed and not spare: the pages held and the pages of the page tables.  If nothing else is held
      and no more of the tables is mapped it does not grow; nor does it, leaving out the table of one chunk. */
  lemma {:induction false} NetShrinks(start: seq<View>, vs: seq<View>, c: nat)
    requires |vs| == |start| && Held(vs) == Held(start) && forall d | 0 <= d < |vs| :: vs[d].Valid() && start[d].Valid()
    requires forall d | 0 <= d < |vs| :: NoMoreTables(start, vs, d)
    ensures CommittedTotal(vs) - SpareTotal(vs) <= CommittedTotal(start) - SpareTotal(start)
    ensures c < |vs| ==> CommittedTotal(vs) - SpareTotal(vs) - |vs[c].tables|
                         <= CommittedTotal(start) - SpareTotal(start) - |start[c].tables|
  {
    if vs != [] {
      var n := |vs| - 1;
      assert Held(vs)[n] == Held(start)[n] && Held(vs[..n]) == Held(vs)[..n] && Held(start[..n]) == Held(start)[..n];
      assert NoMoreTables(start, vs, n);
      SubsetSize(vs[n].tables, start[n].tables);
      FirstTables(start, vs, n);
      NetShrinks(start[..n], vs[..n], c);
    }
  }

  lemma FirstTables(start: seq<View>, vs: seq<View>, n: nat)
    requires n <= |vs| == |start| && forall d | 0 <= d < |vs| :: NoMoreTables(start, vs, d)
    ensures forall d | 0 <= d < n :: NoMoreTables(start[..n], vs[..n], d)
  {
    forall d | 0 <= d < n ensures NoMoreTables(start[..n], vs[..n], d) {
      assert NoMoreTables(start, vs, d);
    }
  }

  /** What a client asks of an arena.  The allocation policy has found, or has not, a chunk and a page. */
  datatype Op =
    | Alloc(size: nat, pool: nat, found: bool, chunk: nat, base: nat)
    | Free(chunk: nat, base: nat, size: nat)
    | SetSpareCommitLimit(limit: nat)
    | SetCommitLimit(limit: nat)

  /** The holdings after an operation with a given result: only a success changes them. */
  function After(held: Holdings, op: Op, res: Res): Holdings {
    match op
    case Alloc(size, pool, _, c, base) =>
      if res == ResOK && c < |held| then held[c := held[c] + VMChunk.Run(base, base + size, pool)] else held
    case Free(c, base, size) =>
      if res == ResOK && c < |held| then held[c := held[c] - Interval(base, base + size)] else held
    case _ => held
  }

  /** The commit limit after an operation. */
  function LimitAfter(commitLimit: nat, op: Op, res: Res): nat {
    if op.SetCommitLimit? && res == ResOK then op.limit else commitLimit
  }

  /** Allocation succeeds only where the policy found pages, and freeing and the spare limit never fail. */
  predicate CanResult(op: Op, res: Res) {
    match op
    case Alloc(_, _, found, _, _) => res != ResFAIL && (res == ResOK ==> found)
    case Free(_, _, _) => res == ResOK
    case SetSpareCommitLimit(_) => res == ResOK
    case SetCommitLimit(_) => res == ResOK || res == ResFAIL
  }

  class VMArena {
    const accounts: Accounts
    const chunks: seq<VMChunk>
    /** What is committed for the arena's own tables. */
    const overhead: nat

    constructor (accounts: Accounts, chunks: seq<VMChunk>)
      requires forall c | 0 <= c < |chunks| ::
                 && chunks[c].accounts == accounts && chunks[c].Valid()
                 && chunks[c].Committed() == 0 && chunks[c].spare == {}
      requires forall c, d | 0 <= c < |chunks| && 0 <= d < |chunks| && c != d ::
                 chunks[c] != chunks[d] && chunks[c].pageTable != chunks[d].pageTable
      requires accounts.committed <= accounts.commitLimit && accounts.spareCommitted == 0
      ensures Valid() && this.accounts == accounts && this.chunks == chunks
    {
      this.accounts, this.chunks, overhead := accounts, chunks, accounts.committed;
      new;
      NothingCommitted(Views());
      NothingSpare(Views());
    }

    ghost predicate Apart() {
      && (forall c | 0 <= c < |chunks| :: chunks[c].accounts == accounts && chunks[c].Shape())
      && (forall c, d | 0 <= c < |chunks| && 0 <= d < |chunks| && c != d :: Distinct(c, d))
    }

    ghost predicate Distinct(c: nat, d: nat)
      requires c < |chunks| && d < |chunks|
    {
      chunks[c] != chunks[d] && chunks[c].pageTable != chunks[d].pageTable
    }

    ghost function Tables(): set<object> {
      set c | 0 <= c < |chunks| :: chunks[c].pageTable
    }

    ghost function ViewOf(c: nat): View
      requires Apart() && c < |chunks|
      reads chunks[c], chunks[c].pageTable
    {
      View(chunks[c].Committed(), |chunks[c].spare|, chunks[c].Held(), chunks[c].pageTableMapped)
    }

    ghost function Views(): (vs: seq<View>)
      requires Apart()
      reads chunks, Tables()
      ensures |vs| == |chunks| && forall c | 0 <= c < |vs| :: vs[c] == ViewOf(c)
    {
      seq(|chunks|, c requires Apart() && 0 <= c < |chunks| reads chunks, Tables() => ViewOf(c))
    }

    lemma ViewsValid()
      requires Sound()
      ensures forall c | 0 <= c < |chunks| :: ViewOf(c).Valid()
    {
      forall c | 0 <= c < |chunks| ensures ViewOf(c).Valid() {
        assert ChunkValid(c);
        chunks[c].MappedCount();
      }
    }

    ghost predicate ChunkValid(c: nat)
      requires c < |chunks|
      reads chunks[c], chunks[c].pageTable
    {
      chunks[c].Valid()
    }

    /** The accounts agree with the chunks, and the commit limit is kept. */
    ghost predicate Sound()
      reads accounts, chunks, Tables()
    {
      && Apart()
      && (forall c | 0 <= c < |chunks| :: ChunkValid(c))
      && accounts.committed == overhead + CommittedTotal(Views())
      && accounts.spareCommitted == SpareTotal(Views())
      && accounts.committed <= accounts.commitLimit
    }

    /** Between operations the spare pages are within their limit too. */
    ghost predicate Valid()
      reads accounts, chunks, Tables()
    {
      Sound() && accounts.spareCommitted <= accounts.spareCommitLimit
    }

    /** What one chunk has committed, or holds as spare, is no more than the whole. */
    lemma Shares(c: nat)
      requires Sound() && c < |chunks|
      ensures 0 <= chunks[c].OtherCommitted() && 0 <= chunks[c].OtherSpare()
    {
      TotalsChange(Views(), c, ViewOf(c));
    }

    /** The other chunks are valid, and as they were seen. */
    ghost predicate OthersStay(c: nat, views: seq<View>)
      requires Apart() && |views| == |chunks|
      reads chunks, Tables()
    {
      forall d | 0 <= d < |chunks| && d != c :: ChunkValid(d) && ViewOf(d) == views[d]
    }

    /** An operation on one chunk that changes the accounts as much as it changes the chunk. */
    lemma Rebalanced(views: seq<View>, c: nat)
      requires Apart() && c < |chunks| == |views| && ChunkValid(c) && OthersStay(c, views)
      requires accounts.committed - ViewOf(c).committed == overhead + CommittedTotal(views) - views[c].committed
      requires accounts.spareCommitted - ViewOf(c).spare == SpareTotal(views) - views[c].spare
      requires accounts.committed <= accounts.commitLimit
      ensures Sound() && Views() == views[c := ViewOf(c)]
    {
      assert Views() == views[c := ViewOf(c)];
      TotalsChange(views, c, ViewOf(c));
    }

    /** A chunk's noSparePages bits and mapped table pages: what the assertion in the purge depends on. */
    ghost function BitsOf(c: nat): (set<nat>, set<nat>)
      requires c < |chunks|
      reads chunks[c]
    {
      (chunks[c].noSparePages, chunks[c].pageTableMapped)
    }

    /** With such bits, the assertion holds in a purge of the chunk. */
    ghost predicate Passes(c: nat, bits: (set<nat>, set<nat>))
      requires Apart() && c < |chunks|
    {
      chunks[c].AllExaminable(bits.0, bits.1, chunks[c].table.tablePages)
    }

    ghost predicate RunsExaminable(c: nat)
      requires Apart() && c < |chunks|
      reads chunks[c]
    {
      Passes(c, BitsOf(c))
    }

    /** If every descriptor leaves room for another on its page, the assertion in the purge holds. */
    lemma RoomyIsExaminable()
      requires Apart()
      requires forall c | 0 <= c < |chunks| :: 2 * chunks[c].table.descSize <= chunks[c].table.pageSize + 1
      ensures forall c | 0 <= c < |chunks| :: RunsExaminable(c)
    {
      forall c | 0 <= c < |chunks| ensures RunsExaminable(c) {
        chunks[c].RoomForTwo(chunks[c].noSparePages, chunks[c].pageTableMapped);
      }
    }

    method PurgeChunk(c: nat) returns (ok: bool)
      requires Sound() && c < |chunks|
      modifies accounts`committed, accounts`spareCommitted, chunks[c], chunks[c].pageTable
      ensures Sound() && Views() == old(Views())[c := ViewOf(c)]
      ensures ViewOf(c).held == old(ViewOf(c).held) && ViewOf(c).spare == 0 && ViewOf(c).tables <= old(ViewOf(c).tables)
      ensures ViewOf(c).committed <= old(ViewOf(c).committed - ViewOf(c).spare)
      ensures ok <==> old(RunsExaminable(c))
      ensures forall d | 0 <= d < |chunks| && d != c :: BitsOf(d) == old(BitsOf(d))
    {
      Shares(c);
      ghost var views := Views();
      ok := PurgeInChunk(c);
      Rebalanced(views, c);
    }

    method PurgeInChunk(c: nat) returns (ok: bool)
      requires Apart() && c < |chunks| && forall d | 0 <= d < |chunks| :: ChunkValid(d)
      requires 0 <= chunks[c].OtherCommitted() && 0 <= chunks[c].OtherSpare()
      modifies accounts`committed, accounts`spareCommitted, chunks[c], chunks[c].pageTable
      ensures ChunkValid(c) && OthersStay(c, old(Views()))
      ensures chunks[c].OtherCommitted() == old(chunks[c].OtherCommitted())
      ensures chunks[c].OtherSpare() == old(chunks[c].OtherSpare())
      ensures ViewOf(c).held == old(ViewOf(c).held) && ViewOf(c).spare == 0 && ViewOf(c).tables <= old(ViewOf(c).tables)
      ensures ViewOf(c).committed <= old(ViewOf(c).committed - ViewOf(c).spare)
      ensures ok <==> old(RunsExaminable(c))
      ensures forall d | 0 <= d < |chunks| && d != c :: BitsOf(d) == old(BitsOf(d))
    {
      ghost var views := Views();
      assert ChunkValid(c);
      ok := chunks[c].Purge();
      forall d | 0 <= d < |chunks| && d != c
        ensures ChunkValid(d) && ViewOf(d) == views[d]
        ensures BitsOf(d) == old(BitsOf(d))
      {
        assert Distinct(c, d) && old(ChunkValid(d));
      }
    }

    /** Unmaps all the spare pages.  The result is whether the assertion in the source holds for each chunk. */
    method Purge() returns (oks: seq<bool>)
      requires Sound()
      modifies accounts`committed, accounts`spareCommitted, chunks, Tables()
      ensures Sound() && Held(Views()) == old(Held(Views())) && accounts.spareCommitted == 0
      ensures forall c | 0 <= c < |chunks| :: NoMoreTables(old(Views()), Views(), c)
      ensures accounts.committed <= old(accounts.committed - accounts.spareCommitted)
      ensures |oks| == |chunks| && forall c | 0 <= c < |chunks| :: oks[c] <==> old(RunsExaminable(c))
    {
      ghost var start := Views();
      ghost var bits := AllBits();
      oks := PurgeChunks(start, bits);
      forall c | 0 <= c < |chunks| ensures oks[c] <==> Passes(c, bits[c]) {
        assert PassesAt(bits, oks, c);
      }
      NothingSpare(Views());
    }

    method PurgeChunks(ghost start: seq<View>, ghost bits: seq<(set<nat>, set<nat>)>) returns (oks: seq<bool>)
      requires Sound() && start == Views() && BitsFrom(bits, 0)
      modifies accounts`committed, accounts`spareCommitted, chunks, Tables()
      ensures Sound() && Purging(start, Views(), |chunks|)
      ensures |oks| == |chunks| && PassesTo(bits, oks)
    {
      oks := [];
      var c := 0;
      while c < |chunks|
        invariant c <= |chunks| && Sound() && Purging(start, Views(), c) && BitsFrom(bits, c)
        invariant |oks| == c && PassesTo(bits, oks)
      {
        var ok := PurgeNext(start, bits, c);
        PassesNext(bits, oks, ok);
        oks := oks + [ok];
        c := c + 1;
      }
    }

    ghost function AllBits(): (bits: seq<(set<nat>, set<nat>)>)
      reads chunks
      ensures BitsFrom(bits, 0)
    {
      seq(|chunks|, d requires 0 <= d < |chunks| reads chunks => BitsOf(d))
    }

    /** The bits of the chunks from c on. */
    ghost predicate BitsFrom(bits: seq<(set<nat>, set<nat>)>, c: nat)
      reads chunks
    {
      |bits| == |chunks| && forall d | c <= d < |chunks| :: BitsOf(d) == bits[d]
    }

    /** The results so far are right. */
    ghost predicate PassesTo(bits: seq<(set<nat>, set<nat>)>, oks: seq<bool>)
      requires Apart() && |oks| <= |bits| == |chunks|
    {
      forall d | 0 <= d < |oks| :: PassesAt(bits, oks, d)
    }

    ghost predicate PassesAt(bits: seq<(set<nat>, set<nat>)>, oks: seq<bool>, d: nat)
      requires Apart() && d < |oks| <= |bits| == |chunks|
    {
      oks[d] <==> Passes(d, bits[d])
    }

    lemma PassesNext(bits: seq<(set<nat>, set<nat>)>, oks: seq<bool>, ok: bool)
      requires Apart() && |oks| < |bits| == |chunks| && PassesTo(bits, oks)
      requires ok <==> Passes(|oks|, bits[|oks|])
      ensures PassesTo(bits, oks + [ok])
    {
      forall d | 0 <= d < |oks| + 1 ensures PassesAt(bits, oks + [ok], d) {
        assert d < |oks| ==> PassesAt(bits, oks, d);
      }
    }

    method PurgeNext(ghost start: seq<View>, ghost bits: seq<(set<nat>, set<nat>)>, c: nat) returns (ok: bool)
      requires Sound() && c < |chunks| && Purging(start, Views(), c) && BitsFrom(bits, c)
      modifies accounts`committed, accounts`spareCommitted, chunks[c], chunks[c].pageTable
      ensures Sound() && Purging(start, Views(), c + 1) && BitsFrom(bits, c + 1)
      ensures ok <==> Passes(c, bits[c])
    {
      ghost var views := Views();
      ok := PurgeChunk(c);
      PurgingStep(start, views, c, ViewOf(c));
    }

    /** The policy's promise: the pages it found are free. */
    ghost predicate Fits(held: Holdings, size: nat, c: nat, base: nat) {
      && 0 < size && c < |chunks| && c < |held|
      && chunks[c].allocBase <= base && base + size <= chunks[c].table.pages
      && held[c].Keys !! Interval(base, base + size)
    }

    method MarkAllocated(size: nat, pool: nat, c: nat, base: nat) returns (res: Res, ghost refused: bool)
      requires Sound() && Fits(Held(Views()), size, c, base)
      modifies accounts`committed, accounts`spareCommitted, chunks[c], chunks[c].pageTable
      ensures Sound() && MapResult(res, refused)
      ensures Held(Views()) == After(old(Held(Views())), Alloc(size, pool, true, c, base), res)
      ensures accounts.spareCommitted <= old(accounts.spareCommitted)
      ensures !refused ==> (res == ResOK <==> old(chunks[c].WouldCommit(base, base + size)) <= accounts.commitLimit)
      ensures old(Interval(base, base + size) <= chunks[c].spare) ==> res == ResOK
      ensures res != ResOK && accounts.spareCommitted == 0 ==>
                old(chunks[c].spare <= Interval(base, base + size) && chunks[c].OtherSpare() == 0)
      ensures res != ResOK ==> LeastCommit(size, c, base) == old(LeastCommit(size, c, base))
    {
      FitsMeans(size, c, base);
      res, refused := MarkChunk(size, pool, c, base);
    }

    lemma FitsMeans(size: nat, c: nat, base: nat)
      requires Sound() && Fits(Held(Views()), size, c, base)
      ensures Interval(base, base + size) !! chunks[c].allocTable && Held(Views())[c] == ViewOf(c).held
    {
      assert ChunkValid(c);
      chunks[c].HeldMeans();
    }

    method MarkChunk(size: nat, pool: nat, c: nat, base: nat) returns (res: Res, ghost refused: bool)
      requires Sound() && c < |chunks|
      requires 0 < size && chunks[c].allocBase <= base && base + size <= chunks[c].table.pages
      requires Interval(base, base + size) !! chunks[c].allocTable
      modifies accounts`committed, accounts`spareCommitted, chunks[c], chunks[c].pageTable
      ensures Sound() && MapResult(res, refused)
      ensures Held(Views()) == After(old(Held(Views())), Alloc(size, pool, true, c, base), res)
      ensures accounts.spareCommitted <= old(accounts.spareCommitted)
      ensures !refused ==> (res == ResOK <==> old(chunks[c].WouldCommit(base, base + size)) <= accounts.commitLimit)
      ensures old(Interval(base, base + size) <= chunks[c].spare) ==> res == ResOK
      ensures res != ResOK && accounts.spareCommitted == 0 ==>
                old(chunks[c].spare <= Interval(base, base + size) && chunks[c].OtherSpare() == 0)
      ensures res != ResOK ==> LeastCommit(size, c, base) == old(LeastCommit(size, c, base))
    {
      Shares(c);
      ghost var views, tablesWith := Views(), chunks[c].TablesWith(base, base + size);
      ViewsValid();
      res, refused := MarkInChunk(size, pool, c, base);
      ChunkMarked(views, size, pool, c, base, res, tablesWith);
    }

    /** What allocating in one chunk does to the whole arena, which was seen as `views`. */
    lemma ChunkMarked(views: seq<View>, size: nat, pool: nat, c: nat, base: nat, res: Res, tablesWith: nat)
      requires Apart() && c < |chunks| == |views| && ChunkValid(c) && OthersStay(c, views)
      requires accounts.committed - ViewOf(c).committed == overhead + CommittedTotal(views) - views[c].committed
      requires accounts.spareCommitted - ViewOf(c).spare == SpareTotal(views) - views[c].spare
      requires accounts.committed <= accounts.commitLimit && views[c].Valid()
      requires 0 < size && base + size <= chunks[c].table.pages
      requires ViewOf(c).held == if res == ResOK then views[c].held + VMChunk.Run(base, base + size, pool)
               else views[c].held
      requires chunks[c].TablesWith(base, base + size) == tablesWith
      ensures Sound() && Held(Views()) == After(Held(views), Alloc(size, pool, true, c, base), res)
      ensures res != ResOK ==>
                LeastCommit(size, c, base) ==
                overhead + CommittedTotal(views) - SpareTotal(views) + size + tablesWith - |views[c].tables|
    {
      Rebalanced(views, c);
      HeldMarked(views, size, pool, c, base, res);
      if res != ResOK {
        LeastStays(views, size, c, base, tablesWith);
      }
    }

    lemma HeldMarked(views: seq<View>, size: nat, pool: nat, c: nat, base: nat, res: Res)
      requires Apart() && c < |chunks| == |views| && Views() == views[c := ViewOf(c)]
      requires ViewOf(c).held == if res == ResOK then views[c].held + VMChunk.Run(base, base + size, pool)
               else views[c].held
      ensures Held(Views()) == After(Held(views), Alloc(size, pool, true, c, base), res)
    {
      HeldAfter(views, c, ViewOf(c), Alloc(size, pool, true, c, base), res);
    }

    method MarkInChunk(size: nat, pool: nat, c: nat, base: nat) returns (res: Res, ghost refused: bool)
      requires Apart() && c < |chunks| && forall d | 0 <= d < |chunks| :: ChunkValid(d)
      requires 0 < size && chunks[c].allocBase <= base && base + size <= chunks[c].table.pages
      requires Interval(base, base + size) !! chunks[c].allocTable
      requires accounts.committed <= accounts.commitLimit
      requires 0 <= chunks[c].OtherCommitted() && 0 <= chunks[c].OtherSpare()
      modifies accounts`committed, accounts`spareCommitted, chunks[c], chunks[c].pageTable
      ensures ChunkValid(c) && OthersStay(c, old(Views())) && MapResult(res, refused)
      ensures chunks[c].OtherCommitted() == old(chunks[c].OtherCommitted())
      ensures chunks[c].OtherSpare() == old(chunks[c].OtherSpare())
      ensures ViewOf(c).held == if res == ResOK then old(ViewOf(c).held) + VMChunk.Run(base, base + size, pool)
                else old(ViewOf(c).held)
      ensures accounts.committed <= accounts.commitLimit && accounts.spareCommitted <= old(accounts.spareCommitted)
      ensures !refused ==> (res == ResOK <==> old(chunks[c].WouldCommit(base, base + size)) <= accounts.commitLimit)
      ensures old(Interval(base, base + size) <= chunks[c].spare) ==> res == ResOK
      ensures chunks[c].TablesWith(base, base + size) == old(chunks[c].TablesWith(base, base + size))
      ensures res != ResOK && accounts.spareCommitted == 0 ==>
                old(chunks[c].spare <= Interval(base, base + size) && chunks[c].OtherSpare() == 0)
    {
      assert ChunkValid(c);
      res, refused := MarkOnly(size, pool, c, base);
      forall d | 0 <= d < |chunks| && d != c ensures ChunkValid(d) && ViewOf(d) == old(Views())[d] {
        assert Distinct(c, d) && old(ChunkValid(d));
      }
    }

    method MarkOnly(size: nat, pool: nat, c: nat, base: nat) returns (res: Res, ghost refused: bool)
      requires Apart() && c < |chunks| && ChunkValid(c)
      requires 0 < size && chunks[c].allocBase <= base && base + size <= chunks[c].table.pages
      requires Interval(base, base + size) !! chunks[c].allocTable
      requires accounts.committed <= accounts.commitLimit
      requires 0 <= chunks[c].OtherCommitted() && 0 <= chunks[c].OtherSpare()
      modifies accounts`committed, accounts`spareCommitted, chunks[c], chunks[c].pageTable
      ensures ChunkValid(c) && MapResult(res, refused)
      ensures chunks[c].OtherCommitted() == old(chunks[c].OtherCommitted())
      ensures chunks[c].OtherSpare() == old(chunks[c].OtherSpare())
      ensures ViewOf(c).held == if res == ResOK then old(ViewOf(c).held) + VMChunk.Run(base, base + size, pool)
                else old(ViewOf(c).held)
      ensures accounts.committed <= accounts.commitLimit && accounts.spareCommitted <= old(accounts.spareCommitted)
      ensures !refused ==> (res == ResOK <==> old(chunks[c].WouldCommit(base, base + size)) <= accounts.commitLimit)
      ensures old(Interval(base, base + size) <= chunks[c].spare) ==> res == ResOK
      ensures chunks[c].TablesWith(base, base + size) == old(chunks[c].TablesWith(base, base + size))
      ensures res != ResOK && accounts.spareCommitted == 0 ==>
                old(chunks[c].spare <= Interval(base, base + size) && chunks[c].OtherSpare() == 0)
    {
      ghost var would := chunks[c].WouldCommit(base, base + size);
      res, refused := chunks[c].MarkAllocated(base, base + size, pool);
      assert !refused ==> (res == ResOK <==> would <= accounts.commitLimit);
    }

    method MakeSpare(c: nat, base: nat, size: nat)
      requires Sound() && c < |chunks| && 0 < size && Interval(base, base + size) <= chunks[c].Held().Keys
      modifies accounts`spareCommitted, chunks[c], chunks[c].pageTable
      ensures Sound() && Views() == old(Views())[c := ViewOf(c)]
      ensures ViewOf(c).held == old(ViewOf(c).held) - Interval(base, base + size)
      ensures accounts.spareCommitted == old(accounts.spareCommitted) + size
      ensures forall i :: i in chunks[c].spare <==> i in old(chunks[c].spare) || base <= i < base + size
    {
      Shares(c);
      ghost var views := Views();
      FreeInChunk(c, base, size);
      Rebalanced(views, c);
    }

    method FreeInChunk(c: nat, base: nat, size: nat)
      requires Apart() && c < |chunks| && forall d | 0 <= d < |chunks| :: ChunkValid(d)
      requires 0 < size && Interval(base, base + size) <= chunks[c].Held().Keys
      modifies accounts`spareCommitted, chunks[c], chunks[c].pageTable
      ensures ChunkValid(c) && OthersStay(c, old(Views()))
      ensures chunks[c].OtherCommitted() == old(chunks[c].OtherCommitted())
      ensures chunks[c].OtherSpare() == old(chunks[c].OtherSpare())
      ensures ViewOf(c).held == old(ViewOf(c).held) - Interval(base, base + size)
      ensures accounts.spareCommitted == old(accounts.spareCommitted) + size
      ensures forall i :: i in chunks[c].spare <==> i in old(chunks[c].spare) || base <= i < base + size
    {
      assert ChunkValid(c);
      chunks[c].FreePages(base, base + size);
      forall d | 0 <= d < |chunks| && d != c ensures ChunkValid(d) && ViewOf(d) == old(Views())[d] {
        assert Distinct(c, d) && old(ChunkValid(d));
      }
    }

    /** Even using all the spare pages, the request would exceed the commit limit. */
    ghost predicate CannotCommit(size: nat)
      reads accounts
    {
      accounts.spareCommitted < size && accounts.commitLimit < accounts.committed + size - accounts.spareCommitted
    }

    /** Allocates pages to a pool: early check on the commit limit, then the policy, then mapping, with one
        more attempt after purging the spare pages. */
    method AllocPages(size: nat, pool: nat, found: bool, c: nat, base: nat) returns (res: Res, ghost refused: bool)
      requires Valid() && found ==> Fits(Held(Views()), size, c, base)
      requires Valid() && 0 < size
      modifies accounts`committed, accounts`spareCommitted, chunks, Tables()
      ensures Valid() && (res == ResRESOURCE || MapResult(res, refused)) && (res == ResMEMORY <==> refused)
      ensures Held(Views()) == After(old(Held(Views())), Alloc(size, pool, found, c, base), res)
      ensures old(CannotCommit(size)) ==> res == ResCOMMIT_LIMIT && Views() == old(Views())
      ensures res == ResRESOURCE <==> old(!CannotCommit(size)) && !found
      ensures !found ==> res != ResOK && Views() == old(Views())
      ensures res == ResOK || Views() == old(Views()) || accounts.spareCommitted == 0
      ensures found && old(Interval(base, base + size) <= chunks[c].spare) ==> res == ResOK
      ensures found && !refused && old(LeastCommit(size, c, base)) <= accounts.commitLimit ==> res == ResOK
      ensures found && !refused && old(accounts.spareCommitted) == 0 ==>
                (res == ResOK <==> old(LeastCommit(size, c, base)) <= accounts.commitLimit)
    {
      if accounts.spareCommitted < size {
        if accounts.committed + (size - accounts.spareCommitted) > accounts.commitLimit {
          if found {
            CannotFit(size, c, base);
          }
          return ResCOMMIT_LIMIT, false;
        }
      }
      if !found {
        return ResRESOURCE, false;
      }
      LeastMeans(size, c, base);
      res, refused := MarkAllocated(size, pool, c, base);
      if res != ResOK && 0 < accounts.spareCommitted {
        res, refused := PurgeAndMark(size, pool, c, base);
      }
    }

    /** What is committed in the end if the spare pages are purged, no page of a page table is unmapped, and then
        the run and the pages that its descriptors are on are mapped. */
    ghost function LeastCommit(size: nat, c: nat, base: nat): int
      requires Apart() && 0 < size && c < |chunks| && base + size <= chunks[c].table.pages
      reads accounts, chunks
    {
      accounts.committed - accounts.spareCommitted + size
      + chunks[c].TablesWith(base, base + size) - |chunks[c].pageTableMapped|
    }

    /** What the early check refuses could not have been done. */
    lemma CannotFit(size: nat, c: nat, base: nat)
      requires Sound() && Fits(Held(Views()), size, c, base) && CannotCommit(size)
      ensures accounts.commitLimit < LeastCommit(size, c, base)
      ensures !(Interval(base, base + size) <= chunks[c].spare)
    {
      Shares(c);
      SubsetSize(chunks[c].pageTableMapped, chunks[c].pageTableMapped + chunks[c].TablePages(base, base + size));
      if Interval(base, base + size) <= chunks[c].spare {
        IntervalCount(base, base + size);
        SubsetSize(Interval(base, base + size), chunks[c].spare);
      }
    }

    /** It is what would be committed, if there is no spare page outside the run. */
    lemma LeastMeans(size: nat, c: nat, base: nat)
      requires Sound() && Fits(Held(Views()), size, c, base)
      ensures LeastCommit(size, c, base) <= chunks[c].WouldCommit(base, base + size)
      ensures chunks[c].spare <= Interval(base, base + size) && chunks[c].OtherSpare() == 0 ==>
                LeastCommit(size, c, base) == chunks[c].WouldCommit(base, base + size)
    {
      FitsMeans(size, c, base);
      assert ChunkValid(c);
      Shares(c);
      chunks[c].WouldCommitAtLeast(base, base + size);
    }

    /** Purging does not increase it. */
    lemma LeastShrinks(views: seq<View>, size: nat, c: nat, base: nat)
      requires Sound() && Fits(Held(Views()), size, c, base)
      requires Held(Views()) == Held(views) && |views| == |chunks|
      requires forall d | 0 <= d < |chunks| :: views[d].Valid() && NoMoreTables(views, Views(), d)
      ensures LeastCommit(size, c, base) <= LeastFrom(views, size, c, base)
    {
      ViewsValid();
      NetShrinks(views, Views(), c);
      assert NoMoreTables(views, Views(), c);
      UnionShrinks(ViewOf(c).tables, views[c].tables, chunks[c].TablePages(base, base + size));
    }

    static lemma UnionShrinks(a: set<nat>, b: set<nat>, t: set<nat>)
      requires a <= b
      ensures |a + t| <= |b + t|
    {
      SubsetSize(a + t, b + t);
    }

    /** Nor does failing to allocate the run. */
    lemma LeastStays(views: seq<View>, size: nat, c: nat, base: nat, tablesWith: nat)
      requires Sound() && 0 < size && c < |chunks| && base + size <= chunks[c].table.pages
      requires |views| == |chunks| && Views() == views[c := ViewOf(c)] && views[c].Valid()
      requires ViewOf(c).held == views[c].held && chunks[c].TablesWith(base, base + size) == tablesWith
      ensures LeastCommit(size, c, base) ==
              overhead + CommittedTotal(views) - SpareTotal(views) + size + tablesWith - |views[c].tables|
    {
      ViewsValid();
      TotalsChange(views, c, ViewOf(c));
    }

    ghost function LeastFrom(views: seq<View>, size: nat, c: nat, base: nat): int
      requires Apart() && 0 < size && c < |chunks| == |views| && base + size <= chunks[c].table.pages
    {
      overhead + CommittedTotal(views) - SpareTotal(views) + size
      + |views[c].tables + chunks[c].TablePages(base, base + size)| - |views[c].tables|
    }

    method PurgeAndMark(size: nat, pool: nat, c: nat, base: nat) returns (res: Res, ghost refused: bool)
      requires Sound() && Fits(Held(Views()), size, c, base)
      modifies accounts`committed, accounts`spareCommitted, chunks, Tables()
      ensures Sound() && accounts.spareCommitted == 0 && MapResult(res, refused)
      ensures Held(Views()) == After(old(Held(Views())), Alloc(size, pool, true, c, base), res)
      ensures !refused && old(LeastCommit(size, c, base)) <= accounts.commitLimit ==> res == ResOK
    {
      ghost var views := Views();
      ViewsValid();
      var _ := Purge();
      LeastShrinks(views, size, c, base);
      LeastMeans(size, c, base);
      res, refused := MarkAllocated(size, pool, c, base);
    }

    method FreeToSpare(c: nat, base: nat, size: nat)
      requires Sound() && c < |chunks| && 0 < size && Interval(base, base + size) <= chunks[c].Held().Keys
      modifies accounts`spareCommitted, chunks[c], chunks[c].pageTable
      ensures Sound() && Held(Views()) == After(old(Held(Views())), Op.Free(c, base, size), ResOK)
      ensures accounts.spareCommitted == old(accounts.spareCommitted) + size
      ensures forall i :: i in chunks[c].spare <==> i in old(chunks[c].spare) || base <= i < base + size
    {
      ghost var views := Views();
      MakeSpare(c, base, size);
      HeldChange(views, c, ViewOf(c));
    }

    /** Frees pages, and purges if that makes too many spare. */
    method FreePages(c: nat, base: nat, size: nat)
      requires Valid() && c < |chunks| && 0 < size && Interval(base, base + size) <= chunks[c].Held().Keys
      modifies accounts`committed, accounts`spareCommitted, chunks, Tables()
      ensures Valid()
      ensures Held(Views()) == After(old(Held(Views())), Op.Free(c, base, size), ResOK)
      ensures if old(accounts.spareCommitted) + size <= accounts.spareCommitLimit then
                && accounts.spareCommitted == old(accounts.spareCommitted) + size
                && accounts.committed == old(accounts.committed)
                && forall i :: i in chunks[c].spare <==> i in old(chunks[c].spare) || base <= i < base + size
              else accounts.spareCommitted == 0
    {
      FreeToSpare(c, base, size);
      if accounts.spareCommitLimit < accounts.spareCommitted {
        var _ := Purge();
      }
    }

    method SetSpareCommitLimit(limit: nat)
      requires Valid()
      modifies accounts, chunks, Tables()
      ensures Valid() && accounts.spareCommitLimit == limit && accounts.commitLimit == old(accounts.commitLimit)
      ensures Held(Views()) == old(Held(Views()))
      ensures if old(accounts.spareCommitted) <= limit then Views() == old(Views()) else accounts.spareCommitted == 0
    {
      accounts.spareCommitLimit := limit;
      LimitsAside();
      if accounts.spareCommitLimit < accounts.spareCommitted {
        var _ := Purge();
      }
    }

    /** The chunks do not depend on the limits. */
    twostate lemma LimitsAside()
      requires old(Sound()) && unchanged(chunks) && unchanged(Tables())
      requires unchanged(accounts`committed) && unchanged(accounts`spareCommitted)
      ensures Views() == old(Views()) && forall c | 0 <= c < |chunks| :: ChunkValid(c)
    {
      forall c | 0 <= c < |chunks| ensures ChunkValid(c) && ViewOf(c) == old(ViewOf(c)) {
        assert old(ChunkValid(c));
      }
    }

    /** The commit limit can be set to anything that flushing the spare pages is enough for. */
    method SetCommitLimit(limit: nat) returns (res: Res)
      requires Valid()
      modifies accounts, chunks, Tables()
      ensures Valid() && Held(Views()) == old(Held(Views()))
      ensures res == if old(accounts.committed - accounts.spareCommitted) <= limit then ResOK else ResFAIL
      ensures accounts.commitLimit == if res == ResOK then limit else old(accounts.commitLimit)
      ensures accounts.spareCommitLimit == old(accounts.spareCommitLimit)
      ensures if res == ResFAIL || old(accounts.committed) <= limit then Views() == old(Views())
              else accounts.spareCommitted == 0
    {
      var committed := accounts.committed;
      if limit < committed {
        if limit >= committed - accounts.spareCommitted {
          var _ := Purge();
          ChangeCommitLimit(limit);
          res := ResOK;
        } else {
          res := ResFAIL;
        }
      } else {
        ChangeCommitLimit(limit);
        res := ResOK;
      }
    }

    method ChangeCommitLimit(limit: nat)
      requires Valid() && accounts.committed <= limit
      modifies accounts`commitLimit
      ensures Valid() && Views() == old(Views()) && accounts.commitLimit == limit
    {
      accounts.commitLimit := limit;
      LimitsAside();
    }

    /** The chunks when nothing is spare and all of their page tables are mapped. */
    ghost function AllMapped(held: Holdings): (vs: seq<View>)
      requires Apart() && |held| == |chunks|
      ensures |vs| == |chunks| && Held(vs) == held && forall c | 0 <= c < |vs| :: vs[c].Valid() && vs[c].spare == 0
    {
      seq(|chunks|, c requires 0 <= c < |chunks| =>
        var tables := Interval(0, chunks[c].table.tablePages);
        View(|held[c]| + |tables|, 0, held[c], tables))
    }

    /** The most that has to be committed for given holdings. */
    ghost function MostCommit(held: Holdings): int
      requires Apart() && |held| == |chunks|
    {
      overhead + CommittedTotal(AllMapped(held))
    }

    /** What is committed and not spare is within that, even with a run and the pages of its descriptors added. */
    lemma WithinMost(size: nat, c: nat, base: nat)
      requires Sound()
      ensures accounts.committed - accounts.spareCommitted <= MostCommit(Held(Views()))
      ensures 0 < size && c < |chunks| && base + size <= chunks[c].table.pages ==>
                LeastCommit(size, c, base) <= MostCommit(Held(Views())) + size
    {
      var most := AllMapped(Held(Views()));
      ViewsValid();
      forall d | 0 <= d < |chunks| ensures NoMoreTables(most, Views(), d) {
        assert ChunkValid(d);
      }
      NetShrinks(most, Views(), c);
      NothingSpare(most);
      if 0 < size && c < |chunks| && base + size <= chunks[c].table.pages {
        var run := chunks[c].TablePages(base, base + size);
        assert NoMoreTables(most, Views(), c);
        UnionShrinks(ViewOf(c).tables, most[c].tables, run);
        assert most[c].tables + run == most[c].tables;
      }
    }

    /** When nothing is refused, an operation fails only for want of free pages or because of the commit limit. */
    ghost predicate Earned(held: Holdings, commitLimit: nat, op: Op, res: Res, refused: bool)
      requires Apart() && |held| == |chunks|
    {
      match op
      case Alloc(size, _, found, _, _) =>
        && (found && !refused && MostCommit(held) + size <= commitLimit ==> res == ResOK)
        && (res == ResMEMORY ==> refused) && (res == ResRESOURCE ==> !found)
      case SetCommitLimit(limit) => res == ResFAIL ==> limit < MostCommit(held)
      case _ => res == ResOK
    }

    /** What the client of an arena and its allocation policy keep to: the policy finds only free pages, and
        a client frees only what it holds. */
    ghost predicate Permitted(held: Holdings, op: Op) {
      match op
      case Alloc(size, _, found, c, base) => 0 < size && (found ==> Fits(held, size, c, base))
      case Free(c, base, size) => 0 < size && c < |chunks| && c < |held| && Interval(base, base + size) <= held[c].Keys
      case _ => true
    }

    method Perform(op: Op) returns (res: Res, ghost refused: bool)
      requires Valid() && Permitted(Held(Views()), op)
      modifies accounts, chunks, Tables()
      ensures Valid() && Held(Views()) == After(old(Held(Views())), op, res) && CanResult(op, res)
      ensures Earned(old(Held(Views())), old(accounts.commitLimit), op, res, refused)
      ensures accounts.commitLimit == LimitAfter(old(accounts.commitLimit), op, res)
      ensures accounts.spareCommitLimit == if op.SetSpareCommitLimit? then op.limit else old(accounts.spareCommitLimit)
    {
      refused := false;
      match op
      case Alloc(size, pool, found, c, base) =>
        WithinMost(size, c, base);
        res, refused := AllocPages(size, pool, found, c, base);
      case Free(c, base, size) =>
        FreePages(c, base, size);
        res := ResOK;
      case SetSpareCommitLimit(limit) =>
        SetSpareCommitLimit(limit);
        res := ResOK;
      case SetCommitLimit(limit) =>
        WithinMost(0, 0, 0);
        res := SetCommitLimit(limit);
    }
  }

  /** A client chooses each operation by the results of those before it. */
  type Client = seq<Res> -> Op

  /** The holdings after a client has had given results. */
  function AfterAll(held: Holdings, client: Client, ress: seq<Res>): Holdings {
    if ress == [] then held
    else
      var before := ress[..|ress| - 1];
      After(AfterAll(held, client, before), client(before), ress[|ress| - 1])
  }

  ghost predicate CanResultAll(client: Client, ress: seq<Res>) {
    ress == [] ||
    (var before := ress[..|ress| - 1]; CanResultAll(client, before) && CanResult(client(before), ress[|ress| - 1]))
  }

  function LimitAfterAll(commitLimit: nat, client: Client, ress: seq<Res>): nat {
    if ress == [] then commitLimit
    else
      var before := ress[..|ress| - 1];
      LimitAfter(LimitAfterAll(commitLimit, client, before), client(before), ress[|ress| - 1])
  }

  /** Every failure is earned, by the limit and the holdings as they are when it comes. */
  ghost predicate AllEarned(arena: VMArena, held: Holdings, commitLimit: nat, client: Client, ress: seq<Res>,
      refusals: seq<bool>)
    requires arena.Apart()
  {
    && |refusals| == |ress|
    && forall n | 0 <= n < |ress| :: EarnedAt(arena, held, commitLimit, client, ress[..n], ress[n], refusals[n])
  }

  ghost predicate EarnedAt(arena: VMArena, held: Holdings, commitLimit: nat, client: Client, before: seq<Res>,
      res: Res, refused: bool)
    requires arena.Apart()
  {
    var now := AfterAll(held, client, before);
    |now| == |arena.chunks|
    && arena.Earned(now, LimitAfterAll(commitLimit, client, before), client(before), res, refused)
  }

  function SpareLimitAfterAll(spareCommitLimit: nat, client: Client, ress: seq<Res>): nat {
    if ress == [] then spareCommitLimit
    else
      var op := client(ress[..|ress| - 1]);
      if op.SetSpareCommitLimit? then op.limit else SpareLimitAfterAll(spareCommitLimit, client, ress[..|ress| - 1])
  }

  ghost predicate AllPermitted(arena: VMArena, held: Holdings, client: Client) {
    forall ress :: CanResultAll(client, ress) ==> arena.Permitted(AfterAll(held, client, ress), client(ress))
  }

  method RunOne(arena: VMArena, ghost held: Holdings, ghost commitLimit: nat, ghost spareCommitLimit: nat,
      client: Client, before: seq<Res>, ghost refusals: seq<bool>)
    returns (ress: seq<Res>, ghost refusals': seq<bool>)
    requires arena.Valid() && AllPermitted(arena, held, client) && CanResultAll(client, before)
    requires Held(arena.Views()) == AfterAll(held, client, before)
    requires arena.accounts.commitLimit == LimitAfterAll(commitLimit, client, before)
    requires arena.accounts.spareCommitLimit == SpareLimitAfterAll(spareCommitLimit, client, before)
    requires AllEarned(arena, held, commitLimit, client, before, refusals)
    modifies arena.accounts, arena.chunks, arena.Tables()
    ensures arena.Valid() && |ress| == |before| + 1 && CanResultAll(client, ress)
    ensures Held(arena.Views()) == AfterAll(held, client, ress)
    ensures arena.accounts.commitLimit == LimitAfterAll(commitLimit, client, ress)
    ensures arena.accounts.spareCommitLimit == SpareLimitAfterAll(spareCommitLimit, client, ress)
    ensures AllEarned(arena, held, commitLimit, client, ress, refusals')
  {
    assert arena.Permitted(AfterAll(held, client, before), client(before));
    var res;
    ghost var refused;
    res, refused := arena.Perform(client(before));
    ress, refusals' := before + [res], refusals + [refused];
    assert ress[..|before|] == before;
    EarnedOnceMore(arena, held, commitLimit, client, before, refusals, res, refused);
  }

  lemma EarnedOnceMore(arena: VMArena, held: Holdings, commitLimit: nat, client: Client, before: seq<Res>,
      refusals: seq<bool>, res: Res, refused: bool)
    requires arena.Apart() && AllEarned(arena, held, commitLimit, client, before, refusals)
    requires EarnedAt(arena, held, commitLimit, client, before, res, refused)
    ensures AllEarned(arena, held, commitLimit, client, before + [res], refusals + [refused])
  {
    forall n | 0 <= n <= |before|
      ensures EarnedAt(arena, held, commitLimit, client, (before + [res])[..n], (before + [res])[n],
                (refusals + [refused])[n])
    {
      assert (before + [res])[..n] == before[..n];
      assert before[..|before|] == before;
    }
  }

  /** Over every run, whatever mappings fail: the accounts balance, the limits are kept, the pages held are
      exactly those that successful allocations gave out and that have not been freed, and no operation fails
      without a reason. */
  method Run(arena: VMArena, client: Client, n: nat) returns (ress: seq<Res>, ghost refusals: seq<bool>)
    requires arena.Valid() && AllPermitted(arena, Held(arena.Views()), client)
    modifies arena.accounts, arena.chunks, arena.Tables()
    ensures arena.Valid() && |ress| == n && CanResultAll(client, ress)
    ensures Held(arena.Views()) == AfterAll(old(Held(arena.Views())), client, ress)
    ensures AllEarned(arena, old(Held(arena.Views())), old(arena.accounts.commitLimit), client, ress, refusals)
    ensures arena.accounts.commitLimit == LimitAfterAll(old(arena.accounts.commitLimit), client, ress)
    ensures arena.accounts.spareCommitLimit == SpareLimitAfterAll(old(arena.accounts.spareCommitLimit), client, ress)
  {
    ghost var held, commitLimit := Held(arena.Views()), arena.accounts.commitLimit;
    ghost var spareCommitLimit := arena.accounts.spareCommitLimit;
    ress, refusals := [], [];
    while |ress| < n
      invariant |ress| <= n && arena.Valid() && CanResultAll(client, ress)
      invariant Held(arena.Views()) == AfterAll(held, client, ress)
      invariant arena.accounts.commitLimit == LimitAfterAll(commitLimit, client, ress)
      invariant arena.accounts.spareCommitLimit == SpareLimitAfterAll(spareCommitLimit, client, ress)
      invariant AllEarned(arena, held, commitLimit, client, ress, refusals)
    {
      ress, refusals := RunOne(arena, held, commitLimit, spareCommitLimit, client, ress, refusals);
    }
  }
}
