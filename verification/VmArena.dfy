/** The pages of a virtual memory arena: free, spare or allocated.

  The descriptors of a chunk's pages are themselves in pages that are mapped only as needed.  Sizes
  are counted in pages.  A bit table is held as the set of the indices of its set bits.
*/
module VmArenas {
  import BitSets
  import opened Intervals
  import opened PageTables

  datatype Res = ResOK | ResFAIL | ResCOMMIT_LIMIT | ResMEMORY | ResRESOURCE

  /** A page descriptor.  The contents of unmapped memory are lost: they are garbage when mapped again. */
  datatype Desc = Garbage | Free | Spare | Allocated(pool: nat)

  /** What mapping memory can result in, and that it is ResMEMORY just if the operating system refuses. */
  predicate MapResult(res: Res, refused: bool) {
    (res == ResOK || res == ResCOMMIT_LIMIT || res == ResMEMORY) && (res == ResMEMORY <==> refused)
  }

  /** The accounts of an arena. */
  class Accounts {
    var committed: nat
    var commitLimit: nat
    var spareCommitted: nat
    var spareCommitLimit: nat

    /** Mapping memory can fail at any time. */
    method VMMap() returns (ok: bool, ghost refused: bool)
      ensures ok <==> !refused
    {
      ok := *;
      refused := !ok;
    }

    /** Fails for the commit limit, without asking for memory, or because it is refused, and for nothing else. */
    method Map(size: nat) returns (res: Res, ghost refused: bool)
      requires committed <= commitLimit
      modifies this`committed
      ensures MapResult(res, refused) && committed <= commitLimit
      ensures res == ResCOMMIT_LIMIT <==> commitLimit < old(committed) + size
      ensures committed == if res == ResOK then old(committed) + size else old(committed)
    {
      if commitLimit < committed + size {
        return ResCOMMIT_LIMIT, false;
      }
      var ok;
      ok, refused := VMMap();
      if !ok {
        return ResMEMORY, refused;
      }
      committed := committed + size;
      return ResOK, refused;
    }

    method Unmap(size: nat)
      requires size <= committed
      modifies this`committed
      ensures committed == old(committed) - size
    {
      committed := committed - size;
    }
  }

  class VMChunk {
    const table: PageTable
    const accounts: Accounts
    const allocBase: nat
    /** The descriptors, as they are in memory. */
    const pageTable: array<Desc>
    var allocTable: set<nat>
    var pageTableMapped: set<nat>
    var noSparePages: set<nat>
    /** The pages (other than table pages) that are allocated or spare, and those that are spare. */
    ghost var mapped: set<nat>
    ghost var spare: set<nat>
    /** The pages, and the table pages, that have been mapped and not unmapped since. */
    ghost var backed: set<nat>
    ghost var tableBacked: set<nat>

    constructor (table: PageTable, accounts: Accounts, allocBase: nat)
      requires table.Valid() && allocBase <= table.pages
      ensures Valid() && mapped == {} && spare == {} && allocTable == {} && pageTableMapped == {}
      ensures noSparePages == Interval(0, table.tablePages)
      ensures this.table == table && this.accounts == accounts && this.allocBase == allocBase
      ensures fresh(pageTable)
    {
      this.table, this.accounts, this.allocBase := table, accounts, allocBase;
      pageTable := new Desc[table.pages](_ => Garbage);
      allocTable, pageTableMapped := {}, {};
      noSparePages := Interval(0, table.tablePages);
      mapped, spare, backed, tableBacked := {}, {}, {}, {};
    }

    /** A descriptor can be read and written: all of it is on mapped pages. */
    ghost predicate Accessible(i: nat)
      requires i < |table.first| && i < |table.last|
      reads this`pageTableMapped
    {
      WholeIn(pageTableMapped, i)
    }

    ghost predicate WholeIn(m: set<nat>, i: nat)
      requires i < |table.first| && i < |table.last|
    {
      table.first[i] in m && table.last[i] in m
    }

    /** A descriptor whose table pages all have their noSparePages bit reset. */
    ghost predicate Open(i: nat)
      requires i < |table.first| && i < |table.last|
      reads this`noSparePages
    {
      table.first[i] !in noSparePages && table.last[i] !in noSparePages
    }

    ghost predicate Shape() {
      && table.Valid() && pageTable.Length == table.pages && allocBase <= table.pages
    }

    /** The descriptors agree with the bit tables and with what is mapped. */
    ghost predicate DescsValid()
      reads this`allocTable, this`pageTableMapped, this`mapped, this`spare, pageTable
    {
      && Shape()
      && (forall i | i in allocTable :: i < table.pages)
      && (forall i | i in spare :: i < table.pages)
      && (forall k | k in pageTableMapped :: k < table.tablePages)
      && (forall i | 0 <= i < table.pages :: DescValid(pageTableMapped, i))
      && mapped == allocTable + spare
    }

    ghost predicate DescValid(m: set<nat>, i: nat)
      requires Shape() && i < table.pages
      reads this`allocTable, this`spare, pageTable
    {
      && (i in allocTable <==> pageTable[i].Allocated?)
      && (i in spare <==> pageTable[i].Spare?)
      && (WholeIn(m, i) <==> !pageTable[i].Garbage?)
      && (i < allocBase ==> i !in allocTable && i !in spare)
    }

    /** A set noSparePages bit is right, and a reset one is on a mapped table page that the purge can
        examine together with the other table page of some descriptor. */
    ghost predicate BitsValid()
      requires Shape()
      reads this`pageTableMapped, this`noSparePages, pageTable
    {
      && (forall k | k in noSparePages :: k < table.tablePages)
      && (forall i | 0 <= i < table.pages :: SpareOpen(i))
      && (forall k | 0 <= k < table.tablePages :: BitValid(k))
    }

    ghost predicate SpareOpen(i: nat)
      requires Shape() && i < table.pages
      reads this`noSparePages, pageTable
    {
      pageTable[i] == Spare ==> Open(i)
    }

    ghost predicate BitValid(k: nat)
      requires Shape()
      reads this`pageTableMapped, this`noSparePages
    {
      k !in noSparePages ==> k in pageTableMapped && Purgeable(k)
    }

    /** Some descriptor on table page k is open. */
    ghost predicate Purgeable(k: nat)
      requires Shape()
      reads this`noSparePages
    {
      exists i :: 0 <= i < table.pages && table.Touches(i, k) && Open(i)
    }

    /** The mapped pages are the allocated and the spare ones, and the mapped table pages those with a bit set. */
    ghost predicate Backed()
      reads this`mapped, this`backed, this`pageTableMapped, this`tableBacked
    {
      backed == mapped && tableBacked == pageTableMapped
    }

    ghost predicate Valid()
      reads this, pageTable
    {
      DescsValid() && BitsValid() && Backed()
    }

    /** Maps pages, none of which is mapped. */
    method MapPages(base: nat, limit: nat) returns (res: Res, ghost refused: bool)
      requires base <= limit && accounts.committed <= accounts.commitLimit
      requires forall i | base <= i < limit :: i !in backed
      modifies this`backed, accounts`committed
      ensures MapResult(res, refused) && accounts.committed <= accounts.commitLimit
      ensures res == ResCOMMIT_LIMIT <==> accounts.commitLimit < old(accounts.committed) + limit - base
      ensures accounts.committed == if res == ResOK then old(accounts.committed) + limit - base
                else old(accounts.committed)
      ensures forall i :: i in backed <==> i in old(backed) || (res == ResOK && base <= i < limit)
    {
      res, refused := accounts.Map(limit - base);
      if res == ResOK {
        backed := backed + Interval(base, limit);
      }
    }

    /** Unmaps pages, all of which are mapped. */
    method UnmapPages(base: nat, limit: nat)
      requires base <= limit && limit - base <= accounts.committed
      requires forall i | base <= i < limit :: i in backed
      modifies this`backed, accounts`committed
      ensures accounts.committed == old(accounts.committed) - (limit - base)
      ensures forall i :: i in backed <==> i in old(backed) && !(base <= i < limit)
    {
      accounts.Unmap(limit - base);
      backed := backed - Interval(base, limit);
    }

    /** The same for pages of the page table. */
    method MapTable(base: nat, limit: nat) returns (res: Res, ghost refused: bool)
      requires base <= limit && accounts.committed <= accounts.commitLimit
      requires Interval(base, limit) !! tableBacked
      modifies this`tableBacked, accounts`committed
      ensures MapResult(res, refused) && accounts.committed <= accounts.commitLimit
      ensures res == ResCOMMIT_LIMIT <==> accounts.commitLimit < old(accounts.committed) + limit - base
      ensures accounts.committed == if res == ResOK then old(accounts.committed) + limit - base
                else old(accounts.committed)
      ensures tableBacked == if res == ResOK then old(tableBacked) + Interval(base, limit) else old(tableBacked)
    {
      res, refused := accounts.Map(limit - base);
      if res == ResOK {
        tableBacked := tableBacked + Interval(base, limit);
      }
    }

    method UnmapTable(k: nat)
      requires 0 < accounts.committed && k in tableBacked
      modifies this`tableBacked, accounts`committed
      ensures accounts.committed == old(accounts.committed) - 1
      ensures tableBacked == old(tableBacked) - {k}
    {
      accounts.Unmap(1);
      tableBacked := tableBacked - {k};
    }

    /** The allocated pages and the pools they are allocated to. */
    ghost function Held(): map<nat, nat>
      requires Shape()
      reads this`allocTable, pageTable
    {
      map i | i in allocTable && i < pageTable.Length && pageTable[i].Allocated? :: pageTable[i].pool
    }

    /** The committed pages that are this chunk's: its mapped pages and its mapped table pages. */
    ghost function Committed(): nat
      reads this`mapped, this`pageTableMapped
    {
      |mapped| + |pageTableMapped|
    }

    /** What the arena has committed, and holds as spare, outside this chunk. */
    ghost function OtherCommitted(): int
      reads this`mapped, this`pageTableMapped, accounts`committed
    {
      accounts.committed - Committed()
    }

    ghost function OtherSpare(): int
      reads this`spare, accounts`spareCommitted
    {
      accounts.spareCommitted - |spare|
    }

    /** The pages of the page table that hold the descriptors of a run of pages. */
    ghost function TablePages(base: nat, limit: nat): set<nat>
      requires Shape() && base < limit <= table.pages
    {
      Interval(table.first[base], table.last[limit - 1] + 1)
    }

    /** How many pages of the page table would be mapped with those. */
    ghost function TablesWith(base: nat, limit: nat): nat
      requires Shape() && base < limit <= table.pages
      reads this`pageTableMapped
    {
      |pageTableMapped + TablePages(base, limit)|
    }

    /** What the arena would have committed, were a run of pages and their descriptors all mapped. */
    ghost function WouldCommit(base: nat, limit: nat): int
      requires Shape() && base < limit <= table.pages
      reads this`mapped, this`pageTableMapped, accounts`committed
    {
      OtherCommitted() + |mapped + Interval(base, limit)| + TablesWith(base, limit)
    }

    /** The first run of reset bits, however short: a run of length one, as far as it goes. */
    static method FindLongResRange(bits: set<nat>, searchBase: nat, searchLimit: nat)
      returns (found: bool, base: nat, limit: nat)
      requires searchBase < searchLimit
      ensures found ==> searchBase <= base < limit <= searchLimit
      ensures found ==> (forall k | searchBase <= k < base :: k in bits) && (forall k | base <= k < limit :: k !in bits)
      ensures found ==> limit == searchLimit || limit in bits
      ensures !found ==> forall k | searchBase <= k < searchLimit :: k in bits
    {
      found, base, limit := BitSets.FindLongResRange(bits, searchBase, searchLimit, 1);
      forall k | searchBase <= k < if found then base else searchLimit ensures k in bits {
        assert !BitSets.ResFrom(bits, k, 1);
      }
    }

    // ---------- Mapping the page table ----------

    /** Descriptors wholly on the table pages `was` are as they were, and those wholly mapped since are
        initialised. */
    ghost predicate Extends(was: set<nat>, descs: seq<Desc>)
      requires Shape() && |descs| == table.pages
      reads this`pageTableMapped, pageTable
    {
      forall i | 0 <= i < table.pages ::
        if WholeIn(was, i) then pageTable[i] == descs[i]
        else Accessible(i) ==> pageTable[i] == Free
    }

    /** Maps the table pages holding the descriptors of the pages from base to limit. */
    method EnsureTableMapped(base: nat, limit: nat, ghost goal: set<nat>) returns (res: Res, ghost refused: bool)
      requires Valid() && base < limit <= table.pages && accounts.committed <= accounts.commitLimit
      requires goal == pageTableMapped + TablePages(base, limit)
      modifies this`pageTableMapped, this`tableBacked, this`allocTable, pageTable, accounts`committed
      ensures Valid() && accounts.committed <= accounts.commitLimit && MapResult(res, refused)
      ensures OtherCommitted() == old(OtherCommitted())
      ensures allocTable == old(allocTable) && old(pageTableMapped) <= pageTableMapped <= goal
      ensures Extends(old(pageTableMapped), old(pageTable[..]))
      ensures res == ResOK ==> pageTableMapped == goal
      ensures res == ResCOMMIT_LIMIT ==> accounts.commitLimit < OtherCommitted() + |mapped| + |goal|
      ensures TablePages(base, limit) <= old(pageTableMapped) ==> res == ResOK
    {
      ghost var was, descs := pageTableMapped, pageTable[..];
      var used := table.TablePagesUsed(base, limit);
      var tableBase, tableLimit := used.0, used.1;
      assert TablePages(base, limit) == Interval(tableBase, tableLimit);
      var cursor := tableBase;
      var found, unmappedBase, unmappedLimit := NextUnmapped(tableBase, tableLimit, cursor);
      while found
        invariant Valid() && accounts.committed <= accounts.commitLimit
        invariant OtherCommitted() == old(OtherCommitted())
        invariant allocTable == old(allocTable) && was <= pageTableMapped <= goal && Extends(was, descs)
        invariant tableBase <= cursor < tableLimit
        invariant UnmappedRun(tableBase, tableLimit, cursor, found, unmappedBase, unmappedLimit)
        decreases tableLimit - cursor
      {
        assert unmappedBase in Interval(tableBase, tableLimit) && unmappedBase !in pageTableMapped;
        res, refused := MapNextRun(was, descs, goal, tableBase, tableLimit, unmappedBase, unmappedLimit);
        if res != ResOK {
          return;
        }
        cursor := unmappedLimit;
        if cursor == tableLimit {
          break;
        }
        found, unmappedBase, unmappedLimit := NextUnmapped(tableBase, tableLimit, cursor);
      }
      res, refused := ResOK, false;
    }

    /** The first unmapped run of table pages from the cursor on, everything before it being mapped. */
    ghost predicate UnmappedRun(tableBase: nat, tableLimit: nat, cursor: nat, found: bool, base: nat, limit: nat)
      reads this`pageTableMapped
    {
      if found then
        && tableBase <= cursor <= base < limit <= tableLimit
        && Interval(tableBase, base) <= pageTableMapped && Interval(base, limit) !! pageTableMapped
        && (limit == tableLimit || limit in pageTableMapped)
      else Interval(tableBase, tableLimit) <= pageTableMapped
    }

    method NextUnmapped(tableBase: nat, tableLimit: nat, cursor: nat) returns (found: bool, base: nat, limit: nat)
      requires tableBase <= cursor < tableLimit && Interval(tableBase, cursor) <= pageTableMapped
      ensures UnmappedRun(tableBase, tableLimit, cursor, found, base, limit)
    {
      found, base, limit := FindLongResRange(pageTableMapped, cursor, tableLimit);
    }

    method MapNextRun(ghost was: set<nat>, ghost descs: seq<Desc>, ghost goal: set<nat>,
        tableBase: nat, tableLimit: nat, base: nat, limit: nat)
      returns (res: Res, ghost refused: bool)
      requires Valid() && accounts.committed <= accounts.commitLimit && tableLimit <= table.tablePages
      requires UnmappedRun(tableBase, tableLimit, tableBase, true, base, limit)
      requires |descs| == table.pages && was <= pageTableMapped && Extends(was, descs)
      requires pageTableMapped <= goal && Interval(tableBase, tableLimit) <= goal
      modifies this`pageTableMapped, this`tableBacked, this`allocTable, pageTable, accounts`committed
      ensures Valid() && accounts.committed <= accounts.commitLimit && MapResult(res, refused)
      ensures OtherCommitted() == old(OtherCommitted())
      ensures allocTable == old(allocTable) && was <= pageTableMapped && Extends(was, descs)
      ensures pageTableMapped <= goal
      ensures res == ResOK ==> Interval(tableBase, limit) <= pageTableMapped
      ensures res == ResCOMMIT_LIMIT ==> accounts.commitLimit < OtherCommitted() + |mapped| + |goal|
    {
      ghost var was1, descs1 := pageTableMapped, pageTable[..];
      IntervalSize(was1, base, limit);
      SubsetSize(was1 + Interval(base, limit), goal);
      res, refused := MapTablePages(tableBase, tableLimit, base, limit);
      assert Extends(was1, descs1);
      assert forall i | 0 <= i < table.pages && WholeIn(was, i) :: WholeIn(was1, i);
    }

    /** Maps one run of table pages, and initialises the descriptors that are thereby wholly mapped:
        not those that straddle into a page still unmapped, nor those mapped already. */
    method MapTablePages(tableBase: nat, tableLimit: nat, base: nat, limit: nat) returns (res: Res, ghost refused: bool)
      requires Valid() && accounts.committed <= accounts.commitLimit
      requires tableBase <= base < limit <= tableLimit <= table.tablePages
      requires Interval(tableBase, base) <= pageTableMapped && Interval(base, limit) !! pageTableMapped
      requires limit == tableLimit || limit in pageTableMapped
      modifies this`pageTableMapped, this`tableBacked, this`allocTable, pageTable, accounts`committed
      ensures Valid() && accounts.committed <= accounts.commitLimit && MapResult(res, refused)
      ensures OtherCommitted() == old(OtherCommitted())
      ensures allocTable == old(allocTable)
      ensures pageTableMapped == if res == ResOK then old(pageTableMapped) + Interval(base, limit)
                else old(pageTableMapped)
      ensures Extends(old(pageTableMapped), old(pageTable[..]))
      ensures res == ResCOMMIT_LIMIT <==> accounts.commitLimit < old(accounts.committed) + limit - base
    {
      var baseIndex, limitIndex := NewDescs(tableBase, tableLimit, base, limit);
      res, refused := MapTable(base, limit);
      if res != ResOK {
        return;
      }
      AddTablePages(base, limit, baseIndex, limitIndex);
    }

    /** Notes that a run of table pages has been mapped, and initialises the descriptors thereby made whole. */
    method AddTablePages(base: nat, limit: nat, baseIndex: nat, limitIndex: nat)
      requires DescsValid() && BitsValid() && backed == mapped && tableBacked == pageTableMapped + Interval(base, limit)
      requires base <= limit <= table.tablePages && Interval(base, limit) !! pageTableMapped
      requires baseIndex <= limitIndex <= table.pages
      requires forall i | 0 <= i < table.pages ::
                 baseIndex <= i < limitIndex <==>
                 WholeIn(pageTableMapped + Interval(base, limit), i) && !WholeIn(pageTableMapped, i)
      modifies this`pageTableMapped, this`allocTable, pageTable
      ensures Valid() && allocTable == old(allocTable)
      ensures pageTableMapped == old(pageTableMapped) + Interval(base, limit)
      ensures Committed() == old(Committed()) + limit - base
      ensures Extends(old(pageTableMapped), old(pageTable[..]))
    {
      ghost var was := pageTableMapped;
      pageTableMapped := pageTableMapped + Interval(base, limit);
      IntervalSize(was, base, limit);
      assert forall i | 0 <= i < table.pages ::
          baseIndex <= i < limitIndex <==> WholeIn(pageTableMapped, i) && !WholeIn(was, i);
      assert forall i | 0 <= i < table.pages && WholeIn(was, i) :: WholeIn(pageTableMapped, i);
      forall i | 0 <= i < table.pages ensures DescValid(was, i) {
        assert old(DescValid(pageTableMapped, i));
      }
      forall k | 0 <= k < table.tablePages ensures BitValid(k) {
        assert old(BitValid(k));
      }
      InitNewPages(was, baseIndex, limitIndex);
    }

    method InitNewPages(ghost was: set<nat>, base: nat, limit: nat)
      requires Shape() && BitsValid() && Backed()
      requires base <= limit <= table.pages && was <= pageTableMapped && mapped == allocTable + spare
      requires forall i | 0 <= i < table.pages :: base <= i < limit <==> Accessible(i) && !WholeIn(was, i)
      requires forall i | i in allocTable :: i < table.pages
      requires forall i | i in spare :: i < table.pages
      requires forall k | k in pageTableMapped :: k < table.tablePages
      requires forall i | 0 <= i < table.pages :: DescValid(was, i)
      modifies this`allocTable, pageTable
      ensures Valid() && allocTable == old(allocTable)
      ensures Extends(was, old(pageTable[..]))
    {
      forall i | base <= i < limit ensures i !in allocTable {
        assert DescValid(was, i);
      }
      InitPages(base, limit);
      forall i | 0 <= i < table.pages ensures DescValid(pageTableMapped, i) {
        assert old(DescValid(was, i)) && (WholeIn(was, i) ==> Accessible(i));
      }
      forall i | 0 <= i < table.pages ensures SpareOpen(i) {
        assert old(SpareOpen(i));
      }
    }

    /** The descriptors that mapping a run of table pages makes whole. */
    method NewDescs(tableBase: nat, tableLimit: nat, base: nat, limit: nat) returns (baseIndex: nat, limitIndex: nat)
      requires Shape() && tableBase <= base < limit <= tableLimit <= table.tablePages
      requires Interval(tableBase, base) <= pageTableMapped && Interval(base, limit) !! pageTableMapped
      requires limit == tableLimit || limit in pageTableMapped
      requires forall k | k in pageTableMapped :: k < table.tablePages
      ensures baseIndex <= limitIndex <= table.pages
      ensures forall i | 0 <= i < table.pages ::
                baseIndex <= i < limitIndex <==>
                WholeIn(pageTableMapped + Interval(base, limit), i) && !WholeIn(pageTableMapped, i)
    {
      ghost var low, high := false, false;
      if base == tableBase && base > 0 && base - 1 !in pageTableMapped {
        baseIndex := table.TablePageWholeBaseIndex(base);
      } else {
        baseIndex := table.TablePageBaseIndex(base);
        low := true;
      }
      if limit == tableLimit && limit < table.tablePages && limit !in pageTableMapped {
        limitIndex := table.TablePageBaseIndex(limit);
      } else if limit == table.tablePages {
        limitIndex := table.pages;
      } else {
        limitIndex := table.TablePageWholeBaseIndex(limit);
        high := true;
      }
      assert baseIndex <= table.pages && limitIndex <= table.pages;
      ghost var f0 := if limitIndex < table.pages then table.first[limitIndex] else base;
      ghost var l0 := if limitIndex < table.pages then table.last[limitIndex] else base;
      assert l0 <= f0 + 1;
      assert baseIndex <= limitIndex;
      forall i | 0 <= i < table.pages
        ensures baseIndex <= i < limitIndex <==>
                WholeIn(pageTableMapped + Interval(base, limit), i) && !WholeIn(pageTableMapped, i)
      {
        var f, l := table.first[i], table.last[i];
        assert f <= l <= f + 1 && l < table.tablePages;
        assert baseIndex <= i <==> base <= if low then l else f;
        assert i < limitIndex <==> (if high then f else l) < limit;
        assert f < base ==> f == base - 1 || !(base <= l);
      }
    }

    /** Initialises descriptors as those of free pages. */
    method InitPages(base: nat, limit: nat)
      requires Shape() && base <= limit <= table.pages
      requires forall i | base <= i < limit :: Accessible(i)
      modifies this`allocTable, pageTable
      ensures allocTable == old(allocTable) - Interval(base, limit)
      ensures forall i | 0 <= i < table.pages ::
                pageTable[i] == if base <= i < limit then Free else old(pageTable[i])
    {
      var i := base;
      while i < limit
        invariant base <= i <= limit
        invariant allocTable == old(allocTable) - Interval(base, i)
        invariant forall j | 0 <= j < table.pages :: pageTable[j] == if base <= j < i then Free else old(pageTable[j])
      {
        allocTable := allocTable - {i};
        pageTable[i] := Free;
        assert Interval(base, i + 1) == Interval(base, i) + {i};
        i := i + 1;
      }
    }

    // ---------- One page ----------

    /** Every descriptor in [base, limit) has become desc; the others are as they were. */
    twostate predicate Filled(base: nat, limit: nat, desc: Desc)
      reads pageTable
    {
      forall i | 0 <= i < pageTable.Length :: pageTable[i] == if base <= i < limit then desc else old(pageTable[i])
    }

    /** Turns a spare page into an allocated one. */
    method AllocSparePage(i: nat, pool: nat)
      requires DescsValid() && i < table.pages && pageTable[i] == Spare && 0 <= OtherSpare()
      modifies this`allocTable, this`spare, pageTable, accounts`spareCommitted
      ensures DescsValid() && OtherSpare() == old(OtherSpare())
      ensures Filled(i, i + 1, Allocated(pool))
      ensures accounts.spareCommitted <= old(accounts.spareCommitted)
    {
      assert DescValid(pageTableMapped, i);
      accounts.spareCommitted := accounts.spareCommitted - 1;
      allocTable := allocTable + {i};
      pageTable[i] := Allocated(pool);
      spare := spare - {i};
      assert mapped == allocTable + spare;
      forall j | 0 <= j < table.pages ensures DescValid(pageTableMapped, j) {
        assert old(DescValid(pageTableMapped, j));
      }
    }

    /** Turns a free page that has just been mapped into an allocated one. */
    method AllocFreePage(i: nat, pool: nat)
      requires DescsValid() && allocBase <= i < table.pages && pageTable[i] == Free
      modifies this`allocTable, this`mapped, pageTable
      ensures DescsValid() && Committed() == old(Committed()) + 1 && mapped == old(mapped) + {i}
      ensures Filled(i, i + 1, Allocated(pool))
    {
      assert DescValid(pageTableMapped, i);
      allocTable := allocTable + {i};
      pageTable[i] := Allocated(pool);
      mapped := mapped + {i};
      forall j | 0 <= j < table.pages ensures DescValid(pageTableMapped, j) {
        assert old(DescValid(pageTableMapped, j));
      }
    }

    /** Turns an allocated page that has just been unmapped into a free one. */
    method FreeAllocatedPage(i: nat)
      requires DescsValid() && i < table.pages && pageTable[i].Allocated?
      modifies this`allocTable, this`mapped, pageTable
      ensures DescsValid() && Committed() == old(Committed()) - 1 && mapped == old(mapped) - {i}
      ensures Filled(i, i + 1, Free)
    {
      assert DescValid(pageTableMapped, i);
      allocTable := allocTable - {i};
      pageTable[i] := Free;
      mapped := mapped - {i};
      forall j | 0 <= j < table.pages ensures DescValid(pageTableMapped, j) {
        assert old(DescValid(pageTableMapped, j));
      }
    }

    /** Turns a spare page that is about to be unmapped into a free one. */
    method FreeSparePage(i: nat)
      requires DescsValid() && i < table.pages && pageTable[i] == Spare && 0 <= OtherSpare()
      modifies this`allocTable, this`mapped, this`spare, pageTable, accounts`spareCommitted
      ensures DescsValid() && Committed() == old(Committed()) - 1 && OtherSpare() == old(OtherSpare())
      ensures mapped == old(mapped) - {i}
      ensures Filled(i, i + 1, Free)
    {
      assert DescValid(pageTableMapped, i);
      accounts.spareCommitted := accounts.spareCommitted - 1;
      allocTable := allocTable - {i};
      pageTable[i] := Free;
      mapped, spare := mapped - {i}, spare - {i};
      forall j | 0 <= j < table.pages ensures DescValid(pageTableMapped, j) {
        assert old(DescValid(pageTableMapped, j));
      }
    }

    /** Turns an allocated page into a spare one, still mapped. */
    method SparePage(i: nat)
      requires DescsValid() && i < table.pages && pageTable[i].Allocated?
      modifies this`allocTable, this`spare, pageTable
      ensures DescsValid() && OtherSpare() == old(OtherSpare()) - 1
      ensures Filled(i, i + 1, Spare)
    {
      assert DescValid(pageTableMapped, i);
      pageTable[i] := Spare;
      allocTable := allocTable - {i};
      spare := spare + {i};
      assert mapped == allocTable + spare;
      forall j | 0 <= j < table.pages ensures DescValid(pageTableMapped, j) {
        assert old(DescValid(pageTableMapped, j));
      }
    }

    /** Whether a page that is not allocated is mapped; its descriptor is looked at only if it can be. */
    method PageIsMapped(i: nat) returns (b: bool)
      requires DescsValid() && i < table.pages && !pageTable[i].Allocated?
      ensures b <==> pageTable[i] == Spare
    {
      assert DescValid(pageTableMapped, i);
      var used := table.TablePagesUsed(i, i + 1);
      assert used.1 - used.0 - 1 < 2;
      b := false;
      if used.0 in pageTableMapped && used.1 - 1 in pageTableMapped {
        assert Accessible(i);
        if pageTable[i] == Spare {
          return true;
        }
        assert pageTable[i] == Free;
      }
    }

    // ---------- Runs of pages ----------

    /** The end of the run of mapped pages, or of unmapped ones, that starts at base. */
    method ScanRun(base: nat, limit: nat, mappedRun: bool) returns (end: nat)
      requires DescsValid() && base < limit <= table.pages
      requires forall i | base <= i < limit :: !pageTable[i].Allocated?
      ensures base <= end <= limit
      ensures forall i | base <= i < end :: pageTable[i] == Spare <==> mappedRun
      ensures end < limit ==> (pageTable[end] == Spare <==> !mappedRun)
    {
      end := base;
      while end < limit
        invariant base <= end <= limit
        invariant forall i | base <= i < end :: pageTable[i] == Spare <==> mappedRun
      {
        var isMapped := PageIsMapped(end);
        if isMapped != mappedRun {
          break;
        }
        end := end + 1;
      }
    }

    method AllocSpareRun(base: nat, limit: nat, pool: nat)
      requires DescsValid() && base <= limit <= table.pages && 0 <= OtherSpare()
      requires forall i | base <= i < limit :: pageTable[i] == Spare
      modifies this`allocTable, this`spare, pageTable, accounts`spareCommitted
      ensures DescsValid() && OtherSpare() == old(OtherSpare())
      ensures Filled(base, limit, Allocated(pool))
      ensures accounts.spareCommitted <= old(accounts.spareCommitted)
    {
      var i := base;
      while i < limit
        invariant base <= i <= limit && DescsValid() && OtherSpare() == old(OtherSpare())
        invariant accounts.spareCommitted <= old(accounts.spareCommitted)
        invariant Filled(base, i, Allocated(pool))
      {
        AllocSparePage(i, pool);
        i := i + 1;
      }
    }

    method AllocFreeRun(base: nat, limit: nat, pool: nat)
      requires DescsValid() && allocBase <= base <= limit <= table.pages
      requires forall i | base <= i < limit :: pageTable[i] == Free
      modifies this`allocTable, this`mapped, pageTable
      ensures DescsValid() && Committed() == old(Committed()) + limit - base
      ensures forall i :: i in mapped <==> i in old(mapped) || base <= i < limit
      ensures Filled(base, limit, Allocated(pool))
    {
      var i := base;
      while i < limit
        invariant base <= i <= limit && DescsValid() && Committed() == old(Committed()) + i - base
        invariant forall j :: j in mapped <==> j in old(mapped) || base <= j < i
        invariant Filled(base, i, Allocated(pool))
      {
        AllocFreePage(i, pool);
        i := i + 1;
      }
    }

    method FreeAllocatedRun(base: nat, limit: nat)
      requires DescsValid() && base <= limit <= table.pages
      requires forall i | base <= i < limit :: pageTable[i].Allocated?
      modifies this`allocTable, this`mapped, pageTable
      ensures DescsValid() && Committed() == old(Committed()) - (limit - base)
      ensures forall i :: i in mapped <==> i in old(mapped) && !(base <= i < limit)
      ensures Filled(base, limit, Free)
    {
      var i := base;
      while i < limit
        invariant base <= i <= limit && DescsValid() && Committed() == old(Committed()) - (i - base)
        invariant forall j :: j in mapped <==> j in old(mapped) && !(base <= j < i)
        invariant Filled(base, i, Free)
      {
        FreeAllocatedPage(i);
        i := i + 1;
      }
    }

    // ---------- Allocating ----------

    /** Maps and allocates the run of unmapped pages at base. */
    method MapFreeRun(base: nat, limit: nat, pool: nat, ghost goal: set<nat>)
      returns (res: Res, next: nat, ghost refused: bool)
      requires DescsValid() && allocBase <= base < limit <= table.pages
      requires forall i | base <= i < limit :: Accessible(i) && !pageTable[i].Allocated?
      requires pageTable[base] != Spare && accounts.committed <= accounts.commitLimit && Backed()
      requires mapped <= goal && Interval(base, limit) <= goal
      modifies this`allocTable, this`mapped, this`backed, pageTable, accounts`committed
      ensures DescsValid() && accounts.committed <= accounts.commitLimit && MapResult(res, refused) && Backed()
      ensures OtherCommitted() == old(OtherCommitted())
      ensures if res == ResOK then base < next <= limit else next == base
      ensures Filled(base, next, Allocated(pool)) && mapped <= goal
      ensures res == ResCOMMIT_LIMIT ==> accounts.commitLimit < OtherCommitted() + |goal| + |pageTableMapped|
    {
      next := ScanRun(base, limit, false);
      forall i | base <= i < next ensures pageTable[i] == Free && i !in backed {
        assert DescValid(pageTableMapped, i) && Accessible(i);
      }
      RoomInGoal(base, next, goal);
      res, refused := MapPages(base, next);
      if res != ResOK {
        return res, base, refused;
      }
      AllocFreeRun(base, next, pool);
    }

    lemma RoomInGoal(base: nat, limit: nat, goal: set<nat>)
      requires base <= limit && mapped <= goal && Interval(base, limit) <= goal
      requires forall i | base <= i < limit :: i !in mapped
      ensures |mapped| + limit - base <= |goal|
    {
      IntervalSize(mapped, base, limit);
      SubsetSize(mapped + Interval(base, limit), goal);
    }

    /** Allocates a run of mapped pages and the run of unmapped ones after it; next is where it got to. */
    method MarkRuns(base: nat, limit: nat, pool: nat, ghost goal: set<nat>)
      returns (res: Res, next: nat, ghost refused: bool)
      requires DescsValid() && allocBase <= base < limit <= table.pages
      requires forall i | base <= i < limit :: Accessible(i) && !pageTable[i].Allocated?
      requires accounts.committed <= accounts.commitLimit && 0 <= OtherSpare() && Backed()
      requires mapped <= goal && Interval(base, limit) <= goal
      modifies this`allocTable, this`spare, this`mapped, this`backed, pageTable, accounts`committed,
               accounts`spareCommitted
      ensures DescsValid() && Backed() && accounts.committed <= accounts.commitLimit && MapResult(res, refused)
      ensures OtherCommitted() == old(OtherCommitted()) && OtherSpare() == old(OtherSpare())
      ensures base <= next <= limit && (res == ResOK ==> base < next)
      ensures Filled(base, next, Allocated(pool))
      ensures accounts.spareCommitted <= old(accounts.spareCommitted) && mapped <= goal
      ensures res == ResCOMMIT_LIMIT ==> accounts.commitLimit < OtherCommitted() + |goal| + |pageTableMapped|
      ensures (forall i | base <= i < limit :: old(pageTable[i]) == Spare) ==> res == ResOK
    {
      var mappedLimit := ScanRun(base, limit, true);
      AllocSpareRun(base, mappedLimit, pool);
      if mappedLimit == limit {
        return ResOK, limit, false;
      }
      res, next, refused := MapFreeRun(mappedLimit, limit, pool, goal);
    }

    /** Outside [base, limit), descriptors that were whole are as they were and the others, once whole,
        are those of free pages; inside they are all desc. */
    ghost predicate Marked(was: set<nat>, descs: seq<Desc>, base: nat, limit: nat, desc: Desc)
      requires Shape() && |descs| == table.pages
      reads this`pageTableMapped, pageTable
    {
      forall i | 0 <= i < table.pages ::
        if base <= i < limit then pageTable[i] == desc
        else if WholeIn(was, i) then pageTable[i] == descs[i]
        else Accessible(i) ==> pageTable[i] == Free
    }

    /** The table pages for a range of pages have been mapped, and no noSparePages bit has changed. */
    ghost predicate TablesFor(was: set<nat>, bits: set<nat>, base: nat, limit: nat)
      requires Shape() && base < limit <= table.pages
      reads this`pageTableMapped, this`noSparePages
    {
      && pageTableMapped == was + TablePages(base, limit)
      && noSparePages == bits
    }

    /** Allocates the free pages from base to limit, mapping those that are not spare; on failure unmaps
        what it had got to. */
    method MarkPages(base: nat, limit: nat, pool: nat) returns (res: Res, ghost refused: bool)
      requires Valid() && allocBase <= base < limit <= table.pages && Interval(base, limit) !! allocTable
      requires accounts.committed <= accounts.commitLimit && 0 <= OtherCommitted() && 0 <= OtherSpare()
      modifies this, pageTable, accounts`committed, accounts`spareCommitted
      ensures Valid() && accounts.committed <= accounts.commitLimit && MapResult(res, refused)
      ensures OtherCommitted() == old(OtherCommitted()) && OtherSpare() == old(OtherSpare())
      ensures res == ResOK ==> Marked(old(pageTableMapped), old(pageTable[..]), base, limit, Allocated(pool))
      ensures res == ResOK ==> TablesFor(old(pageTableMapped), old(noSparePages), base, limit)
      ensures res != ResOK ==> exists next ::
                base <= next <= limit && Marked(old(pageTableMapped), old(pageTable[..]), base, next, Free)
      ensures accounts.spareCommitted <= old(accounts.spareCommitted)
      ensures old(pageTableMapped) <= pageTableMapped <= old(pageTableMapped) + TablePages(base, limit)
      ensures res == ResCOMMIT_LIMIT ==> accounts.commitLimit < old(WouldCommit(base, limit))
      ensures old(Interval(base, limit) <= spare) ==> res == ResOK
    {
      ghost var was, descs, goal := pageTableMapped, pageTable[..], mapped + Interval(base, limit);
      SubsetSize(mapped, goal);
      BeforeMarking(base, limit);
      res, refused := EnsureTableMapped(base, limit, was + TablePages(base, limit));
      if res != ResOK {
        assert Marked(was, descs, base, base, Free);
        return;
      }
      forall i | base <= i < limit ensures Accessible(i) && !pageTable[i].Allocated? {
        table.UsedBy(base, limit, i);
        assert DescValid(pageTableMapped, i);
      }
      res, refused := MarkMapped(was, descs, base, limit, pool, goal);
    }

    lemma BeforeMarking(base: nat, limit: nat)
      requires Valid() && base < limit <= table.pages && Interval(base, limit) !! allocTable
      ensures forall i | base <= i < limit :: !pageTable[i].Allocated?
      ensures Interval(base, limit) <= spare ==>
                TablePages(base, limit) <= pageTableMapped && forall i | base <= i < limit :: pageTable[i] == Spare
    {
      if Interval(base, limit) <= spare {
        SpareTablesMapped(base, limit);
      }
      forall i | base <= i < limit ensures !pageTable[i].Allocated? {
        assert DescValid(pageTableMapped, i) && i in Interval(base, limit);
      }
    }

    /** The descriptors of spare pages can be read. */
    lemma SpareTablesMapped(base: nat, limit: nat)
      requires Valid() && base < limit <= table.pages && Interval(base, limit) <= spare
      ensures TablePages(base, limit) <= pageTableMapped
      ensures forall i | base <= i < limit :: pageTable[i] == Spare
    {
      forall i | base <= i < limit ensures pageTable[i] == Spare && Accessible(i) {
        assert i in Interval(base, limit) && DescValid(pageTableMapped, i);
      }
      forall k | k in TablePages(base, limit) ensures k in pageTableMapped {
        table.TouchedBy(base, limit, k);
        var i :| base <= i < limit && table.Touches(i, k);
        assert Accessible(i);
      }
    }

    /** The same, once the descriptors of all the pages can be read. */
    method MarkMapped(ghost was: set<nat>, ghost descs: seq<Desc>, base: nat, limit: nat, pool: nat,
        ghost goal: set<nat>)
      returns (res: Res, ghost refused: bool)
      requires Valid() && allocBase <= base < limit <= table.pages && |descs| == table.pages
      requires forall i | base <= i < limit :: Accessible(i) && !pageTable[i].Allocated?
      requires accounts.committed <= accounts.commitLimit && 0 <= OtherCommitted() && 0 <= OtherSpare()
      requires Marked(was, descs, base, base, Allocated(pool)) && mapped <= goal && Interval(base, limit) <= goal
      modifies this`allocTable, this`spare, this`mapped, this`backed, this`noSparePages, pageTable,
               accounts`committed, accounts`spareCommitted
      ensures Valid() && accounts.committed <= accounts.commitLimit && MapResult(res, refused)
      ensures OtherCommitted() == old(OtherCommitted()) && OtherSpare() == old(OtherSpare())
      ensures res == ResOK ==> Marked(was, descs, base, limit, Allocated(pool)) && noSparePages == old(noSparePages)
      ensures res != ResOK ==> exists next :: base <= next <= limit && Marked(was, descs, base, next, Free)
      ensures res != ResOK ==> noSparePages == old(noSparePages) - TablePages(base, limit)
      ensures accounts.spareCommitted <= old(accounts.spareCommitted)
      ensures res == ResCOMMIT_LIMIT ==> accounts.commitLimit < OtherCommitted() + |goal| + |pageTableMapped|
      ensures (forall i | base <= i < limit :: old(pageTable[i]) == Spare) ==> res == ResOK
    {
      ghost var allSpare := forall i | base <= i < limit :: pageTable[i] == Spare;
      res, refused := ResOK, false;
      var next := base;
      while next < limit
        invariant base <= next <= limit && Valid() && accounts.committed <= accounts.commitLimit && res == ResOK
        invariant OtherCommitted() == old(OtherCommitted()) && OtherSpare() == old(OtherSpare())
        invariant accounts.spareCommitted <= old(accounts.spareCommitted)
        invariant Marked(was, descs, base, next, Allocated(pool))
        invariant forall i | base <= i < limit :: Accessible(i)
        invariant noSparePages == old(noSparePages)
        invariant forall i | next <= i < limit :: !pageTable[i].Allocated?
        invariant mapped <= goal && !refused && (allSpare ==> forall i | next <= i < limit :: pageTable[i] == Spare)
      {
        var mappedLimit;
        res, mappedLimit, refused := MarkNext(was, descs, base, next, limit, pool, goal);
        if res != ResOK {
          UndoMark(was, descs, base, mappedLimit, limit, pool);
          return;
        }
        next := mappedLimit;
      }
    }

    /** Allocates the free pages from base to limit to a pool, or fails leaving the holdings as they were. */
    method MarkAllocated(base: nat, limit: nat, pool: nat) returns (res: Res, ghost refused: bool)
      requires Valid() && allocBase <= base < limit <= table.pages && Interval(base, limit) !! allocTable
      requires accounts.committed <= accounts.commitLimit && 0 <= OtherCommitted() && 0 <= OtherSpare()
      modifies this, pageTable, accounts`committed, accounts`spareCommitted
      ensures Valid() && accounts.committed <= accounts.commitLimit && MapResult(res, refused)
      ensures OtherCommitted() == old(OtherCommitted()) && OtherSpare() == old(OtherSpare())
      ensures Held() == if res == ResOK then old(Held()) + Run(base, limit, pool) else old(Held())
      ensures res == ResOK ==> TablesFor(old(pageTableMapped), old(noSparePages), base, limit)
      ensures accounts.spareCommitted <= old(accounts.spareCommitted)
      ensures !refused ==> (res == ResOK <==> old(WouldCommit(base, limit)) <= accounts.commitLimit)
      ensures res == ResOK ==> accounts.committed == old(WouldCommit(base, limit))
      ensures old(Interval(base, limit) <= spare) ==> res == ResOK
      ensures TablesWith(base, limit) == old(TablesWith(base, limit))
      ensures res != ResOK && accounts.spareCommitted == 0 ==>
                old(spare <= Interval(base, limit) && OtherSpare() == 0)
    {
      ghost var was, descs, held, mapped0, spare0 := pageTableMapped, pageTable[..], Held(), mapped, spare;
      HeldMeans();
      MappedMeans();
      forall i | 0 <= i < table.pages
        ensures (descs[i].Allocated? ==> WholeIn(was, i)) && (base <= i < limit ==> !descs[i].Allocated?)
      {
        assert DescValid(pageTableMapped, i) && (base <= i < limit ==> i in Interval(base, limit));
      }
      res, refused := MarkPages(base, limit, pool);
      if res == ResOK {
        NowHeld(was, descs, held, base, limit, pool);
        NowMapped(was, descs, mapped0, base, limit, pool);
      } else {
        ghost var next :| base <= next <= limit && Marked(was, descs, base, next, Free);
        StillHeld(was, descs, held, base, next);
        StillSpare(was, descs, spare0, base, next);
        NoneElsewhere(spare0, base, limit);
      }
      assert pageTableMapped + TablePages(base, limit) == was + TablePages(base, limit);
    }

    /** If no spare page is left, all were in the run; and nor are there any in other chunks. */
    lemma NoneElsewhere(spare0: set<nat>, base: nat, limit: nat)
      requires forall i | i in spare0 && !(base <= i < limit) :: i in spare
      requires 0 <= OtherSpare()
      ensures accounts.spareCommitted == 0 ==> spare0 <= Interval(base, limit) && OtherSpare() == 0
    {
      if accounts.spareCommitted == 0 {
        assert |spare| == 0 && spare == {};
      }
    }

    /** What would be committed when the pages are not allocated: all that is not spare, the pages, and those of
        their descriptors' table pages that are not mapped; and besides, the spare pages that are not among them. */
    lemma WouldCommitAtLeast(base: nat, limit: nat)
      requires Valid() && base < limit <= table.pages && Interval(base, limit) !! allocTable
      ensures var least := accounts.committed - |spare| + (limit - base) - |pageTableMapped| + TablesWith(base, limit);
              && least <= WouldCommit(base, limit)
              && (spare <= Interval(base, limit) ==> least == WouldCommit(base, limit))
    {
      UnionCount(mapped, Interval(base, limit));
      IntervalCount(base, limit);
      assert Interval(base, limit) - mapped == Interval(base, limit) - spare;
      SpareInRun(Interval(base, limit), spare);
    }

    static lemma SpareInRun(run: set<nat>, spare: set<nat>)
      ensures |run| - |spare| <= |run - spare|
      ensures spare <= run ==> |run - spare| == |run| - |spare|
    {
      UnionCount(spare, run);
      SubsetSize(run, spare + run);
      assert spare <= run ==> spare + run == run;
    }

    /** A run of pages held by one pool. */
    static function Run(base: nat, limit: nat, pool: nat): map<nat, nat> {
      map i | i in Interval(base, limit) :: pool
    }

    /** A page is held by a pool when its descriptor says so. */
    ghost predicate HeldAt(held: map<nat, nat>, desc: Desc, i: nat) {
      if i in held then desc == Allocated(held[i]) else !desc.Allocated?
    }

    lemma HeldMeans()
      requires DescsValid()
      ensures forall i | i in Held() :: i < table.pages
      ensures forall i | 0 <= i < table.pages :: HeldAt(Held(), pageTable[..][i], i)
      ensures Held().Keys == allocTable
    {
      forall i | 0 <= i < table.pages ensures HeldAt(Held(), pageTable[..][i], i) && (i in allocTable ==> i in Held()) {
        assert DescValid(pageTableMapped, i);
      }
    }

    /** The mapped pages are those held and those spare. */
    lemma MappedCount()
      requires DescsValid()
      ensures |mapped| == |Held()| + |spare|
    {
      HeldMeans();
      DescsMeant();
    }

    /** Holdings with the same meaning are the same. */
    lemma HeldDetermined(held: map<nat, nat>)
      requires DescsValid() && forall i | i in held :: i < table.pages
      requires forall i | 0 <= i < table.pages :: HeldAt(held, pageTable[i], i)
      ensures Held() == held
    {
      HeldMeans();
      forall i | 0 <= i < table.pages ensures i in held <==> i in Held() {
        assert HeldAt(Held(), pageTable[..][i], i) && HeldAt(held, pageTable[i], i);
      }
      forall i | i in held ensures held[i] == Held()[i] {
        assert HeldAt(Held(), pageTable[..][i], i) && HeldAt(held, pageTable[i], i);
      }
    }

    /** Which pages are spare, or mapped at all, by their descriptors. */
    lemma MappedMeans()
      requires DescsValid()
      ensures forall i | i in mapped :: i < table.pages
      ensures forall i | 0 <= i < table.pages ::
                && (i in spare <==> pageTable[..][i] == Spare)
                && (i in mapped <==> pageTable[..][i] == Spare || pageTable[..][i].Allocated?)
                && (i in mapped ==> WholeIn(pageTableMapped, i))
    {
      forall i | 0 <= i < table.pages
        ensures i in spare <==> pageTable[..][i] == Spare
        ensures i in mapped <==> pageTable[..][i] == Spare || pageTable[..][i].Allocated?
        ensures i in mapped ==> WholeIn(pageTableMapped, i)
      {
        assert DescValid(pageTableMapped, i);
      }
    }

    lemma NowMapped(was: set<nat>, descs: seq<Desc>, mapped0: set<nat>, base: nat, limit: nat, pool: nat)
      requires DescsValid() && |descs| == table.pages && base <= limit <= table.pages
      requires forall i | i in mapped0 :: i < table.pages && WholeIn(was, i)
      requires forall i | 0 <= i < table.pages :: i in mapped0 <==> descs[i] == Spare || descs[i].Allocated?
      requires Marked(was, descs, base, limit, Allocated(pool))
      ensures mapped == mapped0 + Interval(base, limit)
    {
      MappedMeans();
      forall i | 0 <= i < table.pages ensures i in mapped <==> i in mapped0 || base <= i < limit {
        assert pageTable[..][i] == pageTable[i];
      }
    }

    lemma StillSpare(was: set<nat>, descs: seq<Desc>, spare0: set<nat>, base: nat, next: nat)
      requires DescsValid() && |descs| == table.pages && base <= next <= table.pages
      requires forall i | i in spare0 :: i < table.pages && WholeIn(was, i) && descs[i] == Spare
      requires Marked(was, descs, base, next, Free)
      ensures forall i | i in spare0 && !(base <= i < next) :: i in spare
    {
      MappedMeans();
      forall i | i in spare0 && !(base <= i < next) ensures i in spare {
        assert pageTable[..][i] == pageTable[i];
      }
    }

    lemma StillHeld(was: set<nat>, descs: seq<Desc>, held: map<nat, nat>, base: nat, next: nat)
      requires DescsValid() && |descs| == table.pages && base <= next <= table.pages
      requires forall i | i in held :: i < table.pages
      requires forall i | 0 <= i < table.pages :: HeldAt(held, descs[i], i) && (descs[i].Allocated? ==> WholeIn(was, i))
      requires Marked(was, descs, base, next, Free) && forall i | base <= i < next :: !descs[i].Allocated?
      ensures Held() == held
    {
      forall i | 0 <= i < table.pages ensures HeldAt(held, pageTable[i], i) {
        assert HeldAt(held, descs[i], i) && DescValid(pageTableMapped, i);
      }
      HeldDetermined(held);
    }

    lemma NowHeld(was: set<nat>, descs: seq<Desc>, held: map<nat, nat>, base: nat, limit: nat, pool: nat)
      requires DescsValid() && |descs| == table.pages && base <= limit <= table.pages
      requires forall i | i in held :: i < table.pages
      requires forall i | 0 <= i < table.pages :: HeldAt(held, descs[i], i) && (descs[i].Allocated? ==> WholeIn(was, i))
      requires Marked(was, descs, base, limit, Allocated(pool))
      ensures Held() == held + Run(base, limit, pool)
    {
      forall i | 0 <= i < table.pages ensures HeldAt(held + Run(base, limit, pool), pageTable[i], i) {
        assert HeldAt(held, descs[i], i) && DescValid(pageTableMapped, i);
      }
      HeldDetermined(held + Run(base, limit, pool));
    }

    method MarkNext(ghost was: set<nat>, ghost descs: seq<Desc>, ghost start: nat, base: nat, limit: nat, pool: nat,
        ghost goal: set<nat>)
      returns (res: Res, next: nat, ghost refused: bool)
      requires Valid() && allocBase <= start <= base < limit <= table.pages && |descs| == table.pages
      requires forall i | base <= i < limit :: Accessible(i) && !pageTable[i].Allocated?
      requires accounts.committed <= accounts.commitLimit && 0 <= OtherSpare()
      requires Marked(was, descs, start, base, Allocated(pool)) && mapped <= goal && Interval(base, limit) <= goal
      modifies this`allocTable, this`spare, this`mapped, this`backed, pageTable, accounts`committed,
               accounts`spareCommitted
      ensures Valid() && accounts.committed <= accounts.commitLimit && MapResult(res, refused)
      ensures OtherCommitted() == old(OtherCommitted()) && OtherSpare() == old(OtherSpare())
      ensures base <= next <= limit && (res == ResOK ==> base < next)
      ensures Marked(was, descs, start, next, Allocated(pool))
      ensures forall i | next <= i < limit :: !pageTable[i].Allocated?
      ensures accounts.spareCommitted <= old(accounts.spareCommitted) && mapped <= goal
      ensures res == ResCOMMIT_LIMIT ==> accounts.commitLimit < OtherCommitted() + |goal| + |pageTableMapped|
      ensures (forall i | base <= i < limit :: old(pageTable[i]) == Spare) ==>
                res == ResOK && forall i | next <= i < limit :: pageTable[i] == Spare
    {
      res, next, refused := MarkRuns(base, limit, pool, goal);
      forall i | 0 <= i < table.pages ensures SpareOpen(i) {
        assert old(SpareOpen(i));
      }
    }

    /** After a failure, unmaps and frees what had been allocated so far, leaving the table pages to be
        looked at by the next purge. */
    method UndoMark(ghost was: set<nat>, ghost descs: seq<Desc>, base: nat, next: nat, limit: nat, ghost pool: nat)
      requires Valid() && base <= next <= limit <= table.pages && base < limit && |descs| == table.pages
      requires forall i | base <= i < limit :: Accessible(i)
      requires accounts.committed <= accounts.commitLimit && 0 <= OtherCommitted()
      requires Marked(was, descs, base, next, Allocated(pool))
      modifies this`allocTable, this`mapped, this`backed, this`noSparePages, pageTable, accounts`committed
      ensures Valid() && accounts.committed <= accounts.commitLimit
      ensures OtherCommitted() == old(OtherCommitted())
      ensures Marked(was, descs, base, next, Free)
      ensures noSparePages == old(noSparePages) - TablePages(base, limit)
    {
      if base < next {
        MappedSize(base, next);
        UnmapPages(base, next);
        FreeAllocatedRun(base, next);
      }
      forall i | 0 <= i < table.pages ensures SpareOpen(i) {
        assert old(SpareOpen(i));
      }
      OpenTablePages(base, limit);
    }

    lemma MappedSize(base: nat, limit: nat)
      requires DescsValid() && base <= limit <= table.pages
      requires forall i | base <= i < limit :: pageTable[i].Allocated?
      ensures limit - base <= |mapped| && forall i | base <= i < limit :: i in mapped
    {
      IntervalCount(base, limit);
      forall i | i in Interval(base, limit) ensures i in mapped {
        assert DescValid(pageTableMapped, i);
      }
      SubsetSize(Interval(base, limit), mapped);
    }

    /** Resets the noSparePages bits of the table pages for a range of pages. */
    method OpenTablePages(base: nat, limit: nat)
      requires DescsValid() && Backed() && base < limit <= table.pages
      requires forall i | base <= i < limit :: Accessible(i)
      requires forall k | k in noSparePages :: k < table.tablePages
      requires forall k | 0 <= k < table.tablePages :: BitValid(k)
      requires forall i | 0 <= i < table.pages && !(base <= i < limit) :: SpareOpen(i)
      modifies this`noSparePages
      ensures Valid()
      ensures noSparePages == old(noSparePages) - Interval(table.first[base], table.last[limit - 1] + 1)
    {
      var used := table.TablePagesUsed(base, limit);
      noSparePages := noSparePages - Interval(used.0, used.1);
      forall i | 0 <= i < table.pages ensures SpareOpen(i) {
        assert base <= i < limit ==> table.first[i] !in noSparePages && table.last[i] !in noSparePages;
        assert !(base <= i < limit) ==> old(SpareOpen(i));
      }
      forall k | 0 <= k < table.tablePages ensures BitValid(k) {
        assert old(BitValid(k));
        if k in Interval(used.0, used.1) {
          table.TouchedBy(base, limit, k);
          var i :| base <= i < limit && table.Touches(i, k);
          assert Accessible(i) && Open(i);
        }
      }
    }

    // ---------- Freeing ----------

    /** Turns the allocated pages from base to limit into spare ones. */
    method MakeSpare(base: nat, limit: nat)
      requires Valid() && base < limit <= table.pages
      requires forall i | base <= i < limit :: pageTable[i].Allocated?
      modifies this`allocTable, this`spare, this`noSparePages, pageTable, accounts`spareCommitted
      ensures Valid() && OtherSpare() == old(OtherSpare()) && Committed() == old(Committed())
      ensures noSparePages == old(noSparePages) - Interval(table.first[base], table.last[limit - 1] + 1)
      ensures Filled(base, limit, Spare) && accounts.spareCommitted == old(accounts.spareCommitted) + limit - base
    {
      forall i | base <= i < limit ensures Accessible(i) {
        assert DescValid(pageTableMapped, i);
      }
      var i := base;
      while i < limit
        invariant base <= i <= limit && DescsValid() && OtherSpare() == old(OtherSpare()) - (i - base)
        invariant noSparePages == old(noSparePages) && accounts.spareCommitted == old(accounts.spareCommitted)
        invariant Filled(base, i, Spare)
      {
        SparePage(i);
        i := i + 1;
      }
      accounts.spareCommitted := accounts.spareCommitted + (limit - base);
      forall i | 0 <= i < table.pages && !(base <= i < limit) ensures SpareOpen(i) {
        assert old(SpareOpen(i));
      }
      OpenTablePages(base, limit);
    }

    /** Frees the pages from base to limit, which are held. */
    method FreePages(base: nat, limit: nat)
      requires Valid() && base < limit && Interval(base, limit) <= Held().Keys
      modifies this`allocTable, this`spare, this`noSparePages, pageTable, accounts`spareCommitted
      ensures Valid() && OtherSpare() == old(OtherSpare()) && Committed() == old(Committed())
      ensures Held() == old(Held()) - Interval(base, limit) && limit <= table.pages
      ensures forall i :: i in spare <==> i in old(spare) || base <= i < limit
      ensures accounts.spareCommitted == old(accounts.spareCommitted) + limit - base
      ensures noSparePages == old(noSparePages) - Interval(table.first[base], table.last[limit - 1] + 1)
    {
      ghost var descs, held, spare0 := pageTable[..], Held(), spare;
      HeldAndSpare(base, limit);
      MakeSpare(base, limit);
      FreedHeld(descs, held, base, limit);
      NowSpare(descs, spare0, base, limit);
    }

    /** What the descriptors say before held pages are freed. */
    lemma HeldAndSpare(base: nat, limit: nat)
      requires Valid() && base < limit && Interval(base, limit) <= Held().Keys
      ensures limit <= table.pages && forall i | base <= i < limit :: pageTable[i].Allocated?
      ensures forall i | 0 <= i < table.pages :: HeldAt(Held(), pageTable[..][i], i)
      ensures forall i | 0 <= i < table.pages :: i in spare <==> pageTable[..][i] == Spare
      ensures (forall i | i in Held() :: i < table.pages) && forall i | i in spare :: i < table.pages
    {
      HeldMeans();
      MappedMeans();
      assert limit - 1 in Interval(base, limit) && limit - 1 in Held();
      forall i | base <= i < limit ensures pageTable[i].Allocated? {
        assert i in Interval(base, limit) && HeldAt(Held(), pageTable[..][i], i);
      }
    }

    lemma FreedHeld(descs: seq<Desc>, held: map<nat, nat>, base: nat, limit: nat)
      requires DescsValid() && |descs| == table.pages && base <= limit <= table.pages
      requires forall i | i in held :: i < table.pages
      requires forall i | 0 <= i < table.pages :: HeldAt(held, descs[i], i)
      requires forall i | 0 <= i < table.pages :: pageTable[i] == if base <= i < limit then Spare else descs[i]
      ensures Held() == held - Interval(base, limit)
    {
      forall i | 0 <= i < table.pages ensures HeldAt(held - Interval(base, limit), pageTable[i], i) {
        assert HeldAt(held, descs[i], i);
      }
      HeldDetermined(held - Interval(base, limit));
    }

    lemma NowSpare(descs: seq<Desc>, spare0: set<nat>, base: nat, limit: nat)
      requires DescsValid() && |descs| == table.pages && base <= limit <= table.pages
      requires forall i | i in spare0 :: i < table.pages
      requires forall i | 0 <= i < table.pages :: i in spare0 <==> descs[i] == Spare
      requires forall i | 0 <= i < table.pages :: pageTable[i] == if base <= i < limit then Spare else descs[i]
      ensures forall i :: i in spare <==> i in spare0 || base <= i < limit
    {
      MappedMeans();
      forall i | 0 <= i < table.pages ensures i in spare <==> i in spare0 || base <= i < limit {
        assert pageTable[..][i] == pageTable[i];
      }
    }

    // ---------- Purging ----------

    /** Unmaps a range of spare pages. */
    method UnmapSpareRange(base: nat, limit: nat)
      requires DescsValid() && base <= limit <= table.pages && 0 <= OtherCommitted() && 0 <= OtherSpare()
      requires Backed() && forall i | base <= i < limit :: pageTable[i] == Spare
      modifies this`allocTable, this`mapped, this`spare, this`backed, pageTable, accounts`committed,
               accounts`spareCommitted
      ensures Backed() && DescsValid() && OtherCommitted() == old(OtherCommitted()) && OtherSpare() == old(OtherSpare())
      ensures Filled(base, limit, Free)
    {
      forall i | base <= i < limit ensures i in backed {
        assert DescValid(pageTableMapped, i);
      }
      var i := base;
      while i < limit
        invariant base <= i <= limit && DescsValid() && backed == old(backed)
        invariant forall j :: j in mapped <==> j in old(mapped) && !(base <= j < i)
        invariant OtherCommitted() == old(OtherCommitted()) + i - base && OtherSpare() == old(OtherSpare())
        invariant accounts.committed == old(accounts.committed)
        invariant Filled(base, i, Free)
      {
        FreeSparePage(i);
        i := i + 1;
      }
      UnmapPages(base, limit);
    }

    /** The end of the run of spare pages, or of pages that are not spare, that starts at base. */
    method SpareRun(base: nat, limit: nat, spareRun: bool) returns (end: nat)
      requires Shape() && base < limit <= table.pages
      requires forall i | base <= i < limit :: Accessible(i)
      ensures base <= end <= limit
      ensures forall i | base <= i < end :: pageTable[i] == Spare <==> spareRun
      ensures end < limit ==> (pageTable[end] == Spare <==> !spareRun)
    {
      end := base;
      while end < limit && (pageTable[end] == Spare) == spareRun
        invariant base <= end <= limit
        invariant forall i | base <= i < end :: pageTable[i] == Spare <==> spareRun
      {
        end := end + 1;
      }
    }

    /** The spare pages in [base, limit) are free, and the others as they were. */
    ghost predicate SparesFreed(descs: seq<Desc>, base: nat, limit: nat)
      requires |descs| == pageTable.Length
      reads pageTable
    {
      forall i | 0 <= i < pageTable.Length ::
        pageTable[i] == if base <= i < limit && descs[i] == Spare then Free else descs[i]
    }

    /** Unmaps the ranges of spare pages between base and limit, whose descriptors can all be read. */
    method UnmapSpareRanges(ghost descs: seq<Desc>, ghost start: nat, base: nat, limit: nat)
      requires DescsValid() && start <= base < limit <= table.pages && 0 <= OtherCommitted() && 0 <= OtherSpare()
      requires forall i | base <= i < limit :: Accessible(i)
      requires |descs| == table.pages && SparesFreed(descs, start, base) && Backed()
      modifies this`allocTable, this`mapped, this`spare, this`backed, pageTable, accounts`committed,
               accounts`spareCommitted
      ensures DescsValid() && Backed() && OtherCommitted() == old(OtherCommitted()) && OtherSpare() == old(OtherSpare())
      ensures SparesFreed(descs, start, limit)
    {
      var spareBase := base;
      while spareBase < limit
        invariant base <= spareBase <= limit && DescsValid() && Backed()
        invariant OtherCommitted() == old(OtherCommitted()) && OtherSpare() == old(OtherSpare())
        invariant SparesFreed(descs, start, spareBase)
      {
        spareBase := SpareRun(spareBase, limit, false);
        if limit <= spareBase {
          break;
        }
        var spareLimit := SpareRun(spareBase, limit, true);
        UnmapSpareRange(spareBase, spareLimit);
        spareBase := spareLimit;
      }
      assert spareBase == limit;
    }

    /** Some page whose descriptor is even partly on a table page is allocated. */
    ghost predicate InUse(descs: seq<Desc>, k: nat)
      requires Shape() && |descs| == table.pages
    {
      exists i :: 0 <= i < table.pages && table.Touches(i, k) && descs[i].Allocated?
    }

    method TablePageInUse(k: nat) returns (inUse: bool)
      requires DescsValid() && k < table.tablePages
      ensures inUse <==> InUse(pageTable[..], k)
    {
      table.EndPage();
      table.LastTablePage();
      table.TouchedBy(0, table.pages, k);
      var limitIndex := table.pages;
      if k != table.pages * table.descSize / table.pageSize {
        limitIndex := table.TablePageLimitIndex(k);
      }
      assert limitIndex <= table.pages;
      var baseIndex := table.TablePageBaseIndex(k);
      assert baseIndex < limitIndex;
      assert forall i | 0 <= i < table.pages :: baseIndex <= i < limitIndex <==> table.Touches(i, k);
      inUse := false;
      var i := baseIndex;
      while i < limitIndex
        invariant baseIndex <= i <= limitIndex
        invariant inUse <==> exists j :: baseIndex <= j < i && j in allocTable
      {
        inUse := inUse || i in allocTable;
        i := i + 1;
      }
      forall j | 0 <= j < table.pages ensures j in allocTable <==> pageTable[..][j].Allocated? {
        assert DescValid(pageTableMapped, j);
      }
    }

    /** Unmaps a table page: the descriptors on it, even partly, are lost. */
    method UnmapTablePage(k: nat)
      requires Valid() && k in noSparePages && k in pageTableMapped && 0 <= OtherCommitted()
      requires forall i | 0 <= i < table.pages && table.Touches(i, k) :: !pageTable[i].Allocated?
      modifies this`pageTableMapped, this`tableBacked, pageTable, accounts`committed
      ensures Valid() && OtherCommitted() == old(OtherCommitted())
      ensures pageTableMapped == old(pageTableMapped) - {k}
      ensures forall i | 0 <= i < table.pages ::
                pageTable[i] == if table.Touches(i, k) then Garbage else old(pageTable[i])
    {
      UnmapTable(k);
      pageTableMapped := pageTableMapped - {k};
      forall i | 0 <= i < table.pages && table.Touches(i, k) {
        pageTable[i] := Garbage;
      }
      forall i | 0 <= i < table.pages ensures DescValid(pageTableMapped, i) && SpareOpen(i) {
        assert old(DescValid(pageTableMapped, i)) && old(SpareOpen(i));
      }
      forall j | 0 <= j < table.tablePages ensures BitValid(j) {
        assert old(BitValid(j));
      }
    }

    /** The pages that were allocated are as they were, and nothing else is allocated or spare that was not. */
    ghost predicate Shrunk(descs: seq<Desc>)
      requires |descs| == pageTable.Length
      reads pageTable
    {
      forall i | 0 <= i < pageTable.Length ::
        pageTable[i] == descs[i] || (!descs[i].Allocated? && (pageTable[i] == Free || pageTable[i] == Garbage))
    }

    /** Unmaps the table pages from base to limit that are wholly unused. */
    method UnmapUnused(ghost descs: seq<Desc>, base: nat, limit: nat)
      requires Valid() && base <= limit <= table.tablePages && 0 <= OtherCommitted()
      requires Interval(base, limit) <= noSparePages && Interval(base, limit) <= pageTableMapped
      requires |descs| == table.pages && Shrunk(descs)
      modifies this`pageTableMapped, this`tableBacked, pageTable, accounts`committed
      ensures Valid() && OtherCommitted() == old(OtherCommitted())
      ensures pageTableMapped <= old(pageTableMapped) && Shrunk(descs)
      ensures forall k | !(base <= k < limit) && k in old(pageTableMapped) :: k in pageTableMapped
      ensures forall k | base <= k < limit :: k in pageTableMapped <==> InUse(descs, k)
    {
      var cursor := base;
      while cursor < limit
        invariant base <= cursor <= limit && Valid() && OtherCommitted() == old(OtherCommitted())
        invariant pageTableMapped <= old(pageTableMapped) && Shrunk(descs)
        invariant forall k | !(base <= k < limit) && k in old(pageTableMapped) :: k in pageTableMapped
        invariant forall k | cursor <= k < limit :: k in pageTableMapped
        invariant forall k | base <= k < cursor :: k in pageTableMapped <==> InUse(descs, k)
      {
        assert cursor in Interval(base, limit);
        UnmapIfUnused(descs, cursor);
        cursor := cursor + 1;
      }
    }

    method UnmapIfUnused(ghost descs: seq<Desc>, k: nat)
      requires Valid() && k in noSparePages && k in pageTableMapped && 0 <= OtherCommitted()
      requires |descs| == table.pages && Shrunk(descs)
      modifies this`pageTableMapped, this`tableBacked, pageTable, accounts`committed
      ensures Valid() && OtherCommitted() == old(OtherCommitted()) && Shrunk(descs)
      ensures pageTableMapped == if InUse(descs, k) then old(pageTableMapped) else old(pageTableMapped) - {k}
    {
      var inUse := TablePageInUse(k);
      assert forall i | 0 <= i < table.pages :: pageTable[..][i].Allocated? <==> descs[i].Allocated?;
      assert inUse <==> InUse(descs, k);
      if !inUse {
        UnmapTablePage(k);
      }
    }

    /** Where a purge of the table pages from sb to sl has got to, in page descriptors, on coming to k. */
    ghost predicate PurgeCursor(sb: nat, k: nat, sl: nat, index: nat)
      requires Shape()
      reads this`pageTableMapped
    {
      && index <= table.pages
      && (k == sb ==> forall j | 0 <= j < table.pages ::
            && (sb <= table.first[j] ==> index <= j)
            && (index <= j ==> sb <= table.last[j] && (sb <= table.first[j] || sb - 1 in pageTableMapped)))
      && (sb < k < sl ==> forall j | 0 <= j < table.pages :: j < index <==> table.first[j] < k)
      && (sb < k == sl ==> forall j | 0 <= j < table.pages :: table.last[j] < k ==> j < index)
    }

    /** The first descriptor to look at for the table pages from sb on: one that overlaps the page before
        is left out if that page is not mapped. */
    method PurgeBase(sb: nat, ghost sl: nat) returns (pageBase: nat)
      requires Shape() && sb < sl <= table.tablePages
      ensures PurgeCursor(sb, sb, sl, pageBase)
    {
      if 0 < sb && sb - 1 !in pageTableMapped {
        pageBase := table.TablePageWholeBaseIndex(sb);
      } else {
        pageBase := table.TablePageBaseIndex(sb);
      }
    }

    /** Some descriptor is wholly on a table page. */
    ghost predicate HasWhole(k: nat)
      requires Shape()
    {
      exists i :: 0 <= i < table.pages && table.first[i] == k == table.last[i]
    }

    /** Where the descriptors to look at for table page k end, k being in a run ending at sl.  There are
        some, except perhaps on the last page of the run. */
    method PurgeLimit(ghost sb: nat, k: nat, sl: nat, pageBase: nat) returns (pageLimit: nat)
      requires Shape() && sb <= k < sl <= table.tablePages && Interval(sb, sl) <= pageTableMapped
      requires PurgeCursor(sb, k, sl, pageBase) && (k == sb == sl - 1 ==> HasWhole(k))
      ensures pageBase <= pageLimit <= table.pages && PurgeCursor(sb, k + 1, sl, pageLimit)
      ensures forall j | pageBase <= j < pageLimit :: Accessible(j)
      ensures pageBase < pageLimit || k + 1 == table.tablePages <==>
              k + 1 < sl || sl == table.tablePages || sl in pageTableMapped || HasWhole(k)
    {
      if k == sl - 1 && sl < table.tablePages && sl !in pageTableMapped {
        pageLimit := table.TablePageWholeLimitIndex(k);
      } else if k == table.tablePages - 1 {
        pageLimit := table.pages;
      } else {
        pageLimit := table.TablePageLimitIndex(k);
      }
      forall j | pageBase <= j < pageLimit ensures Accessible(j) {
        var f, l := table.first[j], table.last[j];
        assert f in Interval(sb, sl) || f + 1 == sb;
        assert l in Interval(sb, sl) || l == sl;
      }
      PurgeMeets(sb, k, sl, pageBase, pageLimit);
    }

    /** Whether there is a descriptor to look at for table page k. */
    lemma PurgeMeets(sb: nat, k: nat, sl: nat, pageBase: nat, pageLimit: nat)
      requires Shape() && sb <= k < sl <= table.tablePages && PurgeCursor(sb, k, sl, pageBase)
      requires k == sb == sl - 1 ==> HasWhole(k)
      requires pageLimit <= table.pages && (k + 1 == table.tablePages ==> pageLimit == table.pages)
      requires k + 1 < table.tablePages ==>
                 if k == sl - 1 && sl !in pageTableMapped
                 then forall j | 0 <= j < table.pages :: j < pageLimit <==> table.last[j] <= k
                 else forall j | 0 <= j < table.pages :: j < pageLimit <==> table.first[j] <= k
      ensures pageBase <= pageLimit
      ensures pageBase < pageLimit || k + 1 == table.tablePages <==>
              k + 1 < sl || sl == table.tablePages || sl in pageTableMapped || HasWhole(k)
    {
      if k + 1 < table.tablePages {
        if k == sl - 1 && sl !in pageTableMapped {
          WholeMeets(sb, k, sl, pageBase, pageLimit);
        } else {
          table.StartsOn(k);
        }
      }
    }

    lemma WholeMeets(sb: nat, k: nat, sl: nat, pageBase: nat, pageLimit: nat)
      requires Shape() && sb <= k == sl - 1 && sl <= table.tablePages && PurgeCursor(sb, k, sl, pageBase)
      requires k == sb ==> HasWhole(k)
      requires pageLimit <= table.pages
      requires forall j | 0 <= j < table.pages :: j < pageLimit <==> table.last[j] <= k
      ensures pageBase <= pageLimit && (pageBase < pageLimit <==> HasWhole(k))
    {
      if HasWhole(k) {
        var i :| 0 <= i < table.pages && table.first[i] == k == table.last[i];
        assert pageBase <= i < pageLimit;
      }
      if 0 < pageBase && sb < k {
        assert table.first[pageBase - 1] < k && table.last[pageBase - 1] <= k;
      }
      if pageBase < pageLimit && sb < k {
        assert table.first[pageBase] == k == table.last[pageBase];
      }
    }

    /** The condition under which a purge looks at some descriptor for every table page of a run. */
    ghost predicate Examinable(sb: nat, sl: nat)
      requires Shape() && sb < sl
      reads this`pageTableMapped
    {
      ExaminableIn(pageTableMapped, sb, sl)
    }

    ghost predicate ExaminableIn(m: set<nat>, sb: nat, sl: nat)
      requires Shape() && sb < sl
    {
      sb + 1 == sl || sl == table.tablePages || sl in m || HasWhole(sl - 1)
    }

    /** A maximal run of reset bits. */
    ghost predicate MaximalRun(bits: set<nat>, sb: nat, sl: nat) {
      && sb < sl <= table.tablePages && (forall k | sb <= k < sl :: k !in bits)
      && (sb == 0 || sb - 1 in bits) && (sl == table.tablePages || sl in bits)
    }

    /** Every maximal run of reset bits, up to some table page, is examinable. */
    ghost predicate AllExaminable(bits: set<nat>, m: set<nat>, limit: nat)
      requires Shape()
    {
      forall sb: nat, sl: nat | MaximalRun(bits, sb, sl) && sl <= limit :: ExaminableIn(m, sb, sl)
    }

    /** Every maximal run of reset noSparePages bits is examinable. */
    ghost predicate EveryRunExaminable()
      requires Shape()
      reads this`noSparePages, this`pageTableMapped
    {
      AllExaminable(noSparePages, pageTableMapped, table.tablePages)
    }

    /** One more run: there is only one that ends after the cursor and by its limit. */
    lemma NextExaminable(bits: set<nat>, m: set<nat>, cursor: nat, base: nat, limit: nat)
      requires Shape() && cursor <= base && MaximalRun(bits, base, limit)
      requires cursor == 0 || cursor in bits
      requires forall k | cursor <= k < base :: k in bits
      ensures AllExaminable(bits, m, limit) <==> AllExaminable(bits, m, cursor) && ExaminableIn(m, base, limit)
    {
      forall sb: nat, sl: nat | MaximalRun(bits, sb, sl) && cursor < sl <= limit ensures sb == base && sl == limit {
        assert sl - 1 !in bits;
        assert sb < cursor ==> cursor !in bits || cursor == 0;
        assert sb > base ==> sb - 1 !in bits;
      }
    }

    /** No run ends beyond a cursor from which all the bits are set. */
    lemma NoMoreRuns(bits: set<nat>, m: set<nat>, cursor: nat)
      requires Shape() && forall k | cursor <= k < table.tablePages :: k in bits
      ensures AllExaminable(bits, m, table.tablePages) <==> AllExaminable(bits, m, cursor)
    {
      forall sb: nat, sl: nat | MaximalRun(bits, sb, sl) ensures sl <= cursor {
        assert sl - 1 !in bits;
      }
    }

    /** If two descriptors (less a byte) fit on a page, every run is examinable. */
    lemma RoomForTwo(bits: set<nat>, m: set<nat>)
      requires Shape() && 2 * table.descSize <= table.pageSize + 1
      ensures AllExaminable(bits, m, table.tablePages)
    {
      forall sb: nat, sl: nat | MaximalRun(bits, sb, sl) ensures ExaminableIn(m, sb, sl) {
        if sl < table.tablePages {
          table.StartsOn(sl - 1);
        }
      }
    }

    /** Purges a maximal run of table pages whose noSparePages bits are reset.  The result is whether the
        assertion that only the last table page can have no descriptor to look at held. */
    method PurgeRun(sb: nat, sl: nat) returns (ok: bool)
      requires Valid() && sb < sl <= table.tablePages && 0 <= OtherCommitted() && 0 <= OtherSpare()
      requires Interval(sb, sl) !! noSparePages
      requires (sb == 0 || sb - 1 in noSparePages) && (sl == table.tablePages || sl in noSparePages)
      modifies this, pageTable, accounts`committed, accounts`spareCommitted
      ensures Valid() && OtherCommitted() == old(OtherCommitted()) && OtherSpare() == old(OtherSpare())
      ensures noSparePages == old(noSparePages) + Interval(sb, sl)
      ensures pageTableMapped <= old(pageTableMapped) && Shrunk(old(pageTable[..]))
      ensures forall k | !(sb <= k < sl) && k in old(pageTableMapped) :: k in pageTableMapped
      ensures forall k | sb <= k < sl :: k in pageTableMapped <==> InUse(old(pageTable[..]), k)
      ensures ok <==> old(Examinable(sb, sl))
    {
      ghost var descs, bits := pageTable[..], noSparePages;
      OpenRun(sb, sl);
      BitsMeant();
      ghost var start, end;
      ok, start, end := PurgeTablePages(descs, bits, sb, sl);
      PurgedBits(bits, descs, sb, sl, start, end);
      UnmapUnused(descs, sb, sl);
    }

    /** Frees the spare pages whose descriptors are wholly on the table pages from sb to sl. */
    method PurgeTablePages(ghost descs: seq<Desc>, ghost bits: set<nat>, sb: nat, sl: nat)
      returns (ok: bool, ghost start: nat, ghost end: nat)
      requires DescsValid() && Backed() && sb < sl <= table.tablePages && 0 <= OtherCommitted() && 0 <= OtherSpare()
      requires descs == pageTable[..] && bits == noSparePages
      requires Interval(sb, sl) <= pageTableMapped && (sb == sl - 1 ==> HasWhole(sb))
      modifies this`allocTable, this`mapped, this`spare, this`backed, this`noSparePages, pageTable,
               accounts`committed, accounts`spareCommitted
      ensures DescsValid() && Backed() && SparesFreed(descs, start, end)
      ensures OtherCommitted() == old(OtherCommitted()) && OtherSpare() == old(OtherSpare())
      ensures noSparePages == bits + Interval(sb, sl)
      ensures forall i | 0 <= i < table.pages && sb <= table.first[i] <= table.last[i] < sl :: start <= i < end
      ensures ok <==> Examinable(sb, sl)
    {
      var pageBase := PurgeBase(sb, sl);
      start := pageBase;
      assert forall i | 0 <= i < table.pages && sb <= table.first[i] :: start <= i;
      var k := sb;
      ok := true;
      while k < sl
        invariant sb <= k <= sl && DescsValid() && Backed() && start <= pageBase && PurgeCursor(sb, k, sl, pageBase)
        invariant OtherCommitted() == old(OtherCommitted()) && OtherSpare() == old(OtherSpare())
        invariant noSparePages == bits + Interval(sb, k) && SparesFreed(descs, start, pageBase)
        invariant ok <==> k < sl || Examinable(sb, sl)
      {
        IntervalStep(bits, sb, k);
        ok, pageBase := PurgeTablePage(descs, sb, k, sl, start, pageBase);
        k := k + 1;
      }
      assert forall i | 0 <= i < table.pages && table.last[i] < sl :: i < pageBase;
      end := pageBase;
    }

    /** Purges the pages with descriptors on table page k that the purge has not come to yet.  There are
        some, or it is the last table page, or the assertion that says so fails. */
    method PurgeTablePage(ghost descs: seq<Desc>, ghost sb: nat, k: nat, sl: nat, ghost start: nat, pageBase: nat)
      returns (ok: bool, pageLimit: nat)
      requires DescsValid() && Backed() && sb <= k < sl <= table.tablePages && Interval(sb, sl) <= pageTableMapped
      requires PurgeCursor(sb, k, sl, pageBase) && (k == sb == sl - 1 ==> HasWhole(k))
      requires |descs| == table.pages && start <= pageBase && SparesFreed(descs, start, pageBase)
      requires 0 <= OtherCommitted() && 0 <= OtherSpare()
      modifies this`allocTable, this`mapped, this`spare, this`backed, this`noSparePages, pageTable,
               accounts`committed, accounts`spareCommitted
      ensures DescsValid() && Backed() && PurgeCursor(sb, k + 1, sl, pageLimit)
      ensures OtherCommitted() == old(OtherCommitted()) && OtherSpare() == old(OtherSpare())
      ensures start <= pageLimit && SparesFreed(descs, start, pageLimit)
      ensures noSparePages == old(noSparePages) + {k}
      ensures ok <==> k + 1 < sl || Examinable(sb, sl)
    {
      pageLimit := PurgeLimit(sb, k, sl, pageBase);
      ok := pageBase < pageLimit || k == table.tablePages - 1;
      if pageBase < pageLimit {
        UnmapSpareRanges(descs, start, pageBase, pageLimit);
      } else {
        assert pageBase == pageLimit;
      }
      noSparePages := noSparePages + {k};
    }

    /** The table pages of a maximal run are mapped, and if there is only one it wholly holds a descriptor. */
    lemma OpenRun(sb: nat, sl: nat)
      requires Valid() && sb < sl <= table.tablePages && Interval(sb, sl) !! noSparePages
      requires (sb == 0 || sb - 1 in noSparePages) && (sl == table.tablePages || sl in noSparePages)
      ensures Interval(sb, sl) <= pageTableMapped && (sb == sl - 1 ==> HasWhole(sb))
    {
      forall k | k in Interval(sb, sl) ensures k in pageTableMapped {
        assert BitValid(k);
      }
      assert BitValid(sb) && sb in Interval(sb, sl);
      var i :| 0 <= i < table.pages && table.Touches(i, sb) && Open(i);
      assert sb == sl - 1 ==> table.first[i] == sb == table.last[i];
    }

    /** What the noSparePages bits meant before a run of them was set. */
    ghost predicate SpareWasOpen(bits: set<nat>, descs: seq<Desc>, i: nat)
      requires Shape() && |descs| == table.pages && i < table.pages
    {
      descs[i] == Spare ==> table.first[i] !in bits && table.last[i] !in bits
    }

    ghost predicate BitWasValid(bits: set<nat>, k: nat)
      requires Shape()
      reads this`pageTableMapped
    {
      k !in bits ==>
        && k in pageTableMapped
        && exists i :: 0 <= i < table.pages && table.Touches(i, k) && table.first[i] !in bits && table.last[i] !in bits
    }

    lemma BitsMeant()
      requires Valid()
      ensures forall i | 0 <= i < table.pages :: SpareWasOpen(noSparePages, pageTable[..], i)
      ensures forall k | 0 <= k < table.tablePages :: BitWasValid(noSparePages, k)
    {
      forall i | 0 <= i < table.pages ensures SpareWasOpen(noSparePages, pageTable[..], i) {
        assert SpareOpen(i);
      }
      forall k | 0 <= k < table.tablePages ensures BitWasValid(noSparePages, k) {
        assert BitValid(k);
        if k !in noSparePages {
          var i :| 0 <= i < table.pages && table.Touches(i, k) && Open(i);
          assert table.first[i] !in noSparePages && table.last[i] !in noSparePages;
        }
      }
    }

    /** A run of bits may be set when the pages whose descriptors are wholly on its table pages are not
        spare: a spare page's descriptor cannot straddle the ends of a maximal run. */
    lemma PurgedBits(bits: set<nat>, descs: seq<Desc>, sb: nat, sl: nat, start: nat, end: nat)
      requires DescsValid() && sb < sl <= table.tablePages && |descs| == table.pages
      requires Interval(sb, sl) !! bits && noSparePages == bits + Interval(sb, sl)
      requires (sb == 0 || sb - 1 in bits) && (sl == table.tablePages || sl in bits)
      requires forall k | k in bits :: k < table.tablePages
      requires forall i | 0 <= i < table.pages :: SpareWasOpen(bits, descs, i)
      requires forall k | 0 <= k < table.tablePages :: BitWasValid(bits, k)
      requires SparesFreed(descs, start, end)
      requires forall i | 0 <= i < table.pages && sb <= table.first[i] <= table.last[i] < sl :: start <= i < end
      ensures BitsValid() && Shrunk(descs)
    {
      forall i | 0 <= i < table.pages ensures SpareOpen(i) {
        assert SpareWasOpen(bits, descs, i);
      }
      forall k | 0 <= k < table.tablePages ensures BitValid(k) {
        assert BitWasValid(bits, k);
        if k !in noSparePages {
          var i :| 0 <= i < table.pages && table.Touches(i, k) && table.first[i] !in bits && table.last[i] !in bits;
          assert Open(i);
        }
      }
    }

    /** The next run of reset noSparePages bits from the cursor on, if there is one. */
    ghost predicate NextRun(cursor: nat, found: bool, base: nat, limit: nat)
      reads this`noSparePages
    {
      if found then
        && cursor <= base < limit <= table.tablePages
        && (forall k | cursor <= k < base :: k in noSparePages) && (forall k | base <= k < limit :: k !in noSparePages)
        && (limit == table.tablePages || limit in noSparePages)
      else forall k | cursor <= k < table.tablePages :: k in noSparePages
    }

    /** Up to the cursor every bit is set and every run has been purged; beyond it nothing has changed since
        the bits were `bits` and the mapped table pages m. */
    ghost predicate PurgedTo(bits: set<nat>, m: set<nat>, cursor: nat)
      reads this`noSparePages, this`pageTableMapped
    {
      && (forall k | 0 <= k < cursor :: k in noSparePages)
      && (forall k: nat | cursor <= k :: (k in noSparePages <==> k in bits) && (k in m <==> k in pageTableMapped))
      && (cursor == 0 || cursor in bits || cursor == table.tablePages)
    }

    /** Of the table pages below the cursor those whose bit was reset are mapped only if they are in use. */
    ghost predicate TablesTo(descs: seq<Desc>, bits: set<nat>, m: set<nat>, cursor: nat)
      requires Shape() && |descs| == table.pages
      reads this`pageTableMapped
    {
      forall k | 0 <= k < cursor :: k in pageTableMapped <==> k in m && (k in bits || InUse(descs, k))
    }

    /** The table pages of a run have been looked at. */
    lemma TablesStep(descs: seq<Desc>, descs': seq<Desc>, bits: set<nat>, m: set<nat>, m': set<nat>,
        cursor: nat, base: nat, limit: nat)
      requires Shape() && |descs| == |descs'| == table.pages && cursor <= base < limit
      requires forall i | 0 <= i < table.pages :: descs'[i].Allocated? <==> descs[i].Allocated?
      requires forall k | 0 <= k < cursor :: k in m' <==> k in m && (k in bits || InUse(descs, k))
      requires forall k | cursor <= k < limit :: k in m' <==> k in m
      requires (forall k | cursor <= k < base :: k in bits) && forall k | base <= k < limit :: k !in bits && k in m
      requires pageTableMapped <= m' && forall k | !(base <= k < limit) && k in m' :: k in pageTableMapped
      requires forall k | base <= k < limit :: k in pageTableMapped <==> InUse(descs', k)
      ensures TablesTo(descs, bits, m, limit)
    {
      forall k ensures InUse(descs', k) <==> InUse(descs, k) {
      }
    }

    method PurgeNextRun(ghost descs: seq<Desc>, ghost bits: set<nat>, ghost m: set<nat>,
        cursor: nat, base: nat, limit: nat)
      returns (ok: bool)
      requires Valid() && 0 <= OtherCommitted() && 0 <= OtherSpare()
      requires NextRun(cursor, true, base, limit) && PurgedTo(bits, m, cursor)
      requires |descs| == table.pages && Shrunk(descs) && TablesTo(descs, bits, m, cursor)
      modifies this, pageTable, accounts`committed, accounts`spareCommitted
      ensures Valid() && OtherCommitted() == old(OtherCommitted()) && OtherSpare() == old(OtherSpare())
      ensures pageTableMapped <= old(pageTableMapped) && Shrunk(descs)
      ensures PurgedTo(bits, m, limit) && TablesTo(descs, bits, m, limit)
      ensures AllExaminable(bits, m, limit) <==> AllExaminable(bits, m, cursor) && ok
    {
      ghost var was, wasMapped := pageTable[..], pageTableMapped;
      assert MaximalRun(bits, base, limit);
      NextExaminable(bits, m, cursor, base, limit);
      forall k | base <= k < limit ensures k in pageTableMapped {
        assert BitValid(k);
      }
      ok := PurgeRun(base, limit);
      assert Shrunk(was);
      TablesStep(descs, was, bits, m, wasMapped, cursor, base, limit);
    }

    /** Purges the whole chunk, a run of reset noSparePages bits at a time. */
    method PurgeRuns() returns (ok: bool)
      requires Valid() && 0 <= OtherCommitted() && 0 <= OtherSpare()
      modifies this, pageTable, accounts`committed, accounts`spareCommitted
      ensures Valid() && OtherCommitted() == old(OtherCommitted()) && OtherSpare() == old(OtherSpare())
      ensures spare == {} && allocTable == old(allocTable) && Shrunk(old(pageTable[..]))
      ensures Committed() <= old(Committed() - |spare|)
      ensures forall k :: k in pageTableMapped <==>
                k in old(pageTableMapped) && (k in old(noSparePages) || old(InUse(pageTable[..], k)))
      ensures ok <==> old(EveryRunExaminable())
    {
      ghost var descs, bits, m := pageTable[..], noSparePages, pageTableMapped;
      DescsMeant();
      table.LastTablePage();
      ok := true;
      var cursor := 0;
      var found, base, limit := FindLongResRange(noSparePages, cursor, table.tablePages);
      while found
        invariant Valid() && OtherCommitted() == old(OtherCommitted()) && OtherSpare() == old(OtherSpare())
        invariant cursor < table.tablePages && PurgedTo(bits, m, cursor)
        invariant NextRun(cursor, found, base, limit)
        invariant pageTableMapped <= m && Shrunk(descs) && TablesTo(descs, bits, m, cursor)
        invariant ok <==> AllExaminable(bits, m, cursor)
        decreases table.tablePages - cursor
      {
        var held := PurgeNextRun(descs, bits, m, cursor, base, limit);
        ok := ok && held;
        cursor := limit;
        if cursor == table.tablePages {
          break;
        }
        found, base, limit := FindLongResRange(noSparePages, cursor, table.tablePages);
      }
      NoMoreRuns(bits, m, cursor);
      NothingSpare(descs, old(allocTable));
      SubsetSize(pageTableMapped, old(pageTableMapped));
    }

    /** Purges the whole chunk: no page stays spare, and no holding changes.  The result is whether the
        assertion in the source holds: just if every maximal run of reset bits is examinable. */
    method Purge() returns (ok: bool)
      requires Valid() && 0 <= OtherCommitted() && 0 <= OtherSpare()
      modifies this, pageTable, accounts`committed, accounts`spareCommitted
      ensures Valid() && OtherCommitted() == old(OtherCommitted()) && OtherSpare() == old(OtherSpare())
      ensures spare == {} && Held() == old(Held()) && Committed() <= old(Committed() - |spare|)
      ensures forall k :: k in pageTableMapped <==>
                k in old(pageTableMapped) && (k in old(noSparePages) || old(InUse(pageTable[..], k)))
      ensures ok <==> old(EveryRunExaminable())
    {
      ghost var descs, held := pageTable[..], Held();
      HeldMeans();
      ok := PurgeRuns();
      forall i | 0 <= i < table.pages ensures HeldAt(held, pageTable[i], i) {
        assert HeldAt(held, descs[i], i);
      }
      HeldDetermined(held);
    }

    /** The descriptors tell which pages are allocated, and the mapped pages are those and the spare ones. */
    lemma DescsMeant()
      requires DescsValid()
      ensures forall i | 0 <= i < table.pages :: i in allocTable <==> pageTable[..][i].Allocated?
      ensures |mapped| == |allocTable| + |spare|
    {
      forall i | 0 <= i < table.pages
        ensures (i in allocTable <==> pageTable[..][i].Allocated?) && !(i in allocTable && i in spare)
      {
        assert DescValid(pageTableMapped, i);
      }
      assert allocTable * spare == {};
    }

    /** With every noSparePages bit set, no page is spare. */
    lemma NothingSpare(descs: seq<Desc>, alloc: set<nat>)
      requires Valid() && forall k | 0 <= k < table.tablePages :: k in noSparePages
      requires |descs| == table.pages && Shrunk(descs) && forall i | i in alloc :: i < table.pages
      requires forall i | 0 <= i < table.pages :: i in alloc <==> descs[i].Allocated?
      ensures spare == {} && allocTable == alloc && |mapped| == |alloc|
    {
      DescsMeant();
      forall i | 0 <= i < table.pages ensures i !in spare {
        assert DescValid(pageTableMapped, i) && SpareOpen(i) && table.first[i] in noSparePages;
      }
      assert forall i | 0 <= i < table.pages :: i in allocTable <==> i in alloc;
    }
  }

  /** A chunk for which the assertion in the purge fails: with 8 byte descriptors in 10 byte table pages, page 1
      is allocated and freed, so that the table pages 0 and 1 are mapped and have their noSparePages bits reset,
      but the table page 2 is not mapped, and no descriptor is wholly on the table page 1. */
  method PurgeAssertionFails(accounts: Accounts) returns (res: Res, ok: bool, ghost refused: bool)
    requires accounts.committed == accounts.spareCommitted == 0
    modifies accounts
    ensures res == ResOK ==> !ok
    ensures !refused && 3 <= accounts.commitLimit ==> res == ResOK
  {
    var chunk := ChunkOfFour(accounts);
    ok := true;
    res, refused := HoldPageOne(chunk);
    if res == ResOK {
      SparePageOne(chunk);
      RunOfTwo(chunk);
      ok := chunk.Purge();
    }
  }

  method ChunkOfFour(accounts: Accounts) returns (chunk: VMChunk)
    requires accounts.committed == accounts.spareCommitted == 0
    ensures fresh(chunk) && fresh(chunk.pageTable) && chunk.accounts == accounts
    ensures chunk.Valid() && OfFour(chunk.table) && chunk.allocBase == 0 && chunk.allocTable == {}
    ensures chunk.mapped == {} && chunk.accounts.committed == 0
    ensures chunk.OtherCommitted() == chunk.OtherSpare() == 0
    ensures chunk.noSparePages == Interval(0, 4) && chunk.pageTableMapped == {}
  {
    var table := new PageTable(4, 10, 8);
    TableOfFour(table);
    chunk := new VMChunk(table, accounts, 0);
  }

  method HoldPageOne(chunk: VMChunk) returns (res: Res, ghost refused: bool)
    requires chunk.Valid() && OfFour(chunk.table) && chunk.allocBase == 0 && chunk.allocTable == {}
    requires chunk.accounts.committed <= chunk.accounts.commitLimit
    requires 0 <= chunk.OtherCommitted() && 0 <= chunk.OtherSpare()
    requires chunk.mapped == chunk.pageTableMapped == {}
    modifies chunk, chunk.pageTable, chunk.accounts`committed, chunk.accounts`spareCommitted
    ensures chunk.Valid() && 0 <= chunk.OtherCommitted() && 0 <= chunk.OtherSpare()
    ensures res == ResOK ==> Interval(1, 2) <= chunk.Held().Keys && chunk.noSparePages == old(chunk.noSparePages)
    ensures res == ResOK ==> chunk.pageTableMapped == Interval(0, 2)
    ensures !refused && old(chunk.accounts.committed) + 3 <= chunk.accounts.commitLimit ==> res == ResOK
  {
    assert chunk.TablePages(1, 2) == Interval(0, 2);
    assert {} + Interval(1, 2) == {1} && {} + Interval(0, 2) == {0, 1};
    res, refused := chunk.MarkAllocated(1, 2, 0);
  }

  method SparePageOne(chunk: VMChunk)
    requires chunk.Valid() && OfFour(chunk.table) && Interval(1, 2) <= chunk.Held().Keys
    requires 0 <= chunk.OtherCommitted() && 0 <= chunk.OtherSpare()
    modifies chunk`allocTable, chunk`spare, chunk`noSparePages, chunk.pageTable, chunk.accounts`spareCommitted
    ensures chunk.Valid() && 0 <= chunk.OtherCommitted() && 0 <= chunk.OtherSpare()
    ensures chunk.noSparePages == old(chunk.noSparePages) - Interval(0, 2)
  {
    chunk.FreePages(1, 2);
  }

  predicate OfFour(table: PageTable) {
    table.pages == table.tablePages == 4 && table.first == [0, 0, 1, 2] && table.last == [0, 1, 2, 3]
  }

  lemma TableOfFour(table: PageTable)
    requires table.Valid() && table.pages == 4 && table.pageSize == 10 && table.descSize == 8
    ensures OfFour(table)
  {
    assert table.Placed(0) && table.Placed(1) && table.Placed(2) && table.Placed(3) && table.Extent();
  }

  lemma RunOfTwo(chunk: VMChunk)
    requires chunk.Shape() && OfFour(chunk.table)
    requires chunk.noSparePages == Interval(0, 4) - Interval(0, 2) && chunk.pageTableMapped == Interval(0, 2)
    ensures !chunk.EveryRunExaminable()
  {
    assert chunk.MaximalRun(chunk.noSparePages, 0, 2);
    assert !chunk.ExaminableIn(chunk.pageTableMapped, 0, 2);
  }
}
