/** Finding free pages of an arena all of whose addresses are in given zones.

  The address space is cut into stripes of the zone size, and the zone of an address is the number of
  its stripe modulo the word width.  Addresses wrap round at the end of the address space.
*/
module ZoneSearches {
  import opened BitSets
  import opened DivMod

  const WORD_WIDTH := 32

  datatype Chunk = Chunk(base: nat, pageSize: nat, pages: nat, allocBase: nat, allocTable: set<nat>) {
    function PageIndexBase(i: nat): nat {
      base + i * pageSize
    }

    function Limit(): nat {
      PageIndexBase(pages)
    }
  }

  /** The stripes, and the size of the address space. */
  datatype Zoning = Zoning(zoneSize: nat, space: nat) {
    predicate Valid() {
      0 < zoneSize && 0 < space && space % zoneSize == 0
    }

    predicate IsMember(zones: set<nat>, addr: nat)
      requires Valid()
    {
      addr / zoneSize % WORD_WIDTH in zones
    }

    /** Aligning up wraps round to zero past the last stripe. */
    function AlignUp(addr: nat): nat
      requires Valid()
    {
      (addr + zoneSize - 1) / zoneSize * zoneSize % space
    }

    /** Stripes are whole pages, and the chunk is inside the address space and not at its very start. */
    predicate Holds(chunk: Chunk)
      requires Valid()
    {
      && 0 < chunk.pageSize && zoneSize % chunk.pageSize == 0
      && 0 < chunk.base && chunk.base % chunk.pageSize == 0
      && chunk.allocBase <= chunk.pages && chunk.Limit() < space
    }

    ghost function StripeEnd(addr: nat): nat
      requires Valid()
    {
      (addr / zoneSize + 1) * zoneSize
    }

    /** Aligning up past an address gives the end of its stripe, or zero if that is the end of the space. */
    lemma NextStripe(addr: nat)
      requires Valid() && addr < space
      ensures addr < StripeEnd(addr) <= space && StripeEnd(addr) % zoneSize == 0
      ensures AlignUp(addr + 1) == if StripeEnd(addr) == space then 0 else StripeEnd(addr)
    {
      Boundary(addr, zoneSize, space);
      DivModUnique(StripeEnd(addr), zoneSize, addr / zoneSize + 1, 0);
      assert addr + 1 + zoneSize - 1 == addr + zoneSize;
      if StripeEnd(addr) == space {
        DivModUnique(space, space, 1, 0);
      } else {
        DivModUnique(StripeEnd(addr), space, 0, StripeEnd(addr));
      }
    }

    static lemma Boundary(addr: nat, zoneSize: nat, space: nat)
      requires 0 < zoneSize && addr < space && space % zoneSize == 0
      ensures addr < (addr / zoneSize + 1) * zoneSize <= space
      ensures (addr + zoneSize) / zoneSize == addr / zoneSize + 1
    {
      var q, n := addr / zoneSize, space / zoneSize;
      DivBounds(addr, zoneSize);
      assert (q + 1) * zoneSize == q * zoneSize + zoneSize;
      DivModUnique(addr + zoneSize, zoneSize, q + 1, addr - q * zoneSize);
      assert space == n * zoneSize;
      LessByProduct(q, n, zoneSize);
      MulMonotone(q + 1, n, zoneSize);
    }

    static lemma SameStripe(addr: nat, x: nat, zoneSize: nat)
      requires 0 < zoneSize && addr <= x < (addr / zoneSize + 1) * zoneSize
      ensures x / zoneSize == addr / zoneSize
    {
      var q := addr / zoneSize;
      DivBounds(addr, zoneSize);
      assert (q + 1) * zoneSize == q * zoneSize + zoneSize;
      DivModUnique(x, zoneSize, q, x - q * zoneSize);
    }

    /** The pages of a chunk whose first addresses are in one stripe are all in its zone, or all not. */
    lemma StripePages(chunk: Chunk, zones: set<nat>, addr: nat)
      requires Valid() && addr < space
      ensures forall i: nat | addr <= chunk.PageIndexBase(i) < StripeEnd(addr) ::
                IsMember(zones, chunk.PageIndexBase(i)) <==> IsMember(zones, addr)
    {
      forall i: nat | addr <= chunk.PageIndexBase(i) < StripeEnd(addr)
        ensures IsMember(zones, chunk.PageIndexBase(i)) <==> IsMember(zones, addr)
      {
        SameStripe(addr, chunk.PageIndexBase(i), zoneSize);
      }
    }

    /** Page boundaries are the addresses of pages, and page addresses increase. */
    lemma PageAddress(chunk: Chunk, addr: nat)
      requires 0 < chunk.pageSize && chunk.base <= addr && (addr - chunk.base) % chunk.pageSize == 0
      ensures addr == chunk.PageIndexBase((addr - chunk.base) / chunk.pageSize)
    {
    }

    static lemma PageOrder(chunk: Chunk, i: nat, j: nat)
      requires 0 < chunk.pageSize
      ensures chunk.PageIndexBase(i) < chunk.PageIndexBase(j) <==> i < j
    {
      if i < j {
        MulMonotone(i + 1, j, chunk.pageSize);
        assert (i + 1) * chunk.pageSize == i * chunk.pageSize + chunk.pageSize;
      } else {
        MulMonotone(j, i, chunk.pageSize);
      }
    }

    static lemma MultipleOfMultiple(e: nat, z: nat, m: nat)
      requires 0 < m && 0 < z && e % z == 0 && z % m == 0
      ensures e % m == 0
    {
      var k, t := e / z, z / m;
      assert k * t * m == k * (t * m);
      DivModUnique(e, m, k * t, 0);
    }

    /** Stripe ends are page boundaries. */
    lemma StripeEndPage(chunk: Chunk, addr: nat)
      requires Valid() && Holds(chunk) && addr < space && chunk.base <= addr
      ensures chunk.base < StripeEnd(addr) && (StripeEnd(addr) - chunk.base) % chunk.pageSize == 0
    {
      NextStripe(addr);
      var m, e := chunk.pageSize, StripeEnd(addr);
      MultipleOfMultiple(e, zoneSize, m);
      DivModUnique(e - chunk.base, m, e / m - chunk.base / m, 0);
    }

    /** A page is wholly in the zone its first address is in. */
    lemma WholePage(chunk: Chunk, zones: set<nat>, i: nat, addr: nat)
      requires Valid() && Holds(chunk) && i < chunk.pages
      requires chunk.PageIndexBase(i) <= addr < chunk.PageIndexBase(i + 1)
      ensures IsMember(zones, addr) <==> IsMember(zones, chunk.PageIndexBase(i))
    {
      var base := chunk.PageIndexBase(i);
      PageOrder(chunk, i, chunk.pages);
      NextStripe(base);
      StripeEndPage(chunk, base);
      PageAddress(chunk, StripeEnd(base));
      var k := (StripeEnd(base) - chunk.base) / chunk.pageSize;
      PageOrder(chunk, i, k);
      PageOrder(chunk, k, i + 1);
      SameStripe(base, addr, zoneSize);
    }
  }

  /** The pages of a chunk that are in the zones. */
  ghost function MemberPages(zoning: Zoning, chunk: Chunk, zones: set<nat>): set<nat>
    requires zoning.Valid()
  {
    set i | 0 <= i < chunk.pages && zoning.IsMember(zones, chunk.PageIndexBase(i))
  }

  /** Pages that can be allocated: above the chunk's tables, free, and in the zones. */
  ghost predicate Usable(chunk: Chunk, members: set<nat>, i: nat) {
    chunk.allocBase <= i < chunk.pages && i !in chunk.allocTable && i in members
  }

  ghost predicate UsableRun(chunk: Chunk, members: set<nat>, start: nat, pages: nat) {
    forall i | start <= i < start + pages :: Usable(chunk, members, i)
  }

  /** A run of free pages between two addresses: the highest, or the lowest. */
  method FindFreeInArea(chunk: Chunk, size: nat, base: nat, limit: nat, downwards: bool,
                        ghost basePage: nat, ghost limitPage: nat) returns (found: bool, start: nat)
    requires 0 < chunk.pageSize && 0 < size <= limit - base && size % chunk.pageSize == 0
    requires base == chunk.PageIndexBase(basePage) && limit == chunk.PageIndexBase(limitPage)
    ensures var pages := size / chunk.pageSize;
            if found then basePage <= start && start + pages <= limitPage && ResFrom(chunk.allocTable, start, pages)
            else forall s | basePage <= s && s + pages <= limitPage :: !ResFrom(chunk.allocTable, s, pages)
    ensures found ==> forall s | basePage <= s && s + size / chunk.pageSize <= limitPage
                                 && ResFrom(chunk.allocTable, s, size / chunk.pageSize) ::
              if downwards then s <= start else start <= s
  {
    IndexOfAddr(chunk, basePage);
    IndexOfAddr(chunk, limitPage);
    var pages := size / chunk.pageSize;
    LessByProduct(basePage + pages, limitPage + 1, chunk.pageSize);
    found, start := BitSets.FindShortResRange(chunk.allocTable, (base - chunk.base) / chunk.pageSize,
                                              (limit - chunk.base) / chunk.pageSize, pages, downwards);
  }

  lemma IndexOfAddr(chunk: Chunk, i: nat)
    requires 0 < chunk.pageSize
    ensures (chunk.PageIndexBase(i) - chunk.base) / chunk.pageSize == i
  {
    DivModUnique(i * chunk.pageSize, chunk.pageSize, i, 0);
  }

  /** The page at the end of a page's stripe, or the end of the chunk if that comes first: the pages before
      it are in the same zone.  This is what aligning up finds, allowing for wrapping round. */
  lemma NextStripePage(zoning: Zoning, chunk: Chunk, zones: set<nat>, addr: nat, page: nat) returns (next: nat)
    requires zoning.Valid() && zoning.Holds(chunk) && addr == chunk.PageIndexBase(page) && page < chunk.pages
    ensures page < next <= chunk.pages && addr < chunk.Limit()
    ensures var members := MemberPages(zoning, chunk, zones);
            (page in members <==> zoning.IsMember(zones, addr))
            && forall i | page <= i < next :: i in members <==> page in members
    ensures var a := zoning.AlignUp(addr + 1);
            (next == chunk.pages && (a == 0 || chunk.Limit() <= a))
            || (addr < a == chunk.PageIndexBase(next) && a < chunk.Limit() && next < chunk.pages)
  {
    zoning.PageOrder(chunk, page, chunk.pages);
    zoning.NextStripe(addr);
    zoning.StripeEndPage(chunk, addr);
    zoning.StripePages(chunk, zones, addr);
    var end := zoning.StripeEnd(addr);
    if end < chunk.Limit() {
      zoning.PageAddress(chunk, end);
      next := (end - chunk.base) / chunk.pageSize;
      zoning.PageOrder(chunk, page, next);
      zoning.PageOrder(chunk, next, chunk.pages);
    } else {
      next := chunk.pages;
    }
    forall i | page <= i < next
      ensures zoning.IsMember(zones, chunk.PageIndexBase(i)) <==> zoning.IsMember(zones, addr)
    {
      zoning.PageOrder(chunk, i, page);
      zoning.PageOrder(chunk, i, next);
    }
  }

  /** The start of the next stripe, as a page, or the end of the chunk. */
  method NextStripe(zoning: Zoning, chunk: Chunk, ghost zones: set<nat>, base: nat, addr: nat, ghost page: nat)
    returns (next: nat, ghost nextPage: nat)
    requires zoning.Valid() && zoning.Holds(chunk) && addr == chunk.PageIndexBase(page) && page < chunk.pages
    requires chunk.base <= base <= addr
    ensures page < nextPage <= chunk.pages && next == chunk.PageIndexBase(nextPage)
    ensures next < chunk.Limit() <==> nextPage < chunk.pages
    ensures var members := MemberPages(zoning, chunk, zones);
            (page in members <==> zoning.IsMember(zones, addr))
            && forall i | page <= i < nextPage :: i in members <==> page in members
  {
    nextPage := NextStripePage(zoning, chunk, zones, addr, page);
    next := zoning.AlignUp(addr + 1);
    assert base < next || next == 0;
    if chunk.Limit() <= next || next < base {
      next := chunk.Limit();
    }
  }

  /** The area of stripes in the zones that starts at an address in them: all its pages are in the zones,
      and it ends at the end of the chunk or at a page that is not. */
  method MemberArea(zoning: Zoning, chunk: Chunk, zones: set<nat>, base: nat, ghost basePage: nat)
    returns (limit: nat, ghost limitPage: nat)
    requires zoning.Valid() && zoning.Holds(chunk) && base == chunk.PageIndexBase(basePage) && basePage < chunk.pages
    requires zoning.IsMember(zones, base)
    ensures basePage < limitPage <= chunk.pages && limit == chunk.PageIndexBase(limitPage)
    ensures limit < chunk.Limit() <==> limitPage < chunk.pages
    ensures var members := MemberPages(zoning, chunk, zones);
            limitPage !in members && forall i | basePage <= i < limitPage :: i in members
  {
    limit, limitPage := NextStripe(zoning, chunk, zones, base, base, basePage);
    while limit < chunk.Limit() && zoning.IsMember(zones, limit)
      invariant basePage < limitPage <= chunk.pages && limit == chunk.PageIndexBase(limitPage)
      invariant base <= limit && (limit < chunk.Limit() <==> limitPage < chunk.pages)
      invariant forall i | basePage <= i < limitPage :: i in MemberPages(zoning, chunk, zones)
      decreases chunk.pages - limitPage
    {
      limit, limitPage := NextStripe(zoning, chunk, zones, base, limit, limitPage);
    }
  }

  /** No usable run starts in an area that ends at a page not in the zones, if none fits in it. */
  lemma NoneInArea(chunk: Chunk, members: set<nat>, pages: nat, basePage: nat, limitPage: nat)
    requires 0 < pages && limitPage !in members
    requires forall s | basePage <= s && s + pages <= limitPage :: !ResFrom(chunk.allocTable, s, pages)
    ensures forall s: nat | UsableRun(chunk, members, s, pages) && basePage <= s :: limitPage <= s
  {
    RunsInArea(chunk, members, pages, basePage, limitPage);
  }

  /** A usable run that starts in such an area is a free run inside it. */
  lemma RunsInArea(chunk: Chunk, members: set<nat>, pages: nat, basePage: nat, limitPage: nat)
    requires 0 < pages && limitPage !in members
    ensures forall s: nat | UsableRun(chunk, members, s, pages) && basePage <= s < limitPage ::
              s + pages <= limitPage && ResFrom(chunk.allocTable, s, pages)
  {
    forall s: nat | UsableRun(chunk, members, s, pages) && basePage <= s < limitPage
      ensures s + pages <= limitPage && ResFrom(chunk.allocTable, s, pages)
    {
      assert limitPage < s + pages ==> Usable(chunk, members, limitPage);
      forall i | s <= i < s + pages ensures i !in chunk.allocTable {
        assert Usable(chunk, members, i);
      }
    }
  }

  /** No usable run starts in an area none of whose pages is in the zones. */
  lemma NoneOutside(chunk: Chunk, members: set<nat>, pages: nat, basePage: nat, limitPage: nat)
    requires 0 < pages && forall i | basePage <= i < limitPage :: i !in members
    ensures forall s: nat | UsableRun(chunk, members, s, pages) && basePage <= s :: limitPage <= s
  {
    forall s: nat | UsableRun(chunk, members, s, pages) && basePage <= s
      ensures limitPage <= s
    {
      assert Usable(chunk, members, s);
    }
  }

  lemma PagesOfSize(chunk: Chunk, size: nat, basePage: nat, limitPage: nat)
    requires 0 < chunk.pageSize && 0 < size && size % chunk.pageSize == 0
    ensures 0 < size / chunk.pageSize
    ensures var space := chunk.PageIndexBase(limitPage) - chunk.PageIndexBase(basePage);
            space < size ==> limitPage < basePage + size / chunk.pageSize
  {
    var n := size / chunk.pageSize;
    assert size == n * chunk.pageSize;
    if basePage + n <= limitPage {
      MulMonotone(basePage + n, limitPage, chunk.pageSize);
      assert (basePage + n) * chunk.pageSize == basePage * chunk.pageSize + n * chunk.pageSize;
    }
  }

  /** Searches one area, from base to limit. */
  method FindInArea(chunk: Chunk, size: nat, base: nat, limit: nat, downwards: bool,
                    ghost members: set<nat>, ghost basePage: nat, ghost limitPage: nat)
    returns (found: bool, start: nat)
    requires 0 < chunk.pageSize && 0 < size && size % chunk.pageSize == 0
    requires chunk.allocBase <= basePage < limitPage <= chunk.pages
    requires base == chunk.PageIndexBase(basePage) && limit == chunk.PageIndexBase(limitPage)
    requires limitPage !in members && forall i | basePage <= i < limitPage :: i in members
    ensures found ==> UsableRun(chunk, members, start, size / chunk.pageSize)
    ensures found ==> basePage <= start && start + size / chunk.pageSize <= limitPage
    ensures found ==> forall s: nat | UsableRun(chunk, members, s, size / chunk.pageSize)
                                      && basePage <= s < limitPage ::
              if downwards then s <= start else start <= s
    ensures !found ==> forall s: nat | UsableRun(chunk, members, s, size / chunk.pageSize) && basePage <= s ::
              limitPage <= s
  {
    PagesOfSize(chunk, size, basePage, limitPage);
    found, start := false, 0;
    if size <= limit - base {
      found, start := FindFreeInArea(chunk, size, base, limit, downwards, basePage, limitPage);
    }
    if !found {
      NoneInArea(chunk, members, size / chunk.pageSize, basePage, limitPage);
    } else {
      RunsInArea(chunk, members, size / chunk.pageSize, basePage, limitPage);
    }
  }

  /** Deals with the stripes at an address: searches the area that starts there, or skips the stripe. */
  method FindInStripes(zoning: Zoning, chunk: Chunk, zones: set<nat>, size: nat, downwards: bool,
                       chunkBase: nat, base: nat, ghost basePage: nat)
    returns (found: bool, start: nat, next: nat, ghost nextPage: nat)
    requires zoning.Valid() && zoning.Holds(chunk) && 0 < size && size % chunk.pageSize == 0
    requires chunk.allocBase <= basePage < chunk.pages && base == chunk.PageIndexBase(basePage)
    requires chunk.base <= chunkBase <= base
    ensures var members, pages := MemberPages(zoning, chunk, zones), size / chunk.pageSize;
            if found then UsableRun(chunk, members, start, pages)
            else forall s: nat | UsableRun(chunk, members, s, pages) && basePage <= s :: nextPage <= s
    ensures basePage < nextPage <= chunk.pages && next == chunk.PageIndexBase(nextPage)
    ensures next < chunk.Limit() <==> nextPage < chunk.pages
    ensures var members, pages := MemberPages(zoning, chunk, zones), size / chunk.pageSize;
            if found then
              && basePage <= start && start + pages <= nextPage
              && nextPage !in members && (forall i | basePage <= i < nextPage :: i in members)
              && forall s: nat | UsableRun(chunk, members, s, pages) && basePage <= s < nextPage ::
                   if downwards then s <= start else start <= s
            else nextPage in members ==> nextPage - 1 !in members
  {
    ghost var members := MemberPages(zoning, chunk, zones);
    if zoning.IsMember(zones, base) {
      next, nextPage := MemberArea(zoning, chunk, zones, base, basePage);
      found, start := FindInArea(chunk, size, base, next, downwards, members, basePage, nextPage);
    } else {
      next, nextPage := NextStripe(zoning, chunk, zones, chunkBase, base, basePage);
      PagesOfSize(chunk, size, 0, 0);
      NoneOutside(chunk, members, size / chunk.pageSize, basePage, nextPage);
      found, start := false, 0;
    }
  }

  /** A maximal area of pages in the zones, above the chunk's tables. */
  ghost predicate IsArea(chunk: Chunk, members: set<nat>, basePage: nat, limitPage: nat) {
    && chunk.allocBase <= basePage < limitPage <= chunk.pages
    && (forall i | basePage <= i < limitPage :: i in members)
    && (basePage == chunk.allocBase || basePage - 1 !in members) && limitPage !in members
  }

  /** Searches a chunk, area by area: a run is found exactly if there is one, and then the highest or the lowest
      in the first area that has any. */
  method FindFreeInChunk(zoning: Zoning, chunk: Chunk, zones: set<nat>, size: nat, downwards: bool)
    returns (found: bool, start: nat, ghost areaBase: nat, ghost areaLimit: nat)
    requires zoning.Valid() && zoning.Holds(chunk) && 0 < size && size % chunk.pageSize == 0
    ensures var members, pages := MemberPages(zoning, chunk, zones), size / chunk.pageSize;
            if found then
              && UsableRun(chunk, members, start, pages) && IsArea(chunk, members, areaBase, areaLimit)
              && areaBase <= start && start + pages <= areaLimit
              && (forall s: nat | UsableRun(chunk, members, s, pages) :: areaBase <= s)
              && forall s: nat | UsableRun(chunk, members, s, pages) && s < areaLimit ::
                   if downwards then s <= start else start <= s
            else forall s :: !UsableRun(chunk, members, s, pages)
  {
    ghost var pages, members := size / chunk.pageSize, MemberPages(zoning, chunk, zones);
    ghost var basePage := chunk.allocBase;
    InsideChunk(chunk, members, size, pages);
    zoning.PageOrder(chunk, basePage, chunk.pages);
    var chunkBase := chunk.PageIndexBase(chunk.allocBase);
    var base := chunkBase;
    while base < chunk.Limit()
      invariant chunk.allocBase <= basePage <= chunk.pages && base == chunk.PageIndexBase(basePage)
      invariant chunkBase <= base && (base < chunk.Limit() <==> basePage < chunk.pages)
      invariant basePage in members ==> basePage == chunk.allocBase || basePage - 1 !in members
      invariant forall s: nat | UsableRun(chunk, members, s, pages) :: basePage <= s
      decreases chunk.pages - basePage
    {
      zoning.PageOrder(chunk, basePage, chunk.pages);
      areaBase := basePage;
      found, start, base, basePage := FindInStripes(zoning, chunk, zones, size, downwards, chunkBase, base, basePage);
      if found {
        areaLimit := basePage;
        return;
      }
      zoning.PageOrder(chunk, areaBase, basePage);
    }
    assert base == chunk.Limit();
    found, start, areaBase, areaLimit := false, 0, 0, 0;
  }

  lemma InsideChunk(chunk: Chunk, members: set<nat>, size: nat, pages: nat)
    requires 0 < chunk.pageSize && 0 < size && size % chunk.pageSize == 0 && pages == size / chunk.pageSize
    ensures forall s: nat | UsableRun(chunk, members, s, pages) :: chunk.allocBase <= s < chunk.pages
  {
    PagesOfSize(chunk, size, 0, 0);
    forall s: nat | UsableRun(chunk, members, s, pages) ensures chunk.allocBase <= s < chunk.pages {
      assert Usable(chunk, members, s);
    }
  }

  /** A run of pages is in the first area that has any, and is the highest, or the lowest, of those there. */
  ghost predicate FirstInArea(chunk: Chunk, members: set<nat>, pages: nat, downwards: bool, start: nat,
      areaBase: nat, areaLimit: nat)
  {
    && IsArea(chunk, members, areaBase, areaLimit) && areaBase <= start && start + pages <= areaLimit
    && (forall s: nat | UsableRun(chunk, members, s, pages) :: areaBase <= s)
    && forall s: nat | UsableRun(chunk, members, s, pages) && s < areaLimit ::
         if downwards then s <= start else start <= s
  }

  /** Searches the chunks in order, and so finds a run in the first chunk that has any. */
  method FindFreeInZones(zoning: Zoning, chunks: seq<Chunk>, zones: set<nat>, size: nat, downwards: bool)
    returns (found: bool, c: nat, start: nat, ghost areaBase: nat, ghost areaLimit: nat)
    requires zoning.Valid() && 0 < size
    requires forall c | 0 <= c < |chunks| :: zoning.Holds(chunks[c]) && size % chunks[c].pageSize == 0
    ensures found ==> c < |chunks| && HasRun(zoning, chunks[c], zones, size, start)
    ensures found ==> forall d, s | 0 <= d < c :: !HasRun(zoning, chunks[d], zones, size, s)
    ensures found ==> zoning.Holds(chunks[c])
                      && FirstInArea(chunks[c], MemberPages(zoning, chunks[c], zones), size / chunks[c].pageSize,
                                     downwards, start, areaBase, areaLimit)
    ensures !found ==> forall d, s | 0 <= d < |chunks| :: !HasRun(zoning, chunks[d], zones, size, s)
  {
    c := 0;
    while c < |chunks|
      invariant c <= |chunks|
      invariant forall d, s | 0 <= d < c :: !HasRun(zoning, chunks[d], zones, size, s)
    {
      found, start, areaBase, areaLimit := FindFreeInChunk(zoning, chunks[c], zones, size, downwards);
      if found {
        return;
      }
      c := c + 1;
    }
    found, start, areaBase, areaLimit := false, 0, 0, 0;
  }

  ghost predicate HasRun(zoning: Zoning, chunk: Chunk, zones: set<nat>, size: nat, start: nat)
    requires zoning.Valid() && zoning.Holds(chunk)
  {
    UsableRun(chunk, MemberPages(zoning, chunk, zones), start, size / chunk.pageSize)
  }
}
