/** Where the page descriptors of a chunk lie in its page table.

  The table occupies whole pages, and a descriptor need not divide the page size, so a descriptor
  can straddle two table pages.  Byte offsets are from the start of the table.
*/
module PageTables {
  import opened DivMod

  class PageTable {
    const pages: nat
    const pageSize: nat
    const descSize: nat
    const tablePages: nat
    /** The table pages holding the first and the last byte of each descriptor. */
    const first: seq<nat>
    const last: seq<nat>

    ghost predicate Placed(i: nat)
      requires i < |first| && i < |last|
    {
      && first[i] * pageSize <= i * descSize < (first[i] + 1) * pageSize
      && last[i] * pageSize < (i + 1) * descSize <= (last[i] + 1) * pageSize
    }

    /** The table pages are just enough for the descriptors. */
    ghost predicate Extent() {
      (tablePages - 1) * pageSize < pages * descSize <= tablePages * pageSize
    }

    ghost predicate Layout() {
      && 0 < descSize <= pageSize && 0 < pages
      && |first| == |last| == pages
      && (forall i | 0 <= i < pages :: Placed(i))
      && Extent()
    }

    ghost predicate Valid() {
      && Layout()
      && (forall i | 0 <= i < pages :: first[i] <= last[i] <= first[i] + 1 && last[i] < tablePages)
      && (forall i, j | 0 <= i < j < pages :: first[i] <= last[i] <= first[j] <= last[j])
    }

    constructor (pages: nat, pageSize: nat, descSize: nat)
      requires 0 < descSize <= pageSize && 0 < pages
      ensures Valid() && this.pages == pages && this.pageSize == pageSize && this.descSize == descSize
    {
      this.pages, this.pageSize, this.descSize := pages, pageSize, descSize;
      this.first := seq(pages, i requires 0 <= i => i * descSize / pageSize);
      this.last := seq(pages, i requires 0 <= i => LastPage(i, pageSize, descSize));
      this.tablePages := (pages * descSize + pageSize - 1) / pageSize;
      new;
      forall i | 0 <= i < pages ensures Placed(i) {
        DivBounds(i * descSize, pageSize);
        LastPageBounds(i, pageSize, descSize);
      }
      CeilBounds(pages * descSize, pageSize);
      assert Extent();
      LayoutIsValid();
    }

    static function LastPage(i: nat, pageSize: nat, descSize: nat): nat
      requires 0 < descSize <= pageSize
    {
      assert 0 <= i * descSize;
      assert (i + 1) * descSize == i * descSize + descSize;
      ((i + 1) * descSize - 1) / pageSize
    }

    static lemma LastPageBounds(i: nat, pageSize: nat, descSize: nat)
      requires 0 < descSize <= pageSize
      ensures var l := LastPage(i, pageSize, descSize); l * pageSize < (i + 1) * descSize <= (l + 1) * pageSize
    {
      DivBounds((i + 1) * descSize - 1, pageSize);
    }

    /** A descriptor is no larger than a page and the next one starts where it ends. */
    lemma LayoutIsValid()
      requires Layout()
      ensures Valid()
    {
      forall i | 0 <= i < pages ensures first[i] <= last[i] <= first[i] + 1 && last[i] < tablePages {
        PlacedSpan(i);
      }
      forall i, j | 0 <= i < j < pages ensures last[i] <= first[j] && first[i] <= last[i] && first[j] <= last[j] {
        PlacedSpan(i);
        PlacedSpan(j);
        PlacedOrder(i, j);
      }
    }

    lemma PlacedSpan(i: nat)
      requires Layout() && i < pages
      ensures first[i] <= last[i] <= first[i] + 1 && last[i] < tablePages
    {
      assert Placed(i) && Extent();
      assert (i + 1) * descSize == i * descSize + descSize;
      assert (first[i] + 2) * pageSize == (first[i] + 1) * pageSize + pageSize;
      LessByProduct(first[i], last[i] + 1, pageSize);
      LessByProduct(last[i], first[i] + 2, pageSize);
      MulMonotone(i + 1, pages, descSize);
      LessByProduct(last[i], tablePages, pageSize);
    }

    lemma PlacedOrder(i: nat, j: nat)
      requires Layout() && i < j < pages
      ensures last[i] <= first[j]
    {
      assert Placed(i) && Placed(j);
      MulMonotone(i + 1, j, descSize);
      LessByProduct(last[i], first[j] + 1, pageSize);
    }

    lemma PlacedAdjacent(i: nat)
      requires Layout() && i + 1 < pages
      ensures first[i + 1] <= last[i] + 1
    {
      assert Placed(i) && Placed(i + 1);
      LessByProduct(first[i + 1], last[i] + 2, pageSize);
      assert (last[i] + 2) * pageSize == (last[i] + 1) * pageSize + pageSize;
    }

    /** Whether some of descriptor i is on table page k. */
    predicate Touches(i: nat, k: nat)
      requires i < |first| && i < |last|
    {
      first[i] <= k <= last[i]
    }

    /** Some descriptor starts on every table page but the last, and if a page always has room for two
        descriptors (less a byte) some descriptor is wholly on it. */
    lemma StartsOn(k: nat)
      requires Valid() && k + 1 < tablePages
      ensures exists i :: 0 <= i < pages && first[i] == k && (2 * descSize <= pageSize + 1 ==> last[i] == k)
    {
      var i := (k * pageSize + descSize - 1) / descSize;
      CeilBounds(k * pageSize, descSize);
      assert Extent();
      assert (k + 1) * pageSize == k * pageSize + pageSize;
      assert (k + 2) * pageSize == k * pageSize + 2 * pageSize;
      assert i * descSize == (i - 1) * descSize + descSize;
      assert (i + 1) * descSize == (i - 1) * descSize + 2 * descSize;
      MulMonotone(k + 1, tablePages - 1, pageSize);
      LessByProduct(i, pages, descSize);
      assert Placed(i);
      LessByProduct(k, first[i] + 1, pageSize);
      LessByProduct(first[i], k + 1, pageSize);
      if 2 * descSize <= pageSize + 1 {
        LessByProduct(last[i], k + 1, pageSize);
      }
    }

    /** The table pages start with the first descriptor and end with the last. */
    lemma LastTablePage()
      requires Valid()
      ensures first[0] == 0 && last[pages - 1] == tablePages - 1
    {
      assert Placed(0) && Placed(pages - 1) && Extent();
      MulSign(first[0], pageSize);
      LessByProduct(tablePages - 1, last[pages - 1] + 1, pageSize);
    }

    /** The page the end of the table falls on is the last table page, or the one after it if the table
        fills its pages. */
    lemma EndPage()
      requires Valid()
      ensures pages * descSize / pageSize ==
                if pages * descSize == tablePages * pageSize then tablePages else tablePages - 1
    {
      var x := pages * descSize;
      assert Extent();
      assert tablePages * pageSize == (tablePages - 1) * pageSize + pageSize;
      var q := if x == tablePages * pageSize then tablePages else tablePages - 1;
      DivModUnique(x, pageSize, q, x - q * pageSize);
    }

    /** The descriptors of a range of pages leave no gap among the table pages they use. */
    lemma {:induction false} TouchedBy(base: nat, limit: nat, k: nat)
      requires Valid() && base < limit <= pages && first[base] <= k <= last[limit - 1]
      ensures exists i :: base <= i < limit && Touches(i, k)
    {
      if first[limit - 1] <= k {
        assert Touches(limit - 1, k);
      } else {
        PlacedAdjacent(limit - 2);
        TouchedBy(base, limit - 1, k);
      }
    }

    /** The first descriptor at least partly on table page k: those before it end before k. */
    function TablePageBaseIndex(k: nat): (i: nat)
      requires Valid()
      ensures forall j | 0 <= j < pages :: j < i <==> last[j] < k
      ensures k < tablePages ==> i < pages
    {
      var i := k * pageSize / descSize;
      BaseIndexMeaning(k, i);
      i
    }

    lemma BaseIndexMeaning(k: nat, i: nat)
      requires Valid() && i == k * pageSize / descSize
      ensures forall j | 0 <= j < pages :: j < i <==> last[j] < k
      ensures k < tablePages ==> i < pages
    {
      assert Extent();
      DivBounds(k * pageSize, descSize);
      forall j | 0 <= j < pages ensures j < i <==> last[j] < k {
        assert Placed(j);
        if j < i {
          MulMonotone(j + 1, i, descSize);
          LessByProduct(last[j], k, pageSize);
        } else {
          MulMonotone(i + 1, j + 1, descSize);
          LessByProduct(k, last[j] + 1, pageSize);
        }
      }
      if k < tablePages {
        MulMonotone(k, tablePages - 1, pageSize);
        LessByProduct(i, pages, descSize);
      }
    }

    /** The first descriptor wholly on table page k or later. */
    function TablePageWholeBaseIndex(k: nat): (i: nat)
      requires Valid()
      ensures forall j | 0 <= j < pages :: i <= j <==> k <= first[j]
      ensures k < tablePages ==> i <= pages
    {
      var i := (k * pageSize + descSize - 1) / descSize;
      WholeBaseIndexMeaning(k, i);
      i
    }

    lemma WholeBaseIndexMeaning(k: nat, i: nat)
      requires Valid() && i == (k * pageSize + descSize - 1) / descSize
      ensures forall j | 0 <= j < pages :: i <= j <==> k <= first[j]
      ensures k < tablePages ==> i <= pages
    {
      assert Extent();
      CeilBounds(k * pageSize, descSize);
      forall j | 0 <= j < pages ensures i <= j <==> k <= first[j] {
        assert Placed(j);
        if i <= j {
          MulMonotone(i, j, descSize);
          LessByProduct(k, first[j] + 1, pageSize);
        } else {
          MulMonotone(j, i - 1, descSize);
          LessByProduct(first[j], k, pageSize);
        }
      }
      if k < tablePages {
        MulMonotone(k, tablePages - 1, pageSize);
        LessByProduct(i - 1, pages, descSize);
      }
    }

    /** The first descriptor wholly on the table page after k. */
    function TablePageLimitIndex(k: nat): (i: nat)
      requires Valid()
      ensures forall j | 0 <= j < pages :: j < i <==> first[j] <= k
      ensures k + 1 < tablePages || (k < tablePages && pages * descSize == tablePages * pageSize) ==> i <= pages
    {
      var i := (k * pageSize + pageSize - 1) / descSize + 1;
      LimitIndexMeaning(k, i);
      i
    }

    lemma LimitIndexMeaning(k: nat, i: nat)
      requires Valid() && i == (k * pageSize + pageSize - 1) / descSize + 1
      ensures forall j | 0 <= j < pages :: j < i <==> first[j] <= k
      ensures k + 1 < tablePages || (k < tablePages && pages * descSize == tablePages * pageSize) ==> i <= pages
    {
      var x := k * pageSize + pageSize - 1;
      assert x == (k + 1) * pageSize - 1;
      assert Extent();
      DivBounds(x, descSize);
      forall j | 0 <= j < pages ensures j < i <==> first[j] <= k {
        StartsBefore(j, k, i);
      }
      if k + 1 < tablePages {
        MulMonotone(k + 1, tablePages - 1, pageSize);
        LessByProduct(i - 1, pages, descSize);
      } else if k < tablePages && pages * descSize == tablePages * pageSize {
        LessByProduct(i - 1, pages, descSize);
      }
    }

    lemma StartsBefore(j: nat, k: nat, i: nat)
      requires Valid() && j < pages && 0 < i
      requires (i - 1) * descSize <= (k + 1) * pageSize - 1 < i * descSize
      ensures j < i <==> first[j] <= k
    {
      assert Placed(j);
      if j < i {
        MulMonotone(j, i - 1, descSize);
        LessByProduct(first[j], k + 1, pageSize);
      } else {
        MulMonotone(i, j, descSize);
        assert (first[j] + 1) * pageSize > (k + 1) * pageSize - 1;
        LessByProduct(k, first[j] + 1, pageSize);
      }
    }

    /** The first descriptor at least partly on the table page after k. */
    function TablePageWholeLimitIndex(k: nat): (i: nat)
      requires Valid()
      ensures forall j | 0 <= j < pages :: j < i <==> last[j] <= k
      ensures k + 1 < tablePages ==> i < pages
    {
      var i := (k * pageSize + pageSize) / descSize;
      assert (k + 1) * pageSize == k * pageSize + pageSize;
      BaseIndexMeaning(k + 1, i);
      i
    }

    /** The table pages holding the descriptors of the pages from base to limit. */
    function TablePagesUsed(base: nat, limit: nat): (used: (nat, nat))
      requires Valid() && base < limit <= pages
      ensures used == (first[base], last[limit - 1] + 1)
    {
      PagesUsedMeaning(base, limit);
      (base * descSize / pageSize, (limit * descSize + pageSize - 1) / pageSize)
    }

    lemma UsedBy(base: nat, limit: nat, i: nat)
      requires Valid() && base <= i < limit <= pages
      ensures first[base] <= first[i] <= last[i] <= last[limit - 1]
    {
      assert base < i ==> first[base] <= first[i];
      assert i < limit - 1 ==> last[i] <= last[limit - 1];
    }

    lemma PagesUsedMeaning(base: nat, limit: nat)
      requires Valid() && base < limit <= pages
      ensures base * descSize / pageSize == first[base]
      ensures (limit * descSize + pageSize - 1) / pageSize == last[limit - 1] + 1
    {
      assert Placed(base) && Placed(limit - 1);
      assert (first[base] + 1) * pageSize == first[base] * pageSize + pageSize;
      DivModUnique(base * descSize, pageSize, first[base], base * descSize - first[base] * pageSize);
      var l := last[limit - 1];
      assert (l + 1) * pageSize == l * pageSize + pageSize;
      DivModUnique(limit * descSize + pageSize - 1, pageSize, l + 1, limit * descSize - 1 - l * pageSize);
    }
  }
}
