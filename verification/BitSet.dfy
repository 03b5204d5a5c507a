/** Bit tables held as the sets of their set bits, and their searches, which are those of the tables. */
module BitSets {
  import opened BitTables
  import opened BitSearches

  /** The bits from start on, as many as length, are reset. */
  ghost predicate ResFrom(bits: set<nat>, start: nat, length: nat) {
    forall i | start <= i < start + length :: i !in bits
  }

  /** A table of the bits below a limit. */
  method TableOf(bits: set<nat>, limit: nat) returns (t: BT)
    ensures Holds(t, limit)
    ensures forall i | 0 <= i < limit :: Bits(t)[i] <==> i in bits
  {
    t := new Word[limit / WORD_WIDTH + 1](k requires 0 <= k =>
      seq(WORD_WIDTH, j requires 0 <= j < WORD_WIDTH => k * WORD_WIDTH + j in bits));
    assert forall i | 0 <= i < limit :: i / WORD_WIDTH * WORD_WIDTH + i % WORD_WIDTH == i;
  }

  lemma SameRuns(bits: set<nat>, table: seq<bool>, limit: nat)
    requires limit <= |table| && forall i | 0 <= i < limit :: table[i] <==> i in bits
    ensures forall s: nat, n: nat | s + n <= limit :: RunFrom(table, s, n) <==> ResFrom(bits, s, n)
  {
  }

  /** The lowest run, or the highest, of a length. */
  method FindShortResRange(bits: set<nat>, searchBase: nat, searchLimit: nat, length: nat, high: bool)
    returns (found: bool, start: nat)
    requires 0 < length <= searchLimit - searchBase
    ensures found ==> searchBase <= start && start + length <= searchLimit && ResFrom(bits, start, length)
    ensures found ==> forall s | searchBase <= s && s + length <= searchLimit && ResFrom(bits, s, length) ::
              if high then s <= start else start <= s
    ensures !found ==> forall s | searchBase <= s && s + length <= searchLimit :: !ResFrom(bits, s, length)
  {
    var t := TableOf(bits, searchLimit);
    SameRuns(bits, Bits(t), searchLimit);
    var limit;
    if high {
      found, start, limit := BitSearches.FindShortResRangeHigh(t, searchBase, searchLimit, length);
      assert forall s | searchBase <= s && s + length <= searchLimit ::
          RunFrom(Bits(t), s, length) <==> RunTo(Bits(t), s + length, length);
    } else {
      found, start, limit := BitSearches.FindShortResRange(t, searchBase, searchLimit, length);
    }
  }

  /** The lowest run of at least a length, as far as it goes. */
  method FindLongResRange(bits: set<nat>, searchBase: nat, searchLimit: nat, length: nat)
    returns (found: bool, base: nat, limit: nat)
    requires 0 < length <= searchLimit - searchBase
    ensures found ==> searchBase <= base && base + length <= limit <= searchLimit
    ensures found ==> ResFrom(bits, base, limit - base) && (limit == searchLimit || limit in bits)
    ensures found ==> forall s | searchBase <= s < base :: !ResFrom(bits, s, length)
    ensures !found ==> forall s | searchBase <= s && s + length <= searchLimit :: !ResFrom(bits, s, length)
  {
    var t := TableOf(bits, searchLimit);
    SameRuns(bits, Bits(t), searchLimit);
    found, base, limit := BitSearches.FindLongResRange(t, searchBase, searchLimit, length);
    assert found ==> RunFrom(Bits(t), base, limit - base);
  }
}
