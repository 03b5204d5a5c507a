/** Bit tables: operations on ranges of bits that act on a word at a time where they can. */
module BitTables {
  import opened Intervals

  const WORD_WIDTH := 32

  /** A word is its bits, the lowest first. */
  type Word = w: seq<bool> | |w| == WORD_WIDTH witness seq(WORD_WIDTH, _ => false)

  type BT = array<Word>

  function And(a: Word, b: Word): Word {
    seq(WORD_WIDTH, i requires 0 <= i < WORD_WIDTH => a[i] && b[i])
  }

  function Or(a: Word, b: Word): Word {
    seq(WORD_WIDTH, i requires 0 <= i < WORD_WIDTH => a[i] || b[i])
  }

  function Not(a: Word): Word {
    seq(WORD_WIDTH, i requires 0 <= i < WORD_WIDTH => !a[i])
  }

  /** Shifting by the width of the word or more is undefined. */
  function Shl(a: Word, n: nat): Word
    requires n < WORD_WIDTH
  {
    seq(WORD_WIDTH, i requires 0 <= i < WORD_WIDTH => n <= i && a[i - n])
  }

  function Shr(a: Word, n: nat): Word
    requires n < WORD_WIDTH
  {
    seq(WORD_WIDTH, i requires 0 <= i < WORD_WIDTH => i + n < WORD_WIDTH && a[i + n])
  }

  function Zero(): Word {
    seq(WORD_WIDTH, _ => false)
  }

  function MaskLow(base: nat): Word
    requires base < WORD_WIDTH
  {
    Shl(Not(Zero()), base)
  }

  function MaskHigh(limit: nat): Word
    requires 0 < limit <= WORD_WIDTH
  {
    Shr(Not(Zero()), WORD_WIDTH - limit)
  }

  function Mask(base: nat, limit: nat): (mask: Word)
    requires base < WORD_WIDTH && 0 < limit <= WORD_WIDTH
    ensures forall i | 0 <= i < WORD_WIDTH :: mask[i] <==> base <= i < limit
  {
    And(MaskHigh(limit), MaskLow(base))
  }

  function WordIndex(i: nat): nat {
    i / WORD_WIDTH
  }

  function BitIndex(i: nat): nat {
    i % WORD_WIDTH
  }

  function IndexAlignUp(i: nat): nat {
    (i + WORD_WIDTH - 1) / WORD_WIDTH * WORD_WIDTH
  }

  function IndexAlignDown(i: nat): nat {
    i / WORD_WIDTH * WORD_WIDTH
  }

  /** A table has room for a range of bits. */
  predicate Holds(t: BT, limit: nat) {
    limit <= t.Length * WORD_WIDTH
  }

  function Get(t: BT, i: nat): bool
    requires Holds(t, i + 1)
    reads t
  {
    t[WordIndex(i)][BitIndex(i)]
  }

  // ---------- Acting on a range ----------

  /** What is done to a range: act on one bit, on part of a word, or on a whole word. */
  datatype Action = Single(i: nat) | Part(word: nat, base: nat, limit: nat) | Whole(word: nat) {
    function Base(): nat {
      match this
      case Single(i) => i
      case Part(word, base, _) => word * WORD_WIDTH + base
      case Whole(word) => word * WORD_WIDTH
    }

    function Limit(): nat {
      match this
      case Single(i) => i + 1
      case Part(word, _, limit) => word * WORD_WIDTH + limit
      case Whole(word) => word * WORD_WIDTH + WORD_WIDTH
    }

    predicate Valid() {
      Part? ==> base < limit <= WORD_WIDTH
    }
  }

  function Singles(base: nat, limit: nat): seq<Action>
    requires base <= limit
    decreases limit - base
  {
    if base == limit then [] else [Single(base)] + Singles(base + 1, limit)
  }

  function Wholes(base: nat, limit: nat): seq<Action>
    requires base <= limit
    decreases limit - base
  {
    if base == limit then [] else [Whole(base)] + Wholes(base + 1, limit)
  }

  /** A small range is acted on bit by bit; another by its whole words, and the parts of words at its ends. */
  function ActOnRange(base: nat, limit: nat): seq<Action>
    requires base <= limit
  {
    if limit <= base + 6 then Singles(base, limit)
    else if limit < IndexAlignUp(base) then [Part(WordIndex(base), BitIndex(base), BitIndex(limit))]
    else
      var innerBase, innerLimit := IndexAlignUp(base), IndexAlignDown(limit);
      var wordBase, wordLimit := WordIndex(innerBase), WordIndex(innerLimit);
      (if base < innerBase then [Part(wordBase - 1, BitIndex(base), WORD_WIDTH)] else [])
      + Wholes(wordBase, wordLimit)
      + (if innerLimit < limit then [Part(wordLimit, 0, BitIndex(limit))] else [])
  }

  /** Actions that act on each bit from base to limit once, in order. */
  predicate Covers(acts: seq<Action>, base: nat, limit: nat) {
    if acts == [] then base == limit
    else acts[0].Valid() && acts[0].Base() == base && base < acts[0].Limit() &&
              Covers(acts[1..], acts[0].Limit(), limit)
  }

  lemma {:induction false} CoversJoin(xs: seq<Action>, ys: seq<Action>, base: nat, mid: nat, limit: nat)
    requires Covers(xs, base, mid) && Covers(ys, mid, limit)
    ensures Covers(xs + ys, base, limit)
  {
    if xs == [] {
      assert xs + ys == ys;
    } else {
      CoversJoin(xs[1..], ys, xs[0].Limit(), mid, limit);
      assert (xs + ys)[1..] == xs[1..] + ys;
    }
  }

  lemma {:induction false} SinglesCover(base: nat, limit: nat)
    requires base <= limit
    ensures Covers(Singles(base, limit), base, limit)
    decreases limit - base
  {
    if base < limit {
      SinglesCover(base + 1, limit);
      assert Singles(base, limit)[1..] == Singles(base + 1, limit);
    }
  }

  lemma {:induction false} WholesCover(base: nat, limit: nat)
    requires base <= limit
    ensures Covers(Wholes(base, limit), base * WORD_WIDTH, limit * WORD_WIDTH)
    decreases limit - base
  {
    if base < limit {
      WholesCover(base + 1, limit);
      assert Wholes(base, limit)[1..] == Wholes(base + 1, limit);
    }
  }

  lemma OneCovers(a: Action, limit: nat)
    requires a.Valid() && a.Limit() == limit
    ensures a.Base() < limit ==> Covers([a], a.Base(), limit)
  {
    assert [a][1..] == [];
  }

  lemma Aligned(i: nat)
    ensures IndexAlignDown(i) == i - BitIndex(i) == WordIndex(i) * WORD_WIDTH
    ensures WordIndex(IndexAlignDown(i)) == WordIndex(i)
    ensures IndexAlignUp(i) == if BitIndex(i) == 0 then i else i - BitIndex(i) + WORD_WIDTH
    ensures WordIndex(IndexAlignUp(i)) == if BitIndex(i) == 0 then WordIndex(i) else WordIndex(i) + 1
    ensures BitIndex(i) < WORD_WIDTH
  {
  }

  /** The actions on a range act on each of its bits once, in order, and on nothing else. */
  lemma RangeIsCovered(base: nat, limit: nat)
    requires base <= limit
    ensures Covers(ActOnRange(base, limit), base, limit)
  {
    Aligned(base);
    Aligned(limit);
    if limit <= base + 6 {
      SinglesCover(base, limit);
    } else if limit < IndexAlignUp(base) {
      assert WordIndex(limit) == WordIndex(base);
      OneCovers(Part(WordIndex(base), BitIndex(base), BitIndex(limit)), limit);
    } else {
      PartsCover(base, limit, WordIndex(IndexAlignUp(base)), WordIndex(limit));
    }
  }

  lemma PartsCover(base: nat, limit: nat, wordBase: nat, wordLimit: nat)
    requires base <= wordBase * WORD_WIDTH < base + WORD_WIDTH
    requires limit - WORD_WIDTH < wordLimit * WORD_WIDTH <= limit && wordBase <= wordLimit
    ensures
      var low := if base < wordBase * WORD_WIDTH then [Part(wordBase - 1, BitIndex(base), WORD_WIDTH)] else [];
      var high := if wordLimit * WORD_WIDTH < limit then [Part(wordLimit, 0, BitIndex(limit))] else [];
      Covers(low + Wholes(wordBase, wordLimit) + high, base, limit)
  {
    var low := if base < wordBase * WORD_WIDTH then [Part(wordBase - 1, BitIndex(base), WORD_WIDTH)] else [];
    var high := if wordLimit * WORD_WIDTH < limit then [Part(wordLimit, 0, BitIndex(limit))] else [];
    if base < wordBase * WORD_WIDTH {
      OneCovers(low[0], wordBase * WORD_WIDTH);
    }
    if wordLimit * WORD_WIDTH < limit {
      OneCovers(high[0], limit);
    }
    WholesCover(wordBase, wordLimit);
    CoversJoin(low, Wholes(wordBase, wordLimit), base, wordBase * WORD_WIDTH, wordLimit * WORD_WIDTH);
    CoversJoin(low + Wholes(wordBase, wordLimit), high, base, wordLimit * WORD_WIDTH, limit);
  }

  // ---------- The same, from the top down ----------

  function SinglesHigh(base: nat, limit: nat): seq<Action>
    requires base <= limit
    decreases limit
  {
    if base == limit then [] else [Single(limit - 1)] + SinglesHigh(base, limit - 1)
  }

  function WholesHigh(base: nat, limit: nat): seq<Action>
    requires base <= limit
    decreases limit
  {
    if base == limit then [] else [Whole(limit - 1)] + WholesHigh(base, limit - 1)
  }

  function ActOnRangeHigh(base: nat, limit: nat): seq<Action>
    requires base <= limit
  {
    if limit <= base + 6 then SinglesHigh(base, limit)
    else if limit < IndexAlignUp(base) then [Part(WordIndex(base), BitIndex(base), BitIndex(limit))]
    else
      var innerBase, innerLimit := IndexAlignUp(base), IndexAlignDown(limit);
      var wordBase, wordLimit := WordIndex(innerBase), WordIndex(innerLimit);
      (if innerLimit < limit then [Part(wordLimit, 0, BitIndex(limit))] else [])
      + WholesHigh(wordBase, wordLimit)
      + (if base < innerBase then [Part(wordBase - 1, BitIndex(base), WORD_WIDTH)] else [])
  }

  function Reverse(acts: seq<Action>): seq<Action> {
    if acts == [] then [] else Reverse(acts[1..]) + [acts[0]]
  }

  lemma {:induction false} ReverseJoin(xs: seq<Action>, ys: seq<Action>)
    ensures Reverse(xs + ys) == Reverse(ys) + Reverse(xs)
  {
    if xs == [] {
      assert xs + ys == ys;
    } else {
      ReverseJoin(xs[1..], ys);
      assert (xs + ys)[1..] == xs[1..] + ys;
    }
  }

  lemma {:induction false} SinglesSplit(base: nat, limit: nat)
    requires base < limit
    ensures Singles(base, limit) == Singles(base, limit - 1) + [Single(limit - 1)]
    decreases limit - base
  {
    if base + 1 < limit {
      SinglesSplit(base + 1, limit);
    }
  }

  lemma {:induction false} WholesSplit(base: nat, limit: nat)
    requires base < limit
    ensures Wholes(base, limit) == Wholes(base, limit - 1) + [Whole(limit - 1)]
    decreases limit - base
  {
    if base + 1 < limit {
      WholesSplit(base + 1, limit);
    }
  }

  lemma {:induction false} SinglesReverse(base: nat, limit: nat)
    requires base <= limit
    ensures SinglesHigh(base, limit) == Reverse(Singles(base, limit))
    decreases limit
  {
    if base < limit {
      SinglesSplit(base, limit);
      SinglesReverse(base, limit - 1);
      ReverseJoin(Singles(base, limit - 1), [Single(limit - 1)]);
      assert Reverse([Single(limit - 1)]) == [Single(limit - 1)];
    }
  }

  lemma {:induction false} WholesReverse(base: nat, limit: nat)
    requires base <= limit
    ensures WholesHigh(base, limit) == Reverse(Wholes(base, limit))
    decreases limit
  {
    if base < limit {
      WholesSplit(base, limit);
      WholesReverse(base, limit - 1);
      ReverseJoin(Wholes(base, limit - 1), [Whole(limit - 1)]);
      assert Reverse([Whole(limit - 1)]) == [Whole(limit - 1)];
    }
  }

  /** Acting from the top down is acting from the bottom up, backwards. */
  lemma HighIsReverse(base: nat, limit: nat)
    requires base <= limit
    ensures ActOnRangeHigh(base, limit) == Reverse(ActOnRange(base, limit))
  {
    Aligned(base);
    Aligned(limit);
    if limit <= base + 6 {
      SinglesReverse(base, limit);
    } else if IndexAlignUp(base) <= limit {
      var innerBase, innerLimit := IndexAlignUp(base), IndexAlignDown(limit);
      var wordBase, wordLimit := WordIndex(innerBase), WordIndex(innerLimit);
      var low := if base < innerBase then [Part(wordBase - 1, BitIndex(base), WORD_WIDTH)] else [];
      var high := if innerLimit < limit then [Part(wordLimit, 0, BitIndex(limit))] else [];
      WholesReverse(wordBase, wordLimit);
      ReverseThree(low, Wholes(wordBase, wordLimit), high);
    }
  }

  lemma ReverseThree(low: seq<Action>, inner: seq<Action>, high: seq<Action>)
    requires |low| <= 1 && |high| <= 1
    ensures Reverse(low + inner + high) == high + Reverse(inner) + low
  {
    ReverseJoin(low + inner, high);
    ReverseJoin(low, inner);
    assert Reverse(low) == low && Reverse(high) == high;
    assert high + Reverse(inner) + low == high + (Reverse(inner) + low);
  }

  predicate CoversHigh(acts: seq<Action>, base: nat, limit: nat) {
    if acts == [] then base == limit
    else acts[0].Valid() && acts[0].Limit() == limit && acts[0].Base() < limit &&
              CoversHigh(acts[1..], base, acts[0].Base())
  }

  lemma {:induction false} CoversHighJoin(xs: seq<Action>, ys: seq<Action>, base: nat, mid: nat, limit: nat)
    requires CoversHigh(xs, mid, limit) && CoversHigh(ys, base, mid)
    ensures CoversHigh(xs + ys, base, limit)
  {
    if xs == [] {
      assert xs + ys == ys;
    } else {
      CoversHighJoin(xs[1..], ys, base, mid, xs[0].Base());
      assert (xs + ys)[1..] == xs[1..] + ys;
    }
  }

  lemma {:induction false} CoversReverse(acts: seq<Action>, base: nat, limit: nat)
    requires Covers(acts, base, limit)
    ensures CoversHigh(Reverse(acts), base, limit)
  {
    if acts != [] {
      CoversReverse(acts[1..], acts[0].Limit(), limit);
      assert [acts[0]][1..] == [];
      CoversHighJoin(Reverse(acts[1..]), [acts[0]], base, acts[0].Limit(), limit);
    }
  }

  lemma RangeIsCoveredHigh(base: nat, limit: nat)
    requires base <= limit
    ensures CoversHigh(ActOnRangeHigh(base, limit), base, limit)
  {
    RangeIsCovered(base, limit);
    HighIsReverse(base, limit);
    CoversReverse(ActOnRange(base, limit), base, limit);
  }

  // ---------- Setting and copying ----------

  /** One step of setting or resetting a range. */
  method FillAction(t: BT, a: Action, value: bool)
    requires a.Valid() && Holds(t, a.Limit())
    modifies t
    ensures forall i | 0 <= i && Holds(t, i + 1) ::
              Get(t, i) == if a.Base() <= i < a.Limit() then value else old(Get(t, i))
  {
    match a
    case Single(i) =>
      var w, one := WordIndex(i), Shl(Mask(0, 1), BitIndex(i));
      t[w] := if value then Or(t[w], one) else And(t[w], Not(one));
    case Part(w, base, limit) =>
      t[w] := if value then Or(t[w], Mask(base, limit)) else And(t[w], Not(Mask(base, limit)));
    case Whole(w) =>
      t[w] := if value then Not(Zero()) else Zero();
  }

  /** The next action of those that cover a range from base on. */
  lemma NextAction(acts: seq<Action>, k: nat, base: nat, limit: nat)
    requires k < |acts| && Covers(acts[k..], base, limit)
    ensures acts[k].Valid() && acts[k].Base() == base < acts[k].Limit() <= limit
    ensures Covers(acts[k + 1..], acts[k].Limit(), limit)
  {
    assert acts[k..][1..] == acts[k + 1..];
    CoversUpTo(acts[k + 1..], acts[k].Limit(), limit);
  }

  lemma {:induction false} CoversUpTo(acts: seq<Action>, base: nat, limit: nat)
    requires Covers(acts, base, limit)
    ensures base <= limit && (acts != [] ==> base < limit)
  {
    if acts != [] {
      CoversUpTo(acts[1..], acts[0].Limit(), limit);
    }
  }

  /** BTSetRange and BTResRange: each bit of the range gets the value, and no other bit changes. */
  method FillRange(t: BT, base: nat, limit: nat, value: bool)
    requires base < limit && Holds(t, limit)
    modifies t
    ensures forall i | 0 <= i && Holds(t, i + 1) ::
              Get(t, i) == if base <= i < limit then value else old(Get(t, i))
  {
    RangeIsCovered(base, limit);
    var acts := ActOnRange(base, limit);
    var k := 0;
    ghost var done := base;
    assert acts[0..] == acts;
    while k < |acts|
      invariant k <= |acts| && base <= done && Covers(acts[k..], done, limit)
      invariant forall i | 0 <= i && Holds(t, i + 1) ::
                  Get(t, i) == if base <= i < done then value else old(Get(t, i))
    {
      NextAction(acts, k, done, limit);
      FillAction(t, acts[k], value);
      done := acts[k].Limit();
      k := k + 1;
    }
  }

  /** One step of copying a range, inverted or not. */
  method CopyAction(from: BT, to: BT, a: Action, invert: bool)
    requires a.Valid() && from != to && Holds(from, a.Limit()) && Holds(to, a.Limit())
    modifies to
    ensures forall i | 0 <= i && Holds(to, i + 1) && a.Base() <= i < a.Limit() :: Get(to, i) == (Get(from, i) != invert)
    ensures forall i | 0 <= i && Holds(to, i + 1) && !(a.Base() <= i < a.Limit()) :: Get(to, i) == old(Get(to, i))
  {
    match a
    case Single(i) =>
      FillAction(to, a, Get(from, i) != invert);
    case Part(w, base, limit) =>
      var mask := Mask(base, limit);
      to[w] := Or(And(to[w], Not(mask)), And(if invert then Not(from[w]) else from[w], mask));
    case Whole(w) =>
      to[w] := if invert then Not(from[w]) else from[w];
  }

  /** BTCopyRange and BTCopyInvertRange. */
  method CopyRange(from: BT, to: BT, base: nat, limit: nat, invert: bool)
    requires base < limit && from != to && Holds(from, limit) && Holds(to, limit)
    modifies to
    ensures forall i | 0 <= i && Holds(to, i + 1) && base <= i < limit :: Get(to, i) == (Get(from, i) != invert)
    ensures forall i | 0 <= i && Holds(to, i + 1) && !(base <= i < limit) :: Get(to, i) == old(Get(to, i))
  {
    RangeIsCovered(base, limit);
    var acts := ActOnRange(base, limit);
    var k := 0;
    ghost var done := base;
    assert acts[0..] == acts;
    while k < |acts|
      invariant k <= |acts| && base <= done <= limit && Covers(acts[k..], done, limit)
      invariant forall i | 0 <= i && Holds(to, i + 1) && base <= i < done :: Get(to, i) == (Get(from, i) != invert)
      invariant forall i | 0 <= i && Holds(to, i + 1) && !(base <= i < done) :: Get(to, i) == old(Get(to, i))
    {
      NextAction(acts, k, done, limit);
      CopyAction(from, to, acts[k], invert);
      done := acts[k].Limit();
      k := k + 1;
    }
  }

  // ---------- Testing and comparing ----------

  /** One step of testing whether a range is all set or all reset. */
  method IsFilledAction(t: BT, a: Action, value: bool) returns (b: bool)
    requires a.Valid() && Holds(t, a.Limit())
    ensures b <==> forall i | a.Base() <= i < a.Limit() :: Get(t, i) == value
  {
    assert forall i | a.Base() <= i < a.Limit() :: t[..][i / WORD_WIDTH][i % WORD_WIDTH] == Get(t, i);
    match a
    case Single(i) =>
      b := Get(t, i) == value;
    case Part(w, base, limit) =>
      var mask := Mask(base, limit);
      b := And(t[w], mask) == if value then mask else Zero();
      PartIsFilled(t[..], w, base, limit, value);
    case Whole(w) =>
      b := t[w] == if value then Not(Zero()) else Zero();
      assert And(t[w], Mask(0, WORD_WIDTH)) == t[w] && Mask(0, WORD_WIDTH) == Not(Zero());
      PartIsFilled(t[..], w, 0, WORD_WIDTH, value);
  }

  lemma PartIsFilled(t: seq<Word>, w: nat, base: nat, limit: nat, value: bool)
    requires w < |t| && base < limit <= WORD_WIDTH
    ensures And(t[w], Mask(base, limit)) == (if value then Mask(base, limit) else Zero()) <==>
            forall i | w * WORD_WIDTH + base <= i < w * WORD_WIDTH + limit :: t[i / WORD_WIDTH][i % WORD_WIDTH] == value
  {
    var mask := Mask(base, limit);
    var masked, wanted := And(t[w], mask), if value then mask else Zero();
    if forall i | w * WORD_WIDTH + base <= i < w * WORD_WIDTH + limit :: t[i / WORD_WIDTH][i % WORD_WIDTH] == value {
      forall j | 0 <= j < WORD_WIDTH ensures masked[j] == wanted[j] {
        var i := w * WORD_WIDTH + j;
        assert i / WORD_WIDTH == w && i % WORD_WIDTH == j;
      }
      assert masked == wanted;
    } else {
      var i :| w * WORD_WIDTH + base <= i < w * WORD_WIDTH + limit && t[i / WORD_WIDTH][i % WORD_WIDTH] != value;
      assert i / WORD_WIDTH == w && masked[i % WORD_WIDTH] != wanted[i % WORD_WIDTH];
    }
  }

  /** BTIsSetRange and BTIsResRange. */
  method IsFilledRange(t: BT, base: nat, limit: nat, value: bool) returns (b: bool)
    requires base < limit && Holds(t, limit)
    ensures b <==> forall i | base <= i < limit :: Get(t, i) == value
  {
    RangeIsCovered(base, limit);
    var acts := ActOnRange(base, limit);
    var k := 0;
    ghost var done := base;
    assert acts[0..] == acts;
    while k < |acts|
      invariant k <= |acts| && base <= done <= limit && Covers(acts[k..], done, limit)
      invariant forall i | base <= i < done :: Get(t, i) == value
    {
      NextAction(acts, k, done, limit);
      var same := IsFilledAction(t, acts[k], value);
      if !same {
        return false;
      }
      done := acts[k].Limit();
      k := k + 1;
    }
    return true;
  }

  method RangesSameAction(s: BT, t: BT, a: Action) returns (b: bool)
    requires a.Valid() && Holds(s, a.Limit()) && Holds(t, a.Limit())
    ensures b <==> forall i | a.Base() <= i < a.Limit() :: Get(s, i) == Get(t, i)
  {
    assert forall i | a.Base() <= i < a.Limit() ::
        s[..][i / WORD_WIDTH][i % WORD_WIDTH] == Get(s, i) && t[..][i / WORD_WIDTH][i % WORD_WIDTH] == Get(t, i);
    match a
    case Single(i) =>
      b := Get(s, i) == Get(t, i);
    case Part(w, base, limit) =>
      var mask := Mask(base, limit);
      b := And(s[w], mask) == And(t[w], mask);
      PartsAreSame(s[..], t[..], w, base, limit);
    case Whole(w) =>
      b := s[w] == t[w];
      assert And(s[w], Mask(0, WORD_WIDTH)) == s[w] && And(t[w], Mask(0, WORD_WIDTH)) == t[w];
      PartsAreSame(s[..], t[..], w, 0, WORD_WIDTH);
  }

  lemma PartsAreSame(s: seq<Word>, t: seq<Word>, w: nat, base: nat, limit: nat)
    requires w < |s| && w < |t| && base < limit <= WORD_WIDTH
    ensures And(s[w], Mask(base, limit)) == And(t[w], Mask(base, limit)) <==>
            forall i | w * WORD_WIDTH + base <= i < w * WORD_WIDTH + limit ::
              s[i / WORD_WIDTH][i % WORD_WIDTH] == t[i / WORD_WIDTH][i % WORD_WIDTH]
  {
    var x, y := And(s[w], Mask(base, limit)), And(t[w], Mask(base, limit));
    if forall i | w * WORD_WIDTH + base <= i < w * WORD_WIDTH + limit ::
        s[i / WORD_WIDTH][i % WORD_WIDTH] == t[i / WORD_WIDTH][i % WORD_WIDTH] {
      forall j | 0 <= j < WORD_WIDTH ensures x[j] == y[j] {
        var i := w * WORD_WIDTH + j;
        assert i / WORD_WIDTH == w && i % WORD_WIDTH == j;
      }
      assert x == y;
    } else {
      var i :| w * WORD_WIDTH + base <= i < w * WORD_WIDTH + limit
               && s[i / WORD_WIDTH][i % WORD_WIDTH] != t[i / WORD_WIDTH][i % WORD_WIDTH];
      assert i / WORD_WIDTH == w && x[i % WORD_WIDTH] != y[i % WORD_WIDTH];
    }
  }

  /** BTRangesSame. */
  method RangesSame(s: BT, t: BT, base: nat, limit: nat) returns (b: bool)
    requires base < limit && Holds(s, limit) && Holds(t, limit)
    ensures b <==> forall i | base <= i < limit :: Get(s, i) == Get(t, i)
  {
    RangeIsCovered(base, limit);
    var acts := ActOnRange(base, limit);
    var k := 0;
    ghost var done := base;
    assert acts[0..] == acts;
    while k < |acts|
      invariant k <= |acts| && base <= done <= limit && Covers(acts[k..], done, limit)
      invariant forall i | base <= i < done :: Get(s, i) == Get(t, i)
    {
      NextAction(acts, k, done, limit);
      var same := RangesSameAction(s, t, acts[k]);
      if !same {
        return false;
      }
      done := acts[k].Limit();
      k := k + 1;
    }
    return true;
  }

  // ---------- Finding a bit ----------

  /** The lowest bit set from base to limit of a word, by binary chop: the low half of what is left is
      looked at, and if no bit is set there the high half is shifted down. */
  method FindSetBit(word: Word, base: nat, limit: nat) returns (found: bool, index: nat)
    requires base < limit <= WORD_WIDTH
    ensures found ==> base <= index < limit && word[index] && forall i | base <= i < index :: !word[i]
    ensures !found ==> forall i | base <= i < limit :: !word[i]
  {
    index := base;
    var actionWord := Shr(And(word, MaskHigh(limit)), index);
    var width := WORD_WIDTH / 2;
    var mask := Shr(Not(Zero()), WORD_WIDTH - width);
    if actionWord == Zero() {
      forall i | base <= i < limit ensures !word[i] {
        assert !actionWord[i - base];
      }
      return false, base;
    }
    ghost var low := LowestSet(word, base, limit);
    while width != 0
      invariant width in {16, 8, 4, 2, 1, 0}
      invariant base <= index <= low < index + (if width == 0 then 1 else 2 * width)
      invariant width != 0 ==> forall i | 0 <= i < WORD_WIDTH :: mask[i] <==> i < width
      invariant forall i | 0 <= i < WORD_WIDTH :: actionWord[i] <==> index + i < limit && word[index + i]
      decreases width
    {
      assert And(actionWord, mask) == Zero() <==> index + width <= low by {
        LowHalf(word, actionWord, mask, index, limit, width, low);
      }
      if And(actionWord, mask) == Zero() {
        index := index + width;
        actionWord := Shr(actionWord, width);
      }
      width := width / 2;
      mask := Shr(mask, width);
    }
    found := true;
  }

  /** The lowest set bit, of which there is one. */
  ghost function LowestSet(word: Word, base: nat, limit: nat): (low: nat)
    requires base < limit <= WORD_WIDTH
    requires exists i :: base <= i < limit && word[i]
    ensures base <= low < limit && word[low] && forall i | base <= i < low :: !word[i]
    decreases limit - base
  {
    if word[base] then base else LowestSet(word, base + 1, limit)
  }

  lemma LowHalf(word: Word, actionWord: Word, mask: Word, index: nat, limit: nat, width: nat, low: nat)
    requires 0 < width < WORD_WIDTH && index <= low < limit <= WORD_WIDTH
    requires word[low] && forall i | index <= i < low :: !word[i]
    requires forall i | 0 <= i < WORD_WIDTH :: mask[i] <==> i < width
    requires forall i | 0 <= i < WORD_WIDTH :: actionWord[i] <==> index + i < limit && word[index + i]
    ensures And(actionWord, mask) == Zero() <==> index + width <= low
  {
    var masked := And(actionWord, mask);
    if index + width <= low {
      assert forall i | 0 <= i < WORD_WIDTH :: masked[i] == Zero()[i];
      assert masked == Zero();
    } else {
      assert masked[low - index];
    }
  }

  /** The highest bit set from base to limit of a word: the mirror image. */
  method FindSetBitHigh(word: Word, base: nat, limit: nat) returns (found: bool, index: nat)
    requires base < limit <= WORD_WIDTH
    ensures found ==> base <= index < limit && word[index] && forall i | index < i < limit :: !word[i]
    ensures !found ==> forall i | base <= i < limit :: !word[i]
  {
    var shift := WORD_WIDTH - limit;
    index := WORD_WIDTH - 1 - shift;
    var actionWord := Shl(And(word, MaskLow(base)), shift);
    var width := WORD_WIDTH / 2;
    var mask := Shl(Not(Zero()), WORD_WIDTH - width);
    if actionWord == Zero() {
      forall i | base <= i < limit ensures !word[i] {
        assert !actionWord[i + shift];
      }
      return false, index;
    }
    ghost var high := HighestSet(word, base, limit);
    while width != 0
      invariant width in {16, 8, 4, 2, 1, 0}
      invariant high <= index < limit && index < high + (if width == 0 then 1 else 2 * width)
      invariant width != 0 ==> forall i | 0 <= i < WORD_WIDTH :: mask[i] <==> WORD_WIDTH - width <= i
      invariant forall i | 0 <= i < WORD_WIDTH ::
                  actionWord[i] <==> base <= i + index - (WORD_WIDTH - 1) && word[i + index - (WORD_WIDTH - 1)]
      decreases width
    {
      assert And(actionWord, mask) == Zero() <==> high + width <= index by {
        HighHalf(word, actionWord, mask, index, base, width, high);
      }
      if And(actionWord, mask) == Zero() {
        index := index - width;
        actionWord := Shl(actionWord, width);
      }
      width := width / 2;
      mask := Shl(mask, width);
    }
    found := true;
  }

  ghost function HighestSet(word: Word, base: nat, limit: nat): (high: nat)
    requires base < limit <= WORD_WIDTH
    requires exists i :: base <= i < limit && word[i]
    ensures base <= high < limit && word[high] && forall i | high < i < limit :: !word[i]
    decreases limit - base
  {
    if word[limit - 1] then limit - 1 else HighestSet(word, base, limit - 1)
  }

  lemma HighHalf(word: Word, actionWord: Word, mask: Word, index: nat, base: nat, width: nat, high: nat)
    requires 0 < width < WORD_WIDTH && base <= high <= index < WORD_WIDTH
    requires word[high] && forall i | high < i <= index :: !word[i]
    requires forall i | 0 <= i < WORD_WIDTH :: mask[i] <==> WORD_WIDTH - width <= i
    requires forall i | 0 <= i < WORD_WIDTH ::
               actionWord[i] <==> base <= i + index - (WORD_WIDTH - 1) && word[i + index - (WORD_WIDTH - 1)]
    ensures And(actionWord, mask) == Zero() <==> high + width <= index
  {
    var masked := And(actionWord, mask);
    if high + width <= index {
      assert forall i | 0 <= i < WORD_WIDTH :: masked[i] == Zero()[i];
      assert masked == Zero();
    } else {
      assert masked[high + (WORD_WIDTH - 1) - index];
    }
  }

  /** No bit from base to limit has the value. */
  ghost predicate NoneIs(t: BT, base: nat, limit: nat, value: bool)
    requires Holds(t, limit)
    reads t
  {
    forall i | base <= i < limit :: Get(t, i) != value
  }

  /** Where the bits of a word are. */
  lemma BitsOfWord(t: BT, w: nat)
    requires w < t.Length
    ensures forall i | w * WORD_WIDTH <= i < w * WORD_WIDTH + WORD_WIDTH :: Get(t, i) == t[w][i - w * WORD_WIDTH]
  {
  }

  /** The lowest bit with a value in part of a word. */
  method FindInWord(t: BT, w: nat, base: nat, limit: nat, value: bool) returns (found: bool, index: nat)
    requires base < limit <= WORD_WIDTH && w < t.Length
    ensures found ==> w * WORD_WIDTH + base <= index < w * WORD_WIDTH + limit && Get(t, index) == value
    ensures NoneIs(t, w * WORD_WIDTH + base, if found then index else w * WORD_WIDTH + limit, value)
  {
    BitsOfWord(t, w);
    found, index := FindSetBit(if value then t[w] else Not(t[w]), base, limit);
    index := w * WORD_WIDTH + index;
  }

  method FindInWordHigh(t: BT, w: nat, base: nat, limit: nat, value: bool) returns (found: bool, index: nat)
    requires base < limit <= WORD_WIDTH && w < t.Length
    ensures found ==> w * WORD_WIDTH + base <= index < w * WORD_WIDTH + limit && Get(t, index) == value
    ensures NoneIs(t, if found then index + 1 else w * WORD_WIDTH + base, w * WORD_WIDTH + limit, value)
  {
    BitsOfWord(t, w);
    found, index := FindSetBitHigh(if value then t[w] else Not(t[w]), base, limit);
    index := w * WORD_WIDTH + index;
  }

  /** One step of finding the lowest bit with a value. */
  method FindAction(t: BT, a: Action, value: bool) returns (found: bool, index: nat, ghost seen: set<nat>)
    requires a.Valid() && Holds(t, a.Limit())
    ensures found ==> a.Base() <= index < a.Limit() && Get(t, index) == value && NoneIs(t, a.Base(), index, value)
    ensures !found ==> NoneIs(t, a.Base(), a.Limit(), value)
    ensures seen == Interval(a.Base(), if found then index + 1 else a.Limit())
  {
    match a {
      case Single(i) =>
        found, index := Get(t, i) == value, i;
      case Part(w, base, limit) =>
        found, index := FindInWord(t, w, base, limit, value);
      case Whole(w) =>
        found, index := FindInWord(t, w, 0, WORD_WIDTH, value);
    }
    seen := Interval(a.Base(), if found then index + 1 else a.Limit());
  }

  /** BTFindSet and BTFindRes: the lowest bit of a range with a value. */
  method Find(t: BT, base: nat, limit: nat, value: bool) returns (found: bool, index: nat, ghost seen: set<nat>)
    requires base <= limit && Holds(t, limit)
    ensures found ==> base <= index < limit && Get(t, index) == value && NoneIs(t, base, index, value)
    ensures !found ==> NoneIs(t, base, limit, value)
    ensures seen == Interval(base, if found then index + 1 else limit)
  {
    RangeIsCovered(base, limit);
    var acts := ActOnRange(base, limit);
    var k := 0;
    seen := {};
    ghost var done := base;
    assert acts[0..] == acts;
    while k < |acts|
      invariant k <= |acts| && base <= done <= limit && Covers(acts[k..], done, limit) && NoneIs(t, base, done, value)
      invariant seen == Interval(base, done)
    {
      NextAction(acts, k, done, limit);
      ghost var more;
      found, index, more := FindAction(t, acts[k], value);
      seen := seen + more;
      if found {
        return;
      }
      done := acts[k].Limit();
      k := k + 1;
    }
    return false, base, seen;
  }

  /** One step of finding the highest bit with a value. */
  method FindActionHigh(t: BT, a: Action, value: bool) returns (found: bool, index: nat, ghost seen: set<nat>)
    requires a.Valid() && Holds(t, a.Limit())
    ensures found ==> a.Base() <= index < a.Limit() && Get(t, index) == value && NoneIs(t, index + 1, a.Limit(), value)
    ensures !found ==> NoneIs(t, a.Base(), a.Limit(), value)
    ensures seen == Interval(if found then index else a.Base(), a.Limit())
  {
    match a {
      case Single(i) =>
        found, index := Get(t, i) == value, i;
      case Part(w, base, limit) =>
        found, index := FindInWordHigh(t, w, base, limit, value);
      case Whole(w) =>
        found, index := FindInWordHigh(t, w, 0, WORD_WIDTH, value);
    }
    seen := Interval(if found then index else a.Base(), a.Limit());
  }

  /** The next action of those that cover a range from the top down to limit. */
  lemma NextActionHigh(acts: seq<Action>, k: nat, base: nat, limit: nat)
    requires k < |acts| && CoversHigh(acts[k..], base, limit)
    ensures acts[k].Valid() && base <= acts[k].Base() < acts[k].Limit() == limit
    ensures CoversHigh(acts[k + 1..], base, acts[k].Base())
  {
    assert acts[k..][1..] == acts[k + 1..];
    CoversDownTo(acts[k + 1..], base, acts[k].Base());
  }

  lemma {:induction false} CoversDownTo(acts: seq<Action>, base: nat, limit: nat)
    requires CoversHigh(acts, base, limit)
    ensures base <= limit && (acts != [] ==> base < limit)
  {
    if acts != [] {
      CoversDownTo(acts[1..], base, acts[0].Base());
    }
  }

  /** BTFindSetHigh and BTFindResHigh: the highest bit of a range with a value. */
  method FindHigh(t: BT, base: nat, limit: nat, value: bool) returns (found: bool, index: nat, ghost seen: set<nat>)
    requires base <= limit && Holds(t, limit)
    ensures found ==> base <= index < limit && Get(t, index) == value && NoneIs(t, index + 1, limit, value)
    ensures !found ==> NoneIs(t, base, limit, value)
    ensures seen == Interval(if found then index else base, limit)
  {
    RangeIsCoveredHigh(base, limit);
    var acts := ActOnRangeHigh(base, limit);
    var k := 0;
    seen := {};
    ghost var done := limit;
    assert acts[0..] == acts;
    while k < |acts|
      invariant k <= |acts| && base <= done <= limit && CoversHigh(acts[k..], base, done) &&
                NoneIs(t, done, limit, value)
      invariant seen == Interval(done, limit)
    {
      NextActionHigh(acts, k, base, done);
      ghost var more;
      found, index, more := FindActionHigh(t, acts[k], value);
      seen := seen + more;
      if found {
        return;
      }
      done := acts[k].Base();
      k := k + 1;
    }
    return false, base, seen;
  }
}
