/** The Dylan object format: finding where objects end, scanning their references, and replacing objects in
    place by forwarding markers and padding.

  Memory is a sequence of words, and the address of word i is 4 * i, so that the two low bits of an address
  are free for tags.  The first word of an object points to a wrapper that describes its layout.
*/
module DylanFormat {
  import opened DivMod
  import opened Intervals

  const WORD_WIDTH := 32
  const WORD_SHIFT := 5

  const WC := 1
  const WF := 3
  const WV := 4
  const WS := 5
  const WP := 6

  type Word = w: nat | w < 0x1_0000_0000

  type Memory = seq<Word>

  function Pow2(n: nat): (p: nat)
    ensures 0 < p
  {
    if n == 0 then 1 else 2 * Pow2(n - 1)
  }

  /** Shifting a word down. */
  function Shr(word: nat, n: nat): nat
    decreases n
  {
    if n == 0 then word else Shr(word / 2, n - 1)
  }

  /** Shifting it up, when nothing is lost. */
  function Shl(word: nat, n: nat): (r: nat)
    ensures word <= r
  {
    if n == 0 then word else 2 * Shl(word, n - 1)
  }

  predicate Bit(word: nat, i: nat) {
    Shr(word, i) % 2 == 1
  }

  lemma {:induction false} ShrShr(word: nat, m: nat, n: nat)
    ensures Shr(Shr(word, m), n) == Shr(word, m + n)
    decreases m
  {
    if 0 < m {
      ShrShr(word / 2, m - 1, n);
    }
  }

  lemma {:induction false} ZeroHasNoBits(i: nat)
    ensures Shr(0, i) == 0
  {
    if 0 < i {
      ZeroHasNoBits(i - 1);
    }
  }

  /** A word has no bits from n up exactly if nothing is left when it is shifted down by n. */
  lemma {:induction false} NoBitsLeft(word: nat, n: nat)
    ensures Shr(word, n) == 0 <==> forall i | n <= i :: !Bit(word, i)
  {
    if Shr(word, n) == 0 {
      forall i | n <= i ensures !Bit(word, i) {
        ShrShr(word, n, i - n);
        ZeroHasNoBits(i - n);
      }
    } else {
      var k := SomeBit(Shr(word, n));
      ShrShr(word, n, k);
      assert Bit(word, n + k);
    }
  }

  lemma {:induction false} SomeBit(word: nat) returns (k: nat)
    requires 0 < word
    ensures Bit(word, k)
  {
    if word % 2 == 1 {
      k := 0;
    } else {
      var j := SomeBit(word / 2);
      k := j + 1;
    }
  }

  // ---------- The lengths of vectors of parts of words ----------

  /** The number of words that hold a number of elements of 2 to the power es bits each. */
  function NonwordLength(vt: nat, es: nat): nat {
    if es < WORD_SHIFT then Shr(vt + Shl(1, WORD_SHIFT - es) - 1, WORD_SHIFT - es)
    else Shl(vt, es - WORD_SHIFT)
  }

  lemma {:induction false} ShlIsMul(word: nat, n: nat)
    ensures Shl(word, n) == word * Pow2(n)
  {
    if 0 < n {
      ShlIsMul(word, n - 1);
      MulAssociates(2, word, Pow2(n - 1));
      MulAssociates(word, 2, Pow2(n - 1));
    }
  }

  lemma {:induction false} ShrIsDiv(word: nat, n: nat)
    ensures Shr(word, n) == word / Pow2(n)
    decreases n
  {
    if 0 < n {
      ShrIsDiv(word / 2, n - 1);
      HalfThenDivide(word, Pow2(n - 1));
    }
  }

  lemma HalfThenDivide(word: nat, d: nat)
    requires 0 < d
    ensures word / 2 / d == word / (2 * d)
  {
    var q := word / 2 / d;
    DivBounds(word / 2, d);
    assert (q + 1) * d == q * d + d;
    assert q * (2 * d) == 2 * (q * d);
    DivModUnique(word, 2 * d, q, word - q * (2 * d));
  }

  lemma MulAssociates(a: nat, b: nat, c: nat)
    ensures a * b * c == a * (b * c)
  {
  }

  lemma {:induction false} Pow2Sum(m: nat, n: nat)
    ensures Pow2(m + n) == Pow2(m) * Pow2(n)
    decreases m
  {
    if 0 < m {
      Pow2Sum(m - 1, n);
      MulAssociates(2, Pow2(m - 1), Pow2(n));
    }
  }

  /** It is the least number of words with room for the bits of all the elements. */
  lemma NonwordLengthIsEnough(vt: nat, es: nat, n: nat)
    ensures NonwordLength(vt, es) <= n <==> vt * Pow2(es) <= n * WORD_WIDTH
  {
    assert Pow2(1) == 2 && Pow2(2) == 4 && Pow2(3) == 8 && Pow2(4) == 16 && Pow2(WORD_SHIFT) == WORD_WIDTH;
    if es < WORD_SHIFT {
      Pow2Sum(WORD_SHIFT - es, es);
      ShlIsMul(1, WORD_SHIFT - es);
      ShrIsDiv(vt + Pow2(WORD_SHIFT - es) - 1, WORD_SHIFT - es);
      SmallElements(vt, Pow2(WORD_SHIFT - es), Pow2(es), n);
    } else {
      Pow2Sum(es - WORD_SHIFT, WORD_SHIFT);
      ShlIsMul(vt, es - WORD_SHIFT);
      LargeElements(vt, Pow2(es - WORD_SHIFT), n);
    }
  }

  lemma SmallElements(vt: nat, d: nat, e: nat, n: nat)
    requires 0 < d && 0 < e && d * e == WORD_WIDTH
    ensures (vt + d - 1) / d <= n <==> vt * e <= n * WORD_WIDTH
  {
    CeilAtMost(vt, d, n);
    assert n * (d * e) == n * d * e;
    ScaledOrder(vt, n * d, e);
  }

  lemma LargeElements(vt: nat, d: nat, n: nat)
    ensures vt * d <= n <==> vt * (d * WORD_WIDTH) <= n * WORD_WIDTH
  {
    assert vt * (d * WORD_WIDTH) == vt * d * WORD_WIDTH;
  }

  lemma CeilAtMost(x: nat, d: nat, n: nat)
    requires 0 < d
    ensures (x + d - 1) / d <= n <==> x <= n * d
  {
    var q := (x + d - 1) / d;
    CeilBounds(x, d);
    if q <= n {
      MulMonotone(q, n, d);
    } else {
      MulMonotone(n, q - 1, d);
    }
  }

  lemma ScaledOrder(a: nat, b: nat, e: nat)
    requires 0 < e
    ensures a <= b <==> a * e <= b * e
  {
    if a <= b {
      MulMonotone(a, b, e);
    } else {
      MulMonotone(b + 1, a, e);
    }
  }

  // ---------- Wrappers ----------

  /** What a wrapper says: the length and format of the fixed part; the bias, element size and format of the
      variable part; and the number of pattern words. */
  datatype Layout = Layout(fl: nat, ff: nat, vb: nat, es: nat, vf: nat, t: nat)

  function LayoutOf(mem: Memory, w: nat): Layout
    requires w + WS < |mem|
  {
    var fh, vh := mem[w + WF], mem[w + WV];
    Layout(fh / 4, fh % 4, vh / 0x10000 % 0x100, vh % 0x100 / 8, vh % 8, mem[w + WS] / 4)
  }

  /** The headers of a wrapper: where each field is, whatever the others are. */
  predicate HasHeaders(mem: Memory, w: nat, l: Layout, version: nat) {
    && w + WS < |mem| && l.ff < 4 && l.vb < 0x100 && l.es < 0x20 && l.vf < 8
    && mem[w + WF] == l.fl * 4 + l.ff
    && mem[w + WV] == version * 0x1000000 + l.vb * 0x10000 + l.es * 8 + l.vf
    && mem[w + WS] == l.t * 4 + 1
  }

  /** Reading the headers gives back the fields they were made from. */
  lemma HeadersGiveLayout(mem: Memory, w: nat, l: Layout, version: nat)
    requires HasHeaders(mem, w, l, version)
    ensures LayoutOf(mem, w) == l
  {
    var vh := mem[w + WV];
    assert vh / 0x10000 == version * 0x100 + l.vb && vh % 0x100 == l.es * 8 + l.vf && vh % 8 == l.vf;
  }

  /** The wrapper of wrappers always has the same contents. */
  predicate WrapperWrapperCheck(mem: Memory, ww: nat) {
    && ww + WP < |mem| && mem[ww] == 4 * ww
    && mem[ww + WC] != 0 && mem[ww + WC] % 4 == 0
    && mem[ww + WF] == (WS - 1) * 4 + 2
    && mem[ww + WV] % 0x1000000 == 0 && mem[ww + WV] / 0x1000000 % 0x100 == 2
    && mem[ww + WS] == 5
    && (mem[ww + WP] == 1 || mem[ww + WP] == 3)
  }

  predicate WrapperCheck(mem: Memory, w: nat) {
    && 0 < w && w + WS < |mem|
    && mem[w] != 0 && mem[w] % 4 == 0 && WrapperWrapperCheck(mem, mem[w] / 4)
    && mem[w + WC] != 0 && mem[w + WC] % 4 == 0
    && mem[w + WV] / 0x1000000 % 0x100 == 2 && mem[w + WV] / 0x100 % 0x100 == 0
    && mem[w + WS] % 4 == 1
    && var l := LayoutOf(mem, w);
       && l.ff != 3 && l.vf != 6
       && (l.vf == 4 || l.vf == 5 || l.es == 0)
       && (l.ff == 2 || l.t == 0)
       && (l.ff == 2 ==> l.t == (l.fl + WORD_WIDTH - 1) / WORD_WIDTH)
       && w + WP + l.t <= |mem|
       && (l.ff == 2 ==> LastPatternCheck(mem, w, l))
  }

  /** The check on the last pattern word. */
  predicate LastPatternCheck(mem: Memory, w: nat, l: Layout)
    requires w + WS + l.t < |mem|
  {
    Shr(mem[w + WS + l.t], l.fl % WORD_WIDTH) == 0
  }

  /** What it is meant to check: that the bits left over in the last pattern are zero. */
  ghost predicate LeftOverClear(pats: Memory, fl: nat) {
    forall i | fl <= i < |pats| * WORD_WIDTH :: !Bit(pats[i / WORD_WIDTH], i % WORD_WIDTH)
  }

  /** The pattern words of a wrapper. */
  function Patterns(mem: Memory, w: nat, l: Layout): Memory
    requires w + WP + l.t <= |mem|
  {
    mem[w + WP..w + WP + l.t]
  }

  lemma {:induction false} WordsAreNarrow(word: nat, n: nat)
    requires word < Pow2(n)
    ensures Shr(word, n) == 0
  {
    if 0 < n {
      WordsAreNarrow(word / 2, n - 1);
    }
  }

  lemma WordIsNarrow(word: Word)
    ensures Shr(word, WORD_WIDTH) == 0
  {
    assert Pow2(4) == 16 && Pow2(8) == 256 && Pow2(12) == 0x1000 && Pow2(16) == 0x10000;
    assert Pow2(20) == 0x100000 && Pow2(24) == 0x1000000 && Pow2(28) == 0x10000000 && Pow2(32) == 0x1_0000_0000;
    WordsAreNarrow(word, WORD_WIDTH);
  }

  /** The check means what it should exactly when the last pattern word is not full.  When it is full there is
      nothing left over, but the check demands that the whole word be zero. */
  lemma LastPatternCheckMeans(mem: Memory, w: nat, l: Layout)
    requires w + WP + l.t <= |mem| && l.t == (l.fl + WORD_WIDTH - 1) / WORD_WIDTH
    ensures LastPatternCheck(mem, w, l) <==>
            if l.fl % WORD_WIDTH == 0 then mem[w + WS + l.t] == 0 else LeftOverClear(Patterns(mem, w, l), l.fl)
    ensures l.fl % WORD_WIDTH == 0 ==> LeftOverClear(Patterns(mem, w, l), l.fl)
  {
    if l.fl % WORD_WIDTH != 0 {
      assert Patterns(mem, w, l)[l.t - 1] == mem[w + WS + l.t];
      LastPatternClear(Patterns(mem, w, l), l.fl);
    }
  }

  lemma LastPatternClear(pats: Memory, fl: nat)
    requires fl % WORD_WIDTH != 0 && |pats| == (fl + WORD_WIDTH - 1) / WORD_WIDTH
    ensures Shr(pats[|pats| - 1], fl % WORD_WIDTH) == 0 <==> LeftOverClear(pats, fl)
  {
    var last, r := pats[|pats| - 1], fl % WORD_WIDTH;
    WordIsNarrow(last);
    NoBitsLeft(last, WORD_WIDTH);
    NoBitsLeft(last, r);
    assert fl == (|pats| - 1) * WORD_WIDTH + r;
    if LeftOverClear(pats, fl) {
      forall i: nat | r <= i < WORD_WIDTH ensures !Bit(last, i) {
        var j := (|pats| - 1) * WORD_WIDTH + i;
        assert j / WORD_WIDTH == |pats| - 1 && j % WORD_WIDTH == i && !Bit(pats[j / WORD_WIDTH], j % WORD_WIDTH);
      }
    }
    if forall i | r <= i :: !Bit(last, i) {
      forall i | fl <= i < |pats| * WORD_WIDTH ensures !Bit(pats[i / WORD_WIDTH], i % WORD_WIDTH) {
        assert i / WORD_WIDTH == |pats| - 1;
      }
    }
  }

  /** So a wrapper with 32 fields of which the first is traceable is rejected, though no bit is left over;
      and so is every wrapper with a patterned fixed part of no fields. */
  lemma FullPatternIsRejected(mem: Memory, w: nat)
    requires w + WP + 1 <= |mem| && mem[w + WF] == 32 * 4 + 2 && mem[w + WS] == 1 * 4 + 1 && mem[w + WP] == 1
    ensures LeftOverClear(mem[w + WP..w + WP + 1], 32) && !WrapperCheck(mem, w)
  {
    assert LayoutOf(mem, w).fl == 32 && LayoutOf(mem, w).t == 1;
  }

  lemma EmptyPatternIsRejected(mem: Memory, w: nat)
    requires w + WS < |mem| && LayoutOf(mem, w).ff == 2 && LayoutOf(mem, w).fl == 0
    ensures !WrapperCheck(mem, w)
  {
    assert Shr(mem[w + WS], 0) == mem[w + WS];
  }
}
