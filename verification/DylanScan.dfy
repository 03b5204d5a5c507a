/** Scanning Dylan objects: which words are looked at as references, and where scanning an object stops. */
module DylanScans {
  import opened DylanFormat
  import opened DylanObjects
  import opened Intervals

  datatype Res = Done | Failed | NotReached

  /** Only references in a range have changed, none of them in a word that is left alone, and they are still
      references. */
  ghost predicate FixedIn(was: Memory, mem: Memory, lo: nat, hi: nat, keeps: Keeps) {
    && |mem| == |was|
    && forall i | 0 <= i < |mem| ::
         if lo <= i < hi && was[i] % 4 == 0 && !keeps(i) then mem[i] % 4 == 0 else mem[i] == was[i]
  }

  lemma FixedFurther(was: Memory, mem: Memory, mem': Memory, lo: nat, mid: nat, hi: nat, keeps: Keeps)
    requires FixedIn(was, mem, lo, mid, keeps) && FixedIn(mem, mem', mid, hi, keeps) && lo <= mid <= hi
    ensures FixedIn(was, mem', lo, hi, keeps)
  {
  }

  /** Those of some words that are tagged as references. */
  ghost function Tagged(mem: Memory, s: set<nat>): (t: set<nat>)
    ensures forall i :: i in t <==> i in s && i < |mem| && mem[i] % 4 == 0
  {
    set i | i in s && i < |mem| && mem[i] % 4 == 0
  }

  method AnyWord() returns (w: Word) {
    w := *;
  }

  /** The collector's fix of a reference, which may be told to leave it alone, may change it to another
      reference or to null, and may fail.  Some words it always leaves alone.  It says which word it has fixed,
      and whether it failed. */
  method Fix(mem: array<Word>, i: nat, keeps: Keeps) returns (ok: bool, ghost fixed: set<nat>, ghost failed: bool)
    requires i < mem.Length && mem[i] % 4 == 0
    modifies mem
    ensures FixedIn(old(mem[..]), mem[..], i, i + 1, keeps) && fixed == {i} && (ok <==> !failed)
  {
    var interesting: bool := *;
    fixed := {i};
    if !interesting {
      return true, fixed, false;
    }
    var r := AnyWord();
    if r % 4 == 0 && !keeps(i) {
      mem[i] := r;
    }
    ok := *;
    failed := !ok;
  }

  /** Looks at a word, and fixes it if it is tagged as a reference. */
  method ScanWord(mem: array<Word>, i: nat, keeps: Keeps) returns (ok: bool, ghost fixed: set<nat>, ghost failed: bool)
    requires i < mem.Length
    modifies mem
    ensures FixedIn(old(mem[..]), mem[..], i, i + 1, keeps) && fixed == Tagged(old(mem[..]), {i}) && (ok <==> !failed)
  {
    ok, fixed, failed := true, {}, false;
    if mem[i] % 4 == 0 {
      ok, fixed, failed := Fix(mem, i, keeps);
    }
  }

  /** Scans every word of a range. */
  method ScanContig(mem: array<Word>, base: nat, limit: nat, keeps: Keeps)
    returns (ok: bool, ghost fixed: set<nat>, ghost failed: bool)
    requires base <= limit <= mem.Length
    modifies mem
    ensures FixedIn(old(mem[..]), mem[..], base, limit, keeps)
    ensures fixed <= Tagged(old(mem[..]), Interval(base, limit))
    ensures ok ==> fixed == Tagged(old(mem[..]), Interval(base, limit))
    ensures ok <==> !failed
  {
    var p := base;
    fixed, failed := {}, false;
    while p < limit
      invariant base <= p <= limit && fixed == Tagged(old(mem[..]), Interval(base, p)) && !failed
      invariant FixedIn(old(mem[..]), mem[..], base, p, keeps)
    {
      ghost var was, more := mem[..], {};
      ok, more, failed := ScanWord(mem, p, keeps);
      fixed := fixed + more;
      FixedFurther(old(mem[..]), was, mem[..], base, p, p + 1, keeps);
      if !ok {
        FixedFurther(old(mem[..]), mem[..], mem[..], base, p + 1, limit, keeps);
        return;
      }
      p := p + 1;
    }
    ok := true;
  }

  /** The words of a range whose bit in a pattern word is set. */
  ghost function Patterned(pat: nat, p: nat, limit: nat): (s: set<nat>)
    ensures forall i: nat :: i in s <==> p <= i < limit && Bit(pat, i - p)
  {
    set i | i in Interval(p, limit) && Bit(pat, i - p)
  }

  /** Scans by one pattern word, until no more bits of it are set. */
  method ScanPatWord(mem: array<Word>, p: nat, pat: Word, ghost limit: nat, keeps: Keeps)
    returns (ok: bool, ghost fixed: set<nat>, ghost failed: bool)
    requires p < limit <= mem.Length && forall i: nat :: Bit(pat, i) ==> p + i < limit
    modifies mem
    ensures FixedIn(old(mem[..]), mem[..], p, limit, keeps)
    ensures fixed <= Tagged(old(mem[..]), Patterned(pat, p, limit))
    ensures ok ==> fixed == Tagged(old(mem[..]), Patterned(pat, p, limit))
    ensures ok <==> !failed
  {
    var pp, rest: nat := p, pat;
    fixed, failed := {}, false;
    while rest != 0
      invariant p <= pp && rest == Shr(pat, pp - p) && !failed
      invariant fixed == Tagged(old(mem[..]), Patterned(pat, p, pp))
      invariant Patterned(pat, p, pp) <= Patterned(pat, p, limit)
      invariant FixedIn(old(mem[..]), mem[..], p, limit, keeps)
      decreases rest
    {
      ghost var was := mem[..];
      var b := rest % 2;
      ShrShr(pat, pp - p, 1);
      assert Shr(rest, 1) == rest / 2;
      rest := rest / 2;
      pp := pp + 1;
      assert b == 1 <==> Bit(pat, pp - 1 - p);
      if b == 1 {
        ghost var more;
        ok, more, failed := ScanWord(mem, pp - 1, keeps);
        fixed := fixed + more;
        FixedTwice(old(mem[..]), was, mem[..], p, pp - 1, limit, keeps);
        if !ok {
          return;
        }
      }
    }
    NoBitsLeft(pat, pp - p);
    ok := true;
  }

  lemma FixedTwice(was: Memory, mem: Memory, mem': Memory, lo: nat, i: nat, hi: nat, keeps: Keeps)
    requires FixedIn(was, mem, lo, hi, keeps) && FixedIn(mem, mem', i, i + 1, keeps) && lo <= i < hi
    ensures FixedIn(was, mem', lo, hi, keeps)
  {
  }

  /** Fixing references leaves references, so the same words are tagged. */
  lemma TagsStay(was: Memory, mem: Memory, lo: nat, hi: nat, keeps: Keeps, s: set<nat>)
    requires FixedIn(was, mem, lo, hi, keeps)
    ensures Tagged(mem, s) == Tagged(was, s)
  {
  }

  lemma TaggedTwice(mem: Memory, s: set<nat>, t: set<nat>)
    ensures Tagged(mem, s + t) == Tagged(mem, s) + Tagged(mem, t)
  {
  }

  /** The words of a fixed part, from base to limit, whose pattern bits are set. */
  ghost function PatternFields(pats: Memory, base: nat, limit: nat): (s: set<nat>)
    requires limit <= base + |pats| * WORD_WIDTH
    ensures forall i: nat :: i in s <==>
              base <= i < limit && Bit(pats[(i - base) / WORD_WIDTH], (i - base) % WORD_WIDTH)
  {
    set i | i in Interval(base, limit) && Bit(pats[(i - base) / WORD_WIDTH], (i - base) % WORD_WIDTH)
  }

  /** Enough pattern words for the fields from base to limit, and no bit set for any beyond them. */
  ghost predicate PatternsFit(pats: Memory, base: nat, limit: nat) {
    base < limit && |pats| == (limit - base + WORD_WIDTH - 1) / WORD_WIDTH && LeftOverClear(pats, limit - base)
  }

  /** The bits of one pattern word are those of its fields. */
  lemma PatternWord(pats: Memory, base: nat, limit: nat, k: nat)
    requires PatternsFit(pats, base, limit) && k < |pats|
    ensures var p, pat := base + k * WORD_WIDTH, pats[k];
            && p < limit && (forall i: nat :: Bit(pat, i) ==> p + i < limit)
            && forall i: nat :: i in Patterned(pat, p, limit) <==>
                 p <= i < p + WORD_WIDTH && i in PatternFields(pats, base, limit)
  {
    var p, pat := base + k * WORD_WIDTH, pats[k];
    WordIsNarrow(pat);
    NoBitsLeft(pat, WORD_WIDTH);
    forall i: nat | Bit(pat, i) ensures p + i < limit {
      var j := k * WORD_WIDTH + i;
      assert i < WORD_WIDTH && j / WORD_WIDTH == k && j % WORD_WIDTH == i;
    }
    forall i: nat
      ensures i in Patterned(pat, p, limit) <==> p <= i < p + WORD_WIDTH && i in PatternFields(pats, base, limit)
    {
      if p <= i < p + WORD_WIDTH {
        var j := i - p;
        assert i - base == k * WORD_WIDTH + j && (i - base) / WORD_WIDTH == k && (i - base) % WORD_WIDTH == j;
      }
    }
  }

  /** The fields below an address. */
  ghost function FieldsBelow(pats: Memory, base: nat, limit: nat, p: nat): set<nat>
    requires limit <= base + |pats| * WORD_WIDTH
  {
    set i | i in PatternFields(pats, base, limit) && i < p
  }

  lemma FieldsStep(pats: Memory, base: nat, limit: nat, k: nat)
    requires PatternsFit(pats, base, limit) && k < |pats|
    ensures var p := base + k * WORD_WIDTH;
            FieldsBelow(pats, base, limit, p + WORD_WIDTH)
              == FieldsBelow(pats, base, limit, p) + Patterned(pats[k], p, limit)
  {
    PatternWord(pats, base, limit, k);
  }

  /** Scans the words of a fixed part that its patterns say are references: exactly those whose bit is set. */
  method ScanPat(mem: array<Word>, base: nat, limit: nat, pats: nat, nrPats: nat, keeps: Keeps,
      ghost patterns: Memory, ghost fields: set<nat>)
    returns (ok: bool, ghost fixed: set<nat>, ghost failed: bool)
    requires limit <= mem.Length && pats + nrPats <= mem.Length
    requires forall i | pats <= i < pats + nrPats :: keeps(i)
    requires patterns == mem[pats..pats + nrPats] && PatternsFit(patterns, base, limit)
    requires fields == PatternFields(patterns, base, limit)
    modifies mem
    ensures FixedIn(old(mem[..]), mem[..], base, limit, keeps)
    ensures fixed <= Tagged(old(mem[..]), fields) && (ok ==> fixed == Tagged(old(mem[..]), fields))
    ensures ok <==> !failed
  {
    ghost var was := mem[..];
    var p, pc := base, 0;
    fixed, failed := {}, false;
    while p < limit
      invariant !failed
      invariant p == base + pc * WORD_WIDTH && pc <= nrPats && FixedIn(was, mem[..], base, limit, keeps)
      invariant fixed == Tagged(was, FieldsBelow(patterns, base, limit, p))
    {
      ghost var more;
      assert mem[pats + pc] == was[pats + pc] == patterns[pc];
      ok, more, failed := ScanNextPat(was, mem, base, limit, p, mem[pats + pc], pc, keeps, patterns);
      fixed := fixed + more;
      if !ok {
        return;
      }
      pc := pc + 1;
      p := p + WORD_WIDTH;
    }
    assert p < limit + WORD_WIDTH && pc == nrPats;
    assert FieldsBelow(patterns, base, limit, p) == PatternFields(patterns, base, limit);
    ok := true;
  }

  /** Scans the fields of one pattern word. */
  method ScanNextPat(ghost was: Memory, mem: array<Word>, ghost base: nat, ghost limit: nat, p: nat, pat: Word,
      ghost pc: nat, keeps: Keeps, ghost patterns: Memory)
    returns (ok: bool, ghost fixed: set<nat>, ghost failed: bool)
    requires limit <= mem.Length && PatternsFit(patterns, base, limit) && pc < |patterns| && pat == patterns[pc]
    requires p == base + pc * WORD_WIDTH && FixedIn(was, mem[..], base, limit, keeps)
    modifies mem
    ensures FixedIn(was, mem[..], base, limit, keeps)
    ensures Tagged(was, FieldsBelow(patterns, base, limit, p)) + fixed
            <= Tagged(was, FieldsBelow(patterns, base, limit, p + WORD_WIDTH))
            <= Tagged(was, PatternFields(patterns, base, limit))
    ensures ok ==> Tagged(was, FieldsBelow(patterns, base, limit, p)) + fixed
                   == Tagged(was, FieldsBelow(patterns, base, limit, p + WORD_WIDTH))
    ensures ok <==> !failed
  {
    ghost var before := mem[..];
    PatternWord(patterns, base, limit, pc);
    ok, fixed, failed := ScanPatWord(mem, p, pat, limit, keeps);
    FixedWithin(was, before, mem[..], base, p, limit, keeps);
    TagsStay(was, before, base, limit, keeps, Patterned(pat, p, limit));
    FieldsStep(patterns, base, limit, pc);
    TaggedTwice(was, FieldsBelow(patterns, base, limit, p), Patterned(pat, p, limit));
  }

  lemma FixedWithin(was: Memory, mem: Memory, mem': Memory, lo: nat, mid: nat, hi: nat, keeps: Keeps)
    requires FixedIn(was, mem, lo, hi, keeps) && FixedIn(mem, mem', mid, hi, keeps) && lo <= mid <= hi
    ensures FixedIn(was, mem', lo, hi, keeps)
  {
  }

  // ---------- Scanning an object ----------

  /** An object, not a marker, whose wrapper is left alone. */
  ghost predicate IsBody(mem: Memory, o: nat, end: nat, keeps: Keeps) {
    IsObject(mem, o, end) && mem[o] % 4 == 0 && Kept(mem, mem[o] / 4, keeps)
  }

  ghost function LayoutAt(mem: Memory, o: nat): Layout
    requires IsObject(mem, o, |mem|) && mem[o] % 4 == 0
  {
    LayoutOf(mem, mem[o] / 4)
  }

  /** The traceable words of the fixed part of an object. */
  ghost function TraceableFields(mem: Memory, o: nat): set<nat>
    requires IsObject(mem, o, |mem|) && mem[o] % 4 == 0
  {
    var l := LayoutAt(mem, o);
    if l.ff == 0 || l.fl == 0 then {}
    else if l.ff == 1 then Interval(o + 1, o + 1 + l.fl)
    else PatternFields(Patterns(mem, mem[o] / 4, l), o + 1, o + 1 + l.fl)
  }

  /** The traceable words of its variable part. */
  ghost function TraceableElements(mem: Memory, o: nat): set<nat>
    requires IsObject(mem, o, |mem|) && mem[o] % 4 == 0
  {
    var l := LayoutAt(mem, o);
    if l.vf == 2 then Interval(o + 2 + l.fl, o + 2 + l.fl + mem[o + 1 + l.fl] / 4) else {}
  }

  /** The words of an object that can be references: its wrapper and its traceable fields. */
  ghost function Traceable(mem: Memory, o: nat): set<nat>
    requires IsObject(mem, o, |mem|)
  {
    if mem[o] % 4 != 0 then {} else {o} + TraceableFields(mem, o) + TraceableElements(mem, o)
  }

  /** Those that are. */
  ghost function References(mem: Memory, o: nat): set<nat>
    requires IsObject(mem, o, |mem|)
  {
    Tagged(mem, Traceable(mem, o))
  }

  /** Two wrappers that say the same. */
  predicate SameWrapper(mem: Memory, w: nat, mem': Memory, w': nat) {
    && WrapperCheck(mem, w) && WrapperCheck(mem', w')
    && LayoutOf(mem, w) == LayoutOf(mem', w')
    && Patterns(mem, w, LayoutOf(mem, w)) == Patterns(mem', w', LayoutOf(mem', w'))
  }

  lemma SameWrapperTransitive(mem: Memory, w: nat, mem': Memory, w': nat, mem'': Memory)
    requires SameWrapper(mem, w, mem', w') && SameWrapper(mem', w', mem'', w')
    ensures SameWrapper(mem, w, mem'', w')
  {
  }

  lemma WrapperSaysTheSame(mem: Memory, mem': Memory, w: nat, keeps: Keeps)
    requires SameKept(mem, mem', keeps) && WrapperCheck(mem, w) && Kept(mem, w, keeps)
    ensures SameWrapper(mem, w, mem', w) && Kept(mem', w, keeps)
  {
    WrapperStays(mem, mem', w, keeps);
  }

  /** An object that has been scanned: references may have changed, and its wrapper may have moved. */
  ghost predicate Rescanned(was: Memory, mem: Memory, o: nat, limit: nat, keeps: Keeps) {
    && o < limit <= |was| && was[o] % 4 == 0 && mem != [] && |mem| == |was| && mem[o] % 4 == 0
    && SameWrapper(was, was[o] / 4, mem, mem[o] / 4) && Kept(mem, mem[o] / 4, keeps)
    && (forall i | 0 <= i < |mem| && (keeps(i) || !(o <= i < limit)) :: mem[i] == was[i])
    && (forall i | o < i < limit :: if was[i] % 4 == 0 then mem[i] % 4 == 0 else mem[i] == was[i])
  }

  /** It is still an object of the same extent. */
  lemma RescannedIsObject(was: Memory, mem: Memory, o: nat, end: nat, keeps: Keeps)
    requires IsBody(was, o, end, keeps) && Rescanned(was, mem, o, ObjectLimit(was, o), keeps)
    ensures IsBody(mem, o, end, keeps) && ObjectLimit(mem, o) == ObjectLimit(was, o)
    ensures LayoutAt(mem, o) == LayoutAt(was, o)
  {
    var l := LayoutOf(was, was[o] / 4);
    BodyEnds(was, o);
    assert l.vf != 7 ==> mem[o + 1 + l.fl] == was[o + 1 + l.fl];
    SameBody(was, mem, o, end);
  }

  /** Its references are where they were. */
  lemma ReferencesStay(was: Memory, mem: Memory, o: nat, keeps: Keeps)
    requires IsBody(was, o, |was|, keeps) && Rescanned(was, mem, o, ObjectLimit(was, o), keeps)
    requires IsBody(mem, o, |mem|, keeps)
    ensures TraceableFields(mem, o) == TraceableFields(was, o)
    ensures TraceableElements(mem, o) == TraceableElements(was, o)
  {
    VariablePart(was, o, keeps);
    SameFields(was, mem, o);
  }

  /** The references of two objects whose wrappers say the same, and whose variable parts are as long. */
  lemma SameFields(mem: Memory, mem': Memory, o: nat)
    requires IsObject(mem, o, |mem|) && IsObject(mem', o, |mem'|) && mem[o] % 4 == mem'[o] % 4 == 0
    requires SameWrapper(mem, mem[o] / 4, mem', mem'[o] / 4)
    requires var l := LayoutAt(mem, o); l.vf == 2 ==> mem'[o + 1 + l.fl] == mem[o + 1 + l.fl]
    ensures TraceableFields(mem', o) == TraceableFields(mem, o)
    ensures TraceableElements(mem', o) == TraceableElements(mem, o)
  {
  }

  /** Fixing more of its references leaves it so. */
  lemma RescannedFurther(was: Memory, mem: Memory, mem': Memory, o: nat, limit: nat, keeps: Keeps, base: nat,
      end: nat)
    requires Rescanned(was, mem, o, limit, keeps) && FixedIn(mem, mem', base, end, keeps)
    requires o < base && end <= limit
    ensures Rescanned(was, mem', o, limit, keeps)
  {
    assert mem'[o] == mem[o];
    WrapperSaysTheSame(mem, mem', mem[o] / 4, keeps);
    SameWrapperTransitive(was, was[o] / 4, mem, mem[o] / 4, mem');
  }

  lemma MovedIsRescanned(was: Memory, mem: Memory, o: nat, h: Word, limit: nat, keeps: Keeps)
    requires o < limit <= |was| && was[o] % 4 == 0 && mem == was[o := h] && h % 4 == 0
    requires SameWrapper(was, was[o] / 4, mem, h / 4) && Kept(mem, h / 4, keeps) && !keeps(o)
    ensures Rescanned(was, mem, o, limit, keeps)
  {
  }

  lemma UnmovedIsRescanned(was: Memory, o: nat, keeps: Keeps)
    requires IsBody(was, o, |was|, keeps)
    ensures Rescanned(was, was, o, ObjectLimit(was, o), keeps)
  {
  }

  /** The fix of an object's wrapper may move it to somewhere, likewise left alone, that says the same. */
  method FixWrapper(mem: array<Word>, o: nat, keeps: Keeps)
    returns (ok: bool, ghost fixed: set<nat>, ghost failed: bool)
    requires IsBody(mem[..], o, mem.Length, keeps)
    modifies mem
    ensures fixed == {o} && (ok <==> !failed)
    ensures Rescanned(old(mem[..]), mem[..], o, old(ObjectLimit(mem[..], o)), keeps)
  {
    ghost var was, limit := mem[..], ObjectLimit(mem[..], o);
    UnmovedIsRescanned(was, o, keeps);
    var h := AnyWord();
    var moved: Memory := mem[..][o := h];
    if h % 4 == 0 && !keeps(o) && SameWrapper(mem[..], mem[o] / 4, moved, h / 4) && Kept(moved, h / 4, keeps) {
      mem[o] := h;
      assert mem[..] == moved;
      MovedIsRescanned(was, moved, o, h, limit, keeps);
    }
    fixed := {o};
    ok := *;
    failed := !ok;
  }

  /** What scanning a fixed part relies on. */
  ghost predicate FieldsReady(mem: Memory, o: nat, w: nat, fl: nat, ff: nat, keeps: Keeps) {
    && w + WS < |mem| && o + 1 + fl <= |mem| && ff < 3
    && (ff == 2 && 0 < fl ==>
          var t := mem[w + WS] / 4;
          && w + WP + t <= |mem| && (forall i | w + WP <= i < w + WP + t :: keeps(i))
          && PatternsFit(mem[w + WP..w + WP + t], o + 1, o + 1 + fl))
  }

  ghost function FieldsOf(mem: Memory, o: nat, w: nat, fl: nat, ff: nat, keeps: Keeps): set<nat>
    requires FieldsReady(mem, o, w, fl, ff, keeps)
  {
    if ff == 0 || fl == 0 then {}
    else if ff == 1 then Interval(o + 1, o + 1 + fl)
    else PatternFields(mem[w + WP..w + WP + mem[w + WS] / 4], o + 1, o + 1 + fl)
  }

  /** Where the fixed part is. */
  lemma FixedPart(mem: Memory, o: nat, keeps: Keeps)
    requires IsBody(mem, o, |mem|, keeps)
    ensures var w, l := mem[o] / 4, LayoutAt(mem, o);
            && w + WS < |mem| && mem[w + WF] / 4 == l.fl && mem[w + WF] % 4 == l.ff
            && o + 1 + l.fl <= ObjectLimit(mem, o)
            && FieldsReady(mem, o, w, l.fl, l.ff, keeps)
            && TraceableFields(mem, o) == FieldsOf(mem, o, w, l.fl, l.ff, keeps)
  {
    var w, l := mem[o] / 4, LayoutAt(mem, o);
    if l.ff == 2 {
      LastPatternCheckMeans(mem, w, l);
    }
  }

  /** Scans the fixed part. */
  method ScanFixed(mem: array<Word>, o: nat, keeps: Keeps)
    returns (ok: bool, ghost fixed: set<nat>, ghost failed: bool)
    requires IsBody(mem[..], o, mem.Length, keeps)
    modifies mem
    ensures var limit := old(o + 1 + LayoutAt(mem[..], o).fl); FixedIn(old(mem[..]), mem[..], o + 1, limit, keeps)
    ensures fixed <= old(Tagged(mem[..], TraceableFields(mem[..], o)))
    ensures ok ==> fixed == old(Tagged(mem[..], TraceableFields(mem[..], o)))
    ensures ok <==> !failed
  {
    FixedPart(mem[..], o, keeps);
    var w := mem[o] / 4;
    ok, fixed, failed := ScanFields(mem, o, w, mem[w + WF] / 4, mem[w + WF] % 4, keeps, TraceableFields(mem[..], o));
  }

  method ScanPatterned(mem: array<Word>, o: nat, w: nat, fl: nat, keeps: Keeps, ghost fields: set<nat>)
    returns (ok: bool, ghost fixed: set<nat>, ghost failed: bool)
    requires 0 < fl && FieldsReady(mem[..], o, w, fl, 2, keeps) && fields == FieldsOf(mem[..], o, w, fl, 2, keeps)
    modifies mem
    ensures FixedIn(old(mem[..]), mem[..], o + 1, o + 1 + fl, keeps)
    ensures fixed <= Tagged(old(mem[..]), fields) && (ok ==> fixed == Tagged(old(mem[..]), fields))
    ensures ok <==> !failed
  {
    var t := mem[w + WS] / 4;
    ghost var was: Memory := mem[..];
    ghost var patterns: Memory := was[w + WP..w + WP + t];
    assert patterns == mem[w + WP..w + WP + t];
    assert fields == PatternFields(patterns, o + 1, o + 1 + fl);
    ok, fixed, failed := ScanPat(mem, o + 1, o + 1 + fl, w + WP, t, keeps, patterns, fields);
  }

  method ScanFields(mem: array<Word>, o: nat, w: nat, fl: nat, ff: nat, keeps: Keeps, ghost fields: set<nat>)
    returns (ok: bool, ghost fixed: set<nat>, ghost failed: bool)
    requires FieldsReady(mem[..], o, w, fl, ff, keeps) && fields == FieldsOf(mem[..], o, w, fl, ff, keeps)
    modifies mem
    ensures FixedIn(old(mem[..]), mem[..], o + 1, o + 1 + fl, keeps)
    ensures fixed <= Tagged(old(mem[..]), fields) && (ok ==> fixed == Tagged(old(mem[..]), fields))
    ensures ok <==> !failed
  {
    ok, fixed, failed := true, {}, false;
    if 0 < fl {
      var q := o + 1 + fl;
      match ff
      case 0 =>
      case 1 => ok, fixed, failed := ScanContig(mem, o + 1, q, keeps);
      case _ =>
        ok, fixed, failed := ScanPatterned(mem, o, w, fl, keeps, fields);
    }
  }

  /** Formats that scanning asserts it never meets, though skipping handles them. */
  predicate IsStretchy(vf: nat) {
    vf == 1 || vf == 3 || vf == 5
  }

  /** The object has such a format. */
  ghost predicate Stretchy(mem: Memory, o: nat)
    requires IsObject(mem, o, |mem|)
  {
    mem[o] % 4 == 0 && IsStretchy(LayoutAt(mem, o).vf)
  }

  /** Where the variable part is, and what it says its size is. */
  lemma VariablePart(mem: Memory, o: nat, keeps: Keeps)
    requires IsBody(mem, o, |mem|, keeps)
    ensures var w, l := mem[o] / 4, LayoutAt(mem, o);
            && w + WS < |mem| && mem[w + WF] / 4 == l.fl && mem[w + WV] % 8 == l.vf && l.vf != 6
            && mem[w + WV] % 0x100 / 8 == l.es && mem[w + WV] / 0x10000 % 0x100 == l.vb
            && o + 1 + l.fl <= ObjectLimit(mem, o)
            && (l.vf == 7 ==> ObjectLimit(mem, o) == o + 1 + l.fl)
            && (l.vf != 7 ==>
                  && o + 1 + l.fl < |mem| && mem[o + 1 + l.fl] % 4 == 1
                  && ObjectLimit(mem, o) == o + 2 + l.fl + VectorWords(l, mem[o + 1 + l.fl] / 4))
  {
  }

  /** The same, for a variable part that starts at p. */
  lemma VariableReady(mem: Memory, o: nat, p: nat, keeps: Keeps)
    requires IsBody(mem, o, |mem|, keeps) && p == o + 1 + LayoutAt(mem, o).fl
    ensures var (w, l) := (mem[o] / 4, LayoutAt(mem, o));
            && w + WS < |mem| && l == LayoutOf(mem, w) && l.vf != 6
            && if l.vf == 7 then ObjectLimit(mem, o) == p && TraceableElements(mem, o) == {}
               else
                 && p < |mem| && p + 1 + VectorWords(l, mem[p] / 4) <= |mem|
                 && ObjectLimit(mem, o) == p + 1 + VectorWords(l, mem[p] / 4)
                 && TraceableElements(mem, o) == if l.vf == 2 then Interval(p + 1, p + 1 + mem[p] / 4) else {}
  {
    VariablePart(mem, o, keeps);
  }

  /** Scans the variable part, which starts at p, and gives where it ends. */
  method ScanVariable(mem: array<Word>, o: nat, p: nat, keeps: Keeps)
    returns (res: Res, limit: nat, ghost fixed: set<nat>, ghost failed: bool)
    requires IsBody(mem[..], o, mem.Length, keeps) && p == o + 1 + LayoutAt(mem[..], o).fl
    modifies mem
    ensures FixedIn(old(mem[..]), mem[..], o + 1, old(ObjectLimit(mem[..], o)), keeps)
    ensures (res == NotReached <==> old(IsStretchy(LayoutAt(mem[..], o).vf))) && (res == Failed <==> failed)
    ensures fixed <= old(Tagged(mem[..], TraceableElements(mem[..], o)))
    ensures res != Failed ==> limit == old(ObjectLimit(mem[..], o))
    ensures res == Done ==> fixed == old(Tagged(mem[..], TraceableElements(mem[..], o)))
  {
    VariableReady(mem[..], o, p, keeps);
    res, limit, fixed, failed := ScanVector(mem, p, mem[o] / 4, keeps);
  }

  /** The same, by the wrapper at w. */
  method ScanVector(mem: array<Word>, p: nat, w: nat, keeps: Keeps)
    returns (res: Res, limit: nat, ghost fixed: set<nat>, ghost failed: bool)
    requires w + WS < mem.Length
    requires var l := LayoutOf(mem[..], w);
             l.vf != 6 && (l.vf != 7 ==> p < mem.Length && p + 1 + VectorWords(l, mem[p] / 4) <= mem.Length)
    modifies mem
    ensures var l := old(LayoutOf(mem[..], w));
            if l.vf == 7 then res == Done && limit == p && fixed == {} && mem[..] == old(mem[..]) && !failed
            else
              var vt := old(mem[p] / 4);
              && (res == NotReached <==> IsStretchy(l.vf)) && (res == Failed <==> failed) && (failed ==> l.vf == 2)
              && (res != Failed ==> limit == p + 1 + VectorWords(l, vt))
              && FixedIn(old(mem[..]), mem[..], p + 1, p + 1 + VectorWords(l, vt), keeps)
              && fixed <= Tagged(old(mem[..]), if l.vf == 2 then Interval(p + 1, p + 1 + vt) else {})
              && (res == Done ==> fixed == Tagged(old(mem[..]), if l.vf == 2 then Interval(p + 1, p + 1 + vt) else {}))
  {
    var vh := mem[w + WV];
    var vf := vh % 8;
    fixed, failed := {}, false;
    limit := p;
    if vf != 7 {
      var vt := mem[limit] / 4;
      limit := limit + 1;
      match vf
      case 0 =>
        limit := limit + vt;
      case 2 =>
        var ok;
        ok, fixed, failed := ScanContig(mem, limit, limit + vt, keeps);
        if !ok {
          return Failed, limit, fixed, failed;
        }
        limit := limit + vt;
      case 4 =>
        limit := limit + NonwordLength(vt + vh / 0x10000 % 0x100, vh % 0x100 / 8);
      case _ =>
        return NotReached, limit + StretchyWords(vf, vt, vh), fixed, failed;
    }
    return Done, limit, fixed, failed;
  }

  /** What follows the length in a stretchy format: where the scan would end were the assertion not there. */
  function StretchyWords(vf: nat, vt: nat, vh: nat): nat {
    1 + if vf == 5 then NonwordLength(vt + vh / 0x10000 % 0x100, vh % 0x100 / 8) else vt
  }

  /** Scans an object that is not a marker. */
  method ScanBody(mem: array<Word>, o: nat, keeps: Keeps)
    returns (res: Res, limit: nat, ghost fixed: set<nat>, ghost failed: bool)
    requires IsBody(mem[..], o, mem.Length, keeps)
    modifies mem
    ensures Rescanned(old(mem[..]), mem[..], o, old(ObjectLimit(mem[..], o)), keeps)
    ensures res == Failed <==> failed
    ensures !failed ==> (res == NotReached <==> old(IsStretchy(LayoutAt(mem[..], o).vf)))
    ensures fixed <= old(References(mem[..], o))
    ensures res != Failed ==> limit == old(ObjectLimit(mem[..], o))
    ensures res == Done ==> fixed == old(References(mem[..], o))
  {
    ghost var was, end := mem[..], ObjectLimit(mem[..], o);
    ghost var fields, elements := TraceableFields(was, o), TraceableElements(was, o);
    BodyReferences(was, o, fields, elements);
    var ok;
    ok, fixed, failed := FixWrapper(mem, o, keeps);
    RescannedIsObject(was, mem[..], o, mem.Length, keeps);
    ReferencesStay(was, mem[..], o, keeps);
    if !ok {
      return Failed, o, fixed, failed;
    }
    ghost var more;
    ok, more, failed := ScanRescannedFixed(was, mem, o, end, keeps, fields);
    fixed := fixed + more;
    if !ok {
      return Failed, o, fixed, failed;
    }
    RescannedIsObject(was, mem[..], o, mem.Length, keeps);
    ReferencesStay(was, mem[..], o, keeps);
    res, limit, more, failed := ScanRescannedVariable(was, mem, o, end, keeps, elements);
    fixed := fixed + more;
  }

  lemma BodyReferences(mem: Memory, o: nat, fields: set<nat>, elements: set<nat>)
    requires IsObject(mem, o, |mem|) && mem[o] % 4 == 0
    requires fields == TraceableFields(mem, o) && elements == TraceableElements(mem, o)
    ensures References(mem, o) == {o} + Tagged(mem, fields) + Tagged(mem, elements)
  {
    assert Tagged(mem, {o}) == {o};
    TaggedTwice(mem, {o}, fields);
    TaggedTwice(mem, {o} + fields, elements);
  }

  /** The traceable fields and elements of an object are inside it. */
  lemma FieldsAreWithin(mem: Memory, o: nat, keeps: Keeps)
    requires IsBody(mem, o, |mem|, keeps)
    ensures forall i | i in TraceableFields(mem, o) || i in TraceableElements(mem, o) :: o < i < ObjectLimit(mem, o)
  {
    FixedPart(mem, o, keeps);
    VariablePart(mem, o, keeps);
  }

  lemma RescannedTags(was: Memory, mem: Memory, o: nat, limit: nat, keeps: Keeps, s: set<nat>)
    requires Rescanned(was, mem, o, limit, keeps) && forall i | i in s :: o < i < limit
    ensures Tagged(mem, s) == Tagged(was, s)
  {
  }

  method ScanRescannedFixed(ghost was: Memory, mem: array<Word>, o: nat, ghost end: nat, keeps: Keeps,
      ghost fields: set<nat>)
    returns (ok: bool, ghost fixed: set<nat>, ghost failed: bool)
    requires IsBody(mem[..], o, mem.Length, keeps) && ObjectLimit(mem[..], o) == end
    requires Rescanned(was, mem[..], o, end, keeps) && fields == TraceableFields(mem[..], o)
    modifies mem
    ensures Rescanned(was, mem[..], o, end, keeps)
    ensures fixed <= Tagged(was, fields) && (ok ==> fixed == Tagged(was, fields)) && (ok <==> !failed)
  {
    ghost var before := mem[..];
    FixedPart(before, o, keeps);
    FieldsAreWithin(before, o, keeps);
    RescannedTags(was, before, o, end, keeps, fields);
    ok, fixed, failed := ScanFixed(mem, o, keeps);
    RescannedFurther(was, before, mem[..], o, end, keeps, o + 1, o + 1 + LayoutAt(before, o).fl);
  }

  method ScanRescannedVariable(ghost was: Memory, mem: array<Word>, o: nat, ghost end: nat, keeps: Keeps,
      ghost elements: set<nat>)
    returns (res: Res, limit: nat, ghost fixed: set<nat>, ghost failed: bool)
    requires IsBody(mem[..], o, mem.Length, keeps) && ObjectLimit(mem[..], o) == end
    requires Rescanned(was, mem[..], o, end, keeps) && elements == TraceableElements(mem[..], o)
    modifies mem
    ensures Rescanned(was, mem[..], o, end, keeps)
    ensures (res == NotReached <==> old(IsStretchy(LayoutAt(mem[..], o).vf))) && (res == Failed <==> failed)
    ensures fixed <= Tagged(was, elements) && (res == Done ==> fixed == Tagged(was, elements))
    ensures res != Failed ==> limit == end
  {
    ghost var before := mem[..];
    ElementsBefore(was, before, o, end, keeps, elements);
    var w: nat := mem[o] / 4;
    var p := o + 1 + mem[w + WF] / 4;
    assert w == before[o] / 4 && mem[w + WF] == before[w + WF];
    res, limit, fixed, failed := ScanVariable(mem, o, p, keeps);
    RescannedFurther(was, before, mem[..], o, end, keeps, o + 1, end);
  }

  lemma ElementsBefore(was: Memory, mem: Memory, o: nat, end: nat, keeps: Keeps, elements: set<nat>)
    requires IsBody(mem, o, |mem|, keeps) && ObjectLimit(mem, o) == end && Rescanned(was, mem, o, end, keeps)
    requires elements == TraceableElements(mem, o)
    ensures mem[o] / 4 + WF < |mem| && mem[mem[o] / 4 + WF] / 4 == LayoutAt(mem, o).fl
    ensures Tagged(mem, elements) == Tagged(was, elements)
  {
    FieldsAreWithin(mem, o, keeps);
    RescannedTags(was, mem, o, end, keeps, elements);
    VariablePart(mem, o, keeps);
  }

  /** The headers of the fixed and variable parts in the wrapper of an object. */
  function FixedHeader(mem: Memory, o: nat): (fh: Word)
    requires IsObject(mem, o, |mem|) && mem[o] % 4 == 0
    ensures o + fh / 4 < |mem|
  {
    mem[mem[o] / 4 + WF]
  }

  function VariableHeader(mem: Memory, o: nat): Word
    requires IsObject(mem, o, |mem|) && mem[o] % 4 == 0
  {
    mem[mem[o] / 4 + WV]
  }

  /** The bit for a field in the patterns of its wrapper. */
  predicate PatternBit(mem: Memory, o: nat, field: nat)
    requires IsObject(mem, o, |mem|) && mem[o] % 4 == 0
    requires FixedHeader(mem, o) % 4 == 2 && field < FixedHeader(mem, o) / 4
  {
    Bit(mem[mem[o] / 4 + WP + field / WORD_WIDTH], field % WORD_WIDTH)
  }

  /** A field is traceable if the format of the fixed part is 1, or it is 2 and its pattern bit is set. */
  predicate TraceableField(mem: Memory, o: nat, i: nat)
    requires IsObject(mem, o, |mem|) && mem[o] % 4 == 0 && o < i <= o + FixedHeader(mem, o) / 4
  {
    FixedHeader(mem, o) % 4 == 1 || (FixedHeader(mem, o) % 4 == 2 && PatternBit(mem, o, i - o - 1))
  }

  /** An element is traceable if the format of the variable part is 2. */
  predicate TraceableElement(mem: Memory, o: nat, i: nat)
    requires IsObject(mem, o, |mem|) && mem[o] % 4 == 0
  {
    var p := o + 1 + FixedHeader(mem, o) / 4;
    VariableHeader(mem, o) % 8 == 2 && p < |mem| && p < i <= p + mem[p] / 4
  }

  /** Which fields of an object are traceable, by the header of its fixed part: none, all, or those patterned. */
  lemma FieldsMean(mem: Memory, o: nat)
    requires IsObject(mem, o, |mem|) && mem[o] % 4 == 0
    ensures forall i | i in TraceableFields(mem, o) :: o < i <= o + FixedHeader(mem, o) / 4
    ensures forall i | o < i <= o + FixedHeader(mem, o) / 4 ::
              i in TraceableFields(mem, o) <==> TraceableField(mem, o, i)
  {
    forall i | o < i <= o + FixedHeader(mem, o) / 4
      ensures i in TraceableFields(mem, o) <==> TraceableField(mem, o, i)
    {
      FieldMeans(mem, o, i);
    }
  }

  lemma FieldMeans(mem: Memory, o: nat, i: nat)
    requires IsObject(mem, o, |mem|) && mem[o] % 4 == 0 && o < i <= o + FixedHeader(mem, o) / 4
    ensures i in TraceableFields(mem, o) <==> TraceableField(mem, o, i)
  {
    if FixedHeader(mem, o) % 4 == 2 {
      PatternedField(mem, o, i, i - o - 1);
    }
  }

  lemma PatternedField(mem: Memory, o: nat, i: nat, field: nat)
    requires IsObject(mem, o, |mem|) && mem[o] % 4 == 0 && i == o + 1 + field
    requires FixedHeader(mem, o) % 4 == 2 && field < FixedHeader(mem, o) / 4
    ensures i in TraceableFields(mem, o) <==> PatternBit(mem, o, field)
  {
    InPattern(mem, mem[o] / 4, LayoutAt(mem, o), o, i, field);
  }

  lemma InPattern(mem: Memory, w: nat, l: Layout, o: nat, i: nat, field: nat)
    requires w + WP + l.t <= |mem| && l.fl <= l.t * WORD_WIDTH && i == o + 1 + field && field < l.fl
    ensures i in PatternFields(Patterns(mem, w, l), o + 1, o + 1 + l.fl) <==>
            Bit(mem[w + WP + field / WORD_WIDTH], field % WORD_WIDTH)
  {
    assert i - (o + 1) == field && field / WORD_WIDTH < l.t;
  }

  /** Which elements are, by the header of its variable part: all or none. */
  lemma ElementsMean(mem: Memory, o: nat)
    requires IsObject(mem, o, |mem|) && mem[o] % 4 == 0
    ensures forall i | i in TraceableElements(mem, o) :: o + 1 + FixedHeader(mem, o) / 4 < i
    ensures forall i: nat :: i in TraceableElements(mem, o) <==> TraceableElement(mem, o, i)
  {
  }

  /** Of the words tagged as references in an object these are those that its headers say are traceable: its
      wrapper, the fields of a fixed part of format 1 and those patterned in one of format 2, and the elements of a
      variable part of format 2. */
  ghost predicate FixedByHeaders(mem: Memory, o: nat, fixed: set<nat>)
    requires IsObject(mem, o, |mem|) && mem[o] % 4 == 0
  {
    var p := o + 1 + FixedHeader(mem, o) / 4;
    && o in fixed && (forall i | i in fixed :: o <= i < |mem| && mem[i] % 4 == 0)
    && (forall i | o < i < p && mem[i] % 4 == 0 :: i in fixed <==> TraceableField(mem, o, i))
    && forall i | p <= i < |mem| && mem[i] % 4 == 0 :: i in fixed <==> TraceableElement(mem, o, i)
  }

  lemma HeadersMean(mem: Memory, o: nat)
    requires IsObject(mem, o, |mem|) && mem[o] % 4 == 0
    ensures FixedByHeaders(mem, o, References(mem, o))
  {
    FieldsMean(mem, o);
    ElementsMean(mem, o);
    EitherPart(mem, o, o + 1 + FixedHeader(mem, o) / 4);
  }

  /** Below p an object's references are fields, and from there on they are elements. */
  lemma EitherPart(mem: Memory, o: nat, p: nat)
    requires IsObject(mem, o, |mem|) && mem[o] % 4 == 0 && o < p
    requires forall i | i in TraceableFields(mem, o) :: o < i < p
    requires forall i | i in TraceableElements(mem, o) :: p < i
    ensures o in References(mem, o) && forall i | i in References(mem, o) :: o <= i < |mem| && mem[i] % 4 == 0
    ensures forall i | o < i < p && i < |mem| && mem[i] % 4 == 0 ::
              i in References(mem, o) <==> i in TraceableFields(mem, o)
    ensures forall i | p <= i < |mem| && mem[i] % 4 == 0 ::
              i in References(mem, o) <==> i in TraceableElements(mem, o)
  {
  }

  /** Scans an object, and gives the address after it: where skipping it would stop.  Exactly the traceable words
      that are tagged as references are fixed. */
  method Scan1(mem: array<Word>, o: nat, keeps: Keeps)
    returns (res: Res, limit: nat, ghost fixed: set<nat>, ghost failed: bool)
    requires IsObject(mem[..], o, mem.Length)
    requires mem[o] % 4 == 0 ==> Kept(mem[..], mem[o] / 4, keeps)
    modifies mem
    ensures if old(mem[o]) % 4 == 0 then Rescanned(old(mem[..]), mem[..], o, old(ObjectLimit(mem[..], o)), keeps)
            else mem[..] == old(mem[..])
    ensures res == Failed <==> failed
    ensures !failed ==> (res == NotReached <==> old(Stretchy(mem[..], o)))
    ensures fixed <= old(References(mem[..], o))
    ensures res != Failed ==> limit == old(ObjectLimit(mem[..], o))
    ensures res == Done ==> fixed == old(References(mem[..], o))
    ensures old(mem[o]) % 4 == 1 ==> res == Done && limit == o + 1 && fixed == {}
    ensures old(mem[o]) % 4 == 2 ==> res == Done && 4 * limit == old(mem[o + 1]) && fixed == {}
    ensures res == Done && old(mem[o]) % 4 == 0 ==> FixedByHeaders(old(mem[..]), o, fixed)
  {
    var h := mem[o];
    if h % 4 != 0 {
      return Done, if h % 4 == 1 then o + 1 else mem[o + 1] / 4, {}, false;
    }
    HeadersMean(mem[..], o);
    res, limit, fixed, failed := ScanBody(mem, o, keeps);
  }

  /** A wrapper may itself be scanned.  The references in it, by the pattern of the wrapper of wrappers, are its own
      wrapper, its class and perhaps the word after: nothing that says how objects are laid out. */
  lemma WrapperReferences(mem: Memory, w: nat)
    requires WrapperCheck(mem, w) && IsObject(mem, w, |mem|)
    ensures References(mem, w) <= Traceable(mem, w) <= {w, w + WC, w + WC + 1}
  {
    var ww := mem[w] / 4;
    var pats := Patterns(mem, ww, LayoutOf(mem, ww));
    assert pats == [mem[ww + WP]];
    forall i | i in Traceable(mem, w) && i != w ensures i == w + WC || i == w + WC + 1 {
      assert Bit(pats[0], i - (w + 1));
      SmallBits(pats[0], i - (w + 1));
    }
  }

  lemma SmallBits(word: nat, i: nat)
    requires word < 4 && Bit(word, i)
    ensures i < 2
  {
    assert Shr(word, 2) == 0;
    NoBitsLeft(word, 2);
  }

  // ---------- Scanning a region ----------

  /** The references of an object none of whose words change are the same. */
  lemma SameReferences(mem: Memory, mem': Memory, o: nat, keeps: Keeps)
    requires SameKept(mem, mem', keeps) && IsObject(mem, o, |mem|) && IsObject(mem', o, |mem'|)
    requires mem[o] % 4 == 0 ==> Kept(mem, mem[o] / 4, keeps)
    requires forall i | o <= i < ObjectLimit(mem, o) :: mem'[i] == mem[i]
    ensures References(mem', o) == References(mem, o) && (Stretchy(mem', o) <==> Stretchy(mem, o))
  {
    assert mem'[o] == mem[o];
    if mem[o] % 4 == 0 {
      WrapperSaysTheSame(mem, mem', mem[o] / 4, keeps);
      VariablePart(mem, o, keeps);
      FieldsAreWithin(mem, o, keeps);
      SameFields(mem, mem', o);
      TaggedSame(mem, mem', Traceable(mem, o));
    }
  }

  lemma TaggedSame(mem: Memory, mem': Memory, s: set<nat>)
    requires |mem'| == |mem| && forall i | i in s && i < |mem| :: mem'[i] == mem[i]
    ensures Tagged(mem', s) == Tagged(mem, s)
  {
  }

  /** The references of all the objects of a region. */
  ghost function AllReferences(mem: Memory, base: nat, limit: nat, keeps: Keeps): set<nat>
    requires Parsed(mem, base, limit, keeps)
    decreases limit - base
  {
    if base == limit then {} else References(mem, base) + AllReferences(mem, ObjectLimit(mem, base), limit, keeps)
  }

  /** Some object of a region has a stretchy format. */
  ghost predicate AnyStretchy(mem: Memory, base: nat, limit: nat, keeps: Keeps)
    requires Parsed(mem, base, limit, keeps)
    decreases limit - base
  {
    base != limit && (Stretchy(mem, base) || AnyStretchy(mem, ObjectLimit(mem, base), limit, keeps))
  }

  lemma {:induction false} AllReferencesStay(mem: Memory, mem': Memory, base: nat, limit: nat, keeps: Keeps)
    requires SameKept(mem, mem', keeps) && Parsed(mem, base, limit, keeps) && Parsed(mem', base, limit, keeps)
    requires forall i | base <= i < limit :: mem'[i] == mem[i]
    ensures AllReferences(mem', base, limit, keeps) == AllReferences(mem, base, limit, keeps)
    ensures AnyStretchy(mem', base, limit, keeps) <==> AnyStretchy(mem, base, limit, keeps)
    decreases limit - base
  {
    if base != limit {
      NextObject(mem, base, limit, keeps);
      NextObject(mem', base, limit, keeps);
      ObjectStays(mem, mem', base, limit, keeps);
      SameReferences(mem, mem', base, keeps);
      AllReferencesStay(mem, mem', ObjectLimit(mem, base), limit, keeps);
    }
  }

  /** After an object of a region has been scanned the region parses as before, and so does what follows. */
  lemma RegionRescanned(was: Memory, mem: Memory, base: nat, limit: nat, keeps: Keeps, o: nat)
    requires Parsed(was, base, limit, keeps) && o in Objects(was, base, limit, keeps)
    requires o < limit <= |was| && IsObject(was, o, limit) && base <= o && ObjectLimit(was, o) <= limit
    requires Parsed(was, ObjectLimit(was, o), limit, keeps)
    requires was[o] % 4 == 0 ==> Kept(was, was[o] / 4, keeps)
    requires if was[o] % 4 == 0 then Rescanned(was, mem, o, ObjectLimit(was, o), keeps) else mem == was
    ensures Parsed(mem, base, limit, keeps)
    ensures Objects(mem, base, limit, keeps) == Objects(was, base, limit, keeps)
    ensures var next := ObjectLimit(was, o);
            && Parsed(mem, next, limit, keeps) && Objects(mem, next, limit, keeps) == Objects(was, next, limit, keeps)
            && AllReferences(mem, next, limit, keeps) == AllReferences(was, next, limit, keeps)
            && (AnyStretchy(mem, next, limit, keeps) <==> AnyStretchy(was, next, limit, keeps))
  {
    if was[o] % 4 == 0 {
      RescannedIsObject(was, mem, o, limit, keeps);
      ParseWithReplaced(was, mem, base, limit, keeps, o);
      ParseStays(was, mem, ObjectLimit(was, o), limit, keeps);
      AllReferencesStay(was, mem, ObjectLimit(was, o), limit, keeps);
    }
  }

  /** A scan of a region has got as far as the cursor: the region and what is left of it parse. */
  ghost predicate AtObject(mem: Memory, base: nat, limit: nat, keeps: Keeps, cursor: nat,
      objects: seq<nat>, left: seq<nat>) {
    && base <= cursor <= limit
    && Parsed(mem, base, limit, keeps) && Objects(mem, base, limit, keeps) == objects
    && Parsed(mem, cursor, limit, keeps) && Objects(mem, cursor, limit, keeps) == left
  }

  /** What has been fixed and what is left make up all the references; and what is left is stretchy if anything is. */
  ghost predicate LeftToScan(mem: Memory, cursor: nat, limit: nat, keeps: Keeps, done: set<nat>,
      references: set<nat>, stretchy: bool)
    requires Parsed(mem, cursor, limit, keeps)
  {
    && done + AllReferences(mem, cursor, limit, keeps) == references
    && (stretchy <==> AnyStretchy(mem, cursor, limit, keeps))
  }

  /** Scans the objects of a region in turn: however far it gets the region parses as it did, and if all goes
      well it has looked at the references of every object, and ends exactly at the limit. */
  method Scan(mem: array<Word>, base: nat, limit: nat, keeps: Keeps)
    returns (res: Res, ghost fixed: set<nat>, ghost failed: bool)
    requires Parsed(mem[..], base, limit, keeps)
    modifies mem
    ensures Parsed(mem[..], base, limit, keeps)
    ensures Objects(mem[..], base, limit, keeps) == old(Objects(mem[..], base, limit, keeps))
    ensures fixed <= old(AllReferences(mem[..], base, limit, keeps))
    ensures res == Done ==> fixed == old(AllReferences(mem[..], base, limit, keeps))
    ensures res == Failed <==> failed
    ensures !failed ==> (res == NotReached <==> old(AnyStretchy(mem[..], base, limit, keeps)))
  {
    ghost var objects := Objects(mem[..], base, limit, keeps);
    ghost var references := AllReferences(mem[..], base, limit, keeps);
    ghost var stretchy := AnyStretchy(mem[..], base, limit, keeps);
    ghost var k, seen := 0, {};
    fixed, failed := {}, false;
    ParsedBounds(mem[..], base, limit, keeps);
    var cursor := base;
    while cursor < limit
      invariant k <= |objects| && AtObject(mem[..], base, limit, keeps, cursor, objects, objects[k..])
      invariant LeftToScan(mem[..], cursor, limit, keeps, fixed, references, stretchy) && !failed
    {
      res, cursor, seen, failed :=
        ScanNext(mem, base, limit, keeps, cursor, objects, k, fixed, references, stretchy);
      fixed := fixed + seen;
      if res != Done {
        return;
      }
      k := k + 1;
    }
    assert cursor == limit;
    res := Done;
  }

  method ScanNext(mem: array<Word>, base: nat, limit: nat, keeps: Keeps, cursor: nat,
      ghost objects: seq<nat>, ghost k: nat, ghost done: set<nat>, ghost references: set<nat>, ghost stretchy: bool)
    returns (res: Res, next: nat, ghost fixed: set<nat>, ghost failed: bool)
    requires k <= |objects| && cursor < limit && AtObject(mem[..], base, limit, keeps, cursor, objects, objects[k..])
    requires LeftToScan(mem[..], cursor, limit, keeps, done, references, stretchy)
    modifies mem
    ensures Parsed(mem[..], base, limit, keeps) && Objects(mem[..], base, limit, keeps) == objects
    ensures done + fixed <= references
    ensures res == Done ==>
              && k < |objects| && cursor < next
              && AtObject(mem[..], base, limit, keeps, next, objects, objects[k + 1..])
              && LeftToScan(mem[..], next, limit, keeps, done + fixed, references, stretchy)
    ensures (res == Failed <==> failed) && (res == NotReached ==> stretchy)
  {
    ghost var was := mem[..];
    NextObject(was, cursor, limit, keeps);
    assert objects[k..][0] == cursor && cursor in objects && objects[k..][1..] == objects[k + 1..];
    ghost var here, rest := References(was, cursor), AllReferences(was, ObjectLimit(was, cursor), limit, keeps);
    assert references == done + (here + rest);
    res, next, fixed, failed := Scan1(mem, cursor, keeps);
    RegionRescanned(was, mem[..], base, limit, keeps, cursor);
    SetsLeft(done, here, rest, fixed);
  }

  lemma SetsLeft(done: set<nat>, here: set<nat>, rest: set<nat>, fixed: set<nat>)
    requires fixed <= here
    ensures done + fixed <= done + (here + rest)
    ensures fixed == here ==> done + fixed + rest == done + (here + rest)
  {
  }

  /** The first object of a region that is not empty. */
  lemma NextObject(mem: Memory, base: nat, limit: nat, keeps: Keeps)
    requires Parsed(mem, base, limit, keeps) && base < limit
    ensures IsObject(mem, base, limit) && IsObject(mem, base, |mem|) && ObjectLimit(mem, base) <= limit <= |mem|
    ensures mem[base] % 4 == 0 ==> Kept(mem, mem[base] / 4, keeps)
    ensures Parsed(mem, ObjectLimit(mem, base), limit, keeps)
    ensures Objects(mem, base, limit, keeps) == [base] + Objects(mem, ObjectLimit(mem, base), limit, keeps)
  {
    ParsedBounds(mem, base, limit, keeps);
  }
}
