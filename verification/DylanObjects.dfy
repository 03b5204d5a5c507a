/** Dylan objects in a region of memory: skipping, forwarding, padding and scanning. */
module DylanObjects {
  import opened DylanFormat
  import opened Intervals

  /** Addresses are words, so there are no more words than this. */
  const MAX_WORDS := 0x4000_0000

  // ---------- Where objects end ----------

  /** The words of the variable part after its length: a stretchy vector has one for its current length. */
  function VectorWords(l: Layout, vt: nat): nat {
    (if l.vf % 2 == 1 then 1 else 0) + (if l.vf == 4 || l.vf == 5 then NonwordLength(vt + l.vb, l.es) else vt)
  }

  function BodyLimit(mem: Memory, o: nat, l: Layout): nat
    requires l.vf != 7 ==> o + 1 + l.fl < |mem|
  {
    o + 1 + l.fl + (if l.vf == 7 then 0 else 1 + VectorWords(l, mem[o + 1 + l.fl] / 4))
  }

  /** There is an object, or a marker in place of one, from o up to no further than end. */
  predicate IsObject(mem: Memory, o: nat, end: nat) {
    && o < end <= |mem|
    && var h := mem[o];
       if h % 4 == 1 then true
       else if h % 4 == 2 then o + 1 < end && mem[o + 1] % 4 == 0 && o + 2 <= mem[o + 1] / 4 <= end
       else
         && h % 4 == 0 && WrapperCheck(mem, h / 4)
         && var l := LayoutOf(mem, h / 4);
            if l.vf == 7 then o + 1 + l.fl <= end
            else o + 1 + l.fl < end && mem[o + 1 + l.fl] % 4 == 1 && BodyLimit(mem, o, l) <= end
  }

  function ObjectLimit(mem: Memory, o: nat): (limit: nat)
    requires IsObject(mem, o, |mem|)
    ensures o < limit <= |mem|
  {
    var h := mem[o];
    if h % 4 == 1 then o + 1
    else if h % 4 == 2 then mem[o + 1] / 4
    else BodyLimit(mem, o, LayoutOf(mem, h / 4))
  }

  /** What the wrapper of an object says, and where the object ends. */
  lemma BodyEnds(mem: Memory, o: nat)
    requires IsObject(mem, o, |mem|) && mem[o] % 4 == 0
    ensures var w := mem[o] / 4;
            && w + WS < |mem|
            && var (l, p) := (LayoutOf(mem, w), o + 1 + LayoutOf(mem, w).fl);
               && l.ff != 3 && l.vf != 6 && p <= ObjectLimit(mem, o)
               && (l.vf == 7 ==> ObjectLimit(mem, o) == p)
               && (l.vf != 7 ==>
                     && p < |mem| && mem[p] % 4 == 1
                     && ObjectLimit(mem, o) == p + 1 + VectorWords(l, mem[p] / 4))
  {
  }

  /** Where an object ends whose variable part, if it has one, starts at p: there, if it has none; else after the
      length, a word more if it is stretchy, and either its elements or the least number of words that have room
      for all of them and the bias, each of two to the power es bits. */
  ghost predicate EndsWell(l: Layout, p: nat, vt: nat, limit: nat) {
    && (l.vf == 7 ==> limit == p)
    && (l.vf == 0 || l.vf == 2 ==> limit == p + 1 + vt)
    && (l.vf == 1 || l.vf == 3 ==> limit == p + 1 + 1 + vt)
    && (l.vf == 4 ==> forall n: nat :: Room(limit, p + 1, n) <==> (vt + l.vb) * Pow2(l.es) <= n * WORD_WIDTH)
    && (l.vf == 5 ==> forall n: nat :: Room(limit, p + 2, n) <==> (vt + l.vb) * Pow2(l.es) <= n * WORD_WIDTH)
  }

  predicate Room(limit: nat, base: nat, n: nat) {
    limit <= base + n
  }

  lemma VectorEnds(l: Layout, p: nat, vt: nat)
    requires l.vf < 6
    ensures EndsWell(l, p, vt, p + 1 + VectorWords(l, vt))
  {
    forall n: nat ensures NonwordLength(vt + l.vb, l.es) <= n <==> (vt + l.vb) * Pow2(l.es) <= n * WORD_WIDTH {
      NonwordLengthIsEnough(vt + l.vb, l.es, n);
    }
  }

  /** So it is with the object, by the fields that the headers of its wrapper were made from. */
  lemma ObjectEnds(mem: Memory, o: nat, l: Layout, version: nat, vt: nat)
    requires IsObject(mem, o, |mem|) && mem[o] % 4 == 0 && HasHeaders(mem, mem[o] / 4, l, version)
    requires l.vf != 7 ==> o + 1 + l.fl < |mem| && mem[o + 1 + l.fl] == vt * 4 + 1
    ensures EndsWell(l, o + 1 + l.fl, vt, ObjectLimit(mem, o))
  {
    HeadersGiveLayout(mem, mem[o] / 4, l, version);
    BodyEnds(mem, o);
    if l.vf < 6 {
      VectorEnds(l, o + 1 + l.fl, vt);
    }
  }

  method Skip(mem: array<Word>, o: nat) returns (limit: nat)
    requires IsObject(mem[..], o, mem.Length)
    ensures limit == ObjectLimit(mem[..], o)
    ensures mem[o] % 4 == 1 ==> limit == o + 1
    ensures mem[o] % 4 == 2 ==> 4 * limit == mem[o + 1]
  {
    var h := mem[o];
    if h % 4 != 0 {
      if h % 4 == 1 {
        return o + 1;
      }
      return mem[o + 1] / 4;
    }
    BodyEnds(mem[..], o);
    limit := SkipBody(mem, o, h / 4);
  }

  /** Skips an object whose wrapper is at w. */
  method SkipBody(mem: array<Word>, o: nat, w: nat) returns (p: nat)
    requires w + WS < mem.Length
    requires var l := LayoutOf(mem[..], w); l.vf != 7 ==> o + 1 + l.fl < mem.Length
    ensures var l := LayoutOf(mem[..], w);
            p == o + 1 + l.fl + if l.vf == 7 then 0 else 1 + VectorWords(l, mem[o + 1 + l.fl] / 4)
  {
    p := o + 1;
    p := p + mem[w + WF] / 4;
    var vh := mem[w + WV];
    var vf := vh % 8;
    if vf != 7 {
      var vt := mem[p] / 4;
      p := p + 1;
      p := p + vf % 2;
      if vf == 4 || vf == 5 {
        var es := vh % 0x100 / 8;
        var vb := vh / 0x10000 % 0x100;
        p := p + NonwordLength(vt + vb, es);
      } else {
        p := p + vt;
      }
    }
  }

  // ---------- Regions ----------

  /** Words that are left alone, whatever else is done to a region. */
  type Keeps = nat -> bool

  /** All the words of a wrapper and of its wrapper are left alone. */
  predicate Kept(mem: Memory, w: nat, keeps: Keeps)
    requires WrapperCheck(mem, w)
  {
    var ww := mem[w] / 4;
    && (forall i | w <= i < w + WP + LayoutOf(mem, w).t :: keeps(i))
    && (forall i | ww <= i <= ww + WP :: keeps(i))
  }

  /** The words of a region are objects one after another, whose wrappers, wherever they are, are left alone. */
  predicate Parsed(mem: Memory, base: nat, limit: nat, keeps: Keeps)
    decreases limit - base
  {
    base == limit ||
    (IsObject(mem, base, limit) && (mem[base] % 4 == 0 ==> Kept(mem, mem[base] / 4, keeps))
     && Parsed(mem, ObjectLimit(mem, base), limit, keeps))
  }

  /** The addresses of the objects of a region. */
  function Objects(mem: Memory, base: nat, limit: nat, keeps: Keeps): seq<nat>
    requires Parsed(mem, base, limit, keeps)
    decreases limit - base
  {
    if base == limit then [] else [base] + Objects(mem, ObjectLimit(mem, base), limit, keeps)
  }

  /** Two memories that agree outside a region. */
  ghost predicate SameOutside(mem: Memory, mem': Memory, lo: nat, hi: nat) {
    |mem| == |mem'| && forall i | 0 <= i < |mem| && !(lo <= i < hi) :: mem[i] == mem'[i]
  }

  /** Two memories that agree on the words that are left alone. */
  ghost predicate SameKept(mem: Memory, mem': Memory, keeps: Keeps) {
    |mem| == |mem'| && forall i | 0 <= i < |mem| && keeps(i) :: mem[i] == mem'[i]
  }

  /** What is outside a region is left alone by changes inside it. */
  function Outside(lo: nat, hi: nat): Keeps {
    i => !(lo <= i < hi)
  }

  lemma WrapperStays(mem: Memory, mem': Memory, w: nat, keeps: Keeps)
    requires SameKept(mem, mem', keeps) && WrapperCheck(mem, w) && Kept(mem, w, keeps)
    ensures WrapperCheck(mem', w) && LayoutOf(mem', w) == LayoutOf(mem, w) && Kept(mem', w, keeps)
  {
    var ww := mem[w] / 4;
    var t := LayoutOf(mem, w).t;
    assert forall i | w <= i < w + WP + t || ww <= i <= ww + WP :: mem'[i] == mem[i];
    assert mem'[w + WS + t] == mem[w + WS + t];
  }

  /** An object none of whose words change is still an object of the same size. */
  lemma ObjectStays(mem: Memory, mem': Memory, o: nat, end: nat, keeps: Keeps)
    requires SameKept(mem, mem', keeps) && IsObject(mem, o, end)
    requires mem[o] % 4 == 0 ==> Kept(mem, mem[o] / 4, keeps)
    requires forall i | o <= i < ObjectLimit(mem, o) :: mem'[i] == mem[i]
    ensures IsObject(mem', o, end) && ObjectLimit(mem', o) == ObjectLimit(mem, o)
    ensures mem'[o] % 4 == 0 ==> Kept(mem', mem'[o] / 4, keeps)
  {
    assert mem'[o] == mem[o];
    if mem[o] % 4 == 0 {
      WrapperStays(mem, mem', mem[o] / 4, keeps);
      BodyEnds(mem, o);
      SameBody(mem, mem', o, end);
    }
  }

  /** An object's extent depends on what its wrapper says and, if it has one, on the length of its variable part. */
  lemma SameBody(mem: Memory, mem': Memory, o: nat, end: nat)
    requires IsObject(mem, o, end) && |mem'| == |mem| && mem[o] % 4 == mem'[o] % 4 == 0
    requires WrapperCheck(mem', mem'[o] / 4) && LayoutOf(mem', mem'[o] / 4) == LayoutOf(mem, mem[o] / 4)
    requires var l := LayoutOf(mem, mem[o] / 4); l.vf != 7 ==> mem'[o + 1 + l.fl] == mem[o + 1 + l.fl]
    ensures IsObject(mem', o, end) && ObjectLimit(mem', o) == ObjectLimit(mem, o)
  {
  }

  /** A part of a region that does not change still parses the same. */
  lemma {:induction false} ParseStays(mem: Memory, mem': Memory, base: nat, limit: nat, keeps: Keeps)
    requires SameKept(mem, mem', keeps) && Parsed(mem, base, limit, keeps)
    requires forall i | base <= i < limit :: mem'[i] == mem[i]
    ensures Parsed(mem', base, limit, keeps) && Objects(mem', base, limit, keeps) == Objects(mem, base, limit, keeps)
    decreases limit - base
  {
    if base != limit {
      ParsedBounds(mem, base, limit, keeps);
      ObjectStays(mem, mem', base, limit, keeps);
      ParseStays(mem, mem', ObjectLimit(mem, base), limit, keeps);
    }
  }

  lemma {:induction false} ParsedBounds(mem: Memory, base: nat, limit: nat, keeps: Keeps)
    requires Parsed(mem, base, limit, keeps)
    ensures base <= limit && (base < limit ==> limit <= |mem| && ObjectLimit(mem, base) <= limit)
    decreases limit - base
  {
    if base != limit {
      ParsedBounds(mem, ObjectLimit(mem, base), limit, keeps);
    }
  }

  lemma {:induction false} ObjectsAreWithin(mem: Memory, base: nat, limit: nat, keeps: Keeps)
    requires Parsed(mem, base, limit, keeps)
    ensures forall o | o in Objects(mem, base, limit, keeps) :: base <= o < limit
    decreases limit - base
  {
    if base != limit {
      ObjectsAreWithin(mem, ObjectLimit(mem, base), limit, keeps);
      ParsedBounds(mem, base, limit, keeps);
    }
  }

  /** Replacing one object by another of the same extent leaves the region walkable, object by object. */
  lemma {:induction false} ParseWithReplaced(mem: Memory, mem': Memory, base: nat, limit: nat, keeps: Keeps, o: nat)
    requires Parsed(mem, base, limit, keeps) && o in Objects(mem, base, limit, keeps)
    requires IsObject(mem, o, limit) && SameOutside(mem, mem', o, ObjectLimit(mem, o)) && SameKept(mem, mem', keeps)
    requires IsObject(mem', o, limit) && ObjectLimit(mem', o) == ObjectLimit(mem, o)
    requires mem'[o] % 4 == 0 ==> Kept(mem', mem'[o] / 4, keeps)
    ensures Parsed(mem', base, limit, keeps) && Objects(mem', base, limit, keeps) == Objects(mem, base, limit, keeps)
    decreases limit - base
  {
    ParsedBounds(mem, base, limit, keeps);
    var next := ObjectLimit(mem, base);
    ObjectsAreWithin(mem, next, limit, keeps);
    if o == base {
      ParseStays(mem, mem', next, limit, keeps);
    } else {
      assert o in Objects(mem, next, limit, keeps);
      ObjectStays(mem, mem', base, limit, keeps);
      ParseWithReplaced(mem, mem', next, limit, keeps, o);
    }
  }

  lemma {:induction false} ObjectsAreObjects(mem: Memory, base: nat, limit: nat, keeps: Keeps, o: nat)
    requires Parsed(mem, base, limit, keeps) && o in Objects(mem, base, limit, keeps)
    ensures IsObject(mem, o, limit) && IsObject(mem, o, |mem|) && ObjectLimit(mem, o) <= limit
    ensures base <= o && (mem[o] % 4 == 0 ==> Kept(mem, mem[o] / 4, keeps))
    decreases limit - base
  {
    ParsedBounds(mem, base, limit, keeps);
    if o != base {
      ObjectsAreObjects(mem, ObjectLimit(mem, base), limit, keeps, o);
    }
  }

  // ---------- Forwarding and padding ----------

  /** The new address of a forwarded object; null, which is zero, otherwise and for padding. */
  function IsFwd(mem: Memory, o: nat): nat
    requires o < |mem|
  {
    if mem[o] % 4 != 0 then mem[o] - mem[o] % 4 else 0
  }

  /** A marker of one word, or of more with the address of its limit. */
  lemma MarkerIsObject(mem: Memory, o: nat, limit: nat)
    requires o < limit <= |mem|
    requires if limit == o + 1 then mem[o] % 4 == 1 else mem[o] % 4 == 2 && mem[o + 1] == 4 * limit
    ensures IsObject(mem, o, limit) && ObjectLimit(mem, o) == limit
  {
  }

  /** Writes a marker: an address tagged 1, or one tagged 2 and a limit. */
  method WriteMarker(mem: array<Word>, o: nat, limit: nat, newAddr: nat)
    requires o < limit <= mem.Length < MAX_WORDS && newAddr % 4 == 0 && newAddr + 3 < 0x1_0000_0000
    modifies mem
    ensures SameOutside(old(mem[..]), mem[..], o, limit)
    ensures IsObject(mem[..], o, limit) && ObjectLimit(mem[..], o) == limit
    ensures IsFwd(mem[..], o) == newAddr && mem[o] % 4 != 0
    ensures if limit == o + 1 then mem[o] == newAddr + 1 else mem[o] == newAddr + 2 && mem[o + 1] == 4 * limit
  {
    if limit == o + 1 {
      mem[o] := newAddr + 1;
    } else {
      mem[o] := newAddr + 2;
      mem[o + 1] := 4 * limit;
    }
    MarkerIsObject(mem[..], o, limit);
  }

  /** Replaces an object by a marker with its new address. */
  method Fwd(mem: array<Word>, o: nat, newAddr: nat)
    requires IsObject(mem[..], o, mem.Length) && IsFwd(mem[..], o) == 0 && mem[o] % 4 == 0
    requires newAddr % 4 == 0 && newAddr + 3 < 0x1_0000_0000 && mem.Length < MAX_WORDS
    modifies mem
    ensures var limit := old(ObjectLimit(mem[..], o));
            && SameOutside(old(mem[..]), mem[..], o, limit)
            && IsObject(mem[..], o, limit) && ObjectLimit(mem[..], o) == limit
    ensures IsFwd(mem[..], o) == newAddr && mem[o] % 4 != 0
    ensures var limit := old(ObjectLimit(mem[..], o));
            if limit == o + 1 then mem[o] == newAddr + 1 else mem[o] == newAddr + 2 && mem[o + 1] == 4 * limit
  {
    var limit := Skip(mem, o);
    WriteMarker(mem, o, limit, newAddr);
  }

  /** Fills a gap with padding, which is a forwarding marker without a new address. */
  method Pad(mem: array<Word>, o: nat, size: nat)
    requires 0 < size && o + size <= mem.Length < MAX_WORDS
    modifies mem
    ensures SameOutside(old(mem[..]), mem[..], o, o + size)
    ensures IsObject(mem[..], o, o + size) && ObjectLimit(mem[..], o) == o + size
    ensures IsFwd(mem[..], o) == 0 && mem[o] % 4 != 0
    ensures if size == 1 then mem[o] == 1 else mem[o] == 2 && mem[o + 1] == 4 * (o + size)
  {
    WriteMarker(mem, o, o + size, 0);
  }

  /** Objects do not overlap. */
  lemma {:induction false} ObjectsAreApart(mem: Memory, base: nat, limit: nat, keeps: Keeps, o: nat, x: nat)
    requires Parsed(mem, base, limit, keeps) && o in Objects(mem, base, limit, keeps)
    requires x in Objects(mem, base, limit, keeps) && x != o
    ensures IsObject(mem, o, |mem|) && (x < o || ObjectLimit(mem, o) <= x < limit <= |mem|)
    decreases limit - base
  {
    ParsedBounds(mem, base, limit, keeps);
    var next := ObjectLimit(mem, base);
    ObjectsAreWithin(mem, next, limit, keeps);
    if o == base {
      assert x in Objects(mem, next, limit, keeps);
    } else if x == base {
      ObjectsAreObjects(mem, base, limit, keeps, o);
    } else {
      ObjectsAreApart(mem, next, limit, keeps, o, x);
    }
  }

  /** The region parses, and its objects are these. */
  ghost predicate HasObjects(mem: Memory, base: nat, limit: nat, objects: seq<nat>) {
    Parsed(mem, base, limit, Outside(base, limit)) && Objects(mem, base, limit, Outside(base, limit)) == objects
    && forall o | o in objects :: o < |mem|
  }

  /** Forwards an object of a region: the region still parses, with the same objects to the same limit. */
  method FwdInRegion(mem: array<Word>, base: nat, limit: nat, o: nat, newAddr: nat, ghost objects: seq<nat>)
    requires HasObjects(mem[..], base, limit, objects) && o in objects && mem[o] % 4 == 0
    requires newAddr % 4 == 0 && newAddr + 3 < 0x1_0000_0000 && mem.Length < MAX_WORDS
    modifies mem
    ensures HasObjects(mem[..], base, limit, objects)
    ensures IsFwd(mem[..], o) == newAddr && mem[o] % 4 != 0
    ensures forall x | x in objects && x != o :: mem[x] == old(mem[x])
  {
    ghost var was := mem[..];
    ObjectsAreObjects(was, base, limit, Outside(base, limit), o);
    Fwd(mem, o, newAddr);
    ParseWithReplaced(was, mem[..], base, limit, Outside(base, limit), o);
    forall x | x in objects && x != o ensures mem[x] == was[x] {
      ObjectsAreApart(was, base, limit, Outside(base, limit), o, x);
    }
  }

  /** Forwards any of the objects of a region: it can still be walked to the same limit, and each object
      forwarded gives its new address. */
  method FwdSome(mem: array<Word>, base: nat, limit: nat, moved: seq<(nat, nat)>, ghost objects: seq<nat>)
    requires HasObjects(mem[..], base, limit, objects) && mem.Length < MAX_WORDS
    requires forall i | 0 <= i < |moved| :: moved[i].0 in objects && mem[moved[i].0] % 4 == 0
    requires forall i, j | 0 <= i < j < |moved| :: moved[i].0 != moved[j].0
    requires forall i | 0 <= i < |moved| :: moved[i].1 % 4 == 0 && moved[i].1 + 3 < 0x1_0000_0000
    modifies mem
    ensures HasObjects(mem[..], base, limit, objects)
    ensures forall i | 0 <= i < |moved| :: IsFwd(mem[..], moved[i].0) == moved[i].1
  {
    var k := 0;
    while k < |moved|
      invariant k <= |moved| && HasObjects(mem[..], base, limit, objects)
      invariant forall i | 0 <= i < k :: IsFwd(mem[..], moved[i].0) == moved[i].1
      invariant forall i | k <= i < |moved| :: mem[moved[i].0] % 4 == 0
    {
      FwdInRegion(mem, base, limit, moved[k].0, moved[k].1, objects);
      k := k + 1;
    }
  }

  /** Two parts of a region that parse make one that does. */
  lemma {:induction false} ParseJoin(mem: Memory, base: nat, mid: nat, limit: nat, keeps: Keeps)
    requires Parsed(mem, base, mid, keeps) && Parsed(mem, mid, limit, keeps) && mid < limit
    ensures Parsed(mem, base, limit, keeps)
    ensures Objects(mem, base, limit, keeps) == Objects(mem, base, mid, keeps) + Objects(mem, mid, limit, keeps)
    decreases mid - base
  {
    ParsedBounds(mem, mid, limit, keeps);
    ParsedBounds(mem, base, mid, keeps);
    if base != mid {
      var next := ObjectLimit(mem, base);
      ObjectInLonger(mem, base, mid, limit);
      ParseJoin(mem, next, mid, limit, keeps);
      assert [base] + (Objects(mem, next, mid, keeps) + Objects(mem, mid, limit, keeps))
          == [base] + Objects(mem, next, mid, keeps) + Objects(mem, mid, limit, keeps);
    }
  }

  lemma ObjectInLonger(mem: Memory, o: nat, end: nat, longer: nat)
    requires IsObject(mem, o, end) && end <= longer <= |mem|
    ensures IsObject(mem, o, longer)
  {
  }

  /** Pads a gap in a region: the whole can be walked, with the padding as one more object. */
  method PadGap(mem: array<Word>, base: nat, gap: nat, gapLimit: nat, limit: nat)
    requires gap < gapLimit <= limit <= mem.Length < MAX_WORDS && base <= gap
    requires Parsed(mem[..], base, gap, Outside(base, limit)) && Parsed(mem[..], gapLimit, limit, Outside(base, limit))
    modifies mem
    ensures Parsed(mem[..], base, limit, Outside(base, limit))
    ensures Objects(mem[..], base, limit, Outside(base, limit))
              == old(Objects(mem[..], base, gap, Outside(base, limit))) + [gap]
                 + old(Objects(mem[..], gapLimit, limit, Outside(base, limit)))
  {
    ghost var was := mem[..];
    Pad(mem, gap, gapLimit - gap);
    ParsedBounds(was, base, gap, Outside(base, limit));
    ParsedBounds(was, gapLimit, limit, Outside(base, limit));
    ParseStays(was, mem[..], base, gap, Outside(base, limit));
    ParseStays(was, mem[..], gapLimit, limit, Outside(base, limit));
    PaddedParse(mem[..], base, gap, gapLimit, limit);
  }

  lemma PaddedParse(mem: Memory, base: nat, gap: nat, gapLimit: nat, limit: nat)
    requires gap < gapLimit <= limit <= |mem| && IsObject(mem, gap, gapLimit) && ObjectLimit(mem, gap) == gapLimit
    requires mem[gap] % 4 != 0
    requires Parsed(mem, base, gap, Outside(base, limit)) && Parsed(mem, gapLimit, limit, Outside(base, limit))
    ensures Parsed(mem, base, limit, Outside(base, limit))
    ensures Objects(mem, base, limit, Outside(base, limit))
              == Objects(mem, base, gap, Outside(base, limit)) + [gap]
                 + Objects(mem, gapLimit, limit, Outside(base, limit))
  {
    ObjectInLonger(mem, gap, gapLimit, limit);
    assert Parsed(mem, gap, limit, Outside(base, limit));
    ParseJoin(mem, base, gap, limit, Outside(base, limit));
  }
}
