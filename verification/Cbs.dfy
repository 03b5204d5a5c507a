/** The coalescing block structure: free memory kept as isolated ranges in three places.

  A range normally has a block in an address-ordered tree.  When a block cannot be allocated the
  range goes on one of two "emergency" lists, whose nodes are stored in the free memory itself:
  a two-word node (next, limit) at the base of an emergency block, a one-word node (next) at the
  base of an emergency grain.  Addresses are counted in words of the size of a pointer.
*/
module CoalescingBlocks {
  import opened DivMod
  import opened Ranges
  import opened RangeLists
  import opened EmergencyLists

  datatype Res = ResOK | ResFAIL | ResMEMORY

  datatype FindDelete = FindDeleteNONE | FindDeleteLOW | FindDeleteHIGH | FindDeleteENTIRE

  datatype Place = InTree | InBlocks | InGrains

  class CBSBlock {
    var base: nat
    var limit: nat

    constructor (base: nat, limit: nat)
      ensures this.base == base && this.limit == limit
    {
      this.base := base;
      this.limit := limit;
    }

    function Size(): int
      reads this
    {
      limit - base
    }

    function Span(): Range
      reads this
    {
      Range(base, limit)
    }
  }

  class CBS {
    const alignment: nat
    const mayUseInline: bool
    const memory: array<nat>
    var minSize: nat
    /** The blocks of the splay tree, which orders them by address. */
    var splayTree: set<CBSBlock>
    const emergencyBlocks: EmergencyList
    const emergencyGrains: EmergencyList
    /** The blocks the client has been told of by new and not yet by delete, with the last size. */
    ghost var announced: map<CBSBlock, int>

    constructor (memory: array<nat>, minSize: nat, alignment: nat, mayUseInline: bool)
      requires 0 < alignment
      ensures Valid() && All() == {} && splayTree == {} && announced == map[]
      ensures this.memory == memory && this.minSize == minSize
      ensures this.alignment == alignment && this.mayUseInline == mayUseInline
    {
      this.memory, this.minSize, this.alignment, this.mayUseInline := memory, minSize, alignment, mayUseInline;
      splayTree, announced := {}, map[];
      emergencyBlocks := new EmergencyList(Kind.Blocks, memory);
      emergencyGrains := new EmergencyList(Kind.Grains(alignment), memory);
    }

    // ---------- The tree ----------

    ghost predicate TreeValid()
      reads this`splayTree, splayTree
    {
      && (forall b | b in splayTree :: b.base < b.limit)
      && (forall b, c | b in splayTree && c in splayTree && b != c :: b.Span().Apart(c.Span()))
    }

    ghost function Tree(): set<Range>
      reads this`splayTree, splayTree
    {
      set b | b in splayTree :: b.Span()
    }

    /** The ledger is right about every block, taking the size of `except` to be `size`. */
    ghost predicate LedgerWith(except: CBSBlock?, size: int)
      reads this, splayTree
    {
      && announced.Keys <= splayTree
      && forall b | b in splayTree ::
           var s := if b == except then size else b.Size();
           (b in announced <==> s >= minSize) && (b in announced ==> announced[b] == s)
    }

    /** The client knows exactly the tree blocks of at least the minimum size, at their true sizes. */
    ghost predicate LedgerValid()
      reads this, splayTree
    {
      LedgerWith(null, 0)
    }

    method CallNew(block: CBSBlock, newSize: int)
      requires block !in announced
      modifies this`announced
      ensures announced == old(announced)[block := newSize]
    {
      announced := announced[block := newSize];
    }

    method CallDelete(block: CBSBlock, oldSize: int)
      requires block in announced && announced[block] == oldSize
      modifies this`announced
      ensures announced == old(announced) - {block}
    {
      announced := announced - {block};
    }

    method CallGrow(block: CBSBlock, oldSize: int, newSize: int)
      requires block in announced && announced[block] == oldSize < newSize
      modifies this`announced
      ensures announced == old(announced)[block := newSize]
    {
      announced := announced[block := newSize];
    }

    method CallShrink(block: CBSBlock, oldSize: int, newSize: int)
      requires block in announced && announced[block] == oldSize > newSize
      modifies this`announced
      ensures announced == old(announced)[block := newSize]
    {
      announced := announced[block := newSize];
    }

    method BlockGrow(block: CBSBlock, oldSize: int)
      requires block in splayTree && LedgerWith(block, oldSize) && oldSize < block.Size()
      modifies this`announced
      ensures LedgerValid()
    {
      var newSize := block.Size();
      if oldSize < minSize && newSize >= minSize {
        CallNew(block, newSize);
      } else if oldSize >= minSize {
        CallGrow(block, oldSize, newSize);
      }
    }

    method BlockShrink(block: CBSBlock, oldSize: int)
      requires block in splayTree && LedgerWith(block, oldSize) && oldSize > block.Size()
      modifies this`announced
      ensures LedgerValid()
    {
      var newSize := block.Size();
      if oldSize >= minSize && newSize < minSize {
        CallDelete(block, oldSize);
      } else if newSize >= minSize {
        CallShrink(block, oldSize, newSize);
      }
    }

    method BlockDelete(block: CBSBlock)
      requires TreeValid() && LedgerValid() && block in splayTree
      modifies this`splayTree, this`announced, block
      ensures TreeValid() && LedgerValid()
      ensures splayTree == old(splayTree) - {block}
      ensures Tree() == old(Tree()) - {old(block.Span())} && block.limit == block.base == old(block.base)
    {
      var oldSize := block.Size();
      splayTree := splayTree - {block};
      block.limit := block.base;
      if oldSize >= minSize {
        CallDelete(block, oldSize);
      }
      assert forall b | b in splayTree :: b.Span() == old(b.Span()) && b.Span() != old(block.Span());
    }

    /** Allocating a block can fail at any time. */
    method PoolAlloc() returns (ok: bool, ghost refused: bool)
      ensures ok <==> !refused
    {
      ok := *;
      refused := !ok;
    }

    method BlockNew(base: nat, limit: nat) returns (res: Res, ghost refused: bool)
      requires TreeValid() && LedgerValid() && base < limit
      requires forall b | b in splayTree :: b.Span().Apart(Range(base, limit))
      modifies this`splayTree, this`announced
      ensures TreeValid() && LedgerValid()
      ensures res == if refused then ResMEMORY else ResOK
      ensures res == ResMEMORY ==> splayTree == old(splayTree) && announced == old(announced)
      ensures res == ResOK ==> Tree() == old(Tree()) + {Range(base, limit)}
      ensures splayTree >= old(splayTree) && forall b | b in splayTree :: b in old(splayTree) || fresh(b)
    {
      var ok;
      ok, refused := PoolAlloc();
      if !ok {
        return ResMEMORY, refused;
      }
      var block := new CBSBlock(base, limit);
      var newSize := block.Size();
      splayTree := splayTree + {block};
      assert block.Span() == Range(base, limit);
      if newSize >= minSize {
        CallNew(block, newSize);
      }
      res := ResOK;
    }

    method TreeSearch(key: nat) returns (block: CBSBlock?)
      requires TreeValid()
      ensures block != null ==> block in splayTree && block.Span().Contains(key)
      ensures block == null ==> forall b | b in splayTree :: !b.Span().Contains(key)
    {
      block := null;
      var rest := splayTree;
      while rest != {}
        invariant rest <= splayTree
        invariant forall b | b in splayTree - rest :: !b.Span().Contains(key)
      {
        var b :| b in rest;
        if b.base <= key < b.limit {
          return b;
        }
        rest := rest - {b};
      }
    }

    /** The blocks next below and next above a key that is in no block. */
    method TreeNeighbours(key: nat) returns (res: Res, left: CBSBlock?, right: CBSBlock?)
      requires TreeValid()
      ensures res == ResOK || res == ResFAIL
      ensures res == ResFAIL <==> exists b :: b in splayTree && b.Span().Contains(key)
      ensures left != null ==> left in splayTree && left.limit <= key
      ensures right != null ==> right in splayTree && key < right.base
      ensures res == ResOK ==> forall b | b in splayTree ::
                (b.limit <= key && left != null && b.limit <= left.limit <= key)
                || (key < b.base && right != null && key < right.base <= b.base)
    {
      left, right := null, null;
      var rest := splayTree;
      while rest != {}
        invariant rest <= splayTree
        invariant left != null ==> left in splayTree && left.limit <= key
        invariant right != null ==> right in splayTree && key < right.base
        invariant forall b | b in splayTree - rest ::
                    (b.limit <= key && left != null && b.limit <= left.limit)
                    || (key < b.base && right != null && right.base <= b.base)
      {
        var b :| b in rest;
        if b.limit <= key {
          if left == null || left.limit < b.limit { left := b; }
        } else if key < b.base {
          if right == null || b.base < right.base { right := b; }
        } else {
          return ResFAIL, left, right;
        }
        rest := rest - {b};
      }
      res := ResOK;
    }

    /** What the tree holds next to r, given r's neighbours. */
    lemma TreeNeighbourhood(r: Range, left: CBSBlock?, right: CBSBlock?)
      requires TreeValid() && r.base < r.limit
      requires left != null ==> left in splayTree && left.limit <= r.base
      requires right != null ==> right in splayTree && r.limit <= right.base
      requires forall b | b in splayTree ::
                 (b.limit <= r.base && left != null && b.limit <= left.limit <= r.base)
                 || (r.base < b.base && right != null && right.base <= b.base)
      ensures !Meets(Tree(), r)
      ensures HasLeft(Tree(), r) <==> left != null && left.limit == r.base
      ensures HasRight(Tree(), r) <==> right != null && right.base == r.limit
      ensures HasLeft(Tree(), r) ==> Merged(Tree(), r).base == left.base
      ensures HasRight(Tree(), r) ==> Merged(Tree(), r).limit == right.limit
      ensures Touching(Tree(), r) ==
              (if left != null && left.limit == r.base then {left.Span()} else {}) +
              (if right != null && right.base == r.limit then {right.Span()} else {})
      ensures forall b | b in splayTree && b.limit != r.base && b.base != r.limit :: b.Span().Apart(Merged(Tree(), r))
      ensures left != null && left.limit == r.base ==> forall b | b in splayTree && b != left :: b.limit != r.base
      ensures right != null && right.base == r.limit ==> forall b | b in splayTree && b != right :: b.base != r.limit
    {
      assert left != null ==> left.Span() in Tree();
      assert right != null ==> right.Span() in Tree();
      forall s | s in Tree() && s.limit == r.base ensures left != null && s == left.Span() {
        var b :| b in splayTree && b.Span() == s;
        assert b.limit == left.limit;
      }
      forall s | s in Tree() && s.base == r.limit ensures right != null && s == right.Span() {
        var b :| b in splayTree && b.Span() == s;
        assert b.base == right.base;
      }
      var m := Merged(Tree(), r);
      assert HasLeft(Tree(), r) ==> left.base == m.base;
      assert HasRight(Tree(), r) ==> right.limit == m.limit;
    }

    /** A block that has left the tree has been merged, into r, with a larger one, or with its left neighbour
        of the same size. */
    twostate predicate LargerSurvives(r: Range)
      reads this`splayTree, splayTree
    {
      forall b | b in old(splayTree) && b !in splayTree ::
        exists c :: c in old(splayTree) && c in splayTree && c.Span() == r
          && (old(b.Size()) < old(c.Size()) || (old(b.Size()) == old(c.Size()) && old(c.base < b.base)))
    }

    method InsertIntoTree(base: nat, limit: nat)
      returns (res: Res, newBase: nat, newLimit: nat, ghost refused: bool)
      requires TreeValid() && LedgerValid() && base < limit
      modifies this`splayTree, this`announced, splayTree
      ensures TreeValid() && LedgerValid()
      ensures forall b | b in splayTree :: b in old(splayTree) || fresh(b)
      ensures res == ResFAIL <==> Meets(old(Tree()), Range(base, limit))
      ensures res == ResMEMORY <==> refused
      ensures res == ResMEMORY ==> Touching(old(Tree()), Range(base, limit)) == {}
      ensures res != ResOK ==> Tree() == old(Tree()) && splayTree == old(splayTree)
      ensures res != ResOK ==> newBase == base && newLimit == limit
      ensures res == ResOK ==> Tree() == Coalesced(old(Tree()), Range(base, limit))
      ensures res == ResOK ==> Range(newBase, newLimit) == Merged(old(Tree()), Range(base, limit))
      ensures LargerSurvives(Range(newBase, newLimit))
    {
      ghost var r := Range(base, limit);
      newBase, newLimit, refused := base, limit, false;
      var left, right;
      res, left, right := TreeNeighbours(base);
      if res != ResOK {
        ghost var b :| b in splayTree && b.Span().Contains(base);
        assert b.Span() in Tree() && b.Span().Overlaps(r);
        return;
      }
      if right != null && limit > right.base {
        assert right.Span() in Tree() && right.Span().Overlaps(r);
        res := ResFAIL;
        return;
      }
      TreeNeighbourhood(r, left, right);
      res, newBase, newLimit, refused :=
        InsertBetween(base, limit, left, right, Touching(Tree(), r), Merged(Tree(), r));
    }

    /** The four cases of a range that lies between the tree blocks left and right. */
    method InsertBetween(base: nat, limit: nat, left: CBSBlock?, right: CBSBlock?,
        ghost touching: set<Range>, ghost merged: Range)
      returns (res: Res, newBase: nat, newLimit: nat, ghost refused: bool)
      requires TreeValid() && LedgerValid() && base < limit
      requires left != null ==> left in splayTree && left.limit <= base
      requires right != null ==> right in splayTree && limit <= right.base
      requires forall b | b in splayTree && b != left && b != right :: b.Span().Apart(Range(base, limit))
      requires merged == Range(if left != null && left.limit == base then left.base else base,
                               if right != null && right.base == limit then right.limit else limit)
      requires touching == (if left != null && left.limit == base then {left.Span()} else {}) +
                           (if right != null && right.base == limit then {right.Span()} else {})
      requires forall b | b in splayTree && b.limit != base && b.base != limit :: b.Span().Apart(merged)
      modifies this`splayTree, this`announced, left, right
      ensures TreeValid() && LedgerValid()
      ensures forall b | b in splayTree :: b in old(splayTree) || fresh(b)
      ensures res == if refused then ResMEMORY else ResOK
      ensures res == ResMEMORY ==> touching == {} && splayTree == old(splayTree) && Tree() == old(Tree())
      ensures res == ResMEMORY ==> newBase == base && newLimit == limit
      ensures res == ResOK ==> Tree() == old(Tree()) - touching + {merged} && Range(newBase, newLimit) == merged
      ensures LargerSurvives(Range(newBase, newLimit))
    {
      var leftMerge := left != null && left.limit == base;
      var rightMerge := right != null && right.base == limit;
      newBase := if leftMerge then left.base else base;
      newLimit := if rightMerge then right.limit else limit;
      res, refused := ResOK, false;
      if leftMerge {
        if rightMerge {
          MergeBlocks(left, right);
        } else {
          ExtendBlock(left, newBase, newLimit);
        }
      } else if rightMerge {
        ExtendBlock(right, newBase, newLimit);
      } else {
        res, refused := BlockNew(base, limit);
      }
    }

    /** Joins the neighbours of a gap: the larger keeps its identity, the left one on a tie. */
    method MergeBlocks(left: CBSBlock, right: CBSBlock)
      requires TreeValid() && LedgerValid() && left in splayTree && right in splayTree
      requires left.limit < right.base
      requires forall b | b in splayTree && b != left && b != right :: b.Span().Apart(Range(left.base, right.limit))
      modifies this`splayTree, this`announced, left, right
      ensures TreeValid() && LedgerValid()
      ensures var (kept, dropped) := if old(left.Size()) >= old(right.Size()) then (left, right) else (right, left);
              splayTree == old(splayTree) - {dropped} && kept.Span() == old(Range(left.base, right.limit))
      ensures Tree() == old(Tree()) - {old(left.Span()), old(right.Span())} + {old(Range(left.base, right.limit))}
    {
      var oldLeftSize := left.Size();
      var oldRightSize := right.Size();
      if oldLeftSize >= oldRightSize {
        var rightLimit := right.limit;
        BlockDelete(right);
        ExtendBlock(left, left.base, rightLimit);
      } else {
        var leftBase := left.base;
        BlockDelete(left);
        ExtendBlock(right, leftBase, right.limit);
      }
    }

    /** Moves the bounds of a block outwards. */
    method ExtendBlock(block: CBSBlock, base: nat, limit: nat)
      requires TreeValid() && LedgerValid() && block in splayTree
      requires base <= block.base && block.limit <= limit && Range(base, limit) != block.Span()
      requires forall b | b in splayTree && b != block :: b.Span().Apart(Range(base, limit))
      modifies this`announced, block
      ensures TreeValid() && LedgerValid()
      ensures block.Span() == Range(base, limit)
      ensures Tree() == old(Tree()) - {old(block.Span())} + {Range(base, limit)}
    {
      var oldSize := block.Size();
      block.base, block.limit := base, limit;
      BlockGrow(block, oldSize);
      assert forall b | b in splayTree && b != block :: b.Span() == old(b.Span()) && b.Span() != old(block.Span());
      assert block.Span() == Range(base, limit);
    }

    // ---------- The whole structure ----------

    ghost function Blocks(): set<Range>
      reads emergencyBlocks
    {
      Elems(emergencyBlocks.ranges)
    }

    ghost function Grains(): set<Range>
      reads emergencyGrains
    {
      Elems(emergencyGrains.ranges)
    }

    ghost function Emergency(): set<Range>
      reads emergencyBlocks, emergencyGrains
    {
      Blocks() + Grains()
    }

    /** The free ranges, wherever they are kept. */
    ghost function All(): set<Range>
      reads this`splayTree, splayTree, emergencyBlocks, emergencyGrains
    {
      Tree() + Emergency()
    }

    /** The free addresses. */
    ghost function Free(): iset<nat>
      reads this`splayTree, splayTree, emergencyBlocks, emergencyGrains
    {
      Cover(All())
    }

    predicate Aligned(r: Range)
      requires 0 < alignment
    {
      r.base % alignment == 0 && r.limit % alignment == 0
    }

    /** Each list is a chain of isolated ranges. */
    ghost predicate ChainsValid()
      reads emergencyBlocks, emergencyGrains, memory
    {
      && 0 < alignment
      && emergencyBlocks != emergencyGrains
      && emergencyBlocks.kind == Kind.Blocks && emergencyGrains.kind == Kind.Grains(alignment)
      && emergencyBlocks.memory == memory == emergencyGrains.memory
      && emergencyBlocks.Valid() && emergencyGrains.Valid()
      && (emergencyGrains.ranges != [] ==> alignment == 1)
    }

    ghost predicate ListsValid()
      reads emergencyBlocks, emergencyGrains, memory
    {
      ChainsValid() && Isolated(Emergency()) && Blocks() !! Grains()
    }

    /** A range the structure may hold. */
    predicate Proper(r: Range)
      requires 0 < alignment
    {
      0 < r.base < r.limit <= memory.Length && Aligned(r)
    }

    ghost predicate InBounds()
      requires 0 < alignment
      reads this`splayTree, splayTree, emergencyBlocks, emergencyGrains
    {
      forall r | r in All() :: Proper(r)
    }

    /** Each of the three structures is right in itself. */
    ghost predicate Sound()
      reads this, splayTree, emergencyBlocks, emergencyGrains, memory
    {
      TreeValid() && LedgerValid() && ChainsValid() && InBounds()
    }

    ghost predicate Valid()
      reads this, splayTree, emergencyBlocks, emergencyGrains, memory
    {
      && TreeValid() && LedgerValid() && ListsValid()
      && Isolated(All()) && Tree() !! Emergency()
      && InBounds()
      && (!mayUseInline ==> Emergency() == {})
    }

    // ---------- The emergency lists ----------

    /** Extends a range about to be freed over the emergency ranges adjacent to it. */
    method CoalesceWithEmergencyLists(base0: nat, limit0: nat) returns (res: Res, base: nat, limit: nat)
      requires ListsValid() && base0 < limit0
      modifies emergencyBlocks, emergencyGrains, memory
      ensures ListsValid()
      ensures var r, bs, gs := Range(base0, limit0), old(Blocks()), old(Grains());
              && res == (if Meets(bs + gs, r) && !Hidden(bs, gs, r) then ResFAIL else ResOK)
              && (res == ResFAIL ==> Emergency() == bs + gs - Dropped(bs, gs, r))
              && (res == ResOK ==> Emergency() == bs + gs - Touching(bs + gs, r))
              && (res == ResOK ==> Range(base, limit) == Merged(bs + gs, r))
              && Blocks() <= bs && Grains() <= gs
      ensures forall a | 0 <= a < memory.Length && memory[a] != old(memory[a]) :: Covered(Emergency(), a)
    {
      ghost var r, bs, gs := Range(base0, limit0), Blocks(), Grains();
      var ok, left;
      ghost var n1, n2;
      ok, base, limit, left, n1 := CoalesceWithBlocks(base0, limit0);
      FirstScan(bs, gs, r, n1);
      if !ok {
        res := ResFAIL;
        return;
      }
      ok, base, limit, n2 := CoalesceWithGrains(base, limit, left - 1);
      SecondScan(bs, gs, r, n1, n2);
      res := if ok then ResOK else ResFAIL;
    }

    method CoalesceWithBlocks(base0: nat, limit0: nat)
      returns (ok: bool, base: nat, limit: nat, left: nat, ghost outcome: Scan)
      requires ListsValid() && base0 < limit0
      modifies emergencyBlocks, memory
      ensures ListsValid() && Scan(ok, base, limit, left, emergencyBlocks.ranges) == outcome
      ensures ScanFinds(old(Blocks()), Range(base0, limit0), 3, outcome) && Blocks() <= old(Blocks())
      ensures forall a | 0 <= a < memory.Length && memory[a] != old(memory[a]) :: Covered(Blocks(), a)
    {
      ghost var m, all := memory[..], Emergency();
      outcome := ScanFrom(Cursor([], emergencyBlocks.ranges, base0, limit0, 3));
      ScanMeaning(emergencyBlocks.ranges, Range(base0, limit0), 3);
      ok, base, limit, left := emergencyBlocks.Coalesce(base0, limit0, 3, outcome);
      BasesCovered(emergencyBlocks.ranges);
      BasesElsewhere(emergencyGrains.ranges, emergencyBlocks.ranges, all);
      ChainFrame(emergencyGrains.kind, m, memory[..], emergencyGrains.head, emergencyGrains.ranges);
    }

    method CoalesceWithGrains(base0: nat, limit0: nat, budget: nat)
      returns (ok: bool, base: nat, limit: nat, ghost outcome: Scan)
      requires ListsValid() && base0 < limit0
      requires var gs, r := Grains(), Range(base0, limit0); OneIf(HasLeft(gs, r)) + OneIf(HasRight(gs, r)) <= budget
      modifies emergencyGrains, memory
      ensures ListsValid() && Scan(ok, base, limit, outcome.budget, emergencyGrains.ranges) == outcome
      ensures ScanFinds(old(Grains()), Range(base0, limit0), budget, outcome) && Grains() <= old(Grains())
      ensures forall a | 0 <= a < memory.Length && memory[a] != old(memory[a]) :: Covered(Grains(), a)
    {
      ghost var m, all := memory[..], Emergency();
      var left;
      outcome := ScanFrom(Cursor([], emergencyGrains.ranges, base0, limit0, budget));
      ScanMeaning(emergencyGrains.ranges, Range(base0, limit0), budget);
      ok, base, limit, left := emergencyGrains.Coalesce(base0, limit0, budget, outcome);
      BasesCovered(emergencyGrains.ranges);
      BasesElsewhere(emergencyBlocks.ranges, emergencyGrains.ranges, all);
      ChainFrame(emergencyBlocks.kind, m, memory[..], emergencyBlocks.head, emergencyBlocks.ranges);
      assert emergencyGrains.ranges != [] ==> emergencyGrains.ranges[0] in Elems(outcome.list);
    }

    static lemma ScanMeaning(s: seq<Range>, r: Range, budget: nat)
      requires Ascending(s) && r.base < r.limit
      requires OneIf(HasLeft(Elems(s), r)) + OneIf(HasRight(Elems(s), r)) <= budget
      ensures ScanFinds(Elems(s), r, budget, ScanFrom(Cursor([], s, r.base, r.limit, budget)))
    {
      AscendingIsIsolated(s);
      assert {} + Elems(s) == Elems(s);
      ScanFromMeaning(Elems(s), {}, r, Cursor([], s, r.base, r.limit, budget), 0, budget);
    }

    /** No node of one list lies in a range of the other. */
    static lemma BasesElsewhere(s: seq<Range>, t: seq<Range>, all: set<Range>)
      requires Isolated(all) && Elems(s) <= all && Elems(t) <= all && Elems(s) !! Elems(t)
      ensures forall a, r | a in Bases(t) && r in s :: !r.Contains(a)
    {
      forall a, r | a in Bases(t) && r in s ensures !r.Contains(a) {
        var q :| q in t && q.base == a;
        assert q in Elems(t) && r in Elems(s);
      }
    }

    static lemma BasesCovered(s: seq<Range>)
      requires Ascending(s)
      ensures forall a | a in Bases(s) :: Covered(Elems(s), a)
    {
      forall a | a in Bases(s) ensures Covered(Elems(s), a) {
        var r :| r in s && r.base == a;
        assert r in Elems(s) && r.Contains(a);
      }
    }

    /** Ranges of the least possible size occur only when the alignment is a single word. */
    lemma SmallestRange(r: Range)
      requires 0 < alignment && Aligned(r) && r.base < r.limit <= r.base + 1
      ensures alignment == 1
    {
      if alignment > 1 {
        DivModUnique(r.limit, alignment, r.base / alignment, 1);
      }
    }

    /** Whether e lies well inside r: a node at the base of r does not reach it. */
    static predicate Buried(e: Range, r: Range) {
      r.base + 1 < e.base && e.limit < r.limit
    }

    /** No emergency range overlaps or adjoins r. */
    ghost predicate Clear(r: Range)
      reads emergencyBlocks, emergencyGrains
    {
      forall e | e in Emergency() :: e.Apart(r)
    }

    /** No emergency range overlaps or adjoins r, but for grains inside it. */
    ghost predicate NearlyClear(r: Range)
      reads emergencyBlocks, emergencyGrains
    {
      && (forall e | e in Blocks() :: e.Apart(r))
      && (forall e | e in Grains() :: e.Apart(r) || Buried(e, r))
    }

    /** Puts a range on one of the lists; one of them always fits. */
    method AddToEmergencyLists(base: nat, limit: nat) returns (res: Res)
      requires ListsValid() && Proper(Range(base, limit)) && NearlyClear(Range(base, limit))
      modifies emergencyBlocks, emergencyGrains, memory
      ensures res == ResOK && ChainsValid()
      ensures old(Clear(Range(base, limit))) ==> ListsValid()
      ensures Emergency() == old(Emergency()) + {Range(base, limit)}
      ensures forall a | 0 <= a < memory.Length && memory[a] != old(memory[a]) :: Covered(Emergency(), a)
    {
      ghost var r, bs, gs := Range(base, limit), Blocks(), Grains();
      var size := limit - base;
      var ok;
      if Clear(r) {
        OneMore(bs, gs, r);
      }
      if size > 1 {
        ok := AddToList(emergencyBlocks, emergencyGrains, base, limit);
        assert Emergency() == (bs + {r}) + gs == bs + gs + {r};
      } else {
        SmallestRange(r);
        if size == alignment {
          ok := AddToList(emergencyGrains, emergencyBlocks, base, limit);
          assert Emergency() == bs + (gs + {r}) == bs + gs + {r};
        } else {
          assert false;
        }
      }
      res := if ok then ResOK else ResFAIL;
    }

    static lemma OneMore(bs: set<Range>, gs: set<Range>, r: Range)
      requires Isolated(bs + gs) && bs !! gs && r.base < r.limit && forall e | e in bs + gs :: e.Apart(r)
      ensures Isolated(bs + gs + {r}) && bs + {r} !! gs && bs !! gs + {r}
    {
    }

    method AddToList(list: EmergencyList, ghost other: EmergencyList, base: nat, limit: nat) returns (ok: bool)
      requires ListsValid() && list != other
      requires (list == emergencyBlocks && other == emergencyGrains) ||
               (list == emergencyGrains && other == emergencyBlocks && alignment == 1)
      requires list.kind.Fits(Range(base, limit)) && limit <= memory.Length
      requires forall e | e in list.ranges :: e.Apart(Range(base, limit))
      requires forall e | e in other.ranges :: e.Apart(Range(base, limit)) || (list.kind.Blocks? && base + 1 < e.base)
      modifies list, memory
      ensures ok && ChainsValid()
      ensures Elems(list.ranges) == Elems(old(list.ranges)) + {Range(base, limit)}
      ensures forall a | 0 <= a < memory.Length && memory[a] != old(memory[a]) :: Covered(Elems(list.ranges), a)
    {
      ghost var m, r, were := memory[..], Range(base, limit), list.ranges;
      BasesElsewhere(other.ranges, were, Emergency());
      BasesCovered(were);
      ok := list.Add(base, limit);
      CoveredMore(Elems(were), r);
      ChainFrame(other.kind, m, memory[..], other.head, other.ranges);
    }

    static lemma CoveredMore(rs: set<Range>, r: Range)
      ensures forall a | Covered(rs, a) || r.Contains(a) :: Covered(rs + {r}, a)
    {
      assert r in rs + {r};
    }

    /** Inserting a range that adjoins none of those in the tree merges it with nothing. */
    method InsertUnadjoined(base: nat, limit: nat)
      returns (res: Res, newBase: nat, newLimit: nat, ghost refused: bool)
      requires TreeValid() && LedgerValid() && base < limit
      requires forall t | t in Tree() :: !t.Touches(Range(base, limit))
      modifies this`splayTree, this`announced, splayTree
      ensures TreeValid() && LedgerValid()
      ensures forall b | b in splayTree :: b in old(splayTree) || fresh(b)
      ensures res == ResFAIL <==> Meets(old(Tree()), Range(base, limit))
      ensures Tree() == if res == ResOK then old(Tree()) + {Range(base, limit)} else old(Tree())
      ensures newBase == base && newLimit == limit && (res == ResMEMORY <==> refused)
    {
      ghost var tree, r := Tree(), Range(base, limit);
      assert Touching(tree, r) == {};
      res, newBase, newLimit, refused := InsertIntoTree(base, limit);
      assert Merged(tree, r) == r;
    }

    /** No emergency range adjoins a block of the tree: each is apart from it or overlaps it. */
    ghost predicate Flushable()
      reads this, splayTree, emergencyBlocks, emergencyGrains, memory
    {
      TreeValid() && LedgerValid() && ListsValid() && Unadjoined(Tree(), Emergency())
    }

    /** Some emergency ranges may have moved to the tree. */
    twostate predicate Moved()
      reads this, splayTree, emergencyBlocks, emergencyGrains, memory
    {
      && Flushable() && All() == old(All()) && Emergency() <= old(Emergency())
      && (old(Tree() !! Emergency()) ==> Tree() !! Emergency())
      && (forall b | b in splayTree :: b in old(splayTree) || fresh(b))
    }

    ghost predicate Overlapped()
      reads this`splayTree, splayTree, emergencyBlocks, emergencyGrains
    {
      exists e :: e in Emergency() && Meets(Tree(), e)
    }

    /** Moves emergency ranges to the tree while blocks can be had for them.  `held` tells whether the source's
        assertion, that nothing else can stop it, held; `refused` whether a block was refused. */
    method FlushEmergencyLists() returns (ghost held: bool, ghost refused: bool)
      requires Flushable()
      modifies this`splayTree, this`announced, splayTree, emergencyBlocks, emergencyGrains
      ensures Moved()
      ensures held && !refused ==> Emergency() == {}
      ensures !held ==> !refused && Overlapped()
      ensures old(Valid()) ==> Valid() && held
    {
      var res;
      res, refused := FlushList(emergencyBlocks);
      if res == ResOK {
        res, refused := FlushList(emergencyGrains);
      }
      held := res != ResFAIL;
      if old(Valid()) {
        StillValid();
      }
    }

    lemma StillValid()
      requires Flushable() && Isolated(All()) && Tree() !! Emergency() && InBounds()
      requires !mayUseInline ==> Emergency() == {}
      ensures Valid() && !Overlapped()
    {
      forall e | e in Emergency() ensures !Meets(Tree(), e) {
        assert e in All() && forall t | t in Tree() :: t in All() && t != e;
      }
    }

    /** The same, when all is well. */
    method Flush() returns (ghost refused: bool)
      requires Valid()
      modifies this`splayTree, this`announced, splayTree, emergencyBlocks, emergencyGrains
      ensures Valid() && All() == old(All()) && (!refused ==> Emergency() == {})
      ensures forall b | b in splayTree :: b in old(splayTree) || fresh(b)
    {
      ghost var held;
      held, refused := FlushEmergencyLists();
    }

    /** Moves the ranges of one list, up to the first that cannot be moved. */
    method FlushList(list: EmergencyList) returns (res: Res, ghost refused: bool)
      requires Flushable() && (list == emergencyBlocks || list == emergencyGrains)
      modifies this`splayTree, this`announced, splayTree, list
      ensures Moved()
      ensures res == ResOK ==> list.ranges == []
      ensures res == ResFAIL ==> Overlapped()
      ensures res == ResMEMORY <==> refused
    {
      res, refused := ResOK, false;
      HeadIsNull(list);
      var node := list.head;
      while node != 0
        invariant res == ResOK && !refused && Moved() && node == list.head
        invariant node == 0 ==> list.ranges == []
        decreases |list.ranges|
      {
        HeadIsNull(list);
        res, refused := FlushHead(list);
        if res != ResOK {
          return;
        }
        HeadIsNull(list);
        node := memory[node];
      }
    }

    /** Moves the first range of a list to the tree, unless no block can be allocated for it. */
    method FlushHead(list: EmergencyList) returns (res: Res, ghost refused: bool)
      requires Flushable() && (list == emergencyBlocks || list == emergencyGrains)
      requires 0 < list.head < memory.Length
      modifies this`splayTree, this`announced, splayTree, list
      ensures Moved()
      ensures res == ResOK ==> |list.ranges| == |old(list.ranges)| - 1 && memory[old(list.head)] == list.head
      ensures res == ResFAIL ==> Overlapped()
      ensures res == ResMEMORY <==> refused
    {
      ghost var r, ts, es := list.ranges[0], Tree(), Emergency();
      assert Node(list.kind, memory[..], list.ranges, 0) && r in es;
      var base, limit := list.head, list.Limit(list.head);
      assert Range(base, limit) == r;
      var newBase, newLimit;
      res, newBase, newLimit, refused := InsertUnadjoined(base, limit);
      assert newBase == base && newLimit == limit && Emergency() == es;
      if res == ResOK {
        DropHead(list);
        MoveToTree(ts, es, r);
        assert Tree() == ts + {r} && Emergency() == es - {r};
      } else if res == ResFAIL {
        assert r in Emergency() && Meets(Tree(), r);
        assert Overlapped();
      }
    }

    static lemma MoveToTree(ts: set<Range>, es: set<Range>, r: Range)
      requires r in es && Isolated(es) && Unadjoined(ts, es)
      ensures (ts + {r}) + (es - {r}) == ts + es
      ensures Unadjoined(ts + {r}, es - {r})
      ensures ts !! es ==> ts + {r} !! es - {r}
    {
    }

    method DropHead(list: EmergencyList)
      requires TreeValid() && LedgerValid() && ListsValid()
      requires (list == emergencyBlocks || list == emergencyGrains) && list.ranges != [] && list.head < memory.Length
      modifies list
      ensures TreeValid() && LedgerValid() && Tree() == old(Tree())
      ensures ListsValid() && Emergency() == old(Emergency() - {list.ranges[0]})
      ensures |list.ranges| == |old(list.ranges)| - 1 && memory[old(list.head)] == list.head
    {
      ghost var bs, gs, r := Blocks(), Grains(), list.ranges[0];
      CursorAt([], list.ranges);
      assert Node(list.kind, memory[..], list.ranges, 0);
      HeadLeaves(bs, gs, r);
      list.Pop();
      assert Emergency() == bs + gs - {r};
    }

    static lemma HeadLeaves(bs: set<Range>, gs: set<Range>, r: Range)
      requires bs !! gs && r in bs + gs
      ensures r in bs ==> (bs - {r}) + gs == bs + gs - {r}
      ensures r in gs ==> bs + (gs - {r}) == bs + gs - {r}
    {
    }

    // ---------- Insertion ----------

    lemma MergedIsProper(rs: set<Range>, r: Range)
      requires 0 < alignment && Proper(r)
      requires forall s | s in rs :: Proper(s)
      ensures Proper(Merged(rs, r))
      ensures forall s | s in Coalesced(rs, r) :: Proper(s)
    {
      var m := Merged(rs, r);
      if HasLeft(rs, r) { assert Proper(Range(m.base, r.base)); }
      if HasRight(rs, r) { assert Proper(Range(r.limit, m.limit)); }
    }

    /** Freeing r against the tree alone, when no emergency range touches it. */
    static lemma TreeTakesAll(ts: set<Range>, es: set<Range>, r: Range)
      requires Isolated(ts + es) && ts !! es && r.base < r.limit && !Meets(ts, r)
      requires forall e | e in es :: e.Apart(r)
      ensures Coalesced(ts + es, r) == Coalesced(ts, r) + es && Coalesced(ts, r) !! es
      ensures Isolated(Coalesced(ts, r) + es)
      ensures Cover(Coalesced(ts, r) + es) == Cover(ts + es) + Addresses(r)
      ensures Merged(ts, r) == Merged(ts + es, r) && !Meets(ts + es, r)
    {
      assert !Meets(ts + es, r);
      CoalesceInTwoSteps(ts, es, r);
      CoalescedIsIsolated(ts + es, r);
      assert Touching(es, r) == {} && Merged(es, r) == r;
      assert es - {} == es;
    }

    /** Puts a range into the tree, or failing that on an emergency list. */
    method InsertCoalesced(base: nat, limit: nat)
      returns (res: Res, newBase: nat, newLimit: nat, ghost held: bool, ghost refused: bool)
      requires Valid() && mayUseInline && Proper(Range(base, limit)) && NearlyClear(Range(base, limit))
      requires Clear(Range(base, limit)) || Touching(Tree(), Range(base, limit)) == {}
      modifies this`splayTree, this`announced, splayTree, emergencyBlocks, emergencyGrains, memory
      ensures Sound()
      ensures forall b | b in splayTree :: b in old(splayTree) || fresh(b)
      ensures res == if Meets(old(Tree()), Range(base, limit)) then ResFAIL else ResOK
      ensures res == ResFAIL ==> Valid() && held && All() == old(All())
      ensures res == ResOK ==> Range(newBase, newLimit) == Merged(old(Tree()), Range(base, limit))
      ensures res == ResOK ==> All() == Coalesced(old(Tree()), Range(base, limit)) + old(Emergency())
      ensures old(Free()) <= Free()
      ensures old(Clear(Range(base, limit))) ==> Valid() && held
      ensures res == ResOK && !old(Clear(Range(base, limit))) ==> (held <==> refused)
      ensures res == ResOK && held && !refused ==> Emergency() == {}
      ensures forall a | 0 <= a < memory.Length && memory[a] != old(memory[a]) :: a in Free()
    {
      ghost var r, ts, es := Range(base, limit), Tree(), Emergency();
      if !Meets(ts, r) {
        StillCovered(ts, es, r);
      }
      res, newBase, newLimit, refused := OfferToTree(base, limit);
      held := true;
      if res == ResMEMORY {
        NothingTouches(ts, es, r);
        res := InsertInline(base, limit);
      } else {
        held, refused := FlushEmergencyLists();
      }
    }

    /** What the insertion into the tree leaves for the flush. */
    method OfferToTree(base: nat, limit: nat)
      returns (res: Res, newBase: nat, newLimit: nat, ghost refused: bool)
      requires Valid() && Proper(Range(base, limit)) && NearlyClear(Range(base, limit))
      requires Clear(Range(base, limit)) || Touching(Tree(), Range(base, limit)) == {}
      modifies this`splayTree, this`announced, splayTree
      ensures Flushable() && InBounds()
      ensures forall b | b in splayTree :: b in old(splayTree) || fresh(b)
      ensures res == ResFAIL <==> Meets(old(Tree()), Range(base, limit))
      ensures Tree() == if res == ResOK then Coalesced(old(Tree()), Range(base, limit)) else old(Tree())
      ensures res == ResMEMORY <==> refused
      ensures res == ResMEMORY ==> Touching(Tree(), Range(base, limit)) == {}
      ensures res == ResMEMORY ==> newBase == base && newLimit == limit
      ensures res == ResOK ==> Range(newBase, newLimit) == Merged(old(Tree()), Range(base, limit))
      ensures res != ResOK || Clear(Range(base, limit)) ==> Valid()
      ensures res == ResOK && !Clear(Range(base, limit)) ==> !Isolated(All())
    {
      ghost var r, ts, es := Range(base, limit), Tree(), Emergency();
      StillUnadjoined(ts, es);
      if !Meets(ts, r) {
        TreeTakes(ts, es, r);
        MergedIsProper(ts, r);
      }
      res, newBase, newLimit, refused := InsertIntoTree(base, limit);
      assert Emergency() == es && (res == ResOK ==> Tree() == Coalesced(ts, r));
      assert Unadjoined(Tree(), Emergency());
    }

    static lemma StillCovered(ts: set<Range>, es: set<Range>, r: Range)
      requires Isolated(ts) && r.base < r.limit && !Meets(ts, r)
      ensures Cover(ts + es) <= Cover(Coalesced(ts, r) + es)
    {
      CoalescedIsIsolated(ts, r);
      forall a | a in Cover(ts + es) ensures Covered(Coalesced(ts, r) + es, a) {
        var s :| s in ts + es && s.Contains(a);
        if s in ts {
          assert Covered(ts, a) && a in Cover(Coalesced(ts, r));
          var c :| c in Coalesced(ts, r) && c.Contains(a);
          assert c in Coalesced(ts, r) + es;
        } else {
          assert s in Coalesced(ts, r) + es;
        }
      }
    }

    static lemma StillUnadjoined(ts: set<Range>, es: set<Range>)
      requires Isolated(ts + es) && ts !! es
      ensures Unadjoined(ts, es)
    {
      forall t, e | t in ts && e in es ensures !t.Touches(e) {
        assert t in ts + es && e in ts + es && t != e;
      }
    }

    /** The tree has taken r, apart from every emergency range but for any grains inside r. */
    static lemma TreeTakes(ts: set<Range>, es: set<Range>, r: Range)
      requires Isolated(ts + es) && ts !! es && r.base < r.limit && !Meets(ts, r)
      requires forall e | e in es :: e.Apart(r) || Buried(e, r)
      requires (forall e | e in es :: e.Apart(r)) || Touching(ts, r) == {}
      ensures var cs := Coalesced(ts, r);
              && Unadjoined(cs, es)
              && ((forall e | e in es :: e.Apart(r)) ==> Isolated(cs + es) && cs !! es)
              && ((exists e :: e in es && !e.Apart(r)) ==> !Isolated(cs + es))
    {
      if forall e | e in es :: e.Apart(r) {
        TreeTakesAll(ts, es, r);
        assert forall s | s in Coalesced(ts, r) || s in es :: s in Coalesced(ts, r) + es;
      } else {
        NothingTouches(ts, es, r);
        var e :| e in es && !e.Apart(r);
        assert e in ts + {r} + es && r in ts + {r} + es && e != r;
        assert forall t, e | t in ts && e in es :: t in ts + es && e in ts + es && t.Apart(e);
      }
    }

    static lemma NothingTouches(ts: set<Range>, es: set<Range>, r: Range)
      requires r.base < r.limit && Isolated(ts) && Touching(ts, r) == {} && !Meets(ts, r)
      ensures Merged(ts, r) == r && Coalesced(ts, r) == ts + {r}
      ensures (ts + {r}) + es == ts + (es + {r}) == ts + es + {r}
      ensures forall t | t in ts :: t.Apart(r)
    {
      forall t | t in ts ensures t.Apart(r) {
        assert t !in Touching(ts, r);
      }
    }

    /** Puts on an emergency list a range that no tree block touches. */
    method InsertInline(base: nat, limit: nat) returns (res: Res)
      requires Valid() && mayUseInline && Proper(Range(base, limit)) && NearlyClear(Range(base, limit))
      requires forall t | t in Tree() :: t.Apart(Range(base, limit))
      modifies emergencyBlocks, emergencyGrains, memory
      ensures Sound() && res == ResOK && All() == old(All()) + {Range(base, limit)}
      ensures old(Clear(Range(base, limit))) ==> Valid()
      ensures forall a | 0 <= a < memory.Length && memory[a] != old(memory[a]) :: a in Free()
    {
      ghost var r, ts, es := Range(base, limit), Tree(), Emergency();
      assert Clear(r) ==> Isolated(ts + es + {r}) && r !in ts + es;
      res := AddToEmergencyLists(base, limit);
      assert Tree() == ts && Emergency() == es + {r};
      assert ts + (es + {r}) == ts + es + {r};
      assert forall a | Covered(Emergency(), a) :: a in Free();
    }

    /** Freeing r first against the emergency ranges and then against the tree. */
    static lemma TwoStages(ts: set<Range>, es: set<Range>, r: Range)
      requires Isolated(ts + es) && ts !! es && r.base < r.limit && !Meets(es, r)
      ensures var m, rest := Merged(es, r), es - Touching(es, r);
              && m.base < m.limit
              && (forall e | e in rest :: e.Apart(m))
              && (Meets(ts, m) <==> Meets(ts + es, r))
              && (!Meets(ts + es, r) ==> Coalesced(ts + rest, m) == Coalesced(ts + es, r))
              && (!Meets(ts + es, r) ==> Merged(ts, m) == Merged(ts + es, r))
    {
      var m, rest := Merged(es, r), es - Touching(es, r);
      BlocksOut(es, ts, r);
      assert Meets(ts + es, r) <==> Meets(ts, r) by {
        assert forall s | s in ts + es && s.Overlaps(r) :: s in ts;
      }
      CoalescedIsIsolated(es, r);
      assert forall e | e in rest :: e in Coalesced(es, r) && m in Coalesced(es, r) && e != m ==> e.Apart(m);
      assert m !in rest by {
        if m in rest { assert m.Overlaps(r); }
      }
      if !Meets(ts + es, r) {
        CoalesceInTwoSteps(ts, es, r);
        TreeTakesAll(ts, rest, m);
      }
    }

    ghost function Lost(r: Range): set<Range>
      reads emergencyBlocks, emergencyGrains
    {
      LostRanges(Blocks(), Grains(), r)
    }

    /** Freeing r overlaps free memory, but only grains that the scans of the lists do not reach. */
    ghost predicate Missed(r: Range)
      reads this`splayTree, splayTree, emergencyBlocks, emergencyGrains
    {
      Hidden(Blocks(), Grains(), r) && !Meets(Tree(), r)
    }

    /** Frees [base, limit).  `held` tells whether the assertion in the flush of the lists held, and `refused`
        whether a block was refused. */
    method Insert(base: nat, limit: nat)
      returns (res: Res, newBase: nat, newLimit: nat, ghost held: bool, ghost refused: bool)
      requires Valid() && Proper(Range(base, limit))
      modifies this`splayTree, this`announced, splayTree, emergencyBlocks, emergencyGrains, memory
      ensures Sound()
      ensures forall b | b in splayTree :: b in old(splayTree) || fresh(b)
      ensures res == ResFAIL <==> Meets(old(All()), Range(base, limit)) && !old(Missed(Range(base, limit)))
      ensures held <==> !old(Missed(Range(base, limit))) || refused
      ensures !old(Missed(Range(base, limit))) ==> Valid()
      ensures res == ResFAIL ==> All() == old(All() - Lost(Range(base, limit)))
      ensures res == ResFAIL ==> (All() == old(All()) <==> old(StopsShort(Blocks(), Grains(), Range(base, limit))))
      ensures res == ResOK && !old(Missed(Range(base, limit))) ==>
                && All() == Coalesced(old(All()), Range(base, limit))
                && Range(newBase, newLimit) == Merged(old(All()), Range(base, limit))
      // What is missed is held twice over, and nobody is told.
      ensures old(Missed(Range(base, limit))) ==>
                && res == ResOK && !Isolated(All())
                && All() == old(All() - Touching(Emergency(), Range(base, limit))) + {Range(newBase, newLimit)}
                && Range(newBase, newLimit) == Merged(old(Emergency()), Range(base, limit))
      ensures res == ResMEMORY <==> !mayUseInline && refused
      ensures res == ResMEMORY ==> All() == old(All())
      ensures res == ResOK && held && !refused ==> Emergency() == {}
      ensures forall a | 0 <= a < memory.Length && memory[a] != old(memory[a]) :: a in Free()
    {
      ghost var r, ts, bs, gs := Range(base, limit), Tree(), Blocks(), Grains();
      NothingLostIff(ts + (bs + gs), bs, gs, r);
      if mayUseInline {
        res, newBase, newLimit, held, refused := InsertWithLists(base, limit, ts, bs, gs, r);
      } else {
        res, newBase, newLimit, refused := InsertPlain(base, limit);
        held := true;
        assert bs == gs == {} && ts + (bs + gs) == ts;
      }
    }

    /** What freeing r does when tree, block list and grain list hold ts, bs and gs: the result, the range
        returned and the free ranges afterwards. */
    static ghost predicate Inserted(ts: set<Range>, bs: set<Range>, gs: set<Range>, r: Range,
        res: Res, m: Range, after: set<Range>)
    {
      var all, missed := ts + (bs + gs), Hidden(bs, gs, r) && !Meets(ts, r);
      && res == (if Meets(all, r) && !missed then ResFAIL else ResOK)
      && (res == ResFAIL ==> after == all - LostRanges(bs, gs, r))
      && (res == ResOK && !missed ==> after == Coalesced(all, r) && m == Merged(all, r))
      && (missed ==> Meets(all, r) && !Isolated(after))
      && (missed ==> after == all - Touching(bs + gs, r) + {m} && m == Merged(bs + gs, r))
    }

    /** The insertion of r where the lists may be used. */
    method InsertWithLists(base: nat, limit: nat, ghost ts: set<Range>, ghost bs: set<Range>, ghost gs: set<Range>,
        ghost r: Range)
      returns (res: Res, newBase: nat, newLimit: nat, ghost held: bool, ghost refused: bool)
      requires Valid() && mayUseInline && Proper(r) && r == Range(base, limit)
      requires Tree() == ts && Blocks() == bs && Grains() == gs
      modifies this`splayTree, this`announced, splayTree, emergencyBlocks, emergencyGrains, memory
      ensures Sound()
      ensures forall b | b in splayTree :: b in old(splayTree) || fresh(b)
      ensures Inserted(ts, bs, gs, r, res, Range(newBase, newLimit), All())
      ensures held <==> !(Hidden(bs, gs, r) && !Meets(ts, r)) || refused
      ensures !(Hidden(bs, gs, r) && !Meets(ts, r)) ==> Valid()
      ensures forall a | 0 <= a < memory.Length && memory[a] != old(memory[a]) :: a in Free()
      ensures res == ResOK && held && !refused ==> Emergency() == {}
    {
      ghost var es := bs + gs;
      held, refused := true, false;
      res, newBase, newLimit := CoalesceLists(base, limit);
      if res != ResOK {
        assert Meets(ts + es, r) by { assert forall e | e in es :: e in ts + es; }
        assert ts + (es - LostRanges(bs, gs, r)) == ts + es - LostRanges(bs, gs, r);
        return;
      }
      label coalesced:
      res, newBase, newLimit, held, refused := InsertMerged(newBase, newLimit, ts, bs, gs, r);
      assert old@coalesced(Free()) <= Free();
    }

    /** The rest of the insertion of r, once the emergency ranges adjacent to it have been joined to it. */
    method InsertMerged(base: nat, limit: nat, ghost ts: set<Range>, ghost bs: set<Range>, ghost gs: set<Range>,
        ghost r: Range)
      returns (res: Res, newBase: nat, newLimit: nat, ghost held: bool, ghost refused: bool)
      requires Valid() && mayUseInline && Proper(r) && (forall s | s in ts + (bs + gs) :: Proper(s))
      requires Isolated(ts + (bs + gs)) && ts !! bs + gs && bs !! gs
      requires !Meets(bs + gs, r) || Hidden(bs, gs, r)
      requires Tree() == ts && Emergency() == bs + gs - Touching(bs + gs, r) && Blocks() <= bs && Grains() <= gs
      requires Range(base, limit) == Merged(bs + gs, r)
      modifies this`splayTree, this`announced, splayTree, emergencyBlocks, emergencyGrains, memory
      ensures Sound() && old(Free()) <= Free()
      ensures forall b | b in splayTree :: b in old(splayTree) || fresh(b)
      ensures Inserted(ts, bs, gs, r, res, Range(newBase, newLimit), All())
      ensures held <==> !(Hidden(bs, gs, r) && !Meets(ts, r)) || refused
      ensures !(Hidden(bs, gs, r) && !Meets(ts, r)) ==> Valid()
      ensures forall a | 0 <= a < memory.Length && memory[a] != old(memory[a]) :: a in Free()
      ensures res == ResOK && held && !refused ==> Emergency() == {}
    {
      BothStages(ts, bs, gs, r);
      res, newBase, newLimit, held, refused := InsertCoalesced(base, limit);
    }

    /** Freeing r against the emergency ranges and then against the tree, whether or not the scans miss
        an overlap. */
    lemma BothStages(ts: set<Range>, bs: set<Range>, gs: set<Range>, r: Range)
      requires 0 < alignment && Proper(r) && (forall s | s in ts + (bs + gs) :: Proper(s))
      requires Isolated(ts + (bs + gs)) && ts !! bs + gs && bs !! gs
      requires !Meets(bs + gs, r) || Hidden(bs, gs, r)
      ensures var es := bs + gs;
              var m, rest := Merged(es, r), es - Touching(es, r);
              var missed := Hidden(bs, gs, r) && !Meets(ts, r);
              && Proper(m) && LostRanges(bs, gs, r) == Touching(es, r) && (missed ==> Meets(ts + es, r))
              && (forall e | e in rest :: e.Apart(m) || (Hidden(bs, gs, r) && e in gs && Buried(e, m)))
              && (Meets(ts, m) <==> Meets(ts + es, r) && !missed)
              && (Hidden(bs, gs, r) ==> Touching(ts, m) == {} && !(forall e | e in rest :: e.Apart(m)))
              && (missed ==> Merged(ts, m) == m && Coalesced(ts, m) + rest == ts + es - Touching(es, r) + {m})
              && (missed ==> !Isolated(Coalesced(ts, m) + rest))
              && (!Meets(ts + es, r) ==> Merged(ts, m) == Merged(ts + es, r))
              && (!Meets(ts + es, r) ==> Coalesced(ts, m) + rest == Coalesced(ts + es, r))
              && ts + rest == ts + es - Touching(es, r)
    {
      var es := bs + gs;
      MergedIsProper(es, r);
      if Hidden(bs, gs, r) {
        HiddenMerge(ts, bs, gs, r);
        assert forall e | e in es :: e in ts + es;
        if !Meets(ts, r) {
          NothingTouches(ts, es - Touching(es, r), Merged(es, r));
        }
      } else {
        TwoStages(ts, es, r);
      }
    }

    method InsertPlain(base: nat, limit: nat)
      returns (res: Res, newBase: nat, newLimit: nat, ghost refused: bool)
      requires Valid() && !mayUseInline && Proper(Range(base, limit))
      modifies this`splayTree, this`announced, splayTree
      ensures Valid() && Emergency() == {} && (res == ResMEMORY <==> refused)
      ensures forall b | b in splayTree :: b in old(splayTree) || fresh(b)
      ensures res == ResFAIL <==> Meets(old(Tree()), Range(base, limit))
      ensures Tree() == if res == ResOK then Coalesced(old(Tree()), Range(base, limit)) else old(Tree())
      ensures res == ResOK ==> Range(newBase, newLimit) == Merged(old(Tree()), Range(base, limit))
    {
      ghost var r, ts := Range(base, limit), Tree();
      if !Meets(ts, r) {
        TreeTakesAll(ts, {}, r);
        MergedIsProper(ts, r);
      }
      res, newBase, newLimit, refused := InsertIntoTree(base, limit);
    }

    method CoalesceLists(base0: nat, limit0: nat) returns (res: Res, base: nat, limit: nat)
      requires Valid() && mayUseInline && Proper(Range(base0, limit0))
      modifies emergencyBlocks, emergencyGrains, memory
      ensures Valid() && Tree() == old(Tree())
      ensures var r, bs, gs := Range(base0, limit0), old(Blocks()), old(Grains());
              && res == (if Meets(bs + gs, r) && !Hidden(bs, gs, r) then ResFAIL else ResOK)
              && (res == ResFAIL ==> Emergency() == bs + gs - LostRanges(bs, gs, r))
              && (res == ResOK ==> Emergency() == bs + gs - Touching(bs + gs, r))
              && (res == ResOK ==> Range(base, limit) == Merged(bs + gs, r))
              && Blocks() <= bs && Grains() <= gs
      ensures forall a | 0 <= a < memory.Length && memory[a] != old(memory[a]) :: a in Free()
    {
      ghost var ts, es := Tree(), Emergency();
      res, base, limit := CoalesceWithEmergencyLists(base0, limit0);
      assert Tree() == ts && Emergency() <= es;
      assert forall a | Covered(Emergency(), a) :: a in Free();
    }

    // ---------- Deletion ----------

    /** Moves the bounds of a block inwards. */
    method ShrinkBlock(block: CBSBlock, base: nat, limit: nat)
      requires TreeValid() && LedgerValid() && block in splayTree
      requires block.base <= base < limit <= block.limit && Range(base, limit) != block.Span()
      modifies this`announced, block
      ensures TreeValid() && LedgerValid()
      ensures block.Span() == Range(base, limit)
      ensures Tree() == old(Tree()) - {old(block.Span())} + {Range(base, limit)}
    {
      var oldSize := block.Size();
      block.base, block.limit := base, limit;
      BlockShrink(block, oldSize);
      assert forall b | b in splayTree && b != block :: b.Span() == old(b.Span()) && b.Span() != old(block.Span());
      assert block.Span() == Range(base, limit);
    }

    /** Keeps a range that no free range touches, if memory can be had to keep it in. */
    method AddFragment(base: nat, limit: nat) returns (res: Res, ghost refused: bool)
      requires Valid() && Proper(Range(base, limit))
      requires forall s | s in All() :: s.Apart(Range(base, limit))
      modifies this`splayTree, this`announced, emergencyBlocks, emergencyGrains, memory
      ensures Valid() && res == if refused && !mayUseInline then ResMEMORY else ResOK
      ensures old(splayTree) <= splayTree
      ensures forall b | b in splayTree :: b in old(splayTree) || fresh(b)
      ensures All() == if res == ResOK then old(All()) + {Range(base, limit)} else old(All())
      ensures forall a | 0 <= a < memory.Length && memory[a] != old(memory[a]) :: a in Free()
    {
      ghost var r, ts, es := Range(base, limit), Tree(), Emergency();
      assert forall b | b in splayTree :: b.Span() in All();
      res, refused := BlockNew(base, limit);
      if res != ResOK && mayUseInline {
        res := InsertFragment(base, limit);
      } else {
        assert res == ResOK ==> (ts + {r}) + es == ts + es + {r};
      }
    }

    /** The smaller of two fragments, the right one on a tie: the one that needs a new block. */
    static function Smaller(q: Range, r: Range): Range {
      if r.base - q.base >= q.limit - r.limit then Range(r.limit, q.limit) else Range(q.base, r.base)
    }

    static function Larger(q: Range, r: Range): Range {
      if r.base - q.base >= q.limit - r.limit then Range(q.base, r.base) else Range(r.limit, q.limit)
    }

    /** They are the two fragments, and if they are as large the left one counts as the larger. */
    static lemma FragmentSizes(q: Range, r: Range)
      requires q.base < r.base < r.limit < q.limit
      ensures Fragments(q, r) == {Smaller(q, r), Larger(q, r)} && Smaller(q, r).Size() <= Larger(q, r).Size()
      ensures Smaller(q, r).Size() == Larger(q, r).Size() ==> Larger(q, r).base == q.base
    {
    }

    method DeleteFromTree(base: nat, limit: nat) returns (res: Res, ghost q: Range, ghost refused: bool)
      requires Valid() && 0 < base < limit && Aligned(Range(base, limit))
      modifies this`splayTree, this`announced, splayTree, emergencyBlocks, emergencyGrains, memory
      ensures Valid()
      ensures forall b | b in splayTree :: b in old(splayTree) || fresh(b)
      ensures res == ResFAIL ==> All() == old(All()) && memory[..] == old(memory[..])
      ensures res == ResFAIL ==> Tree() == old(Tree()) && Blocks() == old(Blocks()) && Grains() == old(Grains())
      ensures res == ResFAIL ==> !exists s :: s in old(Tree()) && s.base <= base && limit <= s.limit
      ensures res != ResFAIL ==> q in old(Tree()) && q.base <= base && limit <= q.limit
      ensures res == ResOK ==> All() == Carved(old(All()), q, Range(base, limit))
      ensures res == ResMEMORY <==> !mayUseInline && q.base < base && limit < q.limit && refused
      ensures res == ResMEMORY ==>
                All() == Carved(old(All()), q, Range(base, limit)) - {Smaller(q, Range(base, limit))}
      ensures res != ResFAIL && (q.base == base || q.limit == limit) ==>
                res == ResOK && splayTree <= old(splayTree) && Emergency() == old(Emergency())
      // The block keeps its identity, and of two fragments it keeps the larger.
      ensures res != ResFAIL && q != Range(base, limit) ==>
                exists b :: b in old(splayTree) && b in splayTree
                  && old(b.Span()) == q && b.Span() == Larger(q, Range(base, limit))
      ensures forall a | 0 <= a < memory.Length && memory[a] != old(memory[a]) :: a in Free()
    {
      q, refused := Range(base, limit), false;
      var block := TreeSearch(base);
      if block == null || limit > block.limit {
        assert block != null ==> forall b | b in splayTree && b != block :: b.Span().Apart(block.Span());
        return ResFAIL, q, false;
      }
      q := block.Span();
      assert q in Tree();
      res, refused := DeleteFromBlock(block, base, limit);
    }

    method DeleteFromBlock(block: CBSBlock, base: nat, limit: nat) returns (res: Res, ghost refused: bool)
      requires Valid() && block in splayTree && Aligned(Range(base, limit))
      requires block.base <= base < limit <= block.limit
      modifies this`splayTree, this`announced, block, emergencyBlocks, emergencyGrains, memory
      ensures Valid() && res != ResFAIL
      ensures forall b | b in splayTree :: b in old(splayTree) || fresh(b)
      ensures var q, r := old(block.Span()), Range(base, limit);
              && (res == ResOK ==> All() == Carved(old(All()), q, r))
              && (res == ResMEMORY ==> All() == Carved(old(All()), q, r) - {Smaller(q, r)})
              && (res == ResMEMORY <==> !mayUseInline && q.base < base && limit < q.limit && refused)
              && (q.base == base || q.limit == limit ==> splayTree <= old(splayTree) && Emergency() == old(Emergency()))
              && (q != r ==> block in splayTree && block.Span() == Larger(q, r))
      ensures forall a | 0 <= a < memory.Length && memory[a] != old(memory[a]) :: a in Free()
    {
      ghost var q, r, all := block.Span(), Range(base, limit), All();
      assert q in Tree();
      CarvedIsIsolated(all, q, r);
      res, refused := ResOK, false;
      if base == block.base && limit == block.limit {
        DeleteWhole(block);
      } else if base == block.base {
        DeletePart(block, limit, block.limit);
      } else if limit == block.limit {
        DeletePart(block, block.base, base);
      } else {
        var small := Smaller(block.Span(), Range(base, limit));
        var large := Larger(block.Span(), Range(base, limit));
        DeletePart(block, large.base, large.limit);
        FragmentSizes(q, r);
        assert all - {q} + {large} + {small} == Carved(all, q, r);
        res, refused := AddFragment(small.base, small.limit);
      }
    }

    method DeleteWhole(block: CBSBlock)
      requires Valid() && block in splayTree
      modifies this`splayTree, this`announced, block
      ensures Valid() && All() == old(All() - {block.Span()})
      ensures forall b | b in splayTree :: b in old(splayTree)
    {
      ghost var q, ts, es := block.Span(), Tree(), Emergency();
      assert q in ts;
      BlockDelete(block);
      assert (ts - {q}) + es == ts + es - {q};
    }

    method DeletePart(block: CBSBlock, base: nat, limit: nat)
      requires Valid() && block in splayTree
      requires block.base <= base < limit <= block.limit && Range(base, limit) != block.Span()
      requires Aligned(Range(base, limit))
      modifies this`announced, block
      ensures Valid() && All() == old(All() - {block.Span()}) + {Range(base, limit)}
      ensures block.Span() == Range(base, limit)
    {
      ghost var q, n, ts, es := block.Span(), Range(base, limit), Tree(), Emergency();
      assert q in ts;
      Narrowed(ts, es, q, n);
      ShrinkBlock(block, base, limit);
      assert Tree() == ts - {q} + {n} && Emergency() == es;
    }

    static lemma Narrowed(ts: set<Range>, es: set<Range>, q: Range, n: Range)
      requires Isolated(ts + es) && ts !! es && q in ts && q.base <= n.base < n.limit <= q.limit
      ensures ts - {q} + {n} + es == ts + es - {q} + {n}
      ensures Isolated(ts + es - {q} + {n}) && ts - {q} + {n} !! es
    {
      assert q in ts + es;
      assert forall s | s in ts + es - {q} :: s.Apart(n);
      assert forall e | e in es :: e in ts + es - {q};
    }

    /** Takes [base, limit) off one of the lists, putting back what is left of the range that held it. */
    method DeleteFromList(list: EmergencyList, base: nat, limit: nat) returns (res: Res, ghost q: Range)
      requires Valid() && mayUseInline && 0 < base < limit && Aligned(Range(base, limit))
      requires list == emergencyBlocks || list == emergencyGrains
      modifies emergencyBlocks, emergencyGrains, memory
      ensures Valid() && (res == ResOK || res == ResFAIL)
      ensures res == ResFAIL <==> !exists s :: s in old(list.ranges) && s.base <= base && limit <= s.limit
      ensures res == ResFAIL ==> All() == old(All()) && memory[..] == old(memory[..])
      ensures res == ResFAIL ==> Tree() == old(Tree()) && Blocks() == old(Blocks()) && Grains() == old(Grains())
      ensures res == ResOK ==> q in old(list.ranges) && q.base <= base && limit <= q.limit
      ensures res == ResOK ==> All() == Carved(old(All()), q, Range(base, limit))
      ensures forall a | 0 <= a < memory.Length && memory[a] != old(memory[a]) :: a in Free()
    {
      ghost var all := All();
      var ok, nodeBase, nodeLimit := TakeFromList(list, base, limit);
      q := Range(nodeBase, nodeLimit);
      if !ok {
        return ResFAIL, q;
      }
      assert Proper(q) && forall s | s in all - {q} :: s.Apart(q);
      label taken:
      res := PutBack(nodeBase, nodeLimit, base, limit);
      assert old@taken(Free()) <= Free();
    }

    /** Puts on the lists what is left of [nodeBase, nodeLimit) when [base, limit) is taken out of it. */
    method PutBack(nodeBase: nat, nodeLimit: nat, base: nat, limit: nat) returns (res: Res)
      requires Valid() && mayUseInline && Proper(Range(nodeBase, nodeLimit)) && Aligned(Range(base, limit))
      requires nodeBase <= base < limit <= nodeLimit
      requires forall s | s in All() :: s.Apart(Range(nodeBase, nodeLimit))
      modifies emergencyBlocks, emergencyGrains, memory
      ensures Valid() && res == ResOK
      ensures All() == old(All()) + Fragments(Range(nodeBase, nodeLimit), Range(base, limit))
      ensures forall a | 0 <= a < memory.Length && memory[a] != old(memory[a]) :: a in Free()
    {
      res := ResOK;
      if nodeBase < base {
        res := InsertFragment(nodeBase, base);
        if res != ResOK {
          return;
        }
      }
      label left:
      if limit < nodeLimit {
        res := InsertFragment(limit, nodeLimit);
        if res != ResOK {
          return;
        }
        assert old@left(Free()) <= Free();
      }
    }

    /** Puts on an emergency list a range that no free range touches. */
    method InsertFragment(base: nat, limit: nat) returns (res: Res)
      requires Valid() && mayUseInline && Proper(Range(base, limit))
      requires forall s | s in All() :: s.Apart(Range(base, limit))
      modifies emergencyBlocks, emergencyGrains, memory
      ensures Valid() && res == ResOK && All() == old(All()) + {Range(base, limit)}
      ensures forall a | 0 <= a < memory.Length && memory[a] != old(memory[a]) :: a in Free()
    {
      assert Clear(Range(base, limit)) && NearlyClear(Range(base, limit));
      res := InsertInline(base, limit);
    }

    method TakeFromList(list: EmergencyList, base: nat, limit: nat) returns (ok: bool, nodeBase: nat, nodeLimit: nat)
      requires Valid() && base < limit && (list == emergencyBlocks || list == emergencyGrains)
      modifies list, memory
      ensures Valid()
      ensures ok <==> exists s :: s in old(list.ranges) && s.base <= base && limit <= s.limit
      ensures ok ==> Range(nodeBase, nodeLimit) in old(list.ranges) && nodeBase <= base && limit <= nodeLimit
      ensures ok ==> All() == old(All()) - {Range(nodeBase, nodeLimit)}
      ensures !ok ==> All() == old(All()) && memory[..] == old(memory[..])
      ensures !ok ==> Tree() == old(Tree()) && Blocks() == old(Blocks()) && Grains() == old(Grains())
      ensures forall a | 0 <= a < memory.Length && memory[a] != old(memory[a]) :: a in Free()
    {
      ghost var ts, es := Tree(), Emergency();
      ok, nodeBase, nodeLimit := TakeFromEmergency(list, base, limit);
      ghost var q := Range(nodeBase, nodeLimit);
      assert Tree() == ts;
      assert ok ==> ts + (es - {q}) == ts + es - {q};
      assert forall a | Covered(Emergency(), a) :: a in Free();
    }

    method TakeFromEmergency(list: EmergencyList, base: nat, limit: nat)
      returns (ok: bool, nodeBase: nat, nodeLimit: nat)
      requires ListsValid() && base < limit && (list == emergencyBlocks || list == emergencyGrains)
      modifies list, memory
      ensures ListsValid()
      ensures ok <==> exists s :: s in old(list.ranges) && s.base <= base && limit <= s.limit
      ensures ok ==> Range(nodeBase, nodeLimit) in old(list.ranges) && nodeBase <= base && limit <= nodeLimit
      ensures ok ==> Emergency() == old(Emergency()) - {Range(nodeBase, nodeLimit)}
      ensures !ok ==> list.ranges == old(list.ranges) && memory[..] == old(memory[..])
      ensures forall a | 0 <= a < memory.Length && memory[a] != old(memory[a]) :: Covered(Emergency(), a)
    {
      ghost var m, all, bs, gs := memory[..], Emergency(), Blocks(), Grains();
      var other := if list == emergencyBlocks then emergencyGrains else emergencyBlocks;
      ok, nodeBase, nodeLimit := list.Take(base, limit);
      if ok {
        HeadLeaves(bs, gs, Range(nodeBase, nodeLimit));
      }
      BasesCovered(list.ranges);
      BasesElsewhere(other.ranges, list.ranges, all);
      ChainFrame(other.kind, m, memory[..], other.head, other.ranges);
      assert list.ranges != [] ==> list.ranges[0] in Elems(list.ranges);
    }

    /** Allocates [base, limit).  Succeeds just when all of it is free, if free memory may be used. */
    method Delete(base: nat, limit: nat) returns (res: Res, ghost q: Range, ghost refused: bool)
      requires Valid() && 0 < base < limit && Aligned(Range(base, limit))
      modifies this`splayTree, this`announced, splayTree, emergencyBlocks, emergencyGrains, memory
      ensures Valid()
      ensures forall b | b in splayTree :: b in old(splayTree) || fresh(b)
      ensures res == ResFAIL <==> !(Addresses(Range(base, limit)) <= old(Free()))
      ensures res == ResFAIL ==> All() == old(All()) && memory[..] == old(memory[..])
      ensures res != ResFAIL ==> q in old(All()) && q.base <= base && limit <= q.limit
      ensures res == ResOK ==> All() == Carved(old(All()), q, Range(base, limit))
      ensures res == ResOK ==> Free() == old(Free()) - Addresses(Range(base, limit))
      ensures res == ResMEMORY <==> !mayUseInline && q.base < base && limit < q.limit && refused
      ensures res == ResMEMORY ==>
                All() == Carved(old(All()), q, Range(base, limit)) - {Smaller(q, Range(base, limit))}
      ensures res == ResOK && !refused ==> Emergency() == {}
      ensures forall a | 0 <= a < memory.Length && memory[a] != old(memory[a]) :: a in Free()
    {
      ghost var r, all := Range(base, limit), All();
      CoveredRunIsInOneRange(all, r);
      res, q, refused := DeleteFromTree(base, limit);
      if mayUseInline {
        if res == ResFAIL {
          res, q := DeleteFromLists(base, limit);
        }
        if res == ResOK {
          ghost var unmoved := Flush();
          refused := refused || unmoved;
        }
      }
      if res == ResOK {
        CarvedIsIsolated(all, q, r);
      }
    }

    method DeleteFromLists(base: nat, limit: nat) returns (res: Res, ghost q: Range)
      requires Valid() && mayUseInline && 0 < base < limit && Aligned(Range(base, limit))
      modifies emergencyBlocks, emergencyGrains, memory
      ensures Valid() && (res == ResOK || res == ResFAIL)
      ensures res == ResFAIL <==> !exists s :: s in old(Emergency()) && s.base <= base && limit <= s.limit
      ensures res == ResFAIL ==> All() == old(All()) && memory[..] == old(memory[..])
      ensures res == ResOK ==> q in old(Emergency()) && q.base <= base && limit <= q.limit
      ensures res == ResOK ==> All() == Carved(old(All()), q, Range(base, limit))
      ensures forall a | 0 <= a < memory.Length && memory[a] != old(memory[a]) :: a in Free()
    {
      GrainSizes();
      res, q := DeleteFromList(emergencyBlocks, base, limit);
      if res == ResFAIL && limit - base == alignment {
        res, q := DeleteFromList(emergencyGrains, base, limit);
      }
    }

    lemma GrainSizes()
      requires ListsValid()
      ensures forall g | g in Grains() :: g.limit == g.base + alignment == g.base + 1
    {
      var s := emergencyGrains.ranges;
      forall g | g in Grains() ensures g.limit == g.base + alignment {
        var i :| 0 <= i < |s| && s[i] == g;
        assert Node(emergencyGrains.kind, memory[..], s, i);
      }
    }

    // ---------- Finding ----------

    /** The lowest tree block of at least the given size: what the guided descent of the tree finds. */
    method TreeFindFirst(size: nat) returns (block: CBSBlock?)
      requires TreeValid()
      ensures block != null ==> block in splayTree && block.Size() >= size
      ensures block != null ==> forall b | b in splayTree && b.Size() >= size :: block.base <= b.base
      ensures block == null ==> forall b | b in splayTree :: b.Size() < size
    {
      block := null;
      var rest := splayTree;
      while rest != {}
        invariant rest <= splayTree
        invariant block != null ==> block in splayTree && block.Size() >= size
        invariant block != null ==> forall b | b in splayTree - rest && b.Size() >= size :: block.base <= b.base
        invariant block == null ==> forall b | b in splayTree - rest :: b.Size() < size
      {
        var b :| b in rest;
        if b.Size() >= size && (block == null || b.base < block.base) {
          block := b;
        }
        rest := rest - {b};
      }
    }

    method TreeFindLast(size: nat) returns (block: CBSBlock?)
      requires TreeValid()
      ensures block != null ==> block in splayTree && block.Size() >= size
      ensures block != null ==> forall b | b in splayTree && b.Size() >= size :: b.base <= block.base
      ensures block == null ==> forall b | b in splayTree :: b.Size() < size
    {
      block := null;
      var rest := splayTree;
      while rest != {}
        invariant rest <= splayTree
        invariant block != null ==> block in splayTree && block.Size() >= size
        invariant block != null ==> forall b | b in splayTree - rest && b.Size() >= size :: b.base <= block.base
        invariant block == null ==> forall b | b in splayTree - rest :: b.Size() < size
      {
        var b :| b in rest;
        if b.Size() >= size && (block == null || b.base > block.base) {
          block := b;
        }
        rest := rest - {b};
      }
    }

    /** The greatest size in the tree, kept at the root as its maxSize; 0 if the tree is empty. */
    method TreeMaxSize() returns (size: nat)
      requires TreeValid()
      ensures forall b | b in splayTree :: b.Size() <= size
      ensures splayTree != {} ==> exists b :: b in splayTree && b.Size() == size
      ensures splayTree == {} ==> size == 0
    {
      size := 0;
      var rest := splayTree;
      while rest != {}
        invariant rest <= splayTree
        invariant forall b | b in splayTree - rest :: b.Size() <= size
        invariant splayTree - rest != {} ==> exists b :: b in splayTree && b.Size() == size
        invariant splayTree - rest == {} ==> size == 0
      {
        var b :| b in rest;
        if b.Size() > size {
          size := b.Size();
        }
        rest := rest - {b};
      }
    }

    method TreeFindLargest() returns (block: CBSBlock?, size: nat)
      requires TreeValid()
      ensures block == null <==> Tree() == {}
      ensures block != null ==> block in splayTree && block.Span() in Tree() && block.Size() == size
      ensures block == null ==> size == 0
      ensures forall r | r in Tree() :: r.Size() <= size
    {
      size := TreeMaxSize();
      block := TreeFindFirst(size);
      assert splayTree != {} ==> exists b :: b in splayTree && b.Span() in Tree();
    }

    /** Applies the find-delete option to the range found, which is still where it was found. */
    method FindDeleteRange(base0: nat, limit0: nat, size: nat, place: Place, findDelete: FindDelete,
        ghost all: set<Range>, ghost q: Range)
      returns (base: nat, limit: nat)
      requires Valid() && mayUseInline && 0 < size <= limit0 - base0 && size % alignment == 0
      requires all == All() && q == Range(base0, limit0) && q in At(place)
      modifies this`splayTree, this`announced, splayTree, emergencyBlocks, emergencyGrains, memory
      ensures Valid() && splayTree <= old(splayTree)
      ensures findDelete == FindDeleteLOW ==> base == q.base && limit == q.base + size
      ensures findDelete == FindDeleteHIGH ==> base == q.limit - size && limit == q.limit
      ensures findDelete == FindDeleteENTIRE || findDelete == FindDeleteNONE ==> base == q.base && limit == q.limit
      ensures All() == if findDelete == FindDeleteNONE then all else Carved(all, q, Range(base, limit))
      ensures old(Emergency()) == {} ==> Emergency() == {}
      ensures forall a | 0 <= a < memory.Length && memory[a] != old(memory[a]) :: a in Free()
    {
      base, limit := base0, limit0;
      match findDelete {
        case FindDeleteNONE => return;
        case FindDeleteLOW => limit := base + size;
        case FindDeleteHIGH => base := limit - size;
        case FindDeleteENTIRE =>
      }
      assert q in All() && Proper(q);
      EndsAreProper(q, size);
      DeleteFound(base, limit, place, q);
    }

    /** Takes an end, or all, of the range just found in one of the structures. */
    method DeleteFound(base: nat, limit: nat, place: Place, ghost found: Range)
      requires Valid() && mayUseInline && found in At(place) && Proper(Range(base, limit))
      requires found.base <= base && limit <= found.limit && (base == found.base || limit == found.limit)
      modifies this`splayTree, this`announced, splayTree, emergencyBlocks, emergencyGrains, memory
      ensures Valid() && splayTree <= old(splayTree)
      ensures All() == Carved(old(All()), found, Range(base, limit))
      ensures old(Emergency()) == {} ==> Emergency() == {}
      ensures forall a | 0 <= a < memory.Length && memory[a] != old(memory[a]) :: a in Free()
    {
      var res;
      ghost var q, refused, all := found, false, All();
      assert found in all;
      match place {
        case InTree => res, q, refused := DeleteFromTree(base, limit);
        case InBlocks => res, q := DeleteFromList(emergencyBlocks, base, limit);
        case InGrains => res, q := DeleteFromList(emergencyGrains, base, limit);
      }
      assert res == ResOK && q in all && q == found;
    }

    ghost function At(place: Place): set<Range>
      reads this`splayTree, splayTree, emergencyBlocks, emergencyGrains
    {
      match place
      case InTree => Tree()
      case InBlocks => Blocks()
      case InGrains => Grains()
    }

    lemma EndsAreProper(q: Range, size: nat)
      requires 0 < alignment && Proper(q) && 0 < size <= q.Size() && size % alignment == 0
      ensures Proper(Range(q.base, q.base + size)) && Proper(Range(q.limit - size, q.limit))
    {
      ModAddMultiple(q.base, size, alignment);
      ModAddMultiple(q.limit - size, size, alignment);
    }

    /** Finds the lowest free range of at least the given size. */
    method FindFirst(size: nat, findDelete: FindDelete)
      returns (found: bool, base: nat, limit: nat, ghost q: Range, ghost refused: bool)
      requires Valid() && mayUseInline && 0 < size && size % alignment == 0
      modifies this`splayTree, this`announced, splayTree, emergencyBlocks, emergencyGrains, memory
      ensures Valid()
      ensures forall b | b in splayTree :: b in old(splayTree) || fresh(b)
      ensures found <==> exists r :: r in old(All()) && r.Size() >= size
      ensures found ==> q in old(All()) && q.Size() >= size
      ensures found ==> forall r | r in old(All()) && r.Size() >= size :: q.base <= r.base
      ensures found && findDelete == FindDeleteLOW ==> base == q.base && limit == q.base + size
      ensures found && findDelete == FindDeleteHIGH ==> base == q.limit - size && limit == q.limit
      ensures found && (findDelete == FindDeleteENTIRE || findDelete == FindDeleteNONE) ==>
                base == q.base && limit == q.limit
      ensures All() == if !found || findDelete == FindDeleteNONE then old(All())
                       else Carved(old(All()), q, Range(base, limit))
      ensures !refused ==> Emergency() == {}
      ensures forall a | 0 <= a < memory.Length && memory[a] != old(memory[a]) :: a in Free()
    {
      refused := Flush();
      var place;
      ghost var all := All();
      found, base, limit, place := LocateFirst(size, all);
      q := Range(base, limit);
      if found {
        base, limit := FindDeleteRange(base, limit, size, place, findDelete, all, q);
      }
    }

    method LocateFirstInTree(size: nat) returns (found: bool, base: nat, limit: nat)
      requires TreeValid()
      ensures found ==> Range(base, limit) in Tree() && limit - base >= size
      ensures forall r | r in Tree() && r.Size() >= size :: found && base <= r.base
    {
      found, base, limit := false, 0, 0;
      var block := TreeFindFirst(size);
      if block != null {
        found, base, limit := true, block.base, block.limit;
        assert block.Span() in Tree();
      }
    }

    method LocateFirst(size: nat, ghost all: set<Range>) returns (found: bool, base: nat, limit: nat, place: Place)
      requires Valid() && 0 < size && all == All()
      ensures found <==> exists r :: r in all && r.Size() >= size
      ensures found ==> Range(base, limit) in At(place) && Range(base, limit) in all && limit - base >= size
      ensures found ==> forall r | r in all && r.Size() >= size :: base <= r.base
    {
      place := InTree;
      found, base, limit := LocateFirstInTree(size);
      var better, b, l := emergencyBlocks.FirstFit(size, found, base);
      if better {
        found, base, limit, place := true, b, l, InBlocks;
      }
      assert emergencyGrains.head != 0 ==> emergencyGrains.ranges != [];
      GrainSizes();
      if emergencyGrains.head != 0 && size <= alignment {
        b, l := emergencyGrains.First();
        if !found || b < base {
          found, base, limit, place := true, b, l, InGrains;
        }
      }
      assert emergencyGrains.head == 0 ==> Grains() == {} by { HeadIsNull(emergencyGrains); }
      assert found ==> Range(base, limit) in all;
    }

    static lemma HeadIsNull(list: EmergencyList)
      requires list.Valid()
      ensures list.head == 0 <==> list.ranges == []
      ensures list.head == 0 || list.head < list.memory.Length
    {
      if list.ranges != [] {
        assert Node(list.kind, list.memory[..], list.ranges, 0);
      }
    }

    /** Finds the highest free range of at least the given size. */
    method FindLast(size: nat, findDelete: FindDelete)
      returns (found: bool, base: nat, limit: nat, ghost q: Range, ghost refused: bool)
      requires Valid() && mayUseInline && 0 < size && size % alignment == 0
      modifies this`splayTree, this`announced, splayTree, emergencyBlocks, emergencyGrains, memory
      ensures Valid()
      ensures forall b | b in splayTree :: b in old(splayTree) || fresh(b)
      ensures found <==> exists r :: r in old(All()) && r.Size() >= size
      ensures found ==> q in old(All()) && q.Size() >= size
      ensures found ==> forall r | r in old(All()) && r.Size() >= size :: r.base <= q.base
      ensures found && findDelete == FindDeleteLOW ==> base == q.base && limit == q.base + size
      ensures found && findDelete == FindDeleteHIGH ==> base == q.limit - size && limit == q.limit
      ensures found && (findDelete == FindDeleteENTIRE || findDelete == FindDeleteNONE) ==>
                base == q.base && limit == q.limit
      ensures All() == if !found || findDelete == FindDeleteNONE then old(All())
                       else Carved(old(All()), q, Range(base, limit))
      ensures !refused ==> Emergency() == {}
      ensures forall a | 0 <= a < memory.Length && memory[a] != old(memory[a]) :: a in Free()
    {
      refused := Flush();
      var place;
      ghost var all := All();
      found, base, limit, place := LocateLast(size, all);
      q := Range(base, limit);
      if found {
        base, limit := FindDeleteRange(base, limit, size, place, findDelete, all, q);
      }
    }

    method LocateLastInTree(size: nat) returns (found: bool, base: nat, limit: nat)
      requires TreeValid()
      ensures found ==> Range(base, limit) in Tree() && limit - base >= size
      ensures forall r | r in Tree() && r.Size() >= size :: found && r.base <= base
    {
      found, base, limit := false, 0, 0;
      var block := TreeFindLast(size);
      if block != null {
        found, base, limit := true, block.base, block.limit;
        assert block.Span() in Tree();
      }
    }

    method LocateLast(size: nat, ghost all: set<Range>) returns (found: bool, base: nat, limit: nat, place: Place)
      requires Valid() && 0 < size && all == All()
      ensures found <==> exists r :: r in all && r.Size() >= size
      ensures found ==> Range(base, limit) in At(place) && Range(base, limit) in all && limit - base >= size
      ensures found ==> forall r | r in all && r.Size() >= size :: r.base <= base
    {
      place := InTree;
      found, base, limit := LocateLastInTree(size);
      var better, b, l := emergencyBlocks.LastFit(size, found, base);
      if better {
        found, base, limit, place := true, b, l, InBlocks;
      }
      GrainSizes();
      HeadIsNull(emergencyGrains);
      if emergencyGrains.head != 0 && size <= alignment {
        b, l := emergencyGrains.Last();
        if !found || b > base {
          found, base, limit, place := true, b, l, InGrains;
        }
      }
      assert found ==> Range(base, limit) in all;
    }

    /** Finds a free range of the greatest size. */
    method FindLargest(findDelete: FindDelete)
      returns (found: bool, base: nat, limit: nat, ghost q: Range, ghost refused: bool)
      requires Valid() && mayUseInline
      modifies this`splayTree, this`announced, splayTree, emergencyBlocks, emergencyGrains, memory
      ensures Valid()
      ensures forall b | b in splayTree :: b in old(splayTree) || fresh(b)
      ensures found <==> old(All()) != {}
      ensures found ==> q in old(All()) && base == q.base && limit == q.limit
      ensures found ==> forall r | r in old(All()) :: r.Size() <= q.Size()
      ensures All() == if !found || findDelete == FindDeleteNONE then old(All()) else old(All()) - {q}
      ensures !refused ==> Emergency() == {}
      ensures forall a | 0 <= a < memory.Length && memory[a] != old(memory[a]) :: a in Free()
    {
      refused := Flush();
      var place;
      ghost var all := All();
      found, base, limit, place := LocateLargest(all);
      q := Range(base, limit);
      if found {
        WholeSize(q);
        base, limit := FindDeleteRange(base, limit, limit - base, place, findDelete, all, q);
      }
    }

    lemma WholeSize(q: Range)
      requires 0 < alignment && Proper(q)
      ensures q.Size() % alignment == 0 && 0 < q.Size()
    {
      DivModUnique(q.Size(), alignment, q.limit / alignment - q.base / alignment, 0);
    }

    method LocateLargest(ghost all: set<Range>) returns (found: bool, base: nat, limit: nat, place: Place)
      requires Valid() && all == All()
      ensures found <==> all != {}
      ensures found ==> Range(base, limit) in At(place) && Range(base, limit) in all
      ensures found ==> forall r | r in all :: r.Size() <= limit - base
    {
      found, base, limit, place := false, 0, 0, InTree;
      var block, size := TreeFindLargest();
      if block != null {
        found, base, limit := true, block.base, block.limit;
      }
      var better, b, l := emergencyBlocks.LargestFit(size);
      if better {
        found, base, limit, place := true, b, l, InBlocks;
      }
      GrainSizes();
      HeadIsNull(emergencyGrains);
      HeadIsNull(emergencyBlocks);
      if !found && emergencyGrains.head != 0 {
        base, limit := emergencyGrains.First();
        found, place := true, InGrains;
      }
      assert found ==> Range(base, limit) in all && limit - base >= 1;
      assert forall r | r in Blocks() :: r in all && r.Size() >= 1;
    }

    // ---------- The minimum size ----------

    /** Changes the least size the client hears of, telling it of the blocks that this affects. */
    method SetMinSize(size: nat)
      requires Valid()
      modifies this`minSize, this`announced
      ensures Valid() && minSize == size
    {
      RetellAll(minSize, size);
      minSize := size;
    }

    method RetellAll(oldSize: nat, size: nat)
      requires announced.Keys <= splayTree && forall b | b in splayTree :: Told(b, oldSize)
      modifies this`announced
      ensures announced.Keys <= splayTree && forall b | b in splayTree :: Told(b, size)
    {
      var rest := splayTree;
      while rest != {}
        invariant rest <= splayTree && announced.Keys <= splayTree
        invariant forall b | b in splayTree :: Told(b, if b in rest then oldSize else size)
      {
        var b :| b in rest;
        Retell(b, oldSize, size);
        rest := rest - {b};
      }
    }

    /** The client has been told of a block just if it is of the given size, and of its true size. */
    ghost predicate Told(b: CBSBlock, size: nat)
      reads this`announced, b
    {
      (b in announced <==> b.Size() >= size) && (b in announced ==> announced[b] == b.Size())
    }

    method Retell(block: CBSBlock, oldSize: nat, size: nat)
      requires Told(block, oldSize)
      modifies this`announced
      ensures Told(block, size)
      ensures announced.Keys <= old(announced.Keys) + {block}
      ensures forall b | b != block :: (b in announced <==> b in old(announced))
      ensures forall b | b != block && b in announced :: announced[b] == old(announced)[b]
    {
      if size < oldSize {
        if block.Size() < oldSize && block.Size() >= size {
          CallNew(block, block.Size());
        }
      } else if size > oldSize {
        if block.Size() >= oldSize && block.Size() < size {
          CallDelete(block, block.Size());
        }
      }
    }
  }
}
