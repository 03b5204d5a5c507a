/** Concrete states in which the coalescing block structure loses free memory, or holds some of it twice. */
module CbsLosses {
  import opened Ranges
  import opened RangeLists
  import opened EmergencyLists
  import opened CoalescingBlocks

  /** With [2,4) and [8,10) on the block list and [5,6) on the grain list, freeing [4,8) succeeds, though [5,6)
      is free.  The assertion in the flush holds exactly if a block is refused, for [2,10) or in the flush. */
  method OverlapMissed() returns (cbs: CBS, res: Res, base: nat, limit: nat, ghost held: bool, ghost refused: bool)
    ensures res == ResOK && Range(base, limit) == Range(2, 10)
    ensures cbs.All() == {Range(2, 10), Range(5, 6)} && !Isolated(cbs.All())
    ensures held <==> refused
  {
    cbs := ThreeHeld();
    MissedHere(cbs);
    ghost var all := cbs.All();
    res, base, limit, held, refused := cbs.Insert(4, 8);
    assert all - {Range(2, 4), Range(8, 10)} == {Range(5, 6)};
  }

  method ThreeHeld() returns (cbs: CBS)
    ensures fresh(cbs) && fresh(cbs.splayTree) && fresh(cbs.emergencyBlocks) && fresh(cbs.emergencyGrains)
    ensures fresh(cbs.memory) && cbs.memory.Length == 16 && cbs.alignment == 1
    ensures cbs.Valid() && cbs.Tree() == {} && cbs.All() == {Range(2, 4), Range(8, 10), Range(5, 6)}
  {
    cbs := Empty();
    HoldInline(cbs, 2, 4);
    HoldInline(cbs, 8, 10);
    HoldInline(cbs, 5, 6);
  }

  lemma MissedHere(cbs: CBS)
    requires cbs.Valid() && cbs.Tree() == {} && cbs.All() == {Range(2, 4), Range(8, 10), Range(5, 6)}
    ensures cbs.Missed(Range(4, 8)) && Merged(cbs.Emergency(), Range(4, 8)) == Range(2, 10)
    ensures Touching(cbs.Emergency(), Range(4, 8)) == {Range(2, 4), Range(8, 10)}
  {
    assert cbs.Emergency() == cbs.All();
    BySize(cbs);
    assert Range(2, 4) in cbs.Emergency() && Range(8, 10) in cbs.Emergency() && Range(5, 6) in cbs.Emergency();
    assert Range(2, 4) in cbs.Blocks() && Range(8, 10) in cbs.Blocks() && Range(5, 6) in cbs.Grains();
    assert Range(5, 6).Overlaps(Range(4, 8)) && Range(2, 4) in cbs.Blocks() + cbs.Grains();
  }

  /** With [2,4) and [6,8) on the block list, freeing [4,7) fails, and [2,4) is no longer free. */
  method FailedFreeLoses() returns (cbs: CBS, res: Res)
    ensures res == ResFAIL && cbs.Valid() && cbs.All() == {Range(6, 8)}
  {
    cbs := TwoHeld();
    LostHere(cbs);
    ghost var all := cbs.All();
    var base, limit;
    ghost var held, refused;
    res, base, limit, held, refused := cbs.Insert(4, 7);
    assert all - {Range(2, 4)} == {Range(6, 8)};
  }

  method TwoHeld() returns (cbs: CBS)
    ensures fresh(cbs) && fresh(cbs.splayTree) && fresh(cbs.emergencyBlocks) && fresh(cbs.emergencyGrains)
    ensures fresh(cbs.memory) && cbs.memory.Length == 16 && cbs.alignment == 1
    ensures cbs.Valid() && cbs.Tree() == {} && cbs.All() == {Range(2, 4), Range(6, 8)}
  {
    cbs := Empty();
    HoldInline(cbs, 2, 4);
    HoldInline(cbs, 6, 8);
  }

  lemma LostHere(cbs: CBS)
    requires cbs.Valid() && cbs.Tree() == {} && cbs.All() == {Range(2, 4), Range(6, 8)}
    ensures Meets(cbs.All(), Range(4, 7)) && !cbs.Missed(Range(4, 7)) && cbs.Lost(Range(4, 7)) == {Range(2, 4)}
  {
    assert cbs.Emergency() == cbs.All();
    BySize(cbs);
    assert forall g | g in cbs.Grains() :: g in cbs.Emergency() && g.Size() == 1;
    assert cbs.Blocks() == {Range(2, 4), Range(6, 8)} == cbs.Blocks() + cbs.Grains();
    assert Range(6, 8) in cbs.Blocks() && Range(6, 8).Overlaps(Range(4, 7));
    assert Lefts(cbs.Blocks(), Range(4, 7)) == {Range(2, 4)};
  }

  /** With [2,10) in the tree and no inline use, allocating [4,6) loses [2,4) if a block is refused for it. */
  method SplitLoses() returns (cbs: CBS, res: Res, ghost refused: bool)
    ensures cbs.Valid() && (res == ResMEMORY <==> refused)
    ensures cbs.All() == if refused then {Range(6, 10)} else {Range(2, 4), Range(6, 10)}
  {
    cbs := OneBlock();
    OneHolds(cbs);
    ghost var q, r := Range(2, 10), Range(4, 6);
    res, q, refused := cbs.Delete(4, 6);
    assert Fragments(q, r) == {Range(2, 4), Range(6, 10)};
  }

  method OneBlock() returns (cbs: CBS)
    ensures fresh(cbs) && fresh(cbs.splayTree) && fresh(cbs.emergencyBlocks) && fresh(cbs.emergencyGrains)
    ensures fresh(cbs.memory) && cbs.Valid() && cbs.alignment == 1 && !cbs.mayUseInline && cbs.All() == {Range(2, 10)}
  {
    var memory := new nat[16];
    cbs := new CBS(memory, 9, 1, false);
    var block := new CBSBlock(2, 10);
    cbs.splayTree := {block};
    assert cbs.Tree() == cbs.All() == {block.Span()};
  }

  lemma OneHolds(cbs: CBS)
    requires cbs.Valid() && cbs.All() == {Range(2, 10)}
    ensures Addresses(Range(4, 6)) <= cbs.Free()
  {
    assert Range(2, 10) in cbs.All() && Range(2, 10).Contains(4) && Range(2, 10).Contains(5);
  }

  method Empty() returns (cbs: CBS)
    ensures fresh(cbs) && fresh(cbs.splayTree) && fresh(cbs.emergencyBlocks) && fresh(cbs.emergencyGrains)
    ensures fresh(cbs.memory) && cbs.memory.Length == 16
    ensures cbs.Valid() && cbs.alignment == 1 && cbs.mayUseInline && cbs.Tree() == cbs.All() == {}
  {
    var memory := new nat[16];
    cbs := new CBS(memory, 1, 1, true);
  }

  /** A range is on an emergency list after a block has been refused for it. */
  method HoldInline(cbs: CBS, base: nat, limit: nat)
    requires cbs.Valid() && cbs.mayUseInline && cbs.Proper(Range(base, limit)) && cbs.Tree() == {}
    requires forall s | s in cbs.All() :: s.Apart(Range(base, limit))
    modifies cbs.emergencyBlocks, cbs.emergencyGrains, cbs.memory
    ensures cbs.Valid() && cbs.splayTree == old(cbs.splayTree) && cbs.Tree() == {}
    ensures cbs.All() == old(cbs.All()) + {Range(base, limit)}
  {
    var _ := cbs.InsertFragment(base, limit);
  }

  /** An emergency range is on the list for its size. */
  lemma BySize(cbs: CBS)
    requires cbs.Valid()
    ensures forall e | e in cbs.Blocks() :: e.Size() >= 2
    ensures forall e | e in cbs.Grains() :: e.Size() == 1
  {
    cbs.GrainSizes();
    var list := cbs.emergencyBlocks;
    forall e | e in cbs.Blocks() ensures e.Size() >= 2 {
      var i :| 0 <= i < |list.ranges| && list.ranges[i] == e;
      assert Node(list.kind, list.memory[..], list.ranges, i);
    }
  }
}
