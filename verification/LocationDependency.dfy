/** Location dependencies: has any of the references a client hashed moved since?

  Reference sets are sets of zones.  The arena's epoch advances, and its history of movement is updated,
  at each flip; a client asks about staleness without a lock, so flips can come between its loads.
*/
module LocationDependencies {

  type RefSet = set<nat>

  const LDHistoryLENGTH := 4

  /** Everything moved from an epoch on; moves[e] is what moved when the epoch advanced from e. */
  ghost function Since(moves: seq<RefSet>, epoch: nat): (rs: RefSet)
    ensures forall z :: z in rs <==> exists e :: epoch <= e < |moves| && z in moves[e]
    decreases |moves| - epoch
  {
    if |moves| <= epoch then {} else moves[epoch] + Since(moves, epoch + 1)
  }

  lemma SinceExtended(moves: seq<RefSet>, rs: RefSet, epoch: nat)
    ensures Since(moves + [rs], epoch) == if epoch <= |moves| then Since(moves, epoch) + rs else {}
  {
    var longer := moves + [rs];
    forall z ensures z in Since(longer, epoch) <==> z in (if epoch <= |moves| then Since(moves, epoch) + rs else {}) {
      if z in Since(moves, epoch) {
        var e :| epoch <= e < |moves| && z in moves[e];
        assert z in longer[e];
      }
      if z in rs && epoch <= |moves| {
        assert z in longer[|moves|];
      }
    }
  }

  /** More movement, or an earlier epoch, only adds to what has moved. */
  lemma SinceGrows(moves: seq<RefSet>, more: seq<RefSet>, epoch: nat, earlier: nat)
    requires moves <= more && earlier <= epoch
    ensures Since(moves, epoch) <= Since(more, earlier)
  {
    forall z | z in Since(moves, epoch) ensures z in Since(more, earlier) {
      var e :| epoch <= e < |moves| && z in moves[e];
      assert z in more[e];
    }
  }

  /** The epoch that is a given age. */
  function EpochOfAge(now: nat, age: nat): nat {
    if age <= now then now - age else 0
  }

  /** The history entry of an age is the movement since the epoch of that age. */
  ghost predicate EntryIn(history: seq<RefSet>, moves: seq<RefSet>, now: nat, age: nat)
    requires |history| == LDHistoryLENGTH && age <= LDHistoryLENGTH
  {
    history[(now + LDHistoryLENGTH - age) % LDHistoryLENGTH] == Since(moves, EpochOfAge(now, age))
  }

  /** The entry for the newest age is the one that is reused. */
  lemma Slot(now: nat, age: nat)
    requires 1 <= age <= LDHistoryLENGTH
    ensures (now + 1 + LDHistoryLENGTH - age) % LDHistoryLENGTH == now % LDHistoryLENGTH <==> age == 1
  {
  }

  /** Aging the history moves every entry to the next age. */
  lemma EntryAges(moves: seq<RefSet>, rs: RefSet, was: seq<RefSet>, history: seq<RefSet>, age: nat)
    requires |was| == |history| == LDHistoryLENGTH && 1 <= age <= LDHistoryLENGTH
    requires forall j | 0 <= j < LDHistoryLENGTH ::
               history[j] == if j == |moves| % LDHistoryLENGTH then rs else was[j] + rs
    requires 1 < age ==> EntryIn(was, moves, |moves|, age - 1)
    ensures EntryIn(history, moves + [rs], |moves| + 1, age)
  {
    var now := |moves|;
    SinceExtended(moves, rs, EpochOfAge(now + 1, age));
    Slot(now, age);
    if age == 1 {
      assert Since(moves, now) == {} && {} + rs == rs;
    } else {
      assert EpochOfAge(now + 1, age) == EpochOfAge(now, age - 1);
      assert (now + 1 + LDHistoryLENGTH - age) == (now + LDHistoryLENGTH - (age - 1));
    }
  }

  class Arena {
    var epoch: nat
    const history: array<RefSet>
    var prehistory: RefSet
    ghost var moves: seq<RefSet>

    /** Each history entry is the movement since the epoch of its age, and the prehistory is all of it. */
    ghost predicate Valid()
      reads this, history
    {
      && history.Length == LDHistoryLENGTH && |moves| == epoch
      && (forall age | 1 <= age <= LDHistoryLENGTH :: EntryValid(age))
      && prehistory == Since(moves, 0)
    }

    ghost predicate EntryValid(age: nat)
      requires history.Length == LDHistoryLENGTH && age <= LDHistoryLENGTH
      reads this, history
    {
      EntryIn(history[..], moves, epoch, age)
    }

    constructor ()
      ensures Valid() && moves == [] && fresh(history)
    {
      epoch, prehistory, moves := 0, {}, [];
      history := new RefSet[LDHistoryLENGTH](_ => {});
    }

    /** What the source checks of the history: each entry is within the next oldest, and the oldest within
        the prehistory. */
    lemma HistoryIsNested(age: nat)
      requires Valid() && 1 <= age <= LDHistoryLENGTH
      ensures var newer := history[(epoch + LDHistoryLENGTH - age) % LDHistoryLENGTH];
              newer <= if age == LDHistoryLENGTH then prehistory
                       else history[(epoch + LDHistoryLENGTH - (age + 1)) % LDHistoryLENGTH]
    {
      assert EntryValid(age) && (age < LDHistoryLENGTH ==> EntryValid(age + 1));
      SinceGrows(moves, moves, EpochOfAge(epoch, age), EpochOfAge(epoch, age + 1));
      SinceGrows(moves, moves, EpochOfAge(epoch, age), 0);
    }

    /** The entry that an epoch not older than the history uses is the movement since then. */
    lemma RecentEntry(since: nat)
      requires Valid() && 1 <= epoch - since <= LDHistoryLENGTH
      ensures history[since % LDHistoryLENGTH] == Since(moves, since)
    {
      assert EntryValid(epoch - since);
    }

    /** Empties the entry that is to be reused, and adds the moved set to every entry. */
    method AgeHistory(rs: RefSet)
      requires history.Length == LDHistoryLENGTH
      modifies history
      ensures forall j | 0 <= j < LDHistoryLENGTH ::
                history[j] == if j == epoch % LDHistoryLENGTH then rs else old(history[j]) + rs
    {
      history[epoch % LDHistoryLENGTH] := {};
      ghost var was := history[..];
      var i := 0;
      while i < LDHistoryLENGTH
        invariant 0 <= i <= LDHistoryLENGTH
        invariant forall j | 0 <= j < LDHistoryLENGTH :: history[j] == if j < i then was[j] + rs else was[j]
      {
        history[i] := history[i] + rs;
        i := i + 1;
      }
    }

    /** Records that a set of references has moved, and advances the epoch. */
    method LDAge(rs: RefSet)
      requires Valid() && rs != {}
      modifies this, history
      ensures Valid() && moves == old(moves) + [rs]
    {
      ghost var before, was := moves, history[..];
      AgeHistory(rs);
      prehistory := prehistory + rs;
      epoch := epoch + 1;
      moves := moves + [rs];
      SinceExtended(before, rs, 0);
      forall age | 1 <= age <= LDHistoryLENGTH ensures EntryValid(age) {
        assert 1 < age ==> old(EntryValid(age - 1));
        EntryAges(before, rs, was, history[..], age);
      }
    }

    /** Makes given flips, one after the other. */
    method Flip(flips: seq<RefSet>)
      requires Valid() && forall f | f in flips :: f != {}
      modifies this, history
      ensures Valid() && moves == old(moves) + flips
    {
      var i := 0;
      while i < |flips|
        invariant i <= |flips| && Valid() && moves == old(moves) + flips[..i]
      {
        assert flips[i] in flips;
        LDAge(flips[i]);
        assert flips[..i + 1] == flips[..i] + [flips[i]];
        i := i + 1;
      }
      assert flips[..i] == flips;
    }

    /** Other threads may make any number of flips. */
    method Interfere()
      requires Valid()
      modifies this, history
      ensures Valid() && old(moves) <= moves
    {
      var flips: nat := *;
      while 0 < flips
        invariant Valid() && old(moves) <= moves
      {
        var rs: RefSet := *;
        if rs != {} {
          LDAge(rs);
        }
        flips := flips - 1;
      }
    }
  }

  /** What is in a history entry after given movement. */
  ghost function EntryAt(moves: seq<RefSet>, slot: nat): RefSet {
    Since(moves, EpochOfAge(|moves|, (|moves| - 1 - slot) % LDHistoryLENGTH + 1))
  }

  /** The history is determined by the movement there has been. */
  lemma EntryIs(arena: Arena, slot: nat)
    requires arena.Valid() && slot < LDHistoryLENGTH
    ensures arena.history[slot] == EntryAt(arena.moves, slot)
  {
    assert arena.EntryValid((arena.epoch - 1 - slot) % LDHistoryLENGTH + 1);
  }

  // ---------- Testing the age first ----------

  /** What the answer would be if the age were tested before the history is loaded, with flips coming between:
      `moves` is the movement at the test. */
  ghost predicate TestedFirst(moves: seq<RefSet>, flips: seq<RefSet>, epoch: nat, rs: RefSet) {
    && |moves| != epoch
    && rs * (if |moves| - epoch > LDHistoryLENGTH then Since(moves + flips, 0)
             else EntryAt(moves + flips, epoch % LDHistoryLENGTH)) != {}
  }

  /** The exact answer: whether a set meets what has moved since an epoch, or all that ever moved if the
      epoch is older than the history. */
  ghost predicate Stale(moves: seq<RefSet>, epoch: nat, rs: RefSet) {
    && epoch != |moves|
    && rs * Since(moves, if |moves| - epoch <= LDHistoryLENGTH then epoch else 0) != {}
  }

  class LD {
    var epoch: nat
    var rs: RefSet
    /** The references added, by zone, each with the epoch it was added at. */
    ghost var added: set<(nat, nat)>

    /** The dependency covers everything added to it, from its epoch on. */
    ghost predicate Valid(arena: Arena)
      reads this, arena
    {
      && epoch <= arena.epoch
      && (forall a | a in added :: a.0 in rs && epoch <= a.1)
    }

    /** Something added has moved since it was added. */
    ghost predicate Moved(moves: seq<RefSet>)
      reads this
    {
      exists a :: a in added && a.0 in Since(moves, a.1)
    }

    constructor (arena: Arena)
      requires arena.Valid()
      modifies arena, arena.history
      ensures Valid(arena) && arena.Valid() && old(arena.moves) <= arena.moves
    {
      epoch, rs, added := arena.epoch, {}, {};
      new;
      arena.Interfere();
    }

    /** Empties the dependency.  Flips after the epoch is read only make it cover more. */
    method LDReset(arena: Arena)
      requires arena.Valid()
      modifies this, arena, arena.history
      ensures Valid(arena) && arena.Valid() && old(arena.moves) <= arena.moves
      ensures rs == {} && added == {} && old(arena.epoch) <= epoch
    {
      arena.Interfere();
      epoch := arena.epoch;
      arena.Interfere();
      rs := {};
      added := {};
      arena.Interfere();
    }

    /** Adds a reference, which must be before its location is depended on. */
    method LDAdd(arena: Arena, zone: nat)
      requires Valid(arena) && arena.Valid()
      modifies this, arena, arena.history
      ensures Valid(arena) && arena.Valid() && old(arena.moves) <= arena.moves
      ensures epoch == old(epoch) && rs == old(rs) + {zone} && added == old(added) + {(zone, old(arena.epoch))}
    {
      ghost var now := arena.epoch;
      arena.Interfere();
      rs := rs + {zone};
      added := added + {(zone, now)};
      arena.Interfere();
    }

    /** Whether the dependency is stale, with flips between any two loads from the arena.  Anything added that
        moved before the call makes it stale; and if no flip comes during the call the answer is exact. */
    method LDIsStale(arena: Arena) returns (stale: bool)
      requires Valid(arena) && arena.Valid()
      modifies arena, arena.history
      ensures Valid(arena) && arena.Valid() && old(arena.moves) <= arena.moves
      ensures old(rs * Since(arena.moves, epoch)) != {} ==> stale
      ensures old(Moved(arena.moves)) ==> stale
      ensures stale ==> rs * Since(arena.moves, 0) != {}
      ensures arena.moves == old(arena.moves) && arena.epoch - epoch <= LDHistoryLENGTH ==>
                (stale <==> rs * Since(arena.moves, epoch) != {})
      ensures arena.moves == old(arena.moves) && arena.epoch - epoch > LDHistoryLENGTH ==>
                (stale <==> rs * Since(arena.moves, 0) != {})
    {
      ghost var before := arena.moves;
      MovedIsSince(before);
      if arena.epoch == epoch {
        return false;
      }
      arena.Interfere();
      ghost var atLoad := arena.moves;
      var loaded := arena.history[epoch % LDHistoryLENGTH];
      if arena.epoch - epoch <= LDHistoryLENGTH {
        arena.RecentEntry(epoch);
      }
      arena.Interfere();
      ghost var atTest := arena.moves;
      if arena.epoch - epoch > LDHistoryLENGTH {
        arena.Interfere();
        loaded := arena.prehistory;
      }
      stale := rs * loaded != {};
      if |atTest| - epoch > LDHistoryLENGTH {
        SinceGrows(before, arena.moves, epoch, 0);
      } else {
        SinceGrows(before, atLoad, epoch, epoch);
      }
      SinceGrows(atLoad, arena.moves, epoch, 0);
    }

    /** The same with the two loads the other way round.  This is not what the source does. */
    method TestAgeFirst(arena: Arena, flips: seq<RefSet>) returns (stale: bool)
      requires Valid(arena) && arena.Valid() && forall f | f in flips :: f != {}
      modifies arena, arena.history
      ensures arena.Valid() && (arena.moves == old(arena.moves) || arena.moves == old(arena.moves) + flips)
      ensures stale <==> TestedFirst(old(arena.moves), flips, epoch, rs)
    {
      if arena.epoch == epoch {
        return false;
      }
      var ancient := arena.epoch - epoch > LDHistoryLENGTH;
      arena.Flip(flips);
      var loaded := if ancient then arena.prehistory else arena.history[epoch % LDHistoryLENGTH];
      EntryIs(arena, epoch % LDHistoryLENGTH);
      stale := rs * loaded != {};
    }

    lemma MovedIsSince(moves: seq<RefSet>)
      requires forall a | a in added :: a.0 in rs && epoch <= a.1
      ensures Moved(moves) ==> rs * Since(moves, epoch) != {}
    {
      if Moved(moves) {
        var a :| a in added && a.0 in Since(moves, a.1);
        SinceGrows(moves, moves, a.1, epoch);
        assert a.0 in rs * Since(moves, epoch);
      }
    }

    /** Merges another dependency into this one. */
    method LDMerge(arena: Arena, from: LD)
      requires Valid(arena) && from.Valid(arena)
      modifies this
      ensures Valid(arena)
      ensures epoch == (if old(from.epoch) < old(epoch) then old(from.epoch) else old(epoch))
      ensures rs == old(rs) + old(from.rs) && added == old(added) + old(from.added)
    {
      if from.epoch < epoch {
        epoch := from.epoch;
      }
      rs := rs + from.rs;
      added := added + from.added;
    }
  }

  /** A merged dependency is stale whenever either part is. */
  lemma MergeIsStale(moves: seq<RefSet>, epoch: nat, rs: RefSet, epoch': nat, rs': RefSet)
    requires epoch <= |moves| && epoch' <= |moves| && Stale(moves, epoch, rs)
    ensures Stale(moves, if epoch' < epoch then epoch' else epoch, rs + rs')
    ensures Stale(moves, if epoch < epoch' then epoch else epoch', rs' + rs)
  {
    var merged := if epoch' < epoch then epoch' else epoch;
    var from := if |moves| - epoch <= LDHistoryLENGTH then epoch else 0;
    var from' := if |moves| - merged <= LDHistoryLENGTH then merged else 0;
    SinceGrows(moves, moves, from, from');
    var z :| z in rs * Since(moves, from);
    assert z in (rs + rs') * Since(moves, from') && z in (rs' + rs) * Since(moves, from');
  }

  /** The age of the entry that an epoch not older than the history uses. */
  lemma AgeOfSlot(now: nat, epoch: nat)
    requires 1 <= now - epoch <= LDHistoryLENGTH
    ensures (now - 1 - epoch % LDHistoryLENGTH) % LDHistoryLENGTH + 1 == now - epoch
  {
  }

  /** Testing the age first would be safe if the flips did not make the dependency older than the history. */
  lemma TestedFirstIsSafe(moves: seq<RefSet>, flips: seq<RefSet>, epoch: nat, rs: RefSet)
    requires epoch <= |moves| && rs * Since(moves, epoch) != {}
    requires !(|moves| - epoch <= LDHistoryLENGTH < |moves| + |flips| - epoch)
    ensures TestedFirst(moves, flips, epoch, rs)
  {
    var all := moves + flips;
    assert moves <= all;
    var z :| z in rs * Since(moves, epoch);
    if |moves| - epoch > LDHistoryLENGTH {
      SinceGrows(moves, all, epoch, 0);
      assert z in rs * Since(all, 0);
    } else {
      SinceGrows(moves, all, epoch, epoch);
      AgeOfSlot(|all|, epoch);
      assert z in rs * EntryAt(all, epoch % LDHistoryLENGTH);
    }
  }

  /** If they did, it would not be: the flips reuse the entry, and a dependency that is stale seems not to be.
      So the source loads the history before it tests the age. */
  lemma LoadOrderMatters()
    ensures var moves, flips := [{1}, {2}, {2}, {2}], [{3}];
            && Stale(moves, 0, {1}) && !TestedFirst(moves, flips, 0, {1})
            && |moves| <= LDHistoryLENGTH < |moves| + |flips|
  {
    var moves: seq<RefSet>, flips: seq<RefSet> := [{1}, {2}, {2}, {2}], [{3}];
    assert 1 in moves[0] && 1 in {1} * Since(moves, 0);
    var all := moves + flips;
    assert all == [{1}, {2}, {2}, {2}, {3}];
    assert Since(all, 5) == {} && Since(all, 4) == {3};
  }
}
