/** The splay tree of free blocks: the top-down splay, and the operations made of splays.

  A splay takes the search path apart into a left tree of the nodes passed on the left, a right tree of those
  passed on the right, and the subtree still to be searched.  Each of the two is grown at one end only, so it is
  kept here as the spine of nodes from that end up.
*/
module SplayTrees {
  import opened Ranges
  import opened RangeLists
  import opened FastFind
  import opened CoalescingBlocks

  datatype Compare = CompareLESS | CompareEQUAL | CompareGREATER

  /** How the search for something goes on at a node. */
  type Comparer = Tree -> Compare

  datatype Spine = End | Link(side: Tree, block: Range, maxSize: int, up: Spine) {

    /** The blocks of a left tree, in order; its last node is the end of the spine. */
    ghost function LeftOrder(): seq<Range> {
      match this
      case End => []
      case Link(s, b, _, up) => up.LeftOrder() + s.InOrder() + [b]
    }

    ghost function RightOrder(): seq<Range> {
      match this
      case End => []
      case Link(s, b, _, up) => [b] + s.InOrder() + up.RightOrder()
    }

    ghost function Length(): nat {
      match this
      case End => 0
      case Link(_, _, _, up) => 1 + up.Length()
    }

    ghost predicate SidesExact() {
      match this
      case End => true
      case Link(s, _, _, up) => s.Exact() && up.SidesExact()
    }
  }

  /** The caches are exact off the path of a search; on it they may be anything. */
  ghost predicate ExactOffPath(t: Tree, compare: Comparer) {
    match t
    case Leaf => true
    case Node(l, _, _, r) =>
      match compare(t)
      case CompareLESS => ExactOffPath(l, compare) && r.Exact()
      case CompareGREATER => l.Exact() && ExactOffPath(r, compare)
      case CompareEQUAL => l.Exact() && r.Exact()
  }

  /** The caches are exact below the root. */
  ghost predicate ExactBelow(t: Tree) {
    t.Node? ==> t.left.Exact() && t.right.Exact()
  }

  lemma {:induction false} ExactIsExactOffPath(t: Tree, compare: Comparer)
    requires t.Exact()
    ensures ExactOffPath(t, compare)
  {
    if t.Node? {
      ExactIsExactOffPath(t.left, compare);
      ExactIsExactOffPath(t.right, compare);
    }
  }

  datatype Found = Found(found: bool, last: Tree)

  /** The plain search, without splaying: whether it succeeds, and the last subtree on its path. */
  ghost function Descend(t: Tree, compare: Comparer): (f: Found)
    requires t.Node?
    ensures f.last.Node?
  {
    match compare(t)
    case CompareLESS => if t.left.Node? then Descend(t.left, compare) else Found(false, t)
    case CompareGREATER => if t.right.Node? then Descend(t.right, compare) else Found(false, t)
    case CompareEQUAL => Found(true, t)
  }

  /** The steps down the path of a search. */
  ghost function Steps(t: Tree, compare: Comparer): nat {
    if t.Leaf? then 0
    else
      match compare(t)
      case CompareLESS => if t.left.Node? then 1 + Steps(t.left, compare) else 0
      case CompareGREATER => if t.right.Node? then 1 + Steps(t.right, compare) else 0
      case CompareEQUAL => 0
  }

  /** The search of the tree has come to the subtree top, with the rest taken apart on either side of it. */
  ghost predicate Splaying(root: Tree, compare: Comparer, left: Spine, top: Tree, right: Spine) {
    && root.Node? && top.Node?
    && left.LeftOrder() + top.InOrder() + right.RightOrder() == root.InOrder()
    && left.SidesExact() && right.SidesExact()
    && ExactOffPath(top, compare) && Descend(top, compare) == Descend(root, compare)
  }

  /** Moves the top to the end of the left tree, leaving its right child as the top. */
  method SplayLinkLeft(top0: Tree, left0: Spine, ghost right: Spine) returns (top: Tree, left: Spine)
    requires top0.Node?
    ensures top == top0.right && left == Link(top0.left, top0.block, top0.maxSize, left0)
    ensures left.LeftOrder() + top.InOrder() + right.RightOrder() ==
            left0.LeftOrder() + top0.InOrder() + right.RightOrder()
  {
    top, left := top0.right, Link(top0.left, top0.block, top0.maxSize, left0);
    assert left.LeftOrder() + top.InOrder() == left0.LeftOrder() + top0.InOrder();
  }

  method SplayLinkRight(top0: Tree, ghost left: Spine, right0: Spine) returns (top: Tree, right: Spine)
    requires top0.Node?
    ensures top == top0.left && right == Link(top0.right, top0.block, top0.maxSize, right0)
    ensures left.LeftOrder() + top.InOrder() + right.RightOrder() ==
            left.LeftOrder() + top0.InOrder() + right0.RightOrder()
  {
    top, right := top0.left, Link(top0.right, top0.block, top0.maxSize, right0);
    assert top.InOrder() + right.RightOrder() == top0.InOrder() + right0.RightOrder();
    Reassociate(left.LeftOrder(), top.InOrder(), right.RightOrder());
    Reassociate(left.LeftOrder(), top0.InOrder(), right0.RightOrder());
  }

  lemma Reassociate<T>(a: seq<T>, b: seq<T>, c: seq<T>)
    ensures a + b + c == a + (b + c)
  {
  }

  /** One turn of the splay, the path leading left: two steps down it, or at most one where it ends.  Neither side
      gets more than one node longer: of two steps the same way the second node takes the first with it. */
  method SplayTurnLess(ghost root: Tree, compare: Comparer, left0: Spine, top0: Tree, right0: Spine)
    returns (done: bool, found: bool, left: Spine, top: Tree, right: Spine)
    requires Splaying(root, compare, left0, top0, right0) && compare(top0) == CompareLESS
    ensures Splaying(root, compare, left, top, right)
    ensures done ==> Descend(root, compare) == Found(found, top) && ExactBelow(top)
    ensures !done ==> top < top0
    ensures if done then Steps(top, compare) == 0 && Steps(top0, compare) <= 1
            else Steps(top0, compare) == Steps(top, compare) + 2
    ensures left.Length() <= left0.Length() + 1 && right.Length() <= right0.Length() + 1
  {
    left, top, right := left0, top0, right0;
    var topLeft := top.left;
    if topLeft.Leaf? {
      return true, false, left, top, right;
    }
    assert ExactOffPath(topLeft, compare) && Descend(topLeft, compare) == Descend(root, compare);
    match compare(topLeft) {
      case CompareEQUAL =>                    // zig
        top, right := SplayLinkRight(top, left, right);
        done, found := true, true;
      case CompareLESS =>                     // zig-zig
        if topLeft.left.Leaf? {
          top, right := SplayLinkRight(top, left, right);
          return true, false, left, top, right;
        }
        top := RotateRight(top);
        top, right := SplayLinkRight(top, left, right);
        done, found := false, false;
      case CompareGREATER =>                  // zig-zag
        top, right := SplayLinkRight(top, left, right);
        if topLeft.right.Leaf? {
          return true, false, left, top, right;
        }
        top, left := SplayLinkLeft(top, left, right);
        done, found := false, false;
    }
  }

  /** The same, the path leading right. */
  method SplayTurnGreater(ghost root: Tree, compare: Comparer, left0: Spine, top0: Tree, right0: Spine)
    returns (done: bool, found: bool, left: Spine, top: Tree, right: Spine)
    requires Splaying(root, compare, left0, top0, right0) && compare(top0) == CompareGREATER
    ensures Splaying(root, compare, left, top, right)
    ensures done ==> Descend(root, compare) == Found(found, top) && ExactBelow(top)
    ensures !done ==> top < top0
    ensures if done then Steps(top, compare) == 0 && Steps(top0, compare) <= 1
            else Steps(top0, compare) == Steps(top, compare) + 2
    ensures left.Length() <= left0.Length() + 1 && right.Length() <= right0.Length() + 1
  {
    left, top, right := left0, top0, right0;
    var topRight := top.right;
    if topRight.Leaf? {
      return true, false, left, top, right;
    }
    assert ExactOffPath(topRight, compare) && Descend(topRight, compare) == Descend(root, compare);
    match compare(topRight) {
      case CompareEQUAL =>                    // zag
        top, left := SplayLinkLeft(top, left, right);
        done, found := true, true;
      case CompareGREATER =>                  // zag-zag
        if topRight.right.Leaf? {
          top, left := SplayLinkLeft(top, left, right);
          return true, false, left, top, right;
        }
        top := RotateLeft(top);
        top, left := SplayLinkLeft(top, left, right);
        done, found := false, false;
      case CompareLESS =>                     // zag-zig
        top, left := SplayLinkLeft(top, left, right);
        if topRight.left.Leaf? {
          return true, false, left, top, right;
        }
        top, right := SplayLinkRight(top, left, right);
        done, found := false, false;
    }
  }

  lemma Regroup<T>(a: seq<T>, b: seq<T>, x: T, c: seq<T>)
    ensures a + (b + [x] + c) == a + b + [x] + c
    ensures a + [x] + b + c == a + ([x] + b + c)
  {
  }

  /** Gives the last node of the left tree the top's left child, updating the spine from the end up. */
  method AssembleLeft(spine: Spine, t: Tree) returns (u: Tree)
    requires spine.SidesExact() && t.Exact()
    ensures u.Exact() && u.InOrder() == spine.LeftOrder() + t.InOrder()
  {
    u := t;
    var node := spine;
    while node.Link?
      invariant node.SidesExact() && u.Exact()
      invariant node.LeftOrder() + u.InOrder() == spine.LeftOrder() + t.InOrder()
      decreases node
    {
      Regroup(node.up.LeftOrder(), node.side.InOrder(), node.block, u.InOrder());
      u := UpdateNode(Node(node.side, node.block, node.maxSize, u));
      node := node.up;
    }
  }

  method AssembleRight(spine: Spine, t: Tree) returns (u: Tree)
    requires spine.SidesExact() && t.Exact()
    ensures u.Exact() && u.InOrder() == t.InOrder() + spine.RightOrder()
  {
    u := t;
    var node := spine;
    while node.Link?
      invariant node.SidesExact() && u.Exact()
      invariant u.InOrder() + node.RightOrder() == t.InOrder() + spine.RightOrder()
      decreases node
    {
      Regroup(u.InOrder(), node.side.InOrder(), node.block, node.up.RightOrder());
      u := UpdateNode(Node(u, node.block, node.maxSize, node.side));
      node := node.up;
    }
  }

  lemma JoinOrders<T>(a: seq<T>, b: seq<T>, x: T, c: seq<T>, d: seq<T>)
    ensures (a + b) + [x] + (c + d) == a + (b + [x] + c) + d
  {
  }

  method SplayAssemble(top: Tree, left: Spine, right: Spine) returns (u: Tree)
    requires top.Node? && ExactBelow(top) && left.SidesExact() && right.SidesExact()
    ensures u.Node? && u.block == top.block && u.Exact()
    ensures u.InOrder() == left.LeftOrder() + top.InOrder() + right.RightOrder()
  {
    var l := AssembleLeft(left, top.left);
    var r := AssembleRight(right, top.right);
    JoinOrders(left.LeftOrder(), top.left.InOrder(), top.block, top.right.InOrder(), right.RightOrder());
    u := UpdateNode(Node(l, top.block, top.maxSize, r));
  }

  /** Brings the last node of the search path to the top.  The order stays, and if the caches are exact off the
      path they are exact everywhere afterwards, unless the node was the root already.  There are half as many
      turns as there are steps down the path, and so the path ends up on two sides that are half as long. */
  method SplaySplay(root: Tree, compare: Comparer) returns (found: bool, top: Tree, ghost turns: nat)
    requires root.Node? && ExactOffPath(root, compare)
    ensures top.Node? && top.InOrder() == root.InOrder()
    ensures found == Descend(root, compare).found && top.block == Descend(root, compare).last.block
    ensures if compare(root) == CompareEQUAL then top == root else top.Exact()
    ensures turns <= Steps(root, compare) / 2 + 1
  {
    if compare(root) == CompareEQUAL {
      return true, root, 0;
    }
    var left, right, done := End, End, false;
    found, top, turns := false, root, 0;
    while !done
      invariant Splaying(root, compare, left, top, right)
      invariant left.Length() <= turns && right.Length() <= turns
      invariant 2 * turns + Steps(top, compare) <= Steps(root, compare) + if done then 2 else 0
      invariant done ==> Descend(root, compare) == Found(found, top) && ExactBelow(top)
      decreases !done, top
    {
      match compare(top) {
        case CompareLESS =>
          done, found, left, top, right := SplayTurnLess(root, compare, left, top, right);
        case CompareGREATER =>
          done, found, left, top, right := SplayTurnGreater(root, compare, left, top, right);
        case CompareEQUAL =>
          done, found := true, true;
      }
      turns := turns + 1;
    }
    top := SplayAssemble(top, left, right);
  }

  // ---------- Searching by address ----------

  /** A key is compared with a block by where it lies. */
  function KeyCompare(key: nat, block: Range): Compare {
    if key < block.base then CompareLESS
    else if key >= block.limit then CompareGREATER
    else CompareEQUAL
  }

  function ByKey(key: nat): Comparer {
    (t: Tree) => if t.Node? then KeyCompare(key, t.block) else CompareEQUAL
  }

  /** The order of a tree, by its parts. */
  lemma OrderParts(t: Tree)
    requires t.Node? && Ascending(t.InOrder())
    ensures Ascending(t.left.InOrder()) && Ascending(t.right.InOrder())
    ensures forall c | c in t.left.InOrder() :: c.limit < t.block.base
    ensures forall c | c in t.right.InOrder() :: t.block.limit < c.base
    ensures forall c :: c in t.InOrder() <==> c in t.left.InOrder() || c == t.block || c in t.right.InOrder()
    ensures t.block.base < t.block.limit
  {
    AscendingParts(t.left.InOrder(), t.block, t.right.InOrder());
  }

  lemma AscendingParts(l: seq<Range>, b: Range, r: seq<Range>)
    requires Ascending(l + [b] + r)
    ensures Ascending(l) && Ascending(r) && b.base < b.limit
    ensures forall c | c in l :: c.limit < b.base
    ensures forall c | c in r :: b.limit < c.base
    ensures forall c :: c in l + [b] + r <==> c in l || c == b || c in r
  {
    var s := l + [b] + r;
    assert s[|l|] == b;
    assert forall i | 0 <= i < |l| :: s[i] == l[i];
    assert forall i | 0 <= i < |r| :: s[|l| + 1 + i] == r[i];
  }

  lemma UpdatedParts<T>(l: seq<T>, b: T, r: seq<T>, i: nat, x: T)
    requires i < |l| + 1 + |r|
    ensures var s := l + [b] + r;
            && (i < |l| ==> s[i] == l[i] && s[i := x] == l[i := x] + [b] + r)
            && (i == |l| ==> s[i] == b && s[i := x] == l + [x] + r)
            && (i > |l| ==> s[i] == r[i - |l| - 1] && s[i := x] == l + [b] + r[i - |l| - 1 := x])
  {
  }

  /** In a tree ordered by address the search finds the block holding the key, or ends at one next to it. */
  lemma {:induction false} DescendByKey(t: Tree, key: nat)
    requires t.Node? && Ascending(t.InOrder())
    ensures var f := Descend(t, ByKey(key));
            var b, s := f.last.block, t.InOrder();
            && b in s && (f.found <==> exists c :: c in s && c.Contains(key))
            && match KeyCompare(key, b)
               case CompareEQUAL => f.found
               case CompareLESS => !f.found && forall c | c in s :: c.limit <= key || b.base <= c.base
               case CompareGREATER => !f.found && forall c | c in s :: key < c.base || c.limit <= b.limit
  {
    OrderParts(t);
    match KeyCompare(key, t.block)
    case CompareLESS => if t.left.Node? { DescendByKey(t.left, key); }
    case CompareGREATER => if t.right.Node? { DescendByKey(t.right, key); }
    case CompareEQUAL =>
  }

  /** A new root, with the old one and what is left of it to its left. */
  function WithRootOnLeft(t: Tree, block: Range): (u: Tree)
    requires t.Node? && ExactBelow(t)
    ensures u.Exact() && u.InOrder() == t.left.InOrder() + [t.block] + [block] + t.right.InOrder()
  {
    var neighbour := UpdateNode(t.(right := Leaf));
    assert neighbour.InOrder() == t.left.InOrder() + [t.block] + [];
    UpdateNode(Node(neighbour, block, block.Size(), t.right))
  }

  function WithRootOnRight(t: Tree, block: Range): (u: Tree)
    requires t.Node? && ExactBelow(t)
    ensures u.Exact() && u.InOrder() == t.left.InOrder() + [block] + ([t.block] + t.right.InOrder())
  {
    var neighbour := UpdateNode(t.(left := Leaf));
    assert neighbour.InOrder() == [] + [t.block] + t.right.InOrder();
    UpdateNode(Node(t.left, block, block.Size(), neighbour))
  }

  /** Hangs the old root, without its left half, on the right of the new one, which has come from that half. */
  function WithOldOnRight(t: Tree, was: Tree): (u: Tree)
    requires t.Node? && was.Node? && t.left.Exact() && was.right.Exact()
    ensures u.Exact()
    ensures u.InOrder() == t.left.InOrder() + [t.block] + [was.block] + was.right.InOrder()
  {
    var rest := UpdateNode(was.(left := Leaf));
    assert rest.InOrder() == [] + [was.block] + was.right.InOrder();
    UpdateNode(t.(right := rest))
  }

  function WithOldOnLeft(t: Tree, was: Tree): (u: Tree)
    requires t.Node? && was.Node? && t.right.Exact() && was.left.Exact()
    ensures u.Exact()
    ensures u.InOrder() == was.left.InOrder() + [was.block] + ([t.block] + t.right.InOrder())
  {
    var rest := UpdateNode(was.(right := Leaf));
    assert rest.InOrder() == was.left.InOrder() + [was.block] + [];
    UpdateNode(t.(left := rest))
  }

  class SplayTree {
    var root: Tree

    constructor ()
      ensures Valid() && Blocks() == []
    {
      root := Leaf;
    }

    /** The blocks, in address order. */
    ghost function Blocks(): seq<Range>
      reads this
    {
      root.InOrder()
    }

    ghost predicate Valid()
      reads this
    {
      root.Exact() && Ascending(Blocks())
    }

    /** Splays the tree. */
    method Splay(compare: Comparer) returns (found: bool)
      requires root.Node? && ExactOffPath(root, compare)
      modifies this
      ensures root.Node? && Blocks() == old(Blocks())
      ensures found == old(Descend(root, compare).found) && root.block == old(Descend(root, compare).last.block)
      ensures if old(compare(root)) == CompareEQUAL then root == old(root) else root.Exact()
    {
      ghost var turns;
      found, root, turns := SplaySplay(root, compare);
    }

    /** Splays the tree at a key: the block holding it comes to the top, or else one next to it. */
    method SplayAt(key: nat) returns (found: bool)
      requires Valid() && root.Node?
      modifies this
      ensures Valid() && root.Node? && Blocks() == old(Blocks())
      ensures found <==> KeyCompare(key, root.block) == CompareEQUAL
      ensures found <==> exists b :: b in Blocks() && b.Contains(key)
      ensures KeyCompare(key, root.block) == CompareLESS ==> forall b | b in root.left.InOrder() :: b.limit <= key
      ensures KeyCompare(key, root.block) == CompareGREATER ==> forall b | b in root.right.InOrder() :: key < b.base
    {
      ExactIsExactOffPath(root, ByKey(key));
      DescendByKey(root, key);
      found := Splay(ByKey(key));
      OrderParts(root);
    }

    method SplayTreeSearch(key: nat) returns (res: Res, block: Range)
      requires Valid()
      modifies this
      ensures Valid() && Blocks() == old(Blocks())
      ensures res == if exists b :: b in Blocks() && b.Contains(key) then ResOK else ResFAIL
      ensures res == ResOK ==> block in Blocks() && block.Contains(key)
    {
      res, block := ResFAIL, Range(0, 0);
      if root.Node? {
        var found := SplayAt(key);
        if found {
          OrderParts(root);
          res, block := ResOK, root.block;
        }
      }
    }

    /** Adds a block, unless its base lies in one of the tree.  It goes where its base belongs. */
    method SplayTreeInsert(block: Range) returns (res: Res, ghost i: nat)
      requires Valid() && block.base < block.limit
      modifies this
      ensures res == if exists b :: b in old(Blocks()) && b.Contains(block.base) then ResFAIL else ResOK
      ensures res == ResFAIL ==> Valid() && Blocks() == old(Blocks())
      ensures res == ResOK ==> root.Exact() && Belongs(old(Blocks()), i, block.base)
      ensures res == ResOK ==> Blocks() == InsertAt(old(Blocks()), i, block)
      ensures (forall b | b in old(Blocks()) :: b.Apart(block)) ==>
                res == ResOK && Valid() && Elems(Blocks()) == Elems(old(Blocks())) + {block}
    {
      res, i := ResOK, 0;
      ghost var were := Blocks();
      if root.Leaf? {
        root := Node(Leaf, block, block.Size(), Leaf);
        assert Blocks() == InsertAt(were, 0, block) && Blocks()[0].Size() == block.Size();
      } else {
        var found := SplayAt(block.base);
        if found {
          return ResFAIL, 0;
        }
        i := InsertAtRoot(block);
      }
      if forall b | b in were :: b.Apart(block) {
        BelongsApart(were, i, block);
      }
    }

    /** Puts a new node at the root, and the old root below it, on the side where it belongs. */
    method InsertAtRoot(block: Range) returns (ghost i: nat)
      requires Valid() && root.Node? && KeyCompare(block.base, root.block) != CompareEQUAL
      requires KeyCompare(block.base, root.block) == CompareLESS ==>
                 forall b | b in root.left.InOrder() :: b.limit <= block.base
      requires KeyCompare(block.base, root.block) == CompareGREATER ==>
                 forall b | b in root.right.InOrder() :: block.base < b.base
      modifies this
      ensures root.Exact() && Belongs(old(Blocks()), i, block.base) && Blocks() == InsertAt(old(Blocks()), i, block)
    {
      ghost var l, b, r := root.left.InOrder(), root.block, root.right.InOrder();
      OrderParts(root);
      if KeyCompare(block.base, root.block) == CompareGREATER {
        root := WithRootOnLeft(root, block);
        i := |l| + 1;
        PlaceAbove(l, b, r, block);
      } else {
        root := WithRootOnRight(root, block);
        i := |l|;
        PlaceBelow(l, b, r, block);
      }
    }

    /** Takes out the block that holds the key. */
    method SplayTreeDelete(key: nat) returns (res: Res, ghost i: nat)
      requires Valid()
      modifies this
      ensures Valid()
      ensures res == if exists b :: b in old(Blocks()) && b.Contains(key) then ResOK else ResFAIL
      ensures res == ResFAIL ==> Blocks() == old(Blocks())
      ensures res == ResOK ==> i < |old(Blocks())| && old(Blocks())[i].Contains(key)
      ensures res == ResOK ==> Blocks() == RemoveAt(old(Blocks()), i)
      ensures res == ResOK ==> Elems(Blocks()) == Elems(old(Blocks())) - {old(Blocks())[i]}
    {
      if root.Leaf? {
        return ResFAIL, 0;
      }
      var found := SplayAt(key);
      if !found {
        return ResFAIL, 0;
      }
      ghost var s, l, r := Blocks(), root.left.InOrder(), root.right.InOrder();
      OrderParts(root);
      i := |l|;
      WithoutMiddle(l, root.block, r);
      ElemsRemoveAt(s, i);
      res := ResOK;
      if root.left.Leaf? {
        root := root.right;
        assert [] + r == r;
      } else if root.right.Leaf? {
        root := root.left;
        assert l + [] == l;
      } else {
        var rightHalf := root.right;
        root := root.left;
        found := SplayAt(key);
        if found {
          res := ResFAIL;
          return;
        }
        LastHasNoRight(root, key);
        root := UpdateNode(root.(right := rightHalf));
        assert (l + []) + r == l + r;
      }
    }

    /** Brings the block before the root to the top: the last one below the key, if there is one. */
    method SplayTreePredecessor(key: nat) returns (block: Option<Range>)
      requires Valid() && root.Node? && key < root.block.limit
      requires forall b | b in root.left.InOrder() :: b.limit <= key
      modifies this
      ensures Valid() && Blocks() == old(Blocks())
      ensures IsLeftNeighbour(Elems(Blocks()), key, block)
    {
      var oldRoot := root;
      OrderParts(oldRoot);
      if oldRoot.left.Leaf? {
        block := None;
      } else {
        root := oldRoot.left;
        var found := SplayAt(key);
        assert !found;
        LastHasNoRight(root, key);
        LeftNeighbour(oldRoot, root, key);
        block := Some(root.block);
        root := WithOldOnRight(root, oldRoot);
      }
    }

    /** Brings the block after the root to the top: the first one above the key, if there is one. */
    method SplayTreeSuccessor(key: nat) returns (block: Option<Range>)
      requires Valid() && root.Node? && root.block.base <= key
      requires forall b | b in root.right.InOrder() :: key < b.base
      modifies this
      ensures Valid() && Blocks() == old(Blocks())
      ensures IsRightNeighbour(Elems(Blocks()), key, block)
    {
      var oldRoot := root;
      OrderParts(oldRoot);
      if oldRoot.right.Leaf? {
        block := None;
      } else {
        root := oldRoot.right;
        var found := SplayAt(key);
        assert !found;
        FirstHasNoLeft(root, key);
        RightNeighbour(oldRoot, root, key);
        block := Some(root.block);
        root := WithOldOnLeft(root, oldRoot);
      }
    }

    /** The blocks next below and next above a key that is in none. */
    method SplayTreeNeighbours(key: nat) returns (res: Res, left: Option<Range>, right: Option<Range>)
      requires Valid()
      modifies this
      ensures Valid() && Blocks() == old(Blocks())
      ensures AreNeighbours(Elems(Blocks()), key, res, left, right)
    {
      res, left, right := ResOK, None, None;
      HeldInElems(Blocks(), key);
      if root.Node? {
        var found := SplayAt(key);
        if found {
          return ResFAIL, None, None;
        }
        OrderParts(root);
        if KeyCompare(key, root.block) == CompareLESS {
          right := Some(root.block);
          left := SplayTreePredecessor(key);
        } else {
          left := Some(root.block);
          right := SplayTreeSuccessor(key);
        }
      }
    }

    /** Restores the caches after the block that holds the key has changed its bounds: only those on the path
        to it can be wrong, and once it is at the top only its own. */
    method SplayNodeRefresh(key: nat)
      requires Ascending(Blocks()) && ExactOffPath(root, ByKey(key))
      requires exists b :: b in Blocks() && b.Contains(key)
      modifies this
      ensures Valid() && Blocks() == old(Blocks())
      ensures root.Node? && root.block.Contains(key)
    {
      DescendByKey(root, key);
      var found := Splay(ByKey(key));
      assert found;
      root := UpdateNode(root);
    }

    /** Changes the bounds of the block that holds the key, within the gap around it. */
    method Resize(key: nat, block: Range, ghost i: nat)
      requires Valid() && i < |Blocks()| && Blocks()[i].Contains(key) && Ascending(Blocks()[i := block])
      modifies this
      ensures Valid() && Blocks() == old(Blocks())[i := block]
    {
      ResizedOffPath(root, key, block, i);
      root := Resized(root, key, block);
      assert Blocks()[i] == block && block.Contains(block.base);
      SplayNodeRefresh(block.base);
    }

    /** Splays the tree at the first block of at least the given size, if there is one. */
    method SplayFindFirst(size: nat) returns (found: bool, block: Range)
      requires Valid()
      modifies this
      ensures Valid() && Blocks() == old(Blocks())
      ensures found <==> exists b :: b in Blocks() && b.Size() >= size
      ensures found ==> block in Blocks() && block.Size() >= size
      ensures found ==> forall b | b in Blocks() && b.Size() >= size :: block.base <= b.base
    {
      found, block := false, Range(0, 0);
      DescentFindsLowest(root, size);
      if root.Node? && TestTree(root, size) {
        FirstPath(root, size);
        ExactIsExactOffPath(root, FirstCompare(size));
        found := Splay(FirstCompare(size));
        block := root.block;
      }
    }

    /** Splays the tree at the last block of at least the given size, if there is one. */
    method SplayFindLast(size: nat) returns (found: bool, block: Range)
      requires Valid()
      modifies this
      ensures Valid() && Blocks() == old(Blocks())
      ensures found <==> exists b :: b in Blocks() && b.Size() >= size
      ensures found ==> block in Blocks() && block.Size() >= size
      ensures found ==> forall b | b in Blocks() && b.Size() >= size :: b.base <= block.base
    {
      found, block := false, Range(0, 0);
      DescentFindsHighest(root, size);
      if root.Node? && TestTree(root, size) {
        LastPath(root, size);
        ExactIsExactOffPath(root, LastCompare(size));
        found := Splay(LastCompare(size));
        block := root.block;
      }
    }

    /** Splays the tree at a block of the greatest size, which is the size cached at the root. */
    method FindLargest() returns (found: bool, block: Range)
      requires Valid()
      modifies this
      ensures Valid() && Blocks() == old(Blocks())
      ensures found <==> Blocks() != []
      ensures found ==> block in Blocks() && forall b | b in Blocks() :: b.Size() <= block.Size()
    {
      found, block := false, Range(0, 0);
      if root.Node? {
        OrderParts(root);
        var maxSize := root.maxSize;
        assert IsMaxSize(maxSize, Blocks());
        found, block := SplayFindFirst(maxSize);
      }
    }
  }

  /** The comparison that leads to the first block of at least a size. */
  function FirstCompare(size: nat): Comparer {
    (t: Tree) =>
      if t.Leaf? then CompareEQUAL
      else if TestTree(t.left, size) then CompareLESS
      else if t.block.Size() >= size then CompareEQUAL
      else CompareGREATER
  }

  function LastCompare(size: nat): Comparer {
    (t: Tree) =>
      if t.Leaf? then CompareEQUAL
      else if TestTree(t.right, size) then CompareGREATER
      else if t.block.Size() >= size then CompareEQUAL
      else CompareLESS
  }

  /** Every subtree on the path of a search has a block of at least the size: what the comparison asserts of the
      side it sends the search to. */
  ghost predicate PathHolds(t: Tree, compare: Comparer, size: nat) {
    TestTree(t, size) &&
    match compare(t)
    case CompareLESS => PathHolds(t.left, compare, size)
    case CompareGREATER => PathHolds(t.right, compare, size)
    case CompareEQUAL => true
  }

  /** The search by comparison is the descent, and the assertions in the comparison hold all the way. */
  lemma {:induction false} FirstPath(t: Tree, size: nat)
    requires t.Exact() && TestTree(t, size)
    ensures PathHolds(t, FirstCompare(size), size)
    ensures var f := Descend(t, FirstCompare(size)); f.found && FindFirst(t, size) == Some(f.last.block)
  {
    SomePartIsBig(t, size);
    match FirstCompare(size)(t)
    case CompareLESS => FirstPath(t.left, size);
    case CompareGREATER => FirstPath(t.right, size);
    case CompareEQUAL =>
  }

  lemma {:induction false} LastPath(t: Tree, size: nat)
    requires t.Exact() && TestTree(t, size)
    ensures PathHolds(t, LastCompare(size), size)
    ensures var f := Descend(t, LastCompare(size)); f.found && FindLast(t, size) == Some(f.last.block)
  {
    SomePartIsBig(t, size);
    match LastCompare(size)(t)
    case CompareLESS => LastPath(t.left, size);
    case CompareGREATER => LastPath(t.right, size);
    case CompareEQUAL =>
  }

  lemma SomePartIsBig(t: Tree, size: nat)
    requires t.Exact() && TestTree(t, size)
    ensures TestTree(t.left, size) || t.block.Size() >= size || TestTree(t.right, size)
  {
    TestTreeIsExact(t, size);
    TestTreeIsExact(t.left, size);
    TestTreeIsExact(t.right, size);
    var l, r, s := t.left.InOrder(), t.right.InOrder(), t.InOrder();
    var i :| 0 <= i < |s| && s[i].Size() >= size;
    assert s[i] == if i < |l| then l[i] else if i == |l| then t.block else r[i - |l| - 1];
  }

  /** The answer to a search for the neighbours of a key: it fails just if a block holds the key. */
  ghost predicate AreNeighbours(s: set<Range>, key: nat, res: Res, left: Option<Range>, right: Option<Range>) {
    && res == (if exists b :: b in s && b.Contains(key) then ResFAIL else ResOK)
    && (res == ResOK ==> IsLeftNeighbour(s, key, left) && IsRightNeighbour(s, key, right))
  }

  ghost predicate IsLeftNeighbour(s: set<Range>, key: nat, o: Option<Range>) {
    match o
    case None => forall b | b in s :: key < b.limit
    case Some(l) => l in s && l.limit <= key && forall b | b in s && b.limit <= key :: b.limit <= l.limit
  }

  ghost predicate IsRightNeighbour(s: set<Range>, key: nat, o: Option<Range>) {
    match o
    case None => forall b | b in s :: b.base <= key
    case Some(r) => r in s && key < r.base && forall b | b in s && key < b.base :: r.base <= b.base
  }

  /** The last block of the left half is the left neighbour of a key just above that half. */
  lemma LeftNeighbour(t: Tree, half: Tree, key: nat)
    requires t.Node? && Ascending(t.InOrder()) && key < t.block.limit
    requires half.Node? && half.InOrder() == t.left.InOrder() == half.left.InOrder() + [half.block]
    requires half.block.limit <= key
    ensures IsLeftNeighbour(Elems(t.InOrder()), key, Some(half.block))
  {
    OrderParts(t);
    var l := t.left.InOrder();
    assert l[|l| - 1] == half.block;
  }

  lemma RightNeighbour(t: Tree, half: Tree, key: nat)
    requires t.Node? && Ascending(t.InOrder()) && t.block.base <= key
    requires half.Node? && half.InOrder() == t.right.InOrder() == [half.block] + half.right.InOrder()
    requires key < half.block.base
    ensures IsRightNeighbour(Elems(t.InOrder()), key, Some(half.block))
  {
    OrderParts(t);
    var r := t.right.InOrder();
    assert r[0] == half.block;
  }

  /** The tree with the block that holds the key given other bounds, and no cache updated. */
  function Resized(t: Tree, key: nat, block: Range): Tree {
    match t
    case Leaf => Leaf
    case Node(l, b, _, r) =>
      match KeyCompare(key, b)
      case CompareLESS => t.(left := Resized(l, key, block))
      case CompareGREATER => t.(right := Resized(r, key, block))
      case CompareEQUAL => t.(block := block)
  }

  /** The caches that are then wrong are on the path to the block, by its new base too. */
  lemma {:induction false} ResizedOffPath(t: Tree, key: nat, block: Range, i: nat)
    requires t.Exact() && Ascending(t.InOrder())
    requires i < |t.InOrder()| && t.InOrder()[i].Contains(key) && Ascending(t.InOrder()[i := block])
    ensures Resized(t, key, block).InOrder() == t.InOrder()[i := block]
    ensures ExactOffPath(Resized(t, key, block), ByKey(block.base))
  {
    var l, r := t.left.InOrder(), t.right.InOrder();
    ResizedParts(l, t.block, r, i, key, block);
    if i < |l| {
      ResizedOffPath(t.left, key, block, i);
    } else if i > |l| {
      ResizedOffPath(t.right, key, block, i - |l| - 1);
    }
  }

  /** Where the resized block is in the order of a node and its children, and on which side of the node. */
  lemma ResizedParts(l: seq<Range>, b: Range, r: seq<Range>, i: nat, key: nat, x: Range)
    requires Ascending(l + [b] + r) && i < |l| + 1 + |r|
    requires (l + [b] + r)[i].Contains(key) && Ascending((l + [b] + r)[i := x])
    ensures var s, j := l + [b] + r, i - |l| - 1;
            if i < |l| then
              && l[i].Contains(key) && Ascending(l) && Ascending(l[i := x]) && s[i := x] == l[i := x] + [b] + r
              && KeyCompare(key, b) == KeyCompare(x.base, b) == CompareLESS
            else if i > |l| then
              && r[j].Contains(key) && Ascending(r) && Ascending(r[j := x]) && s[i := x] == l + [b] + r[j := x]
              && KeyCompare(key, b) == KeyCompare(x.base, b) == CompareGREATER
            else
              b.Contains(key) && x.base < x.limit && s[i := x] == l + [x] + r
  {
    AscendingParts(l, b, r);
    UpdatedParts(l, b, r, i, x);
    if i < |l| {
      AscendingParts(l[i := x], b, r);
      assert l[i] in l && l[i := x][i] == x;
    } else if i > |l| {
      var j := i - |l| - 1;
      AscendingParts(l, b, r[j := x]);
      assert r[j] in r && r[j := x][j] == x;
    } else {
      AscendingParts(l, x, r);
    }
  }

  lemma FirstHasNoLeft(t: Tree, key: nat)
    requires t.Node? && Ascending(t.InOrder()) && forall b | b in t.InOrder() :: key < b.base
    requires KeyCompare(key, t.block) == CompareLESS ==> forall b | b in t.left.InOrder() :: b.limit <= key
    ensures t.left.Leaf? && t.InOrder() == [t.block] + t.right.InOrder()
  {
    OrderParts(t);
    HasRoot(t.left);
    assert [] + [t.block] + t.right.InOrder() == [t.block] + t.right.InOrder();
  }

  lemma WithoutMiddle(l: seq<Range>, b: Range, r: seq<Range>)
    ensures RemoveAt(l + [b] + r, |l|) == l + r && (l + [b] + r)[|l|] == b
  {
  }

  lemma HasRoot(t: Tree)
    ensures t.Node? ==> t.block in t.InOrder()
  {
  }

  /** When every block of a tree lies below the key, one to which the search leads has nothing to its right. */
  lemma LastHasNoRight(t: Tree, key: nat)
    requires t.Node? && Ascending(t.InOrder()) && forall b | b in t.InOrder() :: b.limit <= key
    requires KeyCompare(key, t.block) == CompareGREATER ==> forall b | b in t.right.InOrder() :: key < b.base
    ensures t.right.Leaf? && t.InOrder() == t.left.InOrder() + [t.block]
  {
    OrderParts(t);
    HasRoot(t.right);
    assert t.left.InOrder() + [t.block] + [] == t.left.InOrder() + [t.block];
  }

  /** A key that is in no block belongs before the i-th. */
  ghost predicate Belongs(s: seq<Range>, i: nat, key: nat) {
    && i <= |s|
    && (forall j | 0 <= j < i :: s[j].limit <= key)
    && (forall j | i <= j < |s| :: key < s[j].base)
  }

  lemma BelongsApart(s: seq<Range>, i: nat, block: Range)
    requires Ascending(s) && Belongs(s, i, block.base) && block.base < block.limit
    requires forall b | b in s :: b.Apart(block)
    ensures Ascending(InsertAt(s, i, block)) && Elems(InsertAt(s, i, block)) == Elems(s) + {block}
    ensures !exists b :: b in s && b.Contains(block.base)
  {
    assert forall j | 0 <= j < |s| :: s[j] in s;
    ElemsInsertAt(s, i, block);
  }

  lemma PlaceAbove(l: seq<Range>, b: Range, r: seq<Range>, x: Range)
    requires (forall c | c in l :: c.limit <= x.base) && b.limit <= x.base && forall c | c in r :: x.base < c.base
    ensures Belongs(l + [b] + r, |l| + 1, x.base)
    ensures InsertAt(l + [b] + r, |l| + 1, x) == l + [b] + [x] + r
  {
    var s := l + [b] + r;
    assert forall j | 0 <= j < |l| :: s[j] in l;
    assert forall j | |l| < j < |s| :: s[j] in r;
  }

  lemma PlaceBelow(l: seq<Range>, b: Range, r: seq<Range>, x: Range)
    requires (forall c | c in l :: c.limit <= x.base) && x.base < b.base && forall c | c in r :: x.base < c.base
    ensures Belongs(l + [b] + r, |l|, x.base)
    ensures InsertAt(l + [b] + r, |l|, x) == l + [x] + ([b] + r)
  {
    var s := l + [b] + r;
    assert forall j | 0 <= j < |l| :: s[j] in l;
    assert forall j | |l| < j < |s| :: s[j] in r;
  }

  // ---------- The tree of a coalescing block structure ----------

  /** A splay tree of the free blocks of a coalescing block structure answers as its set of blocks does. */
  ghost predicate Keeps(tree: SplayTree, cbs: CBS)
    reads tree, cbs`splayTree, cbs.splayTree
  {
    tree.Valid() && cbs.TreeValid() && Elems(tree.Blocks()) == cbs.Tree()
  }

  /** Looking for the first block of at least a size finds the same one in both. */
  method FirstAgrees(tree: SplayTree, cbs: CBS, size: nat) returns (found: bool, range: Range, block: CBSBlock?)
    requires Keeps(tree, cbs)
    modifies tree
    ensures Keeps(tree, cbs)
    ensures found <==> block != null
    ensures found ==> block in cbs.splayTree && range == block.Span()
  {
    found, range := tree.SplayFindFirst(size);
    block := cbs.TreeFindFirst(size);
    ghost var s := cbs.Tree();
    AscendingIsIsolated(tree.Blocks());
    assert found ==> range in s;
    assert block != null ==> block.Span() in s;
    assert forall r | r in s :: r in tree.Blocks();
  }

  method LastAgrees(tree: SplayTree, cbs: CBS, size: nat) returns (found: bool, range: Range, block: CBSBlock?)
    requires Keeps(tree, cbs)
    modifies tree
    ensures Keeps(tree, cbs)
    ensures found <==> block != null
    ensures found ==> block in cbs.splayTree && range == block.Span()
  {
    found, range := tree.SplayFindLast(size);
    block := cbs.TreeFindLast(size);
    ghost var s := cbs.Tree();
    AscendingIsIsolated(tree.Blocks());
    assert found ==> range in s;
    assert block != null ==> block.Span() in s;
    assert forall r | r in s :: r in tree.Blocks();
  }

  /** There is one right answer, so the splay tree and the set give the same. */
  lemma NeighboursAreUnique(s: set<Range>, key: nat, res: Res, l: Option<Range>, r: Option<Range>,
      res': Res, l': Option<Range>, r': Option<Range>)
    requires Isolated(s) && AreNeighbours(s, key, res, l, r) && AreNeighbours(s, key, res', l', r')
    ensures res == res' && (res == ResOK ==> l == l' && r == r')
  {
  }

  lemma HeldInElems(s: seq<Range>, key: nat)
    ensures (exists b :: b in s && b.Contains(key)) <==> (exists q :: q in Elems(s) && q.Contains(key))
  {
    assert forall b | b in s :: b in Elems(s);
  }

  function SpanOf(block: CBSBlock?): Option<Range>
    reads block
  {
    if block == null then None else Some(block.Span())
  }

  /** The neighbours that the set finds, as ranges: a right answer in the sense of the splay tree. */
  method SetNeighbours(cbs: CBS, key: nat) returns (res: Res, left: CBSBlock?, right: CBSBlock?)
    requires cbs.TreeValid()
    ensures AreNeighbours(cbs.Tree(), key, res, SpanOf(left), SpanOf(right))
  {
    res, left, right := cbs.TreeNeighbours(key);
    assert left != null ==> left.Span() in cbs.Tree();
    assert right != null ==> right.Span() in cbs.Tree();
    if res == ResFAIL {
      ghost var b :| b in cbs.splayTree && b.Span().Contains(key);
      assert b.Span() in cbs.Tree();
    }
  }
}
