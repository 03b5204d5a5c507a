/** The guided descent that finds a block by size in the tree of free blocks.

  Every node caches the greatest block size in its subtree.  The cache is exact, so a descent that
  consults it finds the first or last block that is large enough, without a wrong turn.
*/
module FastFind {
  import opened Ranges
  import opened RangeLists

  datatype Option<T> = None | Some(value: T)

  datatype Tree = Leaf | Node(left: Tree, block: Range, maxSize: int, right: Tree) {

    function InOrder(): seq<Range> {
      match this
      case Leaf => []
      case Node(l, b, _, r) => l.InOrder() + [b] + r.InOrder()
    }

    /** Every cached size is the greatest in its subtree. */
    ghost predicate Exact() {
      match this
      case Leaf => true
      case Node(l, b, m, r) => l.Exact() && r.Exact() && IsMaxSize(m, InOrder())
    }
  }

  ghost predicate IsMaxSize(m: int, s: seq<Range>) {
    && (forall i | 0 <= i < |s| :: s[i].Size() <= m)
    && (exists i :: 0 <= i < |s| && s[i].Size() == m)
  }

  /** Recomputes a node's cached size from its block and its children's caches. */
  function UpdateNode(t: Tree): (u: Tree)
    requires t.Node?
    requires t.left.Exact() && t.right.Exact()
    ensures u.Exact() && u.InOrder() == t.InOrder()
  {
    var m0 := t.block.Size();
    var m1 := if t.left.Node? && t.left.maxSize > m0 then t.left.maxSize else m0;
    var m2 := if t.right.Node? && t.right.maxSize > m1 then t.right.maxSize else m1;
    UpdatedMax(t.left, t.block, t.right, m2);
    t.(maxSize := m2)
  }

  lemma UpdatedMax(l: Tree, b: Range, r: Tree, m: int)
    requires l.Exact() && r.Exact()
    requires b.Size() <= m && (l.Node? ==> l.maxSize <= m) && (r.Node? ==> r.maxSize <= m)
    requires m == b.Size() || (l.Node? && m == l.maxSize) || (r.Node? && m == r.maxSize)
    ensures IsMaxSize(m, l.InOrder() + [b] + r.InOrder())
  {
    if m != b.Size() && l.Node? && m == l.maxSize {
      MaxOfParts(l.InOrder(), b, r.InOrder(), m, 0);
    } else if m != b.Size() {
      MaxOfParts(l.InOrder(), b, r.InOrder(), m, 2);
    } else {
      MaxOfParts(l.InOrder(), b, r.InOrder(), m, 1);
    }
  }

  lemma MaxOfParts(x: seq<Range>, b: Range, z: seq<Range>, m: int, part: nat)
    requires forall i | 0 <= i < |x| :: x[i].Size() <= m
    requires forall i | 0 <= i < |z| :: z[i].Size() <= m
    requires b.Size() <= m
    requires part == 0 ==> exists i :: 0 <= i < |x| && x[i].Size() == m
    requires part == 1 ==> b.Size() == m
    requires part >= 2 ==> exists i :: 0 <= i < |z| && z[i].Size() == m
    ensures IsMaxSize(m, x + [b] + z)
  {
    var s := x + [b] + z;
    assert s[|x|] == b;
    if part == 0 {
      var i :| 0 <= i < |x| && x[i].Size() == m;
      assert s[i] == x[i];
    } else if part >= 2 {
      var i :| 0 <= i < |z| && z[i].Size() == m;
      assert s[|x| + 1 + i] == z[i];
    }
  }

  /** Rotates the right child of a node to its place.  The old root is updated and the new one is not: it may
      be out of date, as may everything below its right child, where the path goes on. */
  function RotateLeft(t: Tree): (u: Tree)
    requires t.Node? && t.right.Node? && t.left.Exact() && t.right.left.Exact()
    ensures u.Node? && u.block == t.right.block && u.right == t.right.right && u.left.Exact()
    ensures u.InOrder() == t.InOrder()
  {
    var r := t.right;
    assert t.left.InOrder() + [t.block] + r.left.InOrder() + [r.block] + r.right.InOrder() == t.InOrder();
    Node(UpdateNode(Node(t.left, t.block, t.maxSize, r.left)), r.block, r.maxSize, r.right)
  }

  function RotateRight(t: Tree): (u: Tree)
    requires t.Node? && t.left.Node? && t.right.Exact() && t.left.right.Exact()
    ensures u.Node? && u.block == t.left.block && u.left == t.left.left && u.right.Exact()
    ensures u.InOrder() == t.InOrder()
  {
    var l := t.left;
    assert l.left.InOrder() + [l.block] + (l.right.InOrder() + [t.block] + t.right.InOrder()) == t.InOrder();
    Node(l.left, l.block, l.maxSize, UpdateNode(Node(l.right, t.block, t.maxSize, t.right)))
  }

  /** Whether some block of the subtree is large enough, by its cached size. */
  predicate TestTree(t: Tree, size: int) {
    t.Node? && t.maxSize >= size
  }

  function FindFirst(t: Tree, size: int): Option<Range> {
    if !TestTree(t, size) then None
    else if TestTree(t.left, size) then FindFirst(t.left, size)
    else if t.block.Size() >= size then Some(t.block)
    else FindFirst(t.right, size)
  }

  function FindLast(t: Tree, size: int): Option<Range> {
    if !TestTree(t, size) then None
    else if TestTree(t.right, size) then FindLast(t.right, size)
    else if t.block.Size() >= size then Some(t.block)
    else FindLast(t.left, size)
  }

  ghost predicate Small(s: seq<Range>, size: int) {
    forall i | 0 <= i < |s| :: s[i].Size() < size
  }

  /** The first, or the last, range in order that is large enough. */
  ghost predicate IsFirstFit(s: seq<Range>, size: int, o: Option<Range>) {
    match o
    case None => Small(s, size)
    case Some(r) => r.Size() >= size && exists i :: 0 <= i < |s| && s[i] == r && Small(s[..i], size)
  }

  ghost predicate IsLastFit(s: seq<Range>, size: int, o: Option<Range>) {
    match o
    case None => Small(s, size)
    case Some(r) => r.Size() >= size && exists i :: 0 <= i < |s| && s[i] == r && Small(s[i + 1..], size)
  }

  lemma TestTreeIsExact(t: Tree, size: int)
    requires t.Exact()
    ensures TestTree(t, size) <==> exists i :: 0 <= i < |t.InOrder()| && t.InOrder()[i].Size() >= size
  {
    if t.Node? {
      assert IsMaxSize(t.maxSize, t.InOrder());
    }
  }

  lemma FirstInLeft(x: seq<Range>, b: Range, z: seq<Range>, size: int, r: Range)
    requires IsFirstFit(x, size, Some(r))
    ensures IsFirstFit(x + [b] + z, size, Some(r))
  {
    var i :| 0 <= i < |x| && x[i] == r && Small(x[..i], size);
    var s := x + [b] + z;
    assert s[i] == r && s[..i] == x[..i];
  }

  lemma FirstInMiddle(x: seq<Range>, b: Range, z: seq<Range>, size: int)
    requires Small(x, size) && b.Size() >= size
    ensures IsFirstFit(x + [b] + z, size, Some(b))
  {
    var s := x + [b] + z;
    assert s[|x|] == b && s[..|x|] == x;
  }

  lemma FirstInRight(x: seq<Range>, b: Range, z: seq<Range>, size: int, o: Option<Range>)
    requires Small(x, size) && b.Size() < size && IsFirstFit(z, size, o)
    ensures IsFirstFit(x + [b] + z, size, o)
  {
    var s := x + [b] + z;
    if o.Some? {
      var i :| 0 <= i < |z| && z[i] == o.value && Small(z[..i], size);
      assert s[|x| + 1 + i] == o.value && s[..|x| + 1 + i] == x + [b] + z[..i];
    }
  }

  lemma LastInRight(x: seq<Range>, b: Range, z: seq<Range>, size: int, r: Range)
    requires IsLastFit(z, size, Some(r))
    ensures IsLastFit(x + [b] + z, size, Some(r))
  {
    var i :| 0 <= i < |z| && z[i] == r && Small(z[i + 1..], size);
    var s := x + [b] + z;
    assert s[|x| + 1 + i] == r && s[|x| + 1 + i + 1..] == z[i + 1..];
  }

  lemma LastInMiddle(x: seq<Range>, b: Range, z: seq<Range>, size: int)
    requires Small(z, size) && b.Size() >= size
    ensures IsLastFit(x + [b] + z, size, Some(b))
  {
    var s := x + [b] + z;
    assert s[|x|] == b && s[|x| + 1..] == z;
  }

  lemma LastInLeft(x: seq<Range>, b: Range, z: seq<Range>, size: int, o: Option<Range>)
    requires Small(z, size) && b.Size() < size && IsLastFit(x, size, o)
    ensures IsLastFit(x + [b] + z, size, o)
  {
    var s := x + [b] + z;
    if o.Some? {
      var i :| 0 <= i < |x| && x[i] == o.value && Small(x[i + 1..], size);
      assert s[i] == o.value && s[i + 1..] == x[i + 1..] + [b] + z;
    }
  }

  /** The descent prunes exactly: it finds the first block, in address order, that is large enough. */
  lemma {:induction false} FindFirstIsFirst(t: Tree, size: int)
    requires t.Exact()
    ensures IsFirstFit(t.InOrder(), size, FindFirst(t, size))
  {
    TestTreeIsExact(t, size);
    if TestTree(t, size) {
      TestTreeIsExact(t.left, size);
      FindFirstIsFirst(t.left, size);
      FindFirstIsFirst(t.right, size);
      var x, z := t.left.InOrder(), t.right.InOrder();
      if TestTree(t.left, size) {
        FirstInLeft(x, t.block, z, size, FindFirst(t.left, size).value);
      } else if t.block.Size() >= size {
        FirstInMiddle(x, t.block, z, size);
      } else {
        FirstInRight(x, t.block, z, size, FindFirst(t.right, size));
      }
    }
  }

  /** And, looking right first, the last. */
  lemma {:induction false} FindLastIsLast(t: Tree, size: int)
    requires t.Exact()
    ensures IsLastFit(t.InOrder(), size, FindLast(t, size))
  {
    TestTreeIsExact(t, size);
    if TestTree(t, size) {
      TestTreeIsExact(t.right, size);
      FindLastIsLast(t.left, size);
      FindLastIsLast(t.right, size);
      var x, z := t.left.InOrder(), t.right.InOrder();
      if TestTree(t.right, size) {
        LastInRight(x, t.block, z, size, FindLast(t.right, size).value);
      } else if t.block.Size() >= size {
        LastInMiddle(x, t.block, z, size);
      } else {
        LastInLeft(x, t.block, z, size, FindLast(t.left, size));
      }
    }
  }

  // ---------- In terms of the set of blocks ----------

  lemma FirstIsLowest(s: seq<Range>, size: int, r: Range)
    requires Ascending(s) && IsFirstFit(s, size, Some(r))
    ensures r in s && forall b | b in s && b.Size() >= size :: r.base <= b.base
  {
    var i :| 0 <= i < |s| && s[i] == r && Small(s[..i], size);
    forall j | 0 <= j < i ensures s[j].Size() < size {
      assert s[..i][j] == s[j];
    }
    forall b | b in s && b.Size() >= size ensures r.base <= b.base {
      var j :| 0 <= j < |s| && s[j] == b;
    }
  }

  lemma LastIsHighest(s: seq<Range>, size: int, r: Range)
    requires Ascending(s) && IsLastFit(s, size, Some(r))
    ensures r in s && forall b | b in s && b.Size() >= size :: b.base <= r.base
  {
    var i :| 0 <= i < |s| && s[i] == r && Small(s[i + 1..], size);
    forall j | i < j < |s| ensures s[j].Size() < size {
      assert s[i + 1..][j - i - 1] == s[j];
    }
    forall b | b in s && b.Size() >= size ensures b.base <= r.base {
      var j :| 0 <= j < |s| && s[j] == b;
    }
  }

  /** In a tree ordered by address the descent finds the lowest adequate block, or there is none. */
  lemma DescentFindsLowest(t: Tree, size: int)
    requires t.Exact() && Ascending(t.InOrder())
    ensures match FindFirst(t, size)
            case None => forall b | b in t.InOrder() :: b.Size() < size
            case Some(r) =>
              && r in t.InOrder() && r.Size() >= size
              && forall b | b in t.InOrder() && b.Size() >= size :: r.base <= b.base
  {
    FindFirstIsFirst(t, size);
    if FindFirst(t, size).Some? {
      FirstIsLowest(t.InOrder(), size, FindFirst(t, size).value);
    }
  }

  /** And the other descent the highest. */
  lemma DescentFindsHighest(t: Tree, size: int)
    requires t.Exact() && Ascending(t.InOrder())
    ensures match FindLast(t, size)
            case None => forall b | b in t.InOrder() :: b.Size() < size
            case Some(r) =>
              && r in t.InOrder() && r.Size() >= size
              && forall b | b in t.InOrder() && b.Size() >= size :: b.base <= r.base
  {
    FindLastIsLast(t, size);
    if FindLast(t, size).Some? {
      LastIsHighest(t.InOrder(), size, FindLast(t, size).value);
    }
  }

  /** Looking for a block of the size cached at the root finds a largest one. */
  lemma RootSizeFindsLargest(t: Tree)
    requires t.Exact() && t.Node?
    ensures var found := FindFirst(t, t.maxSize);
            found.Some? && found.value in t.InOrder() && forall b | b in t.InOrder() :: b.Size() <= found.value.Size()
  {
    FindFirstIsFirst(t, t.maxSize);
    TestTreeIsExact(t, t.maxSize);
  }
}
