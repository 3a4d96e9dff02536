/** The back-pointer binary tree of tree.go, over a node arena: a pointer
    is a position in `Arena.nodes` and Nil is the null pointer.  A handle
    `h` denotes the term `t` when IsTree(ns, h, t) holds. */
module Trees {
  import opened Terms

  const Nil: int := -1

  /** A tree node; `leaf` is the atom's text for a leaf and "" otherwise. */
  datatype Node = Node(left: int, right: int, parent: int, isLeaf: bool, isRoot: bool, leaf: string)

  /** The heap the trees live in: nodes are allocated by appending. */
  class Arena {
    var nodes: seq<Node>

    constructor ()
      ensures nodes == []
    {
      nodes := [];
    }
  }

  /** The node structure at `h` spells `t`, and no node strictly below `h`
      is marked as a root.  Parent links are not constrained. */
  ghost predicate Shape(ns: seq<Node>, h: int, t: Term)
    decreases t
  {
    0 <= h < |ns| && ns[h].isLeaf == t.Leaf? &&
    match t
    case Leaf(c) => ns[h].leaf == [c]
    case App(l, r) =>
      Shape(ns, ns[h].left, l) && Shape(ns, ns[h].right, r) &&
      !ns[ns[h].left].isRoot && !ns[ns[h].right].isRoot
  }

  /** The handles making up the tree at `h` read as `t`. */
  ghost function Nodes(ns: seq<Node>, h: int, t: Term): set<int>
    decreases t
  {
    match t
    case Leaf(_) => {h}
    case App(l, r) =>
      if 0 <= h < |ns| then {h} + Nodes(ns, ns[h].left, l) + Nodes(ns, ns[h].right, r) else {h}
  }

  /** A well-linked tree: the structure spells `t`, every child's parent is
      the node holding it, children are not roots, and no node is shared
      between the two subtrees of a node or with the node itself.  The top
      node's own parent and root mark are left free. */
  ghost predicate IsTree(ns: seq<Node>, h: int, t: Term)
    decreases t
  {
    0 <= h < |ns| && ns[h].isLeaf == t.Leaf? &&
    match t
    case Leaf(c) => ns[h].leaf == [c]
    case App(l, r) =>
      var x, y := ns[h].left, ns[h].right;
      IsTree(ns, x, l) && IsTree(ns, y, r) &&
      !ns[x].isRoot && !ns[y].isRoot && ns[x].parent == h && ns[y].parent == h &&
      Nodes(ns, x, l) !! Nodes(ns, y, r) && h !in Nodes(ns, x, l) && h !in Nodes(ns, y, r)
  }

  /** `ns2` extends `ns1`, and every node of `ns1` outside `m` is unchanged. */
  ghost predicate Outside(ns1: seq<Node>, ns2: seq<Node>, m: set<int>)
  {
    |ns1| <= |ns2| && forall k :: 0 <= k < |ns1| && k !in m ==> ns2[k] == ns1[k]
  }

  /** Every handle of `s` was allocated after `ns1` and lies in `ns2`. */
  ghost predicate Fresh(ns1: seq<Node>, ns2: seq<Node>, s: set<int>)
  {
    forall k :: k in s ==> |ns1| <= k < |ns2|
  }

  /** Two nodes agree on everything but their parent and root mark. */
  predicate SameShape(n: Node, m: Node)
  {
    n.left == m.left && n.right == m.right && n.isLeaf == m.isLeaf && n.leaf == m.leaf
  }

  // ----- basic facts -----

  lemma {:induction false} TreeIsShape(ns: seq<Node>, h: int, t: Term)
    requires IsTree(ns, h, t)
    ensures Shape(ns, h, t)
    decreases t
  {
    if t.App? {
      TreeIsShape(ns, ns[h].left, t.l);
      TreeIsShape(ns, ns[h].right, t.r);
    }
  }

  lemma {:induction false} NodesInRange(ns: seq<Node>, h: int, t: Term)
    requires Shape(ns, h, t)
    ensures h in Nodes(ns, h, t)
    ensures forall k :: k in Nodes(ns, h, t) ==> 0 <= k < |ns|
    decreases t
  {
    if t.App? {
      NodesInRange(ns, ns[h].left, t.l);
      NodesInRange(ns, ns[h].right, t.r);
    }
  }

  lemma OutsideTrans(ns1: seq<Node>, ns2: seq<Node>, ns3: seq<Node>, m1: set<int>, m2: set<int>)
    requires Outside(ns1, ns2, m1) && Outside(ns2, ns3, m2)
    ensures Outside(ns1, ns3, m1 + m2)
  {
  }

  /** A structure that the update did not touch keeps its meaning. */
  lemma {:induction false} ShapeOutside(ns1: seq<Node>, ns2: seq<Node>, m: set<int>, h: int, t: Term)
    requires Shape(ns1, h, t) && Outside(ns1, ns2, m) && Nodes(ns1, h, t) !! m
    ensures Shape(ns2, h, t) && Nodes(ns2, h, t) == Nodes(ns1, h, t)
    decreases t
  {
    NodesInRange(ns1, h, t);
    if t.App? {
      ShapeOutside(ns1, ns2, m, ns1[h].left, t.l);
      ShapeOutside(ns1, ns2, m, ns1[h].right, t.r);
      NodesInRange(ns1, ns1[h].left, t.l);
      NodesInRange(ns1, ns1[h].right, t.r);
    }
  }

  /** A tree whose nodes below the top are untouched, and whose top kept its
      shape, is still the same tree. */
  lemma {:induction false} TreeFrame(ns1: seq<Node>, ns2: seq<Node>, h: int, t: Term)
    requires IsTree(ns1, h, t) && h < |ns2| && SameShape(ns2[h], ns1[h])
    requires forall k :: k in Nodes(ns1, h, t) && k != h ==> 0 <= k < |ns1| && k < |ns2| && ns2[k] == ns1[k]
    ensures IsTree(ns2, h, t) && Nodes(ns2, h, t) == Nodes(ns1, h, t)
    decreases t
  {
    TreeIsShape(ns1, h, t);
    NodesInRange(ns1, h, t);
    if t.App? {
      var x, y := ns1[h].left, ns1[h].right;
      NodesInRange(ns1, x, t.l);
      NodesInRange(ns1, y, t.r);
      TreeFrame(ns1, ns2, x, t.l);
      TreeFrame(ns1, ns2, y, t.r);
    }
  }

  lemma TreeOutside(ns1: seq<Node>, ns2: seq<Node>, m: set<int>, h: int, t: Term)
    requires IsTree(ns1, h, t) && Outside(ns1, ns2, m) && Nodes(ns1, h, t) !! m
    ensures IsTree(ns2, h, t) && Nodes(ns2, h, t) == Nodes(ns1, h, t)
  {
    TreeIsShape(ns1, h, t);
    NodesInRange(ns1, h, t);
    TreeFrame(ns1, ns2, h, t);
  }

  // ----- navigation -----

  /** The node reached from `h` by following `left` d times. */
  ghost function Descend(ns: seq<Node>, h: int, d: nat): int
    decreases d
  {
    if d == 0 then h else if 0 <= h < |ns| then Descend(ns, ns[h].left, d - 1) else Nil
  }

  /** The node reached from `h` by following `parent` k times (Nil once a
      step leaves the arena). */
  ghost function Climb(ns: seq<Node>, h: int, k: nat): int
    decreases k
  {
    if k == 0 then h else if 0 <= h < |ns| then Climb(ns, ns[h].parent, k - 1) else Nil
  }

  lemma {:induction false} ClimbSucc(ns: seq<Node>, h: int, k: nat)
    requires 0 <= Climb(ns, h, k) < |ns|
    ensures Climb(ns, h, k + 1) == ns[Climb(ns, h, k)].parent
    decreases k
  {
    if k > 0 {
      ClimbSucc(ns, ns[h].parent, k - 1);
    }
  }

  /** The sub-tree `d` steps down the left spine. */
  lemma {:induction false} DescendTree(ns: seq<Node>, h: int, t: Term, d: nat)
    requires IsTree(ns, h, t) && d <= SpineLen(t)
    ensures IsTree(ns, Descend(ns, h, d), LeftAt(t, d))
    ensures Nodes(ns, Descend(ns, h, d), LeftAt(t, d)) <= Nodes(ns, h, t)
    ensures 0 < d ==> h !in Nodes(ns, Descend(ns, h, d), LeftAt(t, d))
    ensures 0 < d ==> Nodes(ns, Descend(ns, h, d), LeftAt(t, d)) <= Nodes(ns, ns[h].left, t.l)
    ensures 0 < d ==> !ns[Descend(ns, h, d)].isRoot
    ensures 0 < d ==> ns[Descend(ns, h, d)].parent == Descend(ns, h, d - 1)
    decreases d
  {
    if d > 0 {
      DescendTree(ns, ns[h].left, t.l, d - 1);
      if d > 1 {
        DescendTree(ns, ns[h].left, t.l, d - 2);
      }
    }
  }

  /** Climbing j steps from the node d steps down the spine lands j steps
      higher on the spine. */
  lemma {:induction false} ClimbDescend(ns: seq<Node>, h: int, t: Term, d: nat, j: nat)
    requires IsTree(ns, h, t) && j <= d <= SpineLen(t)
    ensures Climb(ns, Descend(ns, h, d), j) == Descend(ns, h, d - j)
    ensures forall i :: 0 <= i < j ==>
      0 <= Climb(ns, Descend(ns, h, d), i) < |ns| && !ns[Climb(ns, Descend(ns, h, d), i)].isRoot
    decreases j
  {
    if j > 0 {
      ClimbDescend(ns, h, t, d, j - 1);
      DescendTree(ns, h, t, d - (j - 1));
      ClimbSucc(ns, Descend(ns, h, d), j - 1);
    }
  }

  /** Going d1 steps down the spine and then d2 more is going d1 + d2 steps. */
  lemma {:induction false} DescendAdd(ns: seq<Node>, h: int, t: Term, d1: nat, d2: nat)
    requires IsTree(ns, h, t) && d1 + d2 <= SpineLen(t)
    ensures Descend(ns, Descend(ns, h, d1), d2) == Descend(ns, h, d1 + d2)
    decreases d1
  {
    if d1 > 0 {
      DescendAdd(ns, ns[h].left, t.l, d1 - 1, d2);
    }
  }

  /** Allocating new nodes does not move the spine of an existing tree. */
  lemma {:induction false} DescendSame(ns0: seq<Node>, ns1: seq<Node>, h: int, t: Term, d: nat)
    requires IsTree(ns0, h, t) && Outside(ns0, ns1, {}) && d <= SpineLen(t)
    ensures Descend(ns1, h, d) == Descend(ns0, h, d)
    decreases d
  {
    if d > 0 {
      DescendSame(ns0, ns1, ns0[h].left, t.l, d - 1);
    }
  }

  /** The node j steps down the spine reaches the top in j parent steps. */
  lemma {:induction false} SpineReaches(ns: seq<Node>, h: int, t: Term, j: nat)
    requires IsTree(ns, h, t) && j <= SpineLen(t)
    ensures Reaches(ns, Descend(ns, h, j), h, j)
    decreases j
  {
    if j > 0 {
      DescendTree(ns, h, t, j);
      SpineReaches(ns, h, t, j - 1);
    }
  }

  /** Only the full spine length of parent steps leads from the left-most
      leaf back to the top. */
  lemma LeafDistance(ns: seq<Node>, h: int, t: Term, r: nat)
    requires IsTree(ns, h, t) && r <= SpineLen(t)
    requires Climb(ns, Descend(ns, h, SpineLen(t)), r) == h
    ensures r == SpineLen(t)
  {
    ClimbDescend(ns, h, t, SpineLen(t), r);
    var d := SpineLen(t) - r;
    DescendTree(ns, h, t, d);
    TreeIsShape(ns, Descend(ns, h, d), LeftAt(t, d));
    NodesInRange(ns, Descend(ns, h, d), LeftAt(t, d));
  }

  /** A climb whose every step stays in the arena can be taken by getNthParent. */
  lemma {:induction false} ClimbCan(ns: seq<Node>, x: int, n: nat)
    requires forall i :: 0 <= i <= n ==> 0 <= Climb(ns, x, i) < |ns|
    ensures CanClimb(ns, x, n)
    decreases n
  {
    assert 0 <= Climb(ns, x, 0) < |ns|;
    if n > 0 {
      forall i | 0 <= i <= n - 1
        ensures 0 <= Climb(ns, ns[x].parent, i) < |ns|
      {
        assert Climb(ns, x, i + 1) == Climb(ns, ns[x].parent, i);
      }
      ClimbCan(ns, ns[x].parent, n - 1);
    }
  }

  /** With no root mark on the way, getNthParent climbs all `n` steps. */
  lemma NthParentIs(ns: seq<Node>, x: int, n: nat)
    requires forall i :: 0 <= i <= n ==> 0 <= Climb(ns, x, i) < |ns|
    requires forall i :: 0 <= i < n ==> !ns[Climb(ns, x, i)].isRoot
    ensures CanClimb(ns, x, n) && GetNthParent(ns, x, n) == Climb(ns, x, n)
  {
    ClimbCan(ns, x, n);
    var r := GetNthParent(ns, x, n);
    var m :| 0 <= m <= n && r == Climb(ns, x, m) && (m == n || ns[r].isRoot) &&
             forall j :: 0 <= j < m ==> 0 <= Climb(ns, x, j) < |ns| && !ns[Climb(ns, x, j)].isRoot;
  }

  /** getLeftMostLeaf: follow `left` down to a leaf. */
  function GetLeftMostLeaf(ns: seq<Node>, h: int, ghost t: Term): (r: int)
    requires Shape(ns, h, t)
    ensures r == Descend(ns, h, SpineLen(t))
    ensures Shape(ns, r, Leaf(Head(t)))
    decreases t
  {
    if ns[h].isLeaf then h else GetLeftMostLeaf(ns, ns[h].left, t.l)
  }

  /** A root mark is met within `k` parent steps from `h`. */
  ghost predicate RootWithin(ns: seq<Node>, h: int, k: nat)
    decreases k
  {
    0 <= h < |ns| && (ns[h].isRoot || (k > 0 && RootWithin(ns, ns[h].parent, k - 1)))
  }

  /** getRoot: the nearest node at or above `h` marked as a root. */
  function GetRoot(ns: seq<Node>, h: int, ghost k: nat): (r: int)
    requires RootWithin(ns, h, k)
    ensures 0 <= r < |ns| && ns[r].isRoot
    ensures exists m :: 0 <= m <= k && r == Climb(ns, h, m) &&
                        forall j :: 0 <= j < m ==> 0 <= Climb(ns, h, j) < |ns| && !ns[Climb(ns, h, j)].isRoot
    decreases k
  {
    if ns[h].isRoot then
      assert Climb(ns, h, 0) == h;
      h
    else
      var r := GetRoot(ns, ns[h].parent, k - 1);
      ghost var m :| 0 <= m <= k - 1 && r == Climb(ns, ns[h].parent, m) &&
        forall j :: 0 <= j < m ==> 0 <= Climb(ns, ns[h].parent, j) < |ns| && !ns[Climb(ns, ns[h].parent, j)].isRoot;
      assert r == Climb(ns, h, m + 1);
      assert forall j :: 1 <= j < m + 1 ==> Climb(ns, h, j) == Climb(ns, ns[h].parent, j - 1);
      r
  }

  /** Climbing up to `n` steps from `h` stays in the arena (it may stop early at a root). */
  ghost predicate CanClimb(ns: seq<Node>, h: int, n: nat)
    decreases n
  {
    0 <= h < |ns| && (ns[h].isRoot || n == 0 || CanClimb(ns, ns[h].parent, n - 1))
  }

  /** getNthParent: climb `n` parents, stopping early at a node marked as a root. */
  function GetNthParent(ns: seq<Node>, h: int, n: nat): (r: int)
    requires CanClimb(ns, h, n)
    ensures 0 <= r < |ns|
    ensures exists m :: 0 <= m <= n && r == Climb(ns, h, m) && (m == n || ns[r].isRoot) &&
                        forall j :: 0 <= j < m ==> 0 <= Climb(ns, h, j) < |ns| && !ns[Climb(ns, h, j)].isRoot
    decreases n
  {
    if ns[h].isRoot || n == 0 then
      assert Climb(ns, h, 0) == h;
      h
    else
      var r := GetNthParent(ns, ns[h].parent, n - 1);
      ghost var m :| 0 <= m <= n - 1 && r == Climb(ns, ns[h].parent, m) &&
        (m == n - 1 || ns[r].isRoot) &&
        forall j :: 0 <= j < m ==> 0 <= Climb(ns, ns[h].parent, j) < |ns| && !ns[Climb(ns, ns[h].parent, j)].isRoot;
      assert r == Climb(ns, h, m + 1);
      assert forall j :: 1 <= j < m + 1 ==> Climb(ns, h, j) == Climb(ns, ns[h].parent, j - 1);
      r
  }

  /** `root` is reached from `d` within `k` parent steps. */
  ghost predicate Reaches(ns: seq<Node>, d: int, root: int, k: nat)
    decreases k
  {
    d == root || (k > 0 && 0 <= d < |ns| && Reaches(ns, ns[d].parent, root, k - 1))
  }

  /** numNodesToRoot: the number of parent steps from `d` up to `root`. */
  function NumNodesToRoot(ns: seq<Node>, d: int, root: int, ghost k: nat): (r: nat)
    requires Reaches(ns, d, root, k)
    ensures r <= k && Climb(ns, d, r) == root
    ensures forall j :: 0 <= j < r ==> Climb(ns, d, j) != root
    ensures r == 0 <==> d == root
    decreases k
  {
    if d == root then 0
    else
      var r := NumNodesToRoot(ns, ns[d].parent, root, k - 1);
      assert forall j :: 1 <= j < r + 1 ==> Climb(ns, d, j) == Climb(ns, ns[d].parent, j - 1);
      1 + r
  }

  /** getNRightSiblings: the right children of the first `n` ancestors of `d`. */
  method GetNRightSiblings(ns: seq<Node>, d: int, n: nat) returns (r: seq<int>)
    requires forall j :: 1 <= j <= n ==> 0 <= Climb(ns, d, j) < |ns|
    ensures |r| == n
    ensures forall k :: 0 <= k < n ==> r[k] == ns[Climb(ns, d, k + 1)].right
  {
    r := [];
    var current := d;
    var i := 0;
    while i < n
      invariant 0 <= i <= n && |r| == i
      invariant current == Climb(ns, d, i)
      invariant forall k :: 0 <= k < i ==> r[k] == ns[Climb(ns, d, k + 1)].right
    {
      assert 0 <= current < |ns| by {
        if i == 0 {
          assert Climb(ns, d, 1) != Nil;
        }
      }
      ClimbSucc(ns, d, i);
      current := ns[current].parent;
      r := r + [ns[current].right];
      i := i + 1;
    }
  }

  // ----- copying and joining -----

  /** copy: a fresh, well-linked duplicate of the structure at `h`; its top
      keeps the original's parent and root mark, every other node keeps its
      root mark and points back to the copy holding it.  Nothing that
      existed before is changed. */
  method Copy(a: Arena, h: int, ghost t: Term) returns (r: int)
    requires Shape(a.nodes, h, t)
    modifies a
    ensures Outside(old(a.nodes), a.nodes, {})
    ensures IsTree(a.nodes, r, t) && Fresh(old(a.nodes), a.nodes, Nodes(a.nodes, r, t))
    ensures a.nodes[r].parent == old(a.nodes[h].parent) && a.nodes[r].isRoot == old(a.nodes[h].isRoot)
    decreases t
  {
    var n := a.nodes[h];
    if n.isLeaf {
      a.nodes := a.nodes + [Node(Nil, Nil, n.parent, true, n.isRoot, n.leaf)];
      r := |a.nodes| - 1;
      return;
    }
    ghost var ns0 := a.nodes;
    var x := Copy(a, n.left, t.l);
    ghost var ns1 := a.nodes;
    ShapeOutside(ns0, ns1, {}, n.right, t.r);
    var y := Copy(a, n.right, t.r);
    ghost var ns2 := a.nodes;
    var top := Node(x, y, n.parent, false, n.isRoot, n.leaf);
    a.nodes := a.nodes + [top];
    r := |a.nodes| - 1;
    ghost var ns3 := a.nodes;
    a.nodes := a.nodes[x := a.nodes[x].(parent := r)];
    ghost var ns4 := a.nodes;
    a.nodes := a.nodes[y := a.nodes[y].(parent := r)];
    assert ns3 == ns2 + [top] && r == |ns2|;
    assert ns4 == ns3[top.left := ns3[top.left].(parent := |ns2|)];
    assert a.nodes == Linked(ns2, top);
    assert t == App(t.l, t.r);
    CopyLink(ns0, ns1, ns2, top, t.l, t.r);
  }

  /** The last step of copying an application: the two copied subtrees,
      allocated one after the other, are linked under the copied top. */
  lemma CopyLink(ns0: seq<Node>, ns1: seq<Node>, ns2: seq<Node>, top: Node, tl: Term, tr: Term)
    requires !top.isLeaf
    requires Outside(ns0, ns1, {}) && Outside(ns1, ns2, {})
    requires IsTree(ns1, top.left, tl) && Fresh(ns0, ns1, Nodes(ns1, top.left, tl)) && !ns1[top.left].isRoot
    requires IsTree(ns2, top.right, tr) && Fresh(ns1, ns2, Nodes(ns2, top.right, tr)) && !ns2[top.right].isRoot
    ensures Outside(ns0, Linked(ns2, top), {})
    ensures IsTree(Linked(ns2, top), |ns2|, App(tl, tr))
    ensures Fresh(ns0, Linked(ns2, top), Nodes(Linked(ns2, top), |ns2|, App(tl, tr)))
    ensures Linked(ns2, top)[|ns2|] == top
  {
    var x, y := top.left, top.right;
    TreeOutside(ns1, ns2, {}, x, tl);
    var nx, ny := Nodes(ns2, x, tl), Nodes(ns2, y, tr);
    DisjointRanges(nx, ny, |ns0|, |ns1|, |ns2|);
    LinkTree(ns2, top, tl, tr);
    FreshUnion(ns0, ns1, ns2, Linked(ns2, top), nx, ny);
    TreeIsShape(ns2, x, tl);
    TreeIsShape(ns2, y, tr);
    NodesInRange(ns2, x, tl);
    NodesInRange(ns2, y, tr);
    OutsideLink(ns0, ns2, top);
  }

  lemma DisjointRanges(nx: set<int>, ny: set<int>, a: int, b: int, c: int)
    requires forall k :: k in nx ==> a <= k < b
    requires forall k :: k in ny ==> b <= k < c
    ensures nx !! ny
  {
    forall k | k in nx
      ensures k !in ny
    {
    }
  }

  /** Linking two nodes allocated after `ns0` leaves the nodes of `ns0` intact. */
  lemma OutsideLink(ns0: seq<Node>, ns: seq<Node>, top: Node)
    requires Outside(ns0, ns, {})
    requires |ns0| <= top.left < |ns| && |ns0| <= top.right < |ns| && top.left != top.right
    ensures Outside(ns0, Linked(ns, top), {})
  {
    LinkedFacts(ns, top);
  }

  lemma FreshUnion(ns0: seq<Node>, ns1: seq<Node>, ns2: seq<Node>, ns3: seq<Node>, nx: set<int>, ny: set<int>)
    requires |ns3| == |ns2| + 1 && |ns0| <= |ns1| <= |ns2|
    requires forall k :: k in nx ==> |ns0| <= k < |ns1|
    requires forall k :: k in ny ==> |ns1| <= k < |ns2|
    ensures Fresh(ns0, ns3, {|ns2|} + nx + ny)
  {
  }

  /** The arena after appending `top` and pointing its two children back at it. */
  ghost function Linked(ns: seq<Node>, top: Node): seq<Node>
    requires 0 <= top.left < |ns| && 0 <= top.right < |ns|
  {
    var r := |ns|;
    var ns1 := ns + [top];
    var ns2 := ns1[top.left := ns1[top.left].(parent := r)];
    ns2[top.right := ns2[top.right].(parent := r)]
  }

  /** What linking changes: the new top, and the parent of its two children. */
  lemma LinkedFacts(ns: seq<Node>, top: Node)
    requires 0 <= top.left < |ns| && 0 <= top.right < |ns| && top.left != top.right
    ensures |Linked(ns, top)| == |ns| + 1 && Linked(ns, top)[|ns|] == top
    ensures Linked(ns, top)[top.left] == ns[top.left].(parent := |ns|)
    ensures Linked(ns, top)[top.right] == ns[top.right].(parent := |ns|)
    ensures forall k :: 0 <= k < |ns| && k != top.left && k != top.right ==> Linked(ns, top)[k] == ns[k]
  {
  }

  /** Linking two disjoint trees under a new top node makes a tree. */
  lemma LinkTree(ns: seq<Node>, top: Node, tl: Term, tr: Term)
    requires IsTree(ns, top.left, tl) && IsTree(ns, top.right, tr)
    requires !ns[top.left].isRoot && !ns[top.right].isRoot && !top.isLeaf
    requires Nodes(ns, top.left, tl) !! Nodes(ns, top.right, tr)
    ensures IsTree(Linked(ns, top), |ns|, App(tl, tr))
    ensures Nodes(Linked(ns, top), |ns|, App(tl, tr)) == {|ns|} + Nodes(ns, top.left, tl) + Nodes(ns, top.right, tr)
    ensures Outside(ns, Linked(ns, top), {top.left, top.right})
    ensures |Linked(ns, top)| == |ns| + 1 && Linked(ns, top)[|ns|] == top
  {
    var x, y := top.left, top.right;
    var r := |ns|;
    var ns' := Linked(ns, top);
    TreeIsShape(ns, x, tl);
    TreeIsShape(ns, y, tr);
    NodesInRange(ns, x, tl);
    NodesInRange(ns, y, tr);
    assert x != y;
    LinkedFacts(ns, top);
    TreeFrame(ns, ns', x, tl);
    TreeFrame(ns, ns', y, tr);
    assert r !in Nodes(ns', x, tl) && r !in Nodes(ns', y, tr);
  }

  lemma ShapesKept(ns1: seq<Node>, ns2: seq<Node>, hs: seq<int>, ts: seq<Term>)
    requires |hs| == |ts| && Outside(ns1, ns2, {})
    requires forall i :: 0 <= i < |hs| ==> Shape(ns1, hs[i], ts[i])
    ensures forall i :: 0 <= i < |hs| ==> Shape(ns2, hs[i], ts[i])
  {
    forall i | 0 <= i < |hs|
      ensures Shape(ns2, hs[i], ts[i])
    {
      ShapeOutside(ns1, ns2, {}, hs[i], ts[i]);
    }
  }

  /** The arena after join marks two copies as non-roots and allocates a
      new root node applying the first to the second. */
  ghost function Paired(ns: seq<Node>, x: int, y: int): seq<Node>
    requires 0 <= x < |ns| && 0 <= y < |ns|
  {
    var ns1 := ns[x := ns[x].(isRoot := false)];
    var ns2 := ns1[y := ns1[y].(isRoot := false)];
    ns2 + [Node(x, y, Nil, false, true, "")]
  }

  /** Pairing changes no shape and only clears root marks. */
  lemma PairedWeakened(ns: seq<Node>, x: int, y: int)
    requires 0 <= x < |ns| && 0 <= y < |ns|
    ensures Weakened(ns, Paired(ns, x, y))
    ensures |Paired(ns, x, y)| == |ns| + 1 && Paired(ns, x, y)[|ns|] == Node(x, y, Nil, false, true, "")
    ensures forall k :: 0 <= k < |ns| && k != x && k != y ==> Paired(ns, x, y)[k] == ns[k]
    ensures !Paired(ns, x, y)[x].isRoot && !Paired(ns, x, y)[y].isRoot
  {
    var ns3 := Paired(ns, x, y);
    assert forall k :: 0 <= k < |ns| && k != x && k != y ==> ns3[k] == ns[k];
    assert ns3[x].isRoot == false && SameShape(ns3[x], ns[x]);
    assert ns3[y].isRoot == false && SameShape(ns3[y], ns[y]);
  }

  lemma PairedShape(ns0: seq<Node>, ns: seq<Node>, x: int, y: int, hs: seq<int>, ts: seq<Term>)
    requires |hs| == |ts| >= 2 && Outside(ns0, ns, {})
    requires forall i :: 0 <= i < |hs| ==> 0 <= hs[i] < |ns0| && Shape(ns, hs[i], ts[i])
    requires IsTree(ns, x, ts[0]) && Fresh(ns0, ns, Nodes(ns, x, ts[0]))
    requires IsTree(ns, y, ts[1]) && Fresh(ns0, ns, Nodes(ns, y, ts[1]))
    ensures Outside(ns0, Paired(ns, x, y), {})
    ensures forall i :: 0 <= i < |hs| - 1 ==>
      0 <= ([|ns|] + hs[2..])[i] < |Paired(ns, x, y)| &&
      Shape(Paired(ns, x, y), ([|ns|] + hs[2..])[i], ([App(ts[0], ts[1])] + ts[2..])[i])
    ensures Paired(ns, x, y)[|ns|] == Node(x, y, Nil, false, true, "")
  {
    TreeIsShape(ns, x, ts[0]);
    TreeIsShape(ns, y, ts[1]);
    NodesInRange(ns, x, ts[0]);
    NodesInRange(ns, y, ts[1]);
    var ns3 := Paired(ns, x, y);
    PairedWeakened(ns, x, y);
    ShapeWeakened(ns, ns3, x, ts[0]);
    ShapeWeakened(ns, ns3, y, ts[1]);
    assert Shape(ns3, |ns|, App(ts[0], ts[1]));
    forall i | 2 <= i < |hs|
      ensures 0 <= hs[i] < |ns3| && Shape(ns3, hs[i], ts[i])
    {
      ShapeWeakened(ns, ns3, hs[i], ts[i]);
    }
    ShapesShift(ns3, |ns|, App(ts[0], ts[1]), hs, ts);
  }

  /** Replacing the first two entries of a list of shapes by one shape. */
  lemma ShapesShift(ns: seq<Node>, h: int, t: Term, hs: seq<int>, ts: seq<Term>)
    requires |hs| == |ts| >= 2 && 0 <= h < |ns| && Shape(ns, h, t)
    requires forall i :: 2 <= i < |hs| ==> 0 <= hs[i] < |ns| && Shape(ns, hs[i], ts[i])
    ensures forall i :: 0 <= i < |hs| - 1 ==>
      0 <= ([h] + hs[2..])[i] < |ns| && Shape(ns, ([h] + hs[2..])[i], ([t] + ts[2..])[i])
  {
    var hs', ts' := [h] + hs[2..], [t] + ts[2..];
    forall i | 0 <= i < |hs| - 1
      ensures 0 <= hs'[i] < |ns| && Shape(ns, hs'[i], ts'[i])
    {
      if i > 0 {
        assert hs'[i] == hs[i + 1] && ts'[i] == ts[i + 1];
      }
    }
  }

  /** `ns2` extends `ns1` with every old node keeping its shape, and no
      node gaining a root mark. */
  ghost predicate Weakened(ns1: seq<Node>, ns2: seq<Node>)
  {
    |ns1| <= |ns2| &&
    forall k :: 0 <= k < |ns1| ==> SameShape(ns2[k], ns1[k]) && (ns2[k].isRoot ==> ns1[k].isRoot)
  }

  lemma {:induction false} ShapeWeakened(ns1: seq<Node>, ns2: seq<Node>, h: int, t: Term)
    requires Shape(ns1, h, t) && Weakened(ns1, ns2)
    ensures Shape(ns2, h, t)
    decreases t
  {
    if t.App? {
      ShapeWeakened(ns1, ns2, ns1[h].left, t.l);
      ShapeWeakened(ns1, ns2, ns1[h].right, t.r);
    }
  }

  /** join: the left-nested application of the listed trees, built from
      fresh copies; nil for no trees and a plain copy for one.  The inputs
      are not changed. */
  method Join(a: Arena, hs: seq<int>, ghost ts: seq<Term>) returns (r: int)
    requires |hs| == |ts|
    requires forall i :: 0 <= i < |hs| ==> 0 <= hs[i] < |a.nodes| && Shape(a.nodes, hs[i], ts[i])
    modifies a
    ensures Outside(old(a.nodes), a.nodes, {})
    ensures hs == [] ==> r == Nil
    ensures hs != [] ==> 0 <= r < |a.nodes|
    ensures hs != [] ==> IsTree(a.nodes, r, FoldApp(ts)) && Fresh(old(a.nodes), a.nodes, Nodes(a.nodes, r, FoldApp(ts)))
    ensures |hs| == 1 ==> a.nodes[r].parent == old(a.nodes[hs[0]].parent) && a.nodes[r].isRoot == old(a.nodes[hs[0]].isRoot)
    ensures |hs| >= 2 ==> a.nodes[r].parent == Nil && a.nodes[r].isRoot
    decreases |hs|
  {
    if |hs| == 0 {
      return Nil;
    }
    if |hs| == 1 {
      assert FoldApp(ts) == ts[0] by {
        assert ts[1..] == [];
      }
      r := Copy(a, hs[0], ts[0]);
      return;
    }
    ghost var ns := a.nodes;
    var x := Copy(a, hs[0], ts[0]);
    ghost var ns0 := a.nodes;
    ShapeOutside(ns, ns0, {}, hs[1], ts[1]);
    var y := Copy(a, hs[1], ts[1]);
    ghost var ns1 := a.nodes;
    var top := Pair(a, x, y);
    JoinSetup(ns, ns0, ns1, x, y, hs, ts);
    ghost var ns4 := a.nodes;
    r := Join(a, [top] + hs[2..], [App(ts[0], ts[1])] + ts[2..]);
    JoinFinish(ns, ns4, a.nodes, r, ts);
  }

  /** The pairing step of join: both copies lose their root mark and a new
      root applies the first to the second.  The copies' parent links are
      left as they were; the next copy of the new root rewires them. */
  method Pair(a: Arena, x: int, y: int) returns (top: int)
    requires 0 <= x < |a.nodes| && 0 <= y < |a.nodes|
    modifies a
    ensures a.nodes == Paired(old(a.nodes), x, y) && top == |old(a.nodes)|
  {
    a.nodes := a.nodes[x := a.nodes[x].(isRoot := false)];
    a.nodes := a.nodes[y := a.nodes[y].(isRoot := false)];
    a.nodes := a.nodes + [Node(x, y, Nil, false, true, "")];
    top := |a.nodes| - 1;
  }

  /** The state join hands to its recursive call: the copies of the first
      two trees paired under a fresh root, the rest of the trees intact. */
  lemma JoinSetup(ns: seq<Node>, ns0: seq<Node>, ns1: seq<Node>, x: int, y: int, hs: seq<int>, ts: seq<Term>)
    requires |hs| == |ts| >= 2
    requires forall i :: 0 <= i < |hs| ==> 0 <= hs[i] < |ns| && Shape(ns, hs[i], ts[i])
    requires Outside(ns, ns0, {}) && Outside(ns0, ns1, {})
    requires IsTree(ns0, x, ts[0]) && Fresh(ns, ns0, Nodes(ns0, x, ts[0]))
    requires IsTree(ns1, y, ts[1]) && Fresh(ns0, ns1, Nodes(ns1, y, ts[1]))
    ensures 0 <= x < |ns1| && 0 <= y < |ns1|
    ensures Outside(ns, Paired(ns1, x, y), {})
    ensures forall i :: 0 <= i < |hs| - 1 ==>
      0 <= ([|ns1|] + hs[2..])[i] < |Paired(ns1, x, y)| &&
      Shape(Paired(ns1, x, y), ([|ns1|] + hs[2..])[i], ([App(ts[0], ts[1])] + ts[2..])[i])
    ensures Paired(ns1, x, y)[|ns1|] == Node(x, y, Nil, false, true, "")
  {
    OutsideTrans(ns, ns0, ns1, {}, {});
    ShapesKept(ns, ns1, hs, ts);
    TreeOutside(ns0, ns1, {}, x, ts[0]);
    NodesInRange(ns1, x, ts[0]) by { TreeIsShape(ns1, x, ts[0]); }
    NodesInRange(ns1, y, ts[1]) by { TreeIsShape(ns1, y, ts[1]); }
    PairedShape(ns, ns1, x, y, hs, ts);
  }

  /** What join's recursive call delivers about the paired list is what
      join promises about the original list. */
  lemma JoinFinish(ns: seq<Node>, ns1: seq<Node>, ns2: seq<Node>, r: int, ts: seq<Term>)
    requires |ts| >= 2
    requires Outside(ns, ns1, {}) && Outside(ns1, ns2, {})
    requires IsTree(ns2, r, FoldApp([App(ts[0], ts[1])] + ts[2..]))
    requires Fresh(ns1, ns2, Nodes(ns2, r, FoldApp([App(ts[0], ts[1])] + ts[2..])))
    ensures Outside(ns, ns2, {})
    ensures IsTree(ns2, r, FoldApp(ts)) && Fresh(ns, ns2, Nodes(ns2, r, FoldApp(ts)))
  {
    FoldAppPair(ts);
    OutsideTrans(ns, ns1, ns2, {}, {});
  }
}
