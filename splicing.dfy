/** Heap facts for the rewriting engine: how a tree in the arena is rebuilt
    when one of its sub-trees is replaced by the result of an operation
    that touched only that sub-tree and freshly allocated nodes. */
module Splicing {
  import opened Terms
  import opened Trees

  /** Every handle of `s` is in `m` or was allocated after `ns0`. */
  ghost predicate Within(n: int, s: set<int>, m: set<int>)
  {
    forall k :: k in s ==> k in m || n <= k
  }

  lemma WithinTrans(n0: int, n1: int, s0: set<int>, s1: set<int>, s2: set<int>)
    requires n0 <= n1 && Within(n0, s1, s0) && Within(n1, s2, s1)
    ensures Within(n0, s2, s0)
  {
  }

  /** Two steps whose second only touches what the first may have produced
      change nothing outside what the first may change. */
  lemma OutsideWithin(ns0: seq<Node>, ns1: seq<Node>, ns2: seq<Node>, m0: set<int>, m1: set<int>)
    requires Outside(ns0, ns1, m0) && Outside(ns1, ns2, m1) && Within(|ns0|, m1, m0)
    ensures Outside(ns0, ns2, m0)
  {
  }

  lemma UpdateOther(ns: seq<Node>, h: int, n: Node, k: int)
    requires 0 <= h < |ns| && 0 <= k < |ns| && k != h
    ensures ns[h := n][k] == ns[k]
  {
  }

  /** Overwriting a node outside a tree keeps the tree. */
  lemma TreeUpdate(ns: seq<Node>, h: int, t: Term, k: int, n: Node)
    requires IsTree(ns, h, t) && 0 <= k < |ns| && k !in Nodes(ns, h, t)
    ensures IsTree(ns[k := n], h, t) && Nodes(ns[k := n], h, t) == Nodes(ns, h, t)
  {
    assert Outside(ns, ns[k := n], {k});
    TreeOutside(ns, ns[k := n], {k}, h, t);
  }

  /** The nodes of an application: its top and those of its two sub-trees. */
  lemma NodesApp(ns: seq<Node>, h: int, l: Term, r: Term)
    requires IsTree(ns, h, App(l, r))
    ensures Nodes(ns, h, App(l, r)) == {h} + Nodes(ns, ns[h].left, l) + Nodes(ns, ns[h].right, r)
    ensures forall k :: k in Nodes(ns, h, App(l, r)) ==> 0 <= k < |ns|
    ensures h in Nodes(ns, h, App(l, r))
    ensures Nodes(ns, ns[h].left, l) <= Nodes(ns, h, App(l, r))
    ensures Nodes(ns, ns[h].right, r) <= Nodes(ns, h, App(l, r))
    ensures forall k :: k in Nodes(ns, ns[h].left, l) ==> 0 <= k < |ns|
    ensures forall k :: k in Nodes(ns, ns[h].right, r) ==> 0 <= k < |ns|
    ensures Nodes(ns, ns[h].left, l) !! Nodes(ns, ns[h].right, r)
    ensures h !in Nodes(ns, ns[h].left, l) && h !in Nodes(ns, ns[h].right, r)
  {
    TreeIsShape(ns, h, App(l, r));
    NodesInRange(ns, h, App(l, r));
  }

  /** The left child of `h` has been replaced (in `ns1`) by a tree built
      from the old left sub-tree and fresh nodes; linking it in as the new
      left child keeps the right sub-tree and the new left tree intact. */
  lemma LeftReplaced(ns0: seq<Node>, ns1: seq<Node>, ns2: seq<Node>, h: int, tl: Term, tr: Term, x: int, tl2: Term)
    requires IsTree(ns0, h, App(tl, tr))
    requires Outside(ns0, ns1, Nodes(ns0, ns0[h].left, tl))
    requires IsTree(ns1, x, tl2) && Within(|ns0|, Nodes(ns1, x, tl2), Nodes(ns0, ns0[h].left, tl))
    requires 0 <= h < |ns1| && ns2 == ns1[h := ns1[h].(left := x)]
    ensures ns2[h] == ns0[h].(left := x) && ns2[x] == ns1[x]
    ensures IsTree(ns2, x, tl2) && Nodes(ns2, x, tl2) == Nodes(ns1, x, tl2)
    ensures IsTree(ns2, ns0[h].right, tr) && Nodes(ns2, ns0[h].right, tr) == Nodes(ns0, ns0[h].right, tr)
    ensures h !in Nodes(ns1, x, tl2) && Nodes(ns1, x, tl2) !! Nodes(ns0, ns0[h].right, tr)
  {
    var x0, y := ns0[h].left, ns0[h].right;
    NodesApp(ns0, h, tl, tr);
    var n0, ny := Nodes(ns0, x0, tl), Nodes(ns0, y, tr);
    assert h !in n0 && n0 !! ny;
    assert ns1[h] == ns0[h];
    TreeOutside(ns0, ns1, n0, y, tr);
    TreeIsShape(ns1, x, tl2);
    NodesInRange(ns1, x, tl2);
    assert h !in Nodes(ns1, x, tl2);
    assert x != h;
    UpdateOther(ns1, h, ns1[h].(left := x), x);
    TreeUpdate(ns1, x, tl2, h, ns1[h].(left := x));
    TreeUpdate(ns1, y, tr, h, ns1[h].(left := x));
    DisjointWithin(|ns0|, |ns1|, Nodes(ns1, x, tl2), ny, n0, ny);
  }

  /** A set built from `ml` and nodes allocated between `n0` and `n1` is
      apart from one built from `mr` and nodes allocated after `n1`. */
  lemma DisjointWithin(n0: int, n1: int, nx: set<int>, ny: set<int>, ml: set<int>, mr: set<int>)
    requires n0 <= n1 && ml !! mr
    requires forall k :: k in nx ==> (k in ml || n0 <= k) && k < n1
    requires forall k :: k in ny ==> k in mr || n1 <= k
    requires forall k :: k in ml ==> k < n0
    requires forall k :: k in mr ==> k < n0
    ensures nx !! ny
  {
    forall k | k in nx
      ensures k !in ny
    {
      if k in ml {
        assert k !in mr && k < n1;
      }
    }
  }

  /** While the right sub-tree is replaced (confined to `mr`), the new left
      tree of `h` stays as it is and apart from the new right tree. */
  lemma RightKept(ns2: seq<Node>, ns3: seq<Node>, h: int, x: int, tl2: Term, y: int, tr2: Term, mr: set<int>)
    requires 0 <= h < |ns2| && h !in mr
    requires forall k :: k in mr ==> k < |ns2|
    requires IsTree(ns2, x, tl2) && h !in Nodes(ns2, x, tl2) && Nodes(ns2, x, tl2) !! mr
    requires Outside(ns2, ns3, mr)
    requires IsTree(ns3, y, tr2) && Within(|ns2|, Nodes(ns3, y, tr2), mr)
    ensures IsTree(ns3, x, tl2) && Nodes(ns3, x, tl2) == Nodes(ns2, x, tl2)
    ensures ns3[h] == ns2[h] && ns3[x] == ns2[x] && x != h && y != h
    ensures h !in Nodes(ns3, x, tl2) && h !in Nodes(ns3, y, tr2)
    ensures Nodes(ns3, x, tl2) !! Nodes(ns3, y, tr2)
  {
    TreeIsShape(ns2, x, tl2);
    NodesInRange(ns2, x, tl2);
    assert x != h && x !in mr;
    TreeOutside(ns2, ns3, mr, x, tl2);
    TreeIsShape(ns3, y, tr2);
    NodesInRange(ns3, y, tr2);
    var nx, ny := Nodes(ns2, x, tl2), Nodes(ns3, y, tr2);
    forall k | k in nx
      ensures k !in ny
    {
      assert k !in mr && k < |ns2|;
    }
  }

  /** Then the right child is replaced the same way: `mr` is the old right
      sub-tree.  Linking the new right tree makes the node spell the
      application of the two new trees. */
  lemma RightReplaced(ns2: seq<Node>, ns3: seq<Node>, ns4: seq<Node>, h: int,
                      x: int, tl2: Term, y: int, tr2: Term, mr: set<int>)
    requires 0 <= h < |ns2| && ns2[h].left == x && !ns2[h].isLeaf && h !in mr
    requires forall k :: k in mr ==> k < |ns2|
    requires IsTree(ns2, x, tl2) && h !in Nodes(ns2, x, tl2) && Nodes(ns2, x, tl2) !! mr
    requires ns2[x].parent == h && !ns2[x].isRoot
    requires Outside(ns2, ns3, mr)
    requires IsTree(ns3, y, tr2) && Within(|ns2|, Nodes(ns3, y, tr2), mr)
    requires ns3[y].parent == h && !ns3[y].isRoot
    requires 0 <= h < |ns3| && ns4 == ns3[h := ns3[h].(right := y)]
    ensures IsTree(ns4, h, App(tl2, tr2))
    ensures Nodes(ns4, x, tl2) == Nodes(ns2, x, tl2) && Nodes(ns4, y, tr2) == Nodes(ns3, y, tr2)
    ensures ns4[h] == ns2[h].(right := y)
  {
    RightKept(ns2, ns3, h, x, tl2, y, tr2, mr);
    var n := ns3[h].(right := y);
    TreeUpdate(ns3, x, tl2, h, n);
    TreeUpdate(ns3, y, tr2, h, n);
    UpdateOther(ns3, h, n, x);
    UpdateOther(ns3, h, n, y);
    MakeApp(ns4, h, x, y, tl2, tr2);
  }

  lemma WithinUnion(n0: int, n1: int, h: int, nx: set<int>, ny: set<int>, m: set<int>, ml: set<int>, mr: set<int>)
    requires n0 <= n1 && h in m && ml <= m && mr <= m
    requires Within(n0, nx, ml) && Within(n1, ny, mr)
    ensures Within(n0, {h} + nx + ny, m)
  {
  }

  /** A node whose children are two separate trees hanging from it spells
      their application. */
  lemma MakeApp(ns: seq<Node>, h: int, x: int, y: int, tl: Term, tr: Term)
    requires 0 <= h < |ns| && ns[h].left == x && ns[h].right == y && !ns[h].isLeaf
    requires IsTree(ns, x, tl) && IsTree(ns, y, tr)
    requires !ns[x].isRoot && !ns[y].isRoot && ns[x].parent == h && ns[y].parent == h
    requires Nodes(ns, x, tl) !! Nodes(ns, y, tr) && h !in Nodes(ns, x, tl) && h !in Nodes(ns, y, tr)
    ensures IsTree(ns, h, App(tl, tr))
  {
  }

  /** One child of `h` rewritten within `ml`, then `h` itself updated: only
      nodes of `m` changed. */
  lemma ChildFrame(ns0: seq<Node>, ns1: seq<Node>, ns2: seq<Node>, h: int, m: set<int>, ml: set<int>)
    requires Outside(ns0, ns1, ml) && 0 <= h < |ns1| && |ns2| == |ns1|
    requires forall k :: 0 <= k < |ns1| && k != h ==> ns2[k] == ns1[k]
    requires h in m && ml <= m
    ensures Outside(ns0, ns2, m)
  {
  }

  /** Replacing the left sub-tree (confined to `ml`), linking it, replacing
      the right one (confined to `mr`) and linking it changes nothing
      outside the old tree `m`. */
  lemma ChildrenFrame(ns0: seq<Node>, ns1: seq<Node>, ns2: seq<Node>, ns3: seq<Node>, ns4: seq<Node>,
                      h: int, n2: Node, n4: Node, m: set<int>, ml: set<int>, mr: set<int>)
    requires Outside(ns0, ns1, ml) && 0 <= h < |ns1| && ns2 == ns1[h := n2]
    requires Outside(ns2, ns3, mr) && 0 <= h < |ns3| && ns4 == ns3[h := n4]
    requires h in m && ml <= m && mr <= m
    ensures Outside(ns0, ns4, m)
  {
  }

  /** Changing only the parent and root mark of a tree's top keeps the tree. */
  lemma Retop(ns: seq<Node>, h: int, t: Term, n: Node)
    requires IsTree(ns, h, t) && SameShape(n, ns[h])
    ensures IsTree(ns[h := n], h, t) && Nodes(ns[h := n], h, t) == Nodes(ns, h, t)
  {
    TreeIsShape(ns, h, t);
    NodesInRange(ns, h, t);
    TreeFrame(ns, ns[h := n], h, t);
  }

  /** Overwriting a freshly allocated node keeps everything older unchanged. */
  lemma OutsideFresh(ns0: seq<Node>, ns1: seq<Node>, k: int, n: Node)
    requires Outside(ns0, ns1, {}) && |ns0| <= k < |ns1|
    ensures Outside(ns0, ns1[k := n], {})
  {
  }

  /** The argument trees are kept by a step confined to part of `region`,
      which they avoid. */
  ghost predicate ArgsApart(ns: seq<Node>, hs: seq<int>, ts: seq<Term>, region: set<int>)
  {
    |hs| == |ts| && forall i :: 0 <= i < |hs| ==> Shape(ns, hs[i], ts[i]) && Nodes(ns, hs[i], ts[i]) !! region
  }

  lemma ArgsKept(ns0: seq<Node>, ns1: seq<Node>, hs: seq<int>, ts: seq<Term>, m: set<int>, region: set<int>)
    requires ArgsApart(ns0, hs, ts, region) && Outside(ns0, ns1, m) && m <= region
    ensures ArgsApart(ns1, hs, ts, region)
  {
    forall i | 0 <= i < |hs|
      ensures Shape(ns1, hs[i], ts[i]) && Nodes(ns1, hs[i], ts[i]) !! region
    {
      ShapeOutside(ns0, ns1, m, hs[i], ts[i]);
    }
  }

  /** A set made of `ml` and fresh handles is apart from old handles outside `ml`. */
  lemma ApartFresh(n0: int, nx: set<int>, ml: set<int>, ny: set<int>)
    requires Within(n0, nx, ml) && ml !! ny && forall k :: k in ny ==> k < n0
    ensures nx !! ny
  {
    forall k | k in nx
      ensures k !in ny
    {
    }
  }

  /** The top of an application whose left sub-tree was replaced by one
      built from the old left nodes and fresh ones, while nothing but the
      old left sub-tree and the top changed, spells the new application. */
  lemma RebuildTop(ns0: seq<Node>, ns5: seq<Node>, h: int, t: Term, xl: int, ul: Term, m: set<int>)
    requires IsTree(ns0, h, t) && t.App?
    requires m <= Nodes(ns0, ns0[h].left, t.l) + {h} && Outside(ns0, ns5, m)
    requires 0 <= h < |ns5| && ns5[h] == ns0[h].(left := xl)
    requires IsTree(ns5, xl, ul) && Within(|ns0|, Nodes(ns5, xl, ul), Nodes(ns0, ns0[h].left, t.l))
    requires ns5[xl].parent == h && !ns5[xl].isRoot
    ensures IsTree(ns5, h, App(ul, t.r))
    ensures Within(|ns0|, Nodes(ns5, h, App(ul, t.r)), Nodes(ns0, h, t))
  {
    var y := ns0[h].right;
    RightKeptTop(ns0, ns5, h, t, m);
    ApartFresh(|ns0|, Nodes(ns5, xl, ul), Nodes(ns0, ns0[h].left, t.l), Nodes(ns0, y, t.r));
    MakeApp(ns5, h, xl, y, ul, t.r);
  }

  /** The right sub-tree of the top survives a change confined to the left
      sub-tree and the top. */
  lemma RightKeptTop(ns0: seq<Node>, ns5: seq<Node>, h: int, t: Term, m: set<int>)
    requires IsTree(ns0, h, t) && t.App?
    requires m <= Nodes(ns0, ns0[h].left, t.l) + {h} && Outside(ns0, ns5, m)
    ensures IsTree(ns5, ns0[h].right, t.r) && Nodes(ns5, ns0[h].right, t.r) == Nodes(ns0, ns0[h].right, t.r)
    ensures 0 <= ns0[h].right < |ns0| && ns5[ns0[h].right] == ns0[ns0[h].right]
    ensures Nodes(ns0, ns0[h].left, t.l) !! Nodes(ns0, ns0[h].right, t.r) && h !in Nodes(ns0, ns0[h].right, t.r)
    ensures forall k :: k in Nodes(ns0, ns0[h].right, t.r) ==> 0 <= k < |ns0|
    ensures Nodes(ns0, h, t) == {h} + Nodes(ns0, ns0[h].left, t.l) + Nodes(ns0, ns0[h].right, t.r)
  {
    NodesApp(ns0, h, t.l, t.r);
    TreeOutside(ns0, ns5, m, ns0[h].right, t.r);
  }

  /** Splicing a tree `u` of fresh nodes in as the left child of the node
      d - 1 steps down the spine (in place of the sub-tree d steps down)
      makes the top spell `t` with that sub-tree replaced by `u`; the rest
      of the spine and every argument hanging from it are kept. */
  lemma {:induction false} SpliceTree(ns0: seq<Node>, ns5: seq<Node>, h: int, t: Term, d: nat, x: int, u: Term)
    requires IsTree(ns0, h, t) && 0 < d <= SpineLen(t)
    requires 0 <= Descend(ns0, h, d - 1) < |ns0|
    requires Outside(ns0, ns5, Nodes(ns0, Descend(ns0, h, d), LeftAt(t, d)) + {Descend(ns0, h, d - 1)})
    requires ns5[Descend(ns0, h, d - 1)] == ns0[Descend(ns0, h, d - 1)].(left := x)
    requires IsTree(ns5, x, u) && forall k :: k in Nodes(ns5, x, u) ==> |ns0| <= k
    requires ns5[x].parent == Descend(ns0, h, d - 1) && !ns5[x].isRoot
    ensures IsTree(ns5, h, ReplaceLeftAt(t, d, u))
    ensures Within(|ns0|, Nodes(ns5, h, ReplaceLeftAt(t, d, u)), Nodes(ns0, h, t))
    ensures Descend(ns5, h, d) == x
    ensures ns5[h].isRoot == ns0[h].isRoot && ns5[h].parent == ns0[h].parent
    decreases d
  {
    var hl := ns0[h].left;
    var m := Nodes(ns0, Descend(ns0, h, d), LeftAt(t, d)) + {Descend(ns0, h, d - 1)};
    if d == 1 {
      assert Descend(ns0, h, 1) == hl && Descend(ns0, h, 0) == h && LeftAt(t, 1) == t.l;
      RebuildTop(ns0, ns5, h, t, x, u, m);
    } else {
      var u2 := ReplaceLeftAt(t.l, d - 1, u);
      SpliceTree(ns0, ns5, hl, t.l, d - 1, x, u);
      SpliceStep(ns0, ns5, h, t, d, u2);
    }
  }

  /** One level up the spine from a splice that is further down. */
  lemma SpliceStep(ns0: seq<Node>, ns5: seq<Node>, h: int, t: Term, d: nat, u2: Term)
    requires IsTree(ns0, h, t) && 1 < d <= SpineLen(t)
    requires Outside(ns0, ns5, Nodes(ns0, Descend(ns0, h, d), LeftAt(t, d)) + {Descend(ns0, h, d - 1)})
    requires IsTree(ns5, ns0[h].left, u2) && Within(|ns0|, Nodes(ns5, ns0[h].left, u2), Nodes(ns0, ns0[h].left, t.l))
    requires 0 <= ns0[h].left < |ns0|
    requires ns5[ns0[h].left].isRoot == ns0[ns0[h].left].isRoot && ns5[ns0[h].left].parent == ns0[ns0[h].left].parent
    ensures IsTree(ns5, h, App(u2, t.r)) && ns5[h] == ns0[h]
    ensures Within(|ns0|, Nodes(ns5, h, App(u2, t.r)), Nodes(ns0, h, t))
  {
    var m := Nodes(ns0, Descend(ns0, h, d), LeftAt(t, d)) + {Descend(ns0, h, d - 1)};
    DescendTree(ns0, h, t, d - 1);
    TreeIsShape(ns0, Descend(ns0, h, d - 1), LeftAt(t, d - 1));
    NodesInRange(ns0, Descend(ns0, h, d - 1), LeftAt(t, d - 1));
    DescendTree(ns0, h, t, d);
    NodesApp(ns0, h, t.l, t.r);
    RebuildTop(ns0, ns5, h, t, ns0[h].left, u2, m);
  }


  /** The argument trees of a redex: each is a well-linked tree inside `m`,
      and no two share a node. */
  ghost predicate ArgsSeparate(ns: seq<Node>, hs: seq<int>, ts: seq<Term>, m: set<int>)
  {
    |hs| == |ts| && (forall k :: k in m ==> 0 <= k < |ns|) &&
    (forall i :: 0 <= i < |hs| ==> IsTree(ns, hs[i], ts[i]) && Nodes(ns, hs[i], ts[i]) <= m) &&
    (forall i, j :: 0 <= i < j < |hs| ==> Nodes(ns, hs[i], ts[i]) !! Nodes(ns, hs[j], ts[j]))
  }

  /** The right child of `p`, or Nil when `p` is not in the arena. */
  ghost function RightOf(ns: seq<Node>, p: int): int
  {
    if 0 <= p < |ns| then ns[p].right else Nil
  }

  lemma ArgsSeparateSnoc(ns: seq<Node>, hs: seq<int>, ts: seq<Term>, m: set<int>, h: int, t: Term, big: set<int>)
    requires ArgsSeparate(ns, hs, ts, m) && IsTree(ns, h, t)
    requires m <= big && Nodes(ns, h, t) <= big && m !! Nodes(ns, h, t)
    requires forall k :: k in big ==> 0 <= k < |ns|
    ensures ArgsSeparate(ns, hs + [h], ts + [t], big)
  {
    var hs2, ts2 := hs + [h], ts + [t];
    forall i, j | 0 <= i < j < |hs2|
      ensures Nodes(ns, hs2[i], ts2[i]) !! Nodes(ns, hs2[j], ts2[j])
    {
      if j == |hs| {
        assert Nodes(ns, hs2[i], ts2[i]) <= m;
      }
    }
  }

  /** The right children along the spine of a redex `w` at `rr`, innermost
      first, are separate trees spelling its arguments, all below `rr`. */
  lemma {:induction false} RedexArgs(ns: seq<Node>, rr: int, w: Term, args: seq<int>)
    requires IsTree(ns, rr, w) && |args| == SpineLen(w)
    requires forall i :: 0 <= i < |args| ==> args[i] == RightOf(ns, Descend(ns, rr, |args| - 1 - i))
    ensures ArgsSeparate(ns, args, Args(w), Nodes(ns, rr, w) - {rr})
    ensures |args| > 0 ==> args[|args| - 1] == ns[rr].right && ns[args[|args| - 1]].parent == rr
    decreases w
  {
    TreeIsShape(ns, rr, w);
    NodesInRange(ns, rr, w);
    if |args| > 0 {
      var k := |args|;
      var x, y := ns[rr].left, ns[rr].right;
      var inner := args[..k - 1];
      forall i | 0 <= i < |inner|
        ensures inner[i] == RightOf(ns, Descend(ns, x, |inner| - 1 - i))
      {
        assert Descend(ns, rr, k - 1 - i) == Descend(ns, x, k - 2 - i);
      }
      RedexArgs(ns, x, w.l, inner);
      assert Descend(ns, rr, 0) == rr;
      NodesApp(ns, rr, w.l, w.r);
      assert args == args[..k - 1] + [y];
      ArgsSeparateSnoc(ns, args[..k - 1], Args(w.l), Nodes(ns, x, w.l) - {x}, y, w.r, Nodes(ns, rr, w) - {rr});
    }
  }
}
