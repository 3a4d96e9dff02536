/** The rewriting engine of reduce.go over the node arena: apply, rewrite
    and reduce, each proved to compute the reference semantics of the
    Semantics module on the tree it is given. */
module Engine {
  import opened Wrappers
  import opened Terms
  import opened Statements
  import opened Combinators
  import opened Semantics
  import opened Trees
  import opened Splicing
  import opened Parser

  /** apply: substitute the argument trees `hs` for the parameters of `c`
      in the parsed definition at `croot`, in place.  A leaf naming a
      parameter is replaced by a fresh copy of the argument, which takes
      over the leaf's parent and root mark; any other leaf is kept.  Only
      the definition's own nodes are changed; everything else the result
      holds is newly allocated. */
  method Apply(a: Arena, c: Combinator, hs: seq<int>, croot: int,
               ghost body: Term, ghost actual: seq<Term>, ghost region: set<int>) returns (r: int)
    requires |hs| == |c.arguments| == |actual|
    requires ArgsApart(a.nodes, hs, actual, region)
    requires IsTree(a.nodes, croot, body) && Nodes(a.nodes, croot, body) <= region
    modifies a
    ensures Outside(old(a.nodes), a.nodes, Nodes(old(a.nodes), croot, body))
    ensures IsTree(a.nodes, r, Subst(c.arguments, actual, body))
    ensures Within(|old(a.nodes)|, Nodes(a.nodes, r, Subst(c.arguments, actual, body)), Nodes(old(a.nodes), croot, body))
    ensures a.nodes[r].parent == old(a.nodes[croot].parent) && a.nodes[r].isRoot == old(a.nodes[croot].isRoot)
    decreases body
  {
    ghost var ns0 := a.nodes;
    if a.nodes[croot].isLeaf {
      var index := IndexOf(c.arguments, a.nodes[croot].leaf);
      if index == -1 {
        return croot;
      }
      r := Copy(a, hs[index], actual[index]);
      ghost var ns1 := a.nodes;
      var n := a.nodes[r].(isRoot := a.nodes[croot].isRoot, parent := a.nodes[croot].parent);
      a.nodes := a.nodes[r := n];
      Retop(ns1, r, actual[index], n);
      OutsideFresh(ns0, ns1, r, n);
    } else {
      ghost var tl, tr := body.l, body.r;
      NodesApp(ns0, croot, tl, tr);
      var l := Apply(a, c, hs, a.nodes[croot].left, tl, actual, region);
      ghost var ns1 := a.nodes;
      ghost var sl := Subst(c.arguments, actual, tl);
      a.nodes := a.nodes[croot := a.nodes[croot].(left := l)];
      ghost var ns2 := a.nodes;
      LeftReplaced(ns0, ns1, ns2, croot, tl, tr, l, sl);
      ArgsKept(ns0, ns1, hs, actual, Nodes(ns0, ns0[croot].left, tl), region);
      ArgsKept(ns1, ns2, hs, actual, {croot}, region);
      ghost var y := ns0[croot].right;
      assert ns2[y] == ns0[y];
      var rr := Apply(a, c, hs, a.nodes[croot].right, tr, actual, region);
      ghost var ns3 := a.nodes;
      ghost var sr := Subst(c.arguments, actual, tr);
      a.nodes := a.nodes[croot := a.nodes[croot].(right := rr)];
      RightReplaced(ns2, ns3, a.nodes, croot, l, sl, rr, sr, Nodes(ns2, y, tr));
      ChildrenFrame(ns0, ns1, ns2, ns3, a.nodes, croot, ns2[croot], a.nodes[croot],
                    Nodes(ns0, croot, body), Nodes(ns0, ns0[croot].left, tl), Nodes(ns0, y, tr));
      NodesApp(a.nodes, croot, sl, sr);
      WithinUnion(|ns0|, |ns2|, croot, Nodes(ns1, l, sl), Nodes(ns3, rr, sr),
                  Nodes(ns0, croot, body), Nodes(ns0, ns0[croot].left, tl), Nodes(ns0, y, tr));
      r := croot;
    }
  }
  // ----- the applicative-order loop -----

  /** After `i` rounds of the loop: the first `i` arguments are reduced
      trees built from their old nodes and fresh ones, the rest are as they
      were. */
  ghost predicate ArgsProgress(ns0: seq<Node>, ns: seq<Node>, hs: seq<int>, ts: seq<Term>,
                               args: seq<int>, us: seq<Term>, i: int)
  {
    |hs| == |ts| == |args| && 0 <= i <= |hs| && |us| == i && |ns0| <= |ns| &&
    (forall j :: 0 <= j < i ==>
      IsTree(ns, args[j], us[j]) && Within(|ns0|, Nodes(ns, args[j], us[j]), Nodes(ns0, hs[j], ts[j]))) &&
    (forall j :: i <= j < |hs| ==>
      args[j] == hs[j] && IsTree(ns, hs[j], ts[j]) && Nodes(ns, hs[j], ts[j]) == Nodes(ns0, hs[j], ts[j]))
  }

  /** Reducing argument `i` in place keeps every other argument tree. */
  lemma ArgsStep(ns0: seq<Node>, ns: seq<Node>, ns1: seq<Node>, hs: seq<int>, ts: seq<Term>,
                 args: seq<int>, us: seq<Term>, i: int, r: int, u: Term, m: set<int>)
    requires ArgsSeparate(ns0, hs, ts, m) && ArgsProgress(ns0, ns, hs, ts, args, us, i) && i < |hs|
    requires Outside(ns0, ns, m) && Outside(ns, ns1, Nodes(ns, hs[i], ts[i]))
    requires IsTree(ns1, r, u) && Within(|ns|, Nodes(ns1, r, u), Nodes(ns, hs[i], ts[i]))
    ensures ArgsProgress(ns0, ns1, hs, ts, args[i := r], us + [u], i + 1)
    ensures Outside(ns0, ns1, m)
  {
    var mi := Nodes(ns0, hs[i], ts[i]);
    assert Nodes(ns, hs[i], ts[i]) == mi && mi <= m;
    OutsideTrans(ns0, ns, ns1, m, mi);
    assert m + mi == m;
    var args1, us1 := args[i := r], us + [u];
    forall j | 0 <= j < i
      ensures IsTree(ns1, args1[j], us1[j]) &&
              Within(|ns0|, Nodes(ns1, args1[j], us1[j]), Nodes(ns0, hs[j], ts[j]))
    {
      assert args1[j] == args[j] && us1[j] == us[j];
      ArgUntouched(|ns0|, ns, ns1, args[j], us[j], Nodes(ns0, hs[j], ts[j]), mi);
    }
    assert args1[i] == r && us1[i] == u;
    assert Within(|ns0|, Nodes(ns1, r, u), mi);
    forall j | i < j < |hs|
      ensures args1[j] == hs[j] && IsTree(ns1, hs[j], ts[j]) && Nodes(ns1, hs[j], ts[j]) == Nodes(ns0, hs[j], ts[j])
    {
      ArgUntouched(|ns0|, ns, ns1, hs[j], ts[j], Nodes(ns0, hs[j], ts[j]), mi);
    }
  }

  /** A tree built from the nodes of one argument and fresh ones survives
      the reduction of another argument. */
  lemma ArgUntouched(n0: int, ns: seq<Node>, ns1: seq<Node>, x: int, u: Term, mj: set<int>, mi: set<int>)
    requires IsTree(ns, x, u) && Within(n0, Nodes(ns, x, u), mj)
    requires mj !! mi && (forall q :: q in mi ==> q < n0) && Outside(ns, ns1, mi)
    ensures IsTree(ns1, x, u) && Nodes(ns1, x, u) == Nodes(ns, x, u)
  {
    ApartFresh(n0, Nodes(ns, x, u), mj, mi);
    TreeOutside(ns, ns1, mi, x, u);
  }

  /** At the end of the loop every reduced argument lies in the old region
      or in fresh nodes. */
  lemma ArgsDone(ns0: seq<Node>, ns: seq<Node>, hs: seq<int>, ts: seq<Term>, args: seq<int>, us: seq<Term>, m: set<int>)
    requires ArgsSeparate(ns0, hs, ts, m) && ArgsProgress(ns0, ns, hs, ts, args, us, |hs|)
    ensures ArgsBuilt(ns, args, us, |ns0|, m)
  {
  }

  // ----- the redex branch of rewrite -----

  /** Facts about a redex `t` at `root` whose head combinator takes `k`
      arguments, once the definition has been parsed into fresh nodes: the
      sub-tree `w` that is rewritten sits n - k steps down the spine and
      spells the head applied to the first `k` arguments. */
  lemma RedexSetup(ns0: seq<Node>, ns1: seq<Node>, root: int, t: Term, k: nat)
    requires IsTree(ns0, root, t) && Outside(ns0, ns1, {}) && 0 < k <= SpineLen(t)
    ensures IsTree(ns1, root, t) && Nodes(ns1, root, t) == Nodes(ns0, root, t)
    ensures Descend(ns1, root, SpineLen(t)) == Descend(ns0, root, SpineLen(t))
    ensures Descend(ns1, root, SpineLen(t) - k) == Descend(ns0, root, SpineLen(t) - k)
    ensures forall q :: q in Nodes(ns0, root, t) ==> 0 <= q < |ns0|
    ensures IsTree(ns0, Descend(ns0, root, SpineLen(t) - k), LeftAt(t, SpineLen(t) - k))
    ensures IsTree(ns1, Descend(ns0, root, SpineLen(t) - k), LeftAt(t, SpineLen(t) - k))
    ensures Nodes(ns1, Descend(ns0, root, SpineLen(t) - k), LeftAt(t, SpineLen(t) - k))
         == Nodes(ns0, Descend(ns0, root, SpineLen(t) - k), LeftAt(t, SpineLen(t) - k))
    ensures Nodes(ns0, Descend(ns0, root, SpineLen(t) - k), LeftAt(t, SpineLen(t) - k)) <= Nodes(ns0, root, t)
    ensures SpineLen(LeftAt(t, SpineLen(t) - k)) == k && Args(LeftAt(t, SpineLen(t) - k)) == Args(t)[..k]
  {
    var n := SpineLen(t);
    TreeOutside(ns0, ns1, {}, root, t);
    TreeIsShape(ns0, root, t);
    NodesInRange(ns0, root, t);
    DescendSame(ns0, ns1, root, t, n);
    DescendSame(ns0, ns1, root, t, n - k);
    DescendTree(ns0, root, t, n - k);
    TreeOutside(ns0, ns1, {}, Descend(ns0, root, n - k), LeftAt(t, n - k));
    LeftAtSpine(t, n - k);
  }

  /** Climbing j <= k steps from the left-most leaf lands on the spine of
      the sub-tree `rr` k steps up. */
  lemma RedexClimb(ns: seq<Node>, root: int, t: Term, k: nat, leaf: int, rr: int)
    requires IsTree(ns, root, t) && k <= SpineLen(t)
    requires leaf == Descend(ns, root, SpineLen(t)) && rr == Descend(ns, root, SpineLen(t) - k)
    ensures forall j :: 1 <= j <= k ==> 0 <= Climb(ns, leaf, j) < |ns| && Climb(ns, leaf, j) == Descend(ns, rr, k - j)
  {
    var n := SpineLen(t);
    forall j | 1 <= j <= k
      ensures 0 <= Climb(ns, leaf, j) < |ns| && Climb(ns, leaf, j) == Descend(ns, rr, k - j)
    {
      ClimbDescend(ns, root, t, n, j);
      HookFacts(ns, root, t, n - j);
      DescendAdd(ns, root, t, n - k, k - j);
    }
  }

  /** The arguments of a redex, unreduced, are trees of the nodes they
      occupy. */
  lemma ArgsWithin(ns: seq<Node>, hs: seq<int>, ts: seq<Term>, m: set<int>)
    requires ArgsSeparate(ns, hs, ts, m)
    ensures forall i :: 0 <= i < |hs| ==> IsTree(ns, hs[i], ts[i]) && Within(|ns|, Nodes(ns, hs[i], ts[i]), m)
  {
  }

  /** Once the definition has been parsed into fresh nodes, the climb of
      getNRightSiblings from the left-most leaf stays in the arena, and the
      rewritten sub-tree `rr` lies in the tree. */
  lemma RedexFound(ns0: seq<Node>, ns1: seq<Node>, root: int, t: Term, k: nat, leaf: int, rr: int, w: Term)
    requires IsTree(ns0, root, t) && Outside(ns0, ns1, {}) && 0 < k <= SpineLen(t)
    requires leaf == Descend(ns0, root, SpineLen(t)) && rr == Descend(ns0, root, SpineLen(t) - k)
    requires w == LeftAt(t, SpineLen(t) - k)
    ensures forall j :: 1 <= j <= k ==> 0 <= Climb(ns1, leaf, j) < |ns1|
    ensures Nodes(ns0, rr, w) <= Nodes(ns0, root, t)
    ensures forall q :: q in Nodes(ns0, rr, w) ==> 0 <= q < |ns0|
  {
    RedexSetup(ns0, ns1, root, t, k);
    RedexClimb(ns1, root, t, k, leaf, rr);
  }

  /** The siblings getNRightSiblings collects are the first `k` arguments,
      as separate trees inside the rewritten sub-tree `rr`, and the last one
      hangs from `rr`. */
  lemma RedexArgsFound(ns0: seq<Node>, ns1: seq<Node>, root: int, t: Term, k: nat, leaf: int, rr: int, w: Term,
                       args: seq<int>)
    requires IsTree(ns0, root, t) && Outside(ns0, ns1, {}) && 0 < k <= SpineLen(t)
    requires leaf == Descend(ns0, root, SpineLen(t)) && rr == Descend(ns0, root, SpineLen(t) - k)
    requires w == LeftAt(t, SpineLen(t) - k)
    requires |args| == k && forall j :: 1 <= j <= k ==> 0 <= Climb(ns1, leaf, j) < |ns1|
    requires forall i :: 0 <= i < k ==> args[i] == ns1[Climb(ns1, leaf, i + 1)].right
    ensures ArgsSeparate(ns1, args, Args(t)[..k], Nodes(ns0, rr, w) - {rr})
    ensures ns1[args[k - 1]].parent == rr
  {
    RedexSetup(ns0, ns1, root, t, k);
    RedexClimb(ns1, root, t, k, leaf, rr);
    RedexSiblings(ns1, leaf, rr, w, args);
  }

  /** The parsed definition is untouched by the reduction of the arguments. */
  lemma DefinitionKept(ns0: seq<Node>, ns1: seq<Node>, ns2: seq<Node>, croot: int, body: Term, m: set<int>)
    requires IsTree(ns1, croot, body) && Fresh(ns0, ns1, Nodes(ns1, croot, body)) && ns1[croot].isRoot
    requires Outside(ns1, ns2, m) && forall q :: q in m ==> q < |ns0|
    ensures IsTree(ns2, croot, body) && ns2[croot].isRoot
    ensures forall q :: q in Nodes(ns2, croot, body) ==> |ns0| <= q < |ns1|
  {
    assert Nodes(ns1, croot, body) !! m by {
      forall q | q in Nodes(ns1, croot, body)
        ensures q !in m
      {
      }
    }
    TreeOutside(ns1, ns2, m, croot, body);
  }

  /** The siblings collected by getNRightSiblings are the redex's arguments. */
  lemma RedexSiblings(ns1: seq<Node>, leaf: int, rr: int, w: Term, args: seq<int>)
    requires IsTree(ns1, rr, w) && |args| == SpineLen(w)
    requires forall j :: 1 <= j <= |args| ==>
      0 <= Climb(ns1, leaf, j) < |ns1| && Climb(ns1, leaf, j) == Descend(ns1, rr, |args| - j)
    requires forall i :: 0 <= i < |args| ==> args[i] == ns1[Climb(ns1, leaf, i + 1)].right
    ensures ArgsSeparate(ns1, args, Args(w), Nodes(ns1, rr, w) - {rr})
    ensures |args| > 0 ==> args[|args| - 1] == ns1[rr].right && ns1[args[|args| - 1]].parent == rr
  {
    forall i | 0 <= i < |args|
      ensures args[i] == RightOf(ns1, Descend(ns1, rr, |args| - 1 - i))
    {
      assert Climb(ns1, leaf, i + 1) == Descend(ns1, rr, |args| - (i + 1));
    }
    RedexArgs(ns1, rr, w, args);
  }

  /** Steps confined to `m`, then to fresh nodes, change nothing outside `m`. */
  lemma RedexFrame(ns0: seq<Node>, ns1: seq<Node>, ns2: seq<Node>, ns3: seq<Node>, m: set<int>, region: set<int>)
    requires Outside(ns0, ns1, {}) && Outside(ns1, ns2, m) && Outside(ns2, ns3, region)
    requires forall q :: q in region ==> |ns0| <= q
    ensures Outside(ns0, ns3, m)
  {
  }

  /** The argument trees are apart from the freshly parsed definition. */
  lemma ArgsApartFresh(n0: int, n1: int, ns2: seq<Node>, hs: seq<int>, ts: seq<Term>,
                       m: set<int>, region: set<int>)
    requires |hs| == |ts| && n0 <= n1
    requires forall q :: q in m ==> q < n0
    requires forall q :: q in region ==> n0 <= q < n1
    requires forall i :: 0 <= i < |hs| ==> IsTree(ns2, hs[i], ts[i]) && Within(n1, Nodes(ns2, hs[i], ts[i]), m)
    ensures ArgsApart(ns2, hs, ts, region)
  {
    forall i | 0 <= i < |hs|
      ensures Shape(ns2, hs[i], ts[i]) && Nodes(ns2, hs[i], ts[i]) !! region
    {
      TreeIsShape(ns2, hs[i], ts[i]);
      forall q | q in Nodes(ns2, hs[i], ts[i])
        ensures q !in region
      {
      }
    }
  }

  /** Where the rewritten sub-tree hangs: for a redex below the top, its
      root is an unmarked left child of the node one step up the spine. */
  lemma HookFacts(ns0: seq<Node>, root: int, t: Term, d: nat)
    requires IsTree(ns0, root, t) && d <= SpineLen(t)
    ensures 0 <= Descend(ns0, root, d) < |ns0|
    ensures forall q :: q in Nodes(ns0, Descend(ns0, root, d), LeftAt(t, d)) ==> 0 <= q < |ns0|
    ensures d == 0 ==> Descend(ns0, root, d) == root
    ensures d > 0 ==> Descend(ns0, root, d) != root && !ns0[Descend(ns0, root, d)].isRoot
    ensures d > 0 ==> ns0[Descend(ns0, root, d)].parent == Descend(ns0, root, d - 1)
    ensures d > 0 ==> 0 <= Descend(ns0, root, d - 1) < |ns0|
  {
    DescendTree(ns0, root, t, d);
    TreeIsShape(ns0, Descend(ns0, root, d), LeftAt(t, d));
    NodesInRange(ns0, Descend(ns0, root, d), LeftAt(t, d));
    if d > 0 {
      DescendTree(ns0, root, t, d - 1);
    }
  }

  /** Marking the new sub-tree as a child of `p` and linking it as p's left
      child keeps it a tree; nothing outside the rewritten sub-tree and `p`
      has changed since the start. */
  lemma Hung(ns0: seq<Node>, ns3: seq<Node>, ns4: seq<Node>, ns5: seq<Node>, x: int, s: Term, p: int, m: set<int>)
    requires Outside(ns0, ns3, m) && 0 <= p < |ns0|
    requires IsTree(ns3, x, s) && forall q :: q in Nodes(ns3, x, s) ==> |ns0| <= q
    requires ns4 == ns3[x := ns3[x].(isRoot := false, parent := p)]
    requires ns5 == ns4[p := ns4[p].(left := x)]
    ensures IsTree(ns5, x, s) && Nodes(ns5, x, s) == Nodes(ns3, x, s)
    ensures ns5[x].parent == p && !ns5[x].isRoot
    ensures Outside(ns0, ns5, m + {p})
    ensures ns5[p] == ns3[p].(left := x)
  {
    TreeIsShape(ns3, x, s);
    NodesInRange(ns3, x, s);
    Retop(ns3, x, s, ns4[x]);
    TreeUpdate(ns4, x, s, p, ns5[p]);
  }

  /** The node one step up the spine from the sub-tree d > 0 steps down
      lies outside that sub-tree, and both lie in the whole tree. */
  lemma HookPlace(ns0: seq<Node>, root: int, t: Term, d: nat)
    requires IsTree(ns0, root, t) && 0 < d <= SpineLen(t)
    ensures 0 <= Descend(ns0, root, d - 1) < |ns0|
    ensures Descend(ns0, root, d - 1) !in Nodes(ns0, Descend(ns0, root, d), LeftAt(t, d))
    ensures Nodes(ns0, Descend(ns0, root, d), LeftAt(t, d)) + {Descend(ns0, root, d - 1)} <= Nodes(ns0, root, t)
  {
    var p := Descend(ns0, root, d - 1);
    var u := LeftAt(t, d - 1);
    DescendTree(ns0, root, t, d - 1);
    LeftAtStep(t, d);
    DescendAdd(ns0, root, t, d - 1, 1);
    assert Descend(ns0, root, d) == ns0[p].left by {
      assert Descend(ns0, p, 1) == Descend(ns0, ns0[p].left, 0);
    }
    assert IsTree(ns0, p, u) && u.App?;
    assert Nodes(ns0, p, u) == {p} + Nodes(ns0, ns0[p].left, u.l) + Nodes(ns0, ns0[p].right, u.r);
  }

  /** getNthParent climbs from the sub-tree d steps down the spine back to
      the top. */
  lemma HookClimb(ns: seq<Node>, root: int, t: Term, d: nat)
    requires IsTree(ns, root, t) && d <= SpineLen(t)
    ensures CanClimb(ns, Descend(ns, root, d), d) && GetNthParent(ns, Descend(ns, root, d), d) == root
  {
    ClimbDescend(ns, root, t, d, d);
    TreeIsShape(ns, root, t);
    NodesInRange(ns, root, t);
    NthParentIs(ns, Descend(ns, root, d), d);
  }

  /** Hooking the contracted tree `s` in place of the sub-tree d > 0 steps
      down the spine: the top now spells `t` with that sub-tree replaced,
      and getNthParent climbs from the new sub-tree back to the top. */
  lemma HookSplice(ns0: seq<Node>, ns3: seq<Node>, ns4: seq<Node>, ns5: seq<Node>,
                   root: int, t: Term, d: nat, x: int, s: Term)
    requires IsTree(ns0, root, t) && 0 < d <= SpineLen(t)
    requires Outside(ns0, ns3, Nodes(ns0, Descend(ns0, root, d), LeftAt(t, d)) - {Descend(ns0, root, d)})
    requires IsTree(ns3, x, s) && forall q :: q in Nodes(ns3, x, s) ==> |ns0| <= q
    requires 0 <= Descend(ns0, root, d - 1) < |ns0|
    requires ns4 == ns3[x := ns3[x].(isRoot := false, parent := Descend(ns0, root, d - 1))]
    requires ns5 == ns4[Descend(ns0, root, d - 1) := ns4[Descend(ns0, root, d - 1)].(left := x)]
    ensures IsTree(ns5, root, ReplaceLeftAt(t, d, s))
    ensures Within(|ns0|, Nodes(ns5, root, ReplaceLeftAt(t, d, s)), Nodes(ns0, root, t))
    ensures Outside(ns0, ns5, Nodes(ns0, root, t))
    ensures ns5[root].isRoot == ns0[root].isRoot && ns5[root].parent == ns0[root].parent
    ensures CanClimb(ns5, x, d) && GetNthParent(ns5, x, d) == root
  {
    var rr, p := Descend(ns0, root, d), Descend(ns0, root, d - 1);
    var xm := Nodes(ns0, rr, LeftAt(t, d));
    HookPlace(ns0, root, t, d);
    Hung(ns0, ns3, ns4, ns5, x, s, p, xm - {rr});
    SpliceTree(ns0, ns5, root, t, d, x, s);
    ReplaceLeftAtSpine(t, d, s);
    HookClimb(ns5, root, ReplaceLeftAt(t, d, s), d);
  }

  // ----- rewrite, reduce and the applicative-order loop -----

  /** Hooks the contracted tree at `x` in place of `rewriteRoot`, d steps
      down the spine of the tree at `root`: unless `rewriteRoot` carries the
      root mark, `x` takes over its parent and, below the top, becomes that
      parent's left child.  The tree that getNthParent(x, d) then finds
      spells `t` with the sub-tree replaced, and nothing outside `t` has
      changed since `ns0`. */
  method Hook(a: Arena, root: int, rewriteRoot: int, x: int,
              ghost ns0: seq<Node>, ghost t: Term, ghost d: nat, ghost s: Term)
    requires IsTree(ns0, root, t) && d <= SpineLen(t) && rewriteRoot == Descend(ns0, root, d)
    requires Outside(ns0, a.nodes, Nodes(ns0, rewriteRoot, LeftAt(t, d)) - {rewriteRoot})
    requires IsTree(a.nodes, x, s) && (forall q :: q in Nodes(a.nodes, x, s) ==> |ns0| <= q)
    requires a.nodes[x].isRoot
    modifies a
    ensures CanClimb(a.nodes, x, d) && GetNthParent(a.nodes, x, d) == (if d == 0 then x else root)
    ensures IsTree(a.nodes, if d == 0 then x else root, ReplaceLeftAt(t, d, s))
    ensures Within(|ns0|, Nodes(a.nodes, if d == 0 then x else root, ReplaceLeftAt(t, d, s)), Nodes(ns0, root, t))
    ensures Outside(ns0, a.nodes, Nodes(ns0, root, t))
    ensures a.nodes[if d == 0 then x else root].isRoot == ns0[root].isRoot
    ensures !ns0[root].isRoot ==> a.nodes[if d == 0 then x else root].parent == ns0[root].parent
  {
    HookFacts(ns0, root, t, d);
    TreeIsShape(a.nodes, x, s);
    NodesInRange(a.nodes, x, s);
    ghost var ns3 := a.nodes;
    if !a.nodes[rewriteRoot].isRoot {
      a.nodes := a.nodes[x := a.nodes[x].(isRoot := false, parent := a.nodes[rewriteRoot].parent)];
      if rewriteRoot != root {
        ghost var ns4 := a.nodes;
        var p := a.nodes[x].parent;
        a.nodes := a.nodes[p := a.nodes[p].(left := x)];
        HookSplice(ns0, ns3, ns4, a.nodes, root, t, d, x, s);
      } else {
        Retop(ns3, x, s, a.nodes[x]);
      }
    }
  }

  /** reduce: outer-first, then left-first.  The result is the node now
      holding the reduced tree, which spells ReduceT of the tree at `root`;
      it is built from that tree's nodes and fresh ones, and nothing outside
      that tree changes.  It keeps the root mark of `root`, and below the
      top also its parent. */
  method Reduce(a: Arena, root: int, b: Basis, app: bool, fc: int, ghost t: Term) returns (r: Result<int, Error>)
    requires BasisOk(b) && IsTree(a.nodes, root, t)
    modifies a
    ensures Outside(old(a.nodes), a.nodes, Nodes(old(a.nodes), root, t))
    ensures r.Ok? <==> ReduceT(t, b, app, fc).Ok?
    ensures r.Err? ==> r.error == LoopDetected
    ensures r.Ok? ==> IsTree(a.nodes, r.value, ReduceT(t, b, app, fc).value)
    ensures r.Ok? ==> Within(|old(a.nodes)|, Nodes(a.nodes, r.value, ReduceT(t, b, app, fc).value), Nodes(old(a.nodes), root, t))
    ensures r.Ok? ==> a.nodes[r.value].isRoot == old(a.nodes[root].isRoot)
    ensures r.Ok? && !old(a.nodes[root].isRoot) ==> a.nodes[r.value].parent == old(a.nodes[root].parent)
    ensures fc <= MaxFrames && t.Leaf? ==> r == Ok(root) && a.nodes == old(a.nodes)
    decreases Measure(fc), 6
  {
    if fc > MaxFrames {
      return Err(LoopDetected);
    }
    if a.nodes[root].isLeaf {
      assert ReduceT(t, b, app, fc) == Ok(t);
      return Ok(root);
    }
    ghost var ns0 := a.nodes;
    var newTree := Rewrite(a, root, b, app, fc + 1, t);
    if newTree.Err? {
      assert ReduceT(t, b, app, fc) == Err(LoopDetected);
      return newTree;
    }
    r := ReduceRewritten(a, newTree.value, b, app, fc, ns0, root, t);
  }

  /** The rest of reduce once the tree `t` at `root` has been rewritten into
      the tree at `h`: a leaf is done, an application has its children
      reduced.  Its guarantees are stated against the arena `ns0` from
      before the rewrite. */
  method ReduceRewritten(a: Arena, h: int, b: Basis, app: bool, fc: int,
                         ghost ns0: seq<Node>, ghost root: int, ghost t: Term) returns (r: Result<int, Error>)
    requires BasisOk(b) && fc <= MaxFrames && t.App? && 0 <= root < |ns0|
    requires RewriteT(t, b, app, fc + 1).Ok?
    requires Outside(ns0, a.nodes, Nodes(ns0, root, t))
    requires IsTree(a.nodes, h, RewriteT(t, b, app, fc + 1).value)
    requires Within(|ns0|, Nodes(a.nodes, h, RewriteT(t, b, app, fc + 1).value), Nodes(ns0, root, t))
    requires a.nodes[h].isRoot == ns0[root].isRoot
    requires !ns0[root].isRoot ==> a.nodes[h].parent == ns0[root].parent
    modifies a
    ensures Outside(ns0, a.nodes, Nodes(ns0, root, t))
    ensures r.Ok? <==> ReduceT(t, b, app, fc).Ok?
    ensures r.Err? ==> r.error == LoopDetected
    ensures r.Ok? ==> IsTree(a.nodes, r.value, ReduceT(t, b, app, fc).value)
    ensures r.Ok? ==> Within(|ns0|, Nodes(a.nodes, r.value, ReduceT(t, b, app, fc).value), Nodes(ns0, root, t))
    ensures r.Ok? ==> a.nodes[r.value].isRoot == ns0[root].isRoot
    ensures r.Ok? && !ns0[root].isRoot ==> a.nodes[r.value].parent == ns0[root].parent
    decreases Measure(fc), 5
  {
    ghost var t1 := RewriteT(t, b, app, fc + 1).value;
    if a.nodes[h].isLeaf {
      return Ok(h);
    }
    ghost var ns1 := a.nodes;
    r := ReduceChildren(a, h, b, app, fc, t1);
    StepChain(ns0, ns1, a.nodes, root, t, h, t1, r, ReduceT(t, b, app, fc));
  }

  /** The second half of reduce on an application node `h`: reduce the left
      child, then the right one, linking each result in as the new child.
      On success `h` spells the application of the two reduced trees. */
  method ReduceChildren(a: Arena, h: int, b: Basis, app: bool, fc: int, ghost t: Term) returns (r: Result<int, Error>)
    requires BasisOk(b) && IsTree(a.nodes, h, t) && t.App? && fc <= MaxFrames
    modifies a
    ensures Outside(old(a.nodes), a.nodes, Nodes(old(a.nodes), h, t))
    ensures r.Ok? <==> ReduceT(t.l, b, app, fc + 1).Ok? && ReduceT(t.r, b, app, fc + 1).Ok?
    ensures r.Err? ==> r.error == LoopDetected
    ensures r.Ok? ==> r.value == h
    ensures r.Ok? ==> IsTree(a.nodes, h, App(ReduceT(t.l, b, app, fc + 1).value, ReduceT(t.r, b, app, fc + 1).value))
    ensures r.Ok? ==> Within(|old(a.nodes)|, Nodes(a.nodes, h, App(ReduceT(t.l, b, app, fc + 1).value, ReduceT(t.r, b, app, fc + 1).value)), Nodes(old(a.nodes), h, t))
    ensures r.Ok? ==> a.nodes[h].isRoot == old(a.nodes[h].isRoot) && a.nodes[h].parent == old(a.nodes[h].parent)
    decreases Measure(fc), 4
  {
    ghost var ns1 := a.nodes;
    r := ReduceLeft(a, h, b, app, fc, t);
    if r.Err? {
      return;
    }
    ghost var ns2 := a.nodes;
    ghost var t2 := App(ReduceT(t.l, b, app, fc + 1).value, t.r);
    r := ReduceRight(a, h, b, app, fc, t2);
    OutsideWithin(ns1, ns2, a.nodes, Nodes(ns1, h, t), Nodes(ns2, h, t2));
    if r.Ok? {
      WithinTrans(|ns1|, |ns2|, Nodes(ns1, h, t), Nodes(ns2, h, t2), Nodes(a.nodes, h, App(t2.l, ReduceT(t.r, b, app, fc + 1).value)));
    }
  }

  /** Reduce the left child of `h` and link the result in as its new left
      child; the right child is untouched. */
  method ReduceLeft(a: Arena, h: int, b: Basis, app: bool, fc: int, ghost t: Term) returns (r: Result<int, Error>)
    requires BasisOk(b) && IsTree(a.nodes, h, t) && t.App? && fc <= MaxFrames
    modifies a
    ensures Outside(old(a.nodes), a.nodes, Nodes(old(a.nodes), h, t))
    ensures r.Ok? <==> ReduceT(t.l, b, app, fc + 1).Ok?
    ensures r.Err? ==> r.error == LoopDetected
    ensures r.Ok? ==> r.value == h && IsTree(a.nodes, h, App(ReduceT(t.l, b, app, fc + 1).value, t.r))
    ensures r.Ok? ==> Within(|old(a.nodes)|, Nodes(a.nodes, h, App(ReduceT(t.l, b, app, fc + 1).value, t.r)), Nodes(old(a.nodes), h, t))
    ensures r.Ok? ==> a.nodes[h].isRoot == old(a.nodes[h].isRoot) && a.nodes[h].parent == old(a.nodes[h].parent)
    decreases Measure(fc), 3
  {
    ghost var ns1 := a.nodes;
    ghost var x0, y := ns1[h].left, ns1[h].right;
    NodesApp(ns1, h, t.l, t.r);
    var left := Reduce(a, a.nodes[h].left, b, app, fc + 1, t.l);
    if left.Err? {
      return Err(left.error);
    }
    ghost var ns2 := a.nodes;
    ghost var ul := ReduceT(t.l, b, app, fc + 1).value;
    a.nodes := a.nodes[h := a.nodes[h].(left := left.value)];
    LeftReplaced(ns1, ns2, a.nodes, h, t.l, t.r, left.value, ul);
    ChildFrame(ns1, ns2, a.nodes, h, Nodes(ns1, h, t), Nodes(ns1, x0, t.l));
    NodesApp(a.nodes, h, ul, t.r);
    WithinUnion(|ns1|, |ns1|, h, Nodes(ns2, left.value, ul), Nodes(ns1, y, t.r),
                Nodes(ns1, h, t), Nodes(ns1, x0, t.l), Nodes(ns1, y, t.r));
    r := Ok(h);
  }

  /** Reduce the right child of `h` and link the result in as its new right
      child, or unlink the right child when its reduction fails. */
  method ReduceRight(a: Arena, h: int, b: Basis, app: bool, fc: int, ghost t: Term) returns (r: Result<int, Error>)
    requires BasisOk(b) && IsTree(a.nodes, h, t) && t.App? && fc <= MaxFrames
    modifies a
    ensures Outside(old(a.nodes), a.nodes, Nodes(old(a.nodes), h, t))
    ensures r.Ok? <==> ReduceT(t.r, b, app, fc + 1).Ok?
    ensures r.Err? ==> r.error == LoopDetected
    ensures r.Ok? ==> r.value == h && IsTree(a.nodes, h, App(t.l, ReduceT(t.r, b, app, fc + 1).value))
    ensures r.Ok? ==> Within(|old(a.nodes)|, Nodes(a.nodes, h, App(t.l, ReduceT(t.r, b, app, fc + 1).value)), Nodes(old(a.nodes), h, t))
    ensures r.Ok? ==> a.nodes[h].isRoot == old(a.nodes[h].isRoot) && a.nodes[h].parent == old(a.nodes[h].parent)
    decreases Measure(fc), 3
  {
    ghost var ns1 := a.nodes;
    ghost var x, y := ns1[h].left, ns1[h].right;
    NodesApp(ns1, h, t.l, t.r);
    var right := Reduce(a, a.nodes[h].right, b, app, fc + 1, t.r);
    ghost var ns2 := a.nodes;
    a.nodes := a.nodes[h := a.nodes[h].(right := if right.Ok? then right.value else Nil)];
    ChildFrame(ns1, ns2, a.nodes, h, Nodes(ns1, h, t), Nodes(ns1, y, t.r));
    if right.Err? {
      return Err(right.error);
    }
    ghost var ur := ReduceT(t.r, b, app, fc + 1).value;
    RightReplaced(ns1, ns2, a.nodes, h, x, t.l, right.value, ur, Nodes(ns1, y, t.r));
    NodesApp(a.nodes, h, t.l, ur);
    WithinUnion(|ns1|, |ns1|, h, Nodes(ns1, x, t.l), Nodes(ns2, right.value, ur),
                Nodes(ns1, h, t), Nodes(ns1, x, t.l), Nodes(ns1, y, t.r));
    r := Ok(h);
  }

  /** rewrite: while the head of the tree at `root` is a redex, contract it
      in place.  Its result spells RewriteT of the tree, under the same
      frame and root-mark guarantees as reduce. */
  method Rewrite(a: Arena, root: int, b: Basis, app: bool, fc: int, ghost t: Term) returns (r: Result<int, Error>)
    requires BasisOk(b) && IsTree(a.nodes, root, t)
    modifies a
    ensures Outside(old(a.nodes), a.nodes, Nodes(old(a.nodes), root, t))
    ensures r.Ok? <==> RewriteT(t, b, app, fc).Ok?
    ensures r.Err? ==> r.error == LoopDetected
    ensures r.Ok? ==> IsTree(a.nodes, r.value, RewriteT(t, b, app, fc).value)
    ensures r.Ok? ==> Within(|old(a.nodes)|, Nodes(a.nodes, r.value, RewriteT(t, b, app, fc).value), Nodes(old(a.nodes), root, t))
    ensures r.Ok? ==> a.nodes[r.value].isRoot == old(a.nodes[root].isRoot)
    ensures r.Ok? && !old(a.nodes[root].isRoot) ==> a.nodes[r.value].parent == old(a.nodes[root].parent)
    ensures fc <= MaxFrames && !IsRedex(t, b) ==> r == Ok(root) && a.nodes == old(a.nodes)
    decreases Measure(fc), 3
  {
    if fc > MaxFrames {
      return Err(LoopDetected);
    }
    TreeIsShape(a.nodes, root, t);
    var leftMostLeaf := GetLeftMostLeaf(a.nodes, root, t);
    var combinator := FindCombinator(a.nodes[leftMostLeaf].leaf, b);
    var numArgs := if combinator.Some? then |combinator.value.arguments| else 0;
    SpineReaches(a.nodes, root, t, SpineLen(t));
    var numNodesToRoot := NumNodesToRoot(a.nodes, leftMostLeaf, root, SpineLen(t));
    LeafDistance(a.nodes, root, t, numNodesToRoot);
    if combinator.Some? && numArgs > 0 && numArgs <= numNodesToRoot {
      ghost var ns0 := a.nodes;
      var next, t2 := ContractRedex(a, root, b, app, fc, combinator.value, leftMostLeaf, numNodesToRoot, t);
      if next.Err? {
        return Err(next.error);
      }
      r := RewriteContracted(a, next.value, b, app, fc, ns0, root, t, t2);
    } else {
      NodesInRange(a.nodes, root, t);
      r := Ok(root);
    }
  }

  /** The tail of the redex branch of rewrite: after one contraction has
      turned the tree at `root` into the tree `t2` at `next`, rewrite again
      from there.  Its guarantees are stated against the arena `ns0` from
      before the contraction. */
  method RewriteContracted(a: Arena, next: int, b: Basis, app: bool, fc: int,
                           ghost ns0: seq<Node>, ghost root: int, ghost t: Term, ghost t2: Term)
      returns (r: Result<int, Error>)
    requires BasisOk(b) && fc <= MaxFrames && 0 <= root < |ns0|
    requires RewriteT(t, b, app, fc) == RewriteT(t2, b, app, fc + 1)
    requires Outside(ns0, a.nodes, Nodes(ns0, root, t))
    requires IsTree(a.nodes, next, t2) && Within(|ns0|, Nodes(a.nodes, next, t2), Nodes(ns0, root, t))
    requires a.nodes[next].isRoot == ns0[root].isRoot
    requires !ns0[root].isRoot ==> a.nodes[next].parent == ns0[root].parent
    modifies a
    ensures Outside(ns0, a.nodes, Nodes(ns0, root, t))
    ensures r.Ok? <==> RewriteT(t, b, app, fc).Ok?
    ensures r.Err? ==> r.error == LoopDetected
    ensures r.Ok? ==> IsTree(a.nodes, r.value, RewriteT(t, b, app, fc).value)
    ensures r.Ok? ==> Within(|ns0|, Nodes(a.nodes, r.value, RewriteT(t, b, app, fc).value), Nodes(ns0, root, t))
    ensures r.Ok? ==> a.nodes[r.value].isRoot == ns0[root].isRoot
    ensures r.Ok? && !ns0[root].isRoot ==> a.nodes[r.value].parent == ns0[root].parent
    decreases Measure(fc), 2
  {
    ghost var ns1 := a.nodes;
    r := Rewrite(a, next, b, app, fc + 1, t2);
    StepChain(ns0, ns1, a.nodes, root, t, next, t2, r, RewriteT(t2, b, app, fc + 1));
  }

  /** Composing the frame and root-mark guarantees of two steps: the first
      turns the tree `t` at `root` into `t2` at `next`, the second turns
      that into the tree `res` at `r`. */
  lemma StepChain(ns0: seq<Node>, ns1: seq<Node>, ns2: seq<Node>, root: int, t: Term, next: int, t2: Term,
                     r: Result<int, Error>, res: Result<Term, Error>)
    requires 0 <= root < |ns0| && 0 <= next < |ns1|
    requires Outside(ns0, ns1, Nodes(ns0, root, t)) && Within(|ns0|, Nodes(ns1, next, t2), Nodes(ns0, root, t))
    requires ns1[next].isRoot == ns0[root].isRoot && (!ns0[root].isRoot ==> ns1[next].parent == ns0[root].parent)
    requires Outside(ns1, ns2, Nodes(ns1, next, t2))
    requires r.Ok? ==> res.Ok? && 0 <= r.value < |ns2| && Within(|ns1|, Nodes(ns2, r.value, res.value), Nodes(ns1, next, t2))
    requires r.Ok? ==> ns2[r.value].isRoot == ns1[next].isRoot
    requires r.Ok? && !ns1[next].isRoot ==> ns2[r.value].parent == ns1[next].parent
    ensures Outside(ns0, ns2, Nodes(ns0, root, t))
    ensures r.Ok? ==> Within(|ns0|, Nodes(ns2, r.value, res.value), Nodes(ns0, root, t))
    ensures r.Ok? ==> ns2[r.value].isRoot == ns0[root].isRoot
    ensures r.Ok? && !ns0[root].isRoot ==> ns2[r.value].parent == ns0[root].parent
  {
    OutsideWithin(ns0, ns1, ns2, Nodes(ns0, root, t), Nodes(ns1, next, t2));
    if r.Ok? {
      WithinTrans(|ns0|, |ns1|, Nodes(ns0, root, t), Nodes(ns1, next, t2), Nodes(ns2, r.value, res.value));
    }
  }

  /** One contraction of the redex at `root`: parse the definition of `c`,
      collect the arguments, reduce them first in applicative order, apply,
      hook the result in and find the original root again.  The result
      spells the contraction of `t` with the actual arguments. */
  method ContractRedex(a: Arena, root: int, b: Basis, app: bool, fc: int, c: Combinator,
                       leftMostLeaf: int, numNodesToRoot: nat, ghost t: Term)
      returns (r: Result<int, Error>, ghost t2: Term)
    requires BasisOk(b) && IsTree(a.nodes, root, t) && fc <= MaxFrames
    requires FindCombinator([Head(t)], b) == Some(c) && 0 < |c.arguments| <= SpineLen(t)
    requires numNodesToRoot == SpineLen(t) && leftMostLeaf == Descend(a.nodes, root, numNodesToRoot)
    modifies a
    ensures Outside(old(a.nodes), a.nodes, Nodes(old(a.nodes), root, t))
    ensures r.Err? ==> r.error == LoopDetected && RewriteT(t, b, app, fc) == Err(LoopDetected)
    ensures r.Ok? ==> RewriteT(t, b, app, fc) == RewriteT(t2, b, app, fc + 1)
    ensures r.Ok? ==> IsTree(a.nodes, r.value, t2)
    ensures r.Ok? ==> Within(|old(a.nodes)|, Nodes(a.nodes, r.value, t2), Nodes(old(a.nodes), root, t))
    ensures r.Ok? ==> a.nodes[r.value].isRoot == old(a.nodes[root].isRoot)
    ensures r.Ok? && !old(a.nodes[root].isRoot) ==> a.nodes[r.value].parent == old(a.nodes[root].parent)
    decreases Measure(fc), 1
  {
    LookupWellDefined(b, [Head(t)]);
    ghost var ns0 := a.nodes;
    var numArgs := |c.arguments|;
    var d := numNodesToRoot - numArgs;
    ghost var rr0 := Descend(ns0, root, d);
    ghost var w := LeftAt(t, d);
    ghost var formal := Args(t)[..numArgs];
    ghost var body := ParseTerm(c.definition);
    var combinatorRoot := Parse(a, c.definition);
    ghost var ns1 := a.nodes;
    RedexFound(ns0, ns1, root, t, numArgs, leftMostLeaf, rr0, w);
    var argumentNodes := GetNRightSiblings(a.nodes, leftMostLeaf, numArgs);
    RedexArgsFound(ns0, ns1, root, t, numArgs, leftMostLeaf, rr0, w, argumentNodes);
    var rewriteRoot := a.nodes[argumentNodes[numArgs - 1]].parent;
    ghost var mA := Nodes(ns0, rr0, w) - {rr0};
    var collected, actual := CollectArguments(a, argumentNodes, b, app, fc + 1, formal, mA);
    OutsideTrans(ns0, ns1, a.nodes, {}, mA);
    if collected.Err? {
      RewriteUnfold(t, b, app, fc, c, []);
      return Err(collected.error), t;
    }
    argumentNodes := collected.value;
    DefinitionKept(ns0, ns1, a.nodes, combinatorRoot, body, mA);
    var originalRoot := ApplyAndHook(a, c, argumentNodes, combinatorRoot, root, rewriteRoot, d,
                                     ns0, |ns1|, mA, t, body, actual);
    ContractSplices(c, actual, t, d, body);
    t2 := Contract(c, actual, t);
    SameTree(a.nodes, originalRoot, ReplaceLeftAt(t, d, Subst(c.arguments, actual, body)), t2, |ns0|,
             Nodes(ns0, root, t));
    RewriteUnfold(t, b, app, fc, c, actual);
    r := Ok(originalRoot);
  }

  /** A tree spelling one term spells any term equal to it. */
  lemma SameTree(ns: seq<Node>, x: int, t1: Term, t2: Term, n: int, m: set<int>)
    requires IsTree(ns, x, t1) && Within(n, Nodes(ns, x, t1), m) && t1 == t2
    ensures IsTree(ns, x, t2) && Within(n, Nodes(ns, x, t2), m)
  {
  }

  /** Contracting a redex replaces the sub-tree |c.arguments| steps up the
      spine from the head by the definition with the actual arguments
      substituted. */
  lemma ContractSplices(c: Combinator, actual: seq<Term>, t: Term, d: nat, body: Term)
    requires WellDefined(c.definition) && |actual| == |c.arguments| <= SpineLen(t)
    requires d == SpineLen(t) - |c.arguments| && body == ParseTerm(c.definition)
    ensures Contract(c, actual, t) == ReplaceLeftAt(t, d, Subst(c.arguments, actual, body))
  {
    var k := |c.arguments|;
    var u := Subst(c.arguments, actual, body);
    ReplaceLeftAtFold(t, d, u);
    assert SpineLen(t) - d == k;
    assert Contract(c, actual, t) == LeftFold(u, Args(t)[k..]);
  }

  /** Apply the combinator to the argument trees `hs`, hook the result in
      place of `rewriteRoot`, d steps down the spine from `root`, and find
      the original root again.  The definition's nodes were allocated
      between `ns0` and `n1`; the arguments are built from the redex's own
      nodes and nodes allocated after `n1`. */
  method ApplyAndHook(a: Arena, c: Combinator, hs: seq<int>, croot: int, root: int, rewriteRoot: int, d: nat,
                      ghost ns0: seq<Node>, ghost n1: int, ghost m: set<int>,
                      ghost t: Term, ghost body: Term, ghost actual: seq<Term>)
      returns (originalRoot: int)
    requires IsTree(ns0, root, t) && d <= SpineLen(t) && rewriteRoot == Descend(ns0, root, d)
    requires m == Nodes(ns0, rewriteRoot, LeftAt(t, d)) - {rewriteRoot}
    requires Outside(ns0, a.nodes, m)
    requires |hs| == |c.arguments| == |actual| && |ns0| <= n1
    requires IsTree(a.nodes, croot, body) && a.nodes[croot].isRoot
    requires forall q :: q in Nodes(a.nodes, croot, body) ==> |ns0| <= q < n1
    requires ArgsBuilt(a.nodes, hs, actual, n1, m)
    modifies a
    ensures Outside(ns0, a.nodes, Nodes(ns0, root, t))
    ensures IsTree(a.nodes, originalRoot, ReplaceLeftAt(t, d, Subst(c.arguments, actual, body)))
    ensures Within(|ns0|, Nodes(a.nodes, originalRoot, ReplaceLeftAt(t, d, Subst(c.arguments, actual, body))), Nodes(ns0, root, t))
    ensures a.nodes[originalRoot].isRoot == ns0[root].isRoot
    ensures !ns0[root].isRoot ==> a.nodes[originalRoot].parent == ns0[root].parent
  {
    ghost var ns2 := a.nodes;
    ghost var region := Nodes(ns2, croot, body);
    HookFacts(ns0, root, t, d);
    ArgsApartFresh(|ns0|, n1, ns2, hs, actual, m, region);
    var x := Apply(a, c, hs, croot, body, actual, region);
    Hook(a, root, rewriteRoot, x, ns0, t, d, Subst(c.arguments, actual, body));
    originalRoot := GetNthParent(a.nodes, x, d);
  }

  /** Argument trees `hs` spelling `ts`, built from nodes of `m` and nodes
      allocated from `n` on. */
  ghost predicate ArgsBuilt(ns: seq<Node>, hs: seq<int>, ts: seq<Term>, n: int, m: set<int>)
  {
    |hs| == |ts| &&
    forall i :: 0 <= i < |hs| ==> IsTree(ns, hs[i], ts[i]) && Within(n, Nodes(ns, hs[i], ts[i]), m)
  }

  /** The actual arguments of a redex: the argument trees themselves in
      normal order, each reduced in applicative order. */
  method CollectArguments(a: Arena, hs: seq<int>, b: Basis, app: bool, fc: int,
                          ghost ts: seq<Term>, ghost m: set<int>) returns (r: Result<seq<int>, Error>, ghost actual: seq<Term>)
    requires BasisOk(b) && ArgsSeparate(a.nodes, hs, ts, m)
    modifies a
    ensures Outside(old(a.nodes), a.nodes, m)
    ensures r.Ok? <==> Actuals(ts, b, app, fc).Ok?
    ensures r.Err? ==> r.error == LoopDetected
    ensures r.Ok? ==> Actuals(ts, b, app, fc) == Ok(actual) && ArgsBuilt(a.nodes, r.value, actual, |old(a.nodes)|, m)
    decreases Measure(fc), 9
  {
    if app {
      r := ReduceArguments(a, hs, b, app, fc, ts, m);
      actual := if r.Ok? then ReduceArgs(ts, b, app, fc).value else [];
    } else {
      ArgsWithin(a.nodes, hs, ts, m);
      r := Ok(hs);
      actual := ts;
    }
  }

  /** The applicative-order loop of rewrite: reduce each argument tree in
      turn, stopping at the first failure.  The reduced trees spell
      ReduceArgs of the arguments, built from their nodes and fresh ones. */
  method ReduceArguments(a: Arena, hs: seq<int>, b: Basis, app: bool, fc: int,
                         ghost ts: seq<Term>, ghost m: set<int>) returns (r: Result<seq<int>, Error>)
    requires BasisOk(b) && ArgsSeparate(a.nodes, hs, ts, m)
    modifies a
    ensures Outside(old(a.nodes), a.nodes, m)
    ensures r.Ok? <==> ReduceArgs(ts, b, app, fc).Ok?
    ensures r.Err? ==> r.error == LoopDetected
    ensures r.Ok? ==> ArgsBuilt(a.nodes, r.value, ReduceArgs(ts, b, app, fc).value, |old(a.nodes)|, m)
    decreases Measure(fc), 8
  {
    ghost var ns0 := a.nodes;
    var argumentNodes := hs;
    ghost var us: seq<Term> := [];
    var i := 0;
    while i < |hs|
      invariant ArgsProgress(ns0, a.nodes, hs, ts, argumentNodes, us, i)
      invariant Outside(ns0, a.nodes, m)
      invariant ReduceArgs(ts[..i], b, app, fc) == Ok(us)
    {
      var reduced := ReduceArgument(a, argumentNodes, i, b, app, fc, ns0, hs, ts, us, m);
      ReduceArgsNext(ts, i, b, app, fc);
      if reduced.Err? {
        ReduceArgsPrefix(ts, i + 1, b, app, fc);
        return Err(reduced.error);
      }
      argumentNodes := argumentNodes[i := reduced.value];
      us := us + [ReduceT(ts[i], b, app, fc).value];
      i := i + 1;
    }
    ArgsDone(ns0, a.nodes, hs, ts, argumentNodes, us, m);
    assert ts[..|hs|] == ts;
    r := Ok(argumentNodes);
  }

  /** One round of the applicative-order loop: reduce argument `i` and
      keep every other argument tree. */
  method ReduceArgument(a: Arena, args: seq<int>, i: int, b: Basis, app: bool, fc: int, ghost ns0: seq<Node>,
                        ghost hs: seq<int>, ghost ts: seq<Term>, ghost us: seq<Term>, ghost m: set<int>)
      returns (r: Result<int, Error>)
    requires BasisOk(b) && ArgsSeparate(ns0, hs, ts, m) && i < |hs|
    requires ArgsProgress(ns0, a.nodes, hs, ts, args, us, i) && Outside(ns0, a.nodes, m)
    modifies a
    ensures Outside(ns0, a.nodes, m)
    ensures r.Ok? <==> ReduceT(ts[i], b, app, fc).Ok?
    ensures r.Err? ==> r.error == LoopDetected
    ensures r.Ok? ==> ArgsProgress(ns0, a.nodes, hs, ts, args[i := r.value], us + [ReduceT(ts[i], b, app, fc).value], i + 1)
    decreases Measure(fc), 7
  {
    ghost var ns := a.nodes;
    r := Reduce(a, args[i], b, app, fc, ts[i]);
    if r.Ok? {
      ArgsStep(ns0, ns, a.nodes, hs, ts, args, us, i, r.value, ReduceT(ts[i], b, app, fc).value, m);
    } else {
      assert Nodes(ns, hs[i], ts[i]) <= m;
      OutsideTrans(ns0, ns, a.nodes, m, Nodes(ns, hs[i], ts[i]));
      assert m + Nodes(ns, hs[i], ts[i]) == m;
    }
  }
}
