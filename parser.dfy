/** parse and unparse (parse.go) over the node arena: a well-defined
    statement becomes a fresh, well-linked tree spelling its term, and a
    tree is printed back in canonical text. */
module Parser {
  import opened Terms
  import opened Statements
  import opened Trees

  /** parse: a single character becomes a leaf; otherwise each operand is
      parsed in turn, loses its root mark and is hung down the left spine.
      The top of the result is marked as a root and has no parent; nothing
      that existed before is changed.  The empty statement gives nil. */
  method Parse(a: Arena, s: string) returns (r: int)
    requires s == [] || WellDefined(s)
    modifies a
    ensures Outside(old(a.nodes), a.nodes, {})
    ensures s == [] ==> r == Nil
    ensures s != [] ==> IsTree(a.nodes, r, ParseTerm(s))
    ensures s != [] ==> Fresh(old(a.nodes), a.nodes, Nodes(a.nodes, r, ParseTerm(s)))
    ensures s != [] ==> a.nodes[r].isRoot && a.nodes[r].parent == Nil
    decreases |s|
  {
    if |s| == 0 {
      return Nil;
    }
    if |s| == 1 {
      a.nodes := a.nodes + [Node(Nil, Nil, Nil, true, true, s)];
      r := |a.nodes| - 1;
      assert s == [s[0]];
      return;
    }
    var subs := GetSubStatements(s);
    SubStatementsWellDefined(s);
    SubStatementsShort(s);
    r := Nil;
    var i := 0;
    ghost var acc := Leaf('x');
    while i < |subs|
      invariant 0 <= i <= |subs|
      invariant Outside(old(a.nodes), a.nodes, {})
      invariant i == 0 ==> r == Nil
      invariant i > 0 ==> acc == FoldApp(ParseAll(subs[..i]))
      invariant i > 0 ==> IsTree(a.nodes, r, acc) && Fresh(old(a.nodes), a.nodes, Nodes(a.nodes, r, acc))
      invariant i > 0 ==> !a.nodes[r].isRoot && a.nodes[r].parent == Nil
    {
      assert subs[i] in subs;
      ghost var ns0 := a.nodes;
      var sub := Parse(a, subs[i]);
      ghost var u := ParseTerm(subs[i]);
      ghost var ns1 := a.nodes;
      a.nodes := a.nodes[sub := a.nodes[sub].(isRoot := false)];
      Unrooted(ns0, ns1, sub, u);
      PrefixStep(subs, i);
      if r == Nil {
        r := sub;
        acc := u;
        OutsideTrans(old(a.nodes), ns0, a.nodes, {}, {});
        FreshWider(old(a.nodes), ns0, a.nodes, Nodes(a.nodes, r, u));
      } else {
        ghost var ns2 := a.nodes;
        var nr := Hang(a, r, sub);
        CopyLink(old(a.nodes), ns0, ns2, Node(r, sub, Nil, false, false, ""), acc, u);
        r := nr;
        acc := App(acc, u);
      }
      i := i + 1;
    }
    assert subs[..i] == subs;
    ghost var ns3 := a.nodes;
    a.nodes := a.nodes[r := a.nodes[r].(isRoot := true)];
    Rooted(old(a.nodes), ns3, r, ParseTerm(s));
  }

  /** The linking step of parse: a new node applying the tree built so far
      to the next operand, both pointing back at it. */
  method Hang(a: Arena, r: int, sub: int) returns (nr: int)
    requires 0 <= r < |a.nodes| && 0 <= sub < |a.nodes|
    modifies a
    ensures a.nodes == Linked(old(a.nodes), Node(r, sub, Nil, false, false, "")) && nr == |old(a.nodes)|
  {
    a.nodes := a.nodes + [Node(r, sub, Nil, false, false, "")];
    nr := |a.nodes| - 1;
    a.nodes := a.nodes[r := a.nodes[r].(parent := nr)];
    a.nodes := a.nodes[sub := a.nodes[sub].(parent := nr)];
  }

  /** One more operand folded onto the parsed prefix. */
  lemma PrefixStep(subs: seq<string>, i: nat)
    requires i < |subs| && forall x :: x in subs ==> WellDefined(x)
    ensures forall x :: x in subs[..i] ==> WellDefined(x)
    ensures i == 0 ==> FoldApp(ParseAll(subs[..i + 1])) == ParseTerm(subs[i])
    ensures i > 0 ==> FoldApp(ParseAll(subs[..i + 1])) == App(FoldApp(ParseAll(subs[..i])), ParseTerm(subs[i]))
  {
    assert subs[..i + 1] == subs[..i] + [subs[i]];
    assert subs[i] in subs;
    ParseAllSnoc(subs[..i], subs[i]);
    if i == 0 {
      assert subs[..i] == [];
    } else {
      FoldAppSnoc(ParseAll(subs[..i]), ParseTerm(subs[i]));
    }
  }

  /** Clearing the root mark of a freshly parsed tree keeps it a fresh tree. */
  lemma Unrooted(ns0: seq<Node>, ns1: seq<Node>, h: int, t: Term)
    requires Outside(ns0, ns1, {}) && IsTree(ns1, h, t) && Fresh(ns0, ns1, Nodes(ns1, h, t))
    ensures Outside(ns0, ns1[h := ns1[h].(isRoot := false)], {})
    ensures IsTree(ns1[h := ns1[h].(isRoot := false)], h, t)
    ensures Nodes(ns1[h := ns1[h].(isRoot := false)], h, t) == Nodes(ns1, h, t)
    ensures Fresh(ns0, ns1[h := ns1[h].(isRoot := false)], Nodes(ns1, h, t))
  {
    var ns2 := ns1[h := ns1[h].(isRoot := false)];
    TreeIsShape(ns1, h, t);
    NodesInRange(ns1, h, t);
    TreeFrame(ns1, ns2, h, t);
  }

  /** Marking the top of a fresh tree as a root keeps it a fresh tree. */
  lemma Rooted(ns0: seq<Node>, ns1: seq<Node>, h: int, t: Term)
    requires Outside(ns0, ns1, {}) && IsTree(ns1, h, t) && Fresh(ns0, ns1, Nodes(ns1, h, t))
    ensures Outside(ns0, ns1[h := ns1[h].(isRoot := true)], {})
    ensures IsTree(ns1[h := ns1[h].(isRoot := true)], h, t)
    ensures Fresh(ns0, ns1[h := ns1[h].(isRoot := true)], Nodes(ns1[h := ns1[h].(isRoot := true)], h, t))
  {
    var ns2 := ns1[h := ns1[h].(isRoot := true)];
    TreeIsShape(ns1, h, t);
    NodesInRange(ns1, h, t);
    TreeFrame(ns1, ns2, h, t);
  }

  lemma FreshWider(ns0: seq<Node>, ns1: seq<Node>, ns2: seq<Node>, s: set<int>)
    requires |ns0| <= |ns1| && Fresh(ns1, ns2, s)
    ensures Fresh(ns0, ns2, s)
  {
  }

  /** unparse: start from the left-most leaf and climb to the root, printing
      each right child on the way, parenthesised unless it is a leaf. */
  method Unparse(ns: seq<Node>, root: int, ghost t: Term) returns (s: string)
    requires IsTree(ns, root, t)
    ensures s == Render(t)
    decreases Size(t)
  {
    TreeIsShape(ns, root, t);
    var current := GetLeftMostLeaf(ns, root, t);
    ghost var n := SpineLen(t);
    LeftAtSpine(t, n);
    SpineDistinct(ns, root, t, n);
    s := ns[current].leaf;
    ghost var j := n;
    while current != root
      invariant 0 <= j <= n
      invariant current == Descend(ns, root, j)
      invariant j > 0 ==> current != root
      invariant IsTree(ns, current, LeftAt(t, j))
      invariant s == Render(LeftAt(t, j))
      decreases j
    {
      ClimbStep(ns, root, t, j);
      current := ns[current].parent;
      j := j - 1;
      var right := ns[current].right;
      var sub := Unparse(ns, right, LeftAt(t, j).r);
      if ns[right].isLeaf {
        s := s + sub;
      } else {
        s := s + "(" + sub + ")";
      }
    }
  }

  /** The nodes down the left spine are trees, and none below the top is the top. */
  lemma SpineDistinct(ns: seq<Node>, root: int, t: Term, d: nat)
    requires IsTree(ns, root, t) && d <= SpineLen(t)
    ensures IsTree(ns, Descend(ns, root, d), LeftAt(t, d))
    ensures d > 0 ==> Descend(ns, root, d) != root
  {
    DescendTree(ns, root, t, d);
    TreeIsShape(ns, Descend(ns, root, d), LeftAt(t, d));
    NodesInRange(ns, Descend(ns, root, d), LeftAt(t, d));
  }

  /** One step of unparse's climb: from the node j steps down the spine to
      its parent, whose right child is the argument printed next. */
  lemma ClimbStep(ns: seq<Node>, root: int, t: Term, j: nat)
    requires IsTree(ns, root, t) && 0 < j <= SpineLen(t)
    ensures 0 <= Descend(ns, root, j) < |ns|
    ensures ns[Descend(ns, root, j)].parent == Descend(ns, root, j - 1)
    ensures IsTree(ns, Descend(ns, root, j - 1), LeftAt(t, j - 1))
    ensures j - 1 > 0 ==> Descend(ns, root, j - 1) != root
    ensures LeftAt(t, j - 1).App? && LeftAt(t, j - 1).l == LeftAt(t, j)
    ensures IsTree(ns, ns[Descend(ns, root, j - 1)].right, LeftAt(t, j - 1).r)
    ensures ns[ns[Descend(ns, root, j - 1)].right].isLeaf == LeftAt(t, j - 1).r.Leaf?
    ensures Size(LeftAt(t, j - 1).r) < Size(t)
    ensures Render(LeftAt(t, j - 1)) == Render(LeftAt(t, j)) + RenderArg(LeftAt(t, j - 1).r)
  {
    DescendTree(ns, root, t, j);
    SpineDistinct(ns, root, t, j - 1);
    LeftAtStep(t, j);
    LeftAtSize(t, j - 1);
    NodesInRange(ns, Descend(ns, root, j), LeftAt(t, j)) by {
      TreeIsShape(ns, Descend(ns, root, j), LeftAt(t, j));
    }
  }
}
