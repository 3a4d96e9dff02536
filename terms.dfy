/** Combinatory-logic terms as values: the reference semantics that the
    pointer-based trees of the interpreter are proved against.  A term is a
    single-character atom or the application of a left term to a right one. */
module Terms {

  datatype Term = Leaf(c: char) | App(l: Term, r: Term)

  /** The atom at the end of the left spine (the tree's left-most leaf). */
  function Head(t: Term): char
  {
    match t
    case Leaf(c) => c
    case App(l, _) => Head(l)
  }

  /** Number of application nodes on the left spine. */
  function SpineLen(t: Term): nat
  {
    match t
    case Leaf(_) => 0
    case App(l, _) => SpineLen(l) + 1
  }

  /** The arguments applied along the left spine, innermost (first applied)
      first: the term is Head(t) applied to Args(t)[0], then Args(t)[1], ... */
  function Args(t: Term): (r: seq<Term>)
    ensures |r| == SpineLen(t)
  {
    match t
    case Leaf(_) => []
    case App(l, a) => Args(l) + [a]
  }

  /** The sub-term reached by following `d` left children. */
  function LeftAt(t: Term, d: nat): Term
    requires d <= SpineLen(t)
  {
    if d == 0 then t else LeftAt(t.l, d - 1)
  }

  /** `t` with the sub-term `d` steps down its left spine replaced by `u`. */
  function ReplaceLeftAt(t: Term, d: nat, u: Term): Term
    requires d <= SpineLen(t)
  {
    if d == 0 then u else App(ReplaceLeftAt(t.l, d - 1, u), t.r)
  }

  /** Applies `acc` to each of `rest` in turn: ((acc rest[0]) rest[1]) ... */
  function LeftFold(acc: Term, rest: seq<Term>): Term
    decreases |rest|
  {
    if rest == [] then acc else LeftFold(App(acc, rest[0]), rest[1..])
  }

  /** The left-associative application of a non-empty list of terms. */
  function FoldApp(ts: seq<Term>): Term
    requires |ts| > 0
  {
    LeftFold(ts[0], ts[1..])
  }

  /** Canonical text of a term: left-associative, a right operand in
      parentheses exactly when it is an application. */
  function Render(t: Term): string
    decreases t, 0
  {
    match t
    case Leaf(c) => [c]
    case App(l, a) => Render(l) + RenderArg(a)
  }

  function RenderArg(a: Term): string
    decreases a, 1
  {
    if a.Leaf? then [a.c] else "(" + Render(a) + ")"
  }

  /** No atom of the term is a parenthesis (every term parsed from a statement). */
  predicate ParenFree(t: Term)
  {
    match t
    case Leaf(c) => c != '(' && c != ')'
    case App(l, a) => ParenFree(l) && ParenFree(a)
  }

  /** The atoms of a term from left to right. */
  function Leaves(t: Term): string
  {
    match t
    case Leaf(c) => [c]
    case App(l, a) => Leaves(l) + Leaves(a)
  }

  /** A string with its parentheses removed. */
  function StripParens(s: string): string
  {
    if s == [] then []
    else if s[0] == '(' || s[0] == ')' then StripParens(s[1..])
    else [s[0]] + StripParens(s[1..])
  }

  /** Position of the first occurrence of `x` in `xs`, or -1. */
  function IndexOf(xs: seq<string>, x: string): (r: int)
    ensures -1 <= r < |xs|
    ensures r == -1 <==> x !in xs
    ensures r >= 0 ==> xs[r] == x && forall j :: 0 <= j < r ==> xs[j] != x
  {
    if xs == [] then -1
    else if xs[0] == x then 0
    else
      var k := IndexOf(xs[1..], x);
      if k == -1 then -1 else k + 1
  }

  /** Substitution of a combinator's actual arguments for its formal
      parameters: each leaf naming a parameter becomes the argument at that
      parameter's (first) position; every other leaf is kept. */
  function Subst(params: seq<string>, args: seq<Term>, body: Term): Term
    requires |args| == |params|
  {
    match body
    case Leaf(c) =>
      var i := IndexOf(params, [c]);
      if i == -1 then body else args[i]
    case App(l, r) => App(Subst(params, args, l), Subst(params, args, r))
  }

  // ----- lemmas -----

  /** Folding arguments onto a term extends its spine by exactly those arguments. */
  lemma {:induction false} LeftFoldSpine(acc: Term, rest: seq<Term>)
    ensures Head(LeftFold(acc, rest)) == Head(acc)
    ensures Args(LeftFold(acc, rest)) == Args(acc) + rest
    decreases |rest|
  {
    if rest != [] {
      LeftFoldSpine(App(acc, rest[0]), rest[1..]);
      assert [rest[0]] + rest[1..] == rest;
    }
  }

  lemma {:induction false} LeftFoldParenFree(acc: Term, rest: seq<Term>)
    requires ParenFree(acc) && forall i :: 0 <= i < |rest| ==> ParenFree(rest[i])
    ensures ParenFree(LeftFold(acc, rest))
    decreases |rest|
  {
    if rest != [] {
      LeftFoldParenFree(App(acc, rest[0]), rest[1..]);
    }
  }

  /** Re-applying a term's spine arguments to its head rebuilds the term. */
  lemma {:induction false} SpineRebuild(t: Term)
    ensures LeftFold(Leaf(Head(t)), Args(t)) == t
  {
    match t
    case Leaf(_) =>
    case App(l, a) =>
      SpineRebuild(l);
      LeftFoldSnoc(Leaf(Head(l)), Args(l), a);
  }

  lemma {:induction false} LeftFoldSnoc(acc: Term, rest: seq<Term>, a: Term)
    ensures LeftFold(acc, rest + [a]) == App(LeftFold(acc, rest), a)
    decreases |rest|
  {
    if rest != [] {
      assert (rest + [a])[1..] == rest[1..] + [a];
      LeftFoldSnoc(App(acc, rest[0]), rest[1..], a);
    } else {
      assert (rest + [a])[1..] == [];
    }
  }

  /** The sub-term `d` steps down the spine carries the innermost arguments. */
  lemma {:induction false} LeftAtSpine(t: Term, d: nat)
    requires d <= SpineLen(t)
    ensures Head(LeftAt(t, d)) == Head(t)
    ensures SpineLen(LeftAt(t, d)) == SpineLen(t) - d
    ensures Args(LeftAt(t, d)) == Args(t)[..SpineLen(t) - d]
  {
    if d > 0 {
      LeftAtSpine(t.l, d - 1);
      assert Args(t)[..SpineLen(t) - d] == Args(t.l)[..SpineLen(t.l) - (d - 1)];
    } else {
      assert Args(t)[..SpineLen(t)] == Args(t);
    }
  }

  /** Number of atoms and applications in the term. */
  function Size(t: Term): nat
  {
    match t
    case Leaf(_) => 1
    case App(l, r) => Size(l) + Size(r) + 1
  }

  /** A sub-term on the left spine is no larger than the term. */
  lemma {:induction false} LeftAtSize(t: Term, d: nat)
    requires d <= SpineLen(t)
    ensures Size(LeftAt(t, d)) <= Size(t)
  {
    if d > 0 {
      LeftAtSize(t.l, d - 1);
    }
  }

  /** One step up the spine: the node d-1 steps down applies the node d
      steps down to the argument numbered SpineLen(t) - d. */
  lemma {:induction false} LeftAtStep(t: Term, d: nat)
    requires 0 < d <= SpineLen(t)
    ensures LeftAt(t, d - 1).App?
    ensures LeftAt(t, d - 1).l == LeftAt(t, d)
    ensures LeftAt(t, d - 1).r == Args(t)[SpineLen(t) - d]
  {
    if d > 1 {
      LeftAtStep(t.l, d - 1);
    }
  }

  /** Replacing the node `d` steps down the spine by `u` leaves `u` applied to
      the outer arguments, i.e. those numbered SpineLen(t) - d and up. */
  lemma {:induction false} ReplaceLeftAtFold(t: Term, d: nat, u: Term)
    requires d <= SpineLen(t)
    ensures ReplaceLeftAt(t, d, u) == LeftFold(u, Args(t)[SpineLen(t) - d..])
  {
    if d == 0 {
      assert Args(t)[SpineLen(t)..] == [];
    } else {
      ReplaceLeftAtFold(t.l, d - 1, u);
      var outer := Args(t.l)[SpineLen(t.l) - (d - 1)..];
      LeftFoldSnoc(u, outer, t.r);
      assert Args(t)[SpineLen(t) - d..] == outer + [t.r];
    }
  }

  /** After the replacement the spine still reaches `d` steps down, and
      that is where `u` now sits. */
  lemma {:induction false} ReplaceLeftAtSpine(t: Term, d: nat, u: Term)
    requires d <= SpineLen(t)
    ensures d <= SpineLen(ReplaceLeftAt(t, d, u)) && LeftAt(ReplaceLeftAt(t, d, u), d) == u
  {
    if d > 0 {
      ReplaceLeftAtSpine(t.l, d - 1, u);
    }
  }

  /** Rendering keeps every atom, in left-to-right order: only parentheses are added. */
  lemma {:induction false} RenderKeepsLeaves(t: Term)
    requires ParenFree(t)
    ensures StripParens(Render(t)) == Leaves(t)
  {
    match t
    case Leaf(c) =>
      assert StripParens([c]) == [c] + StripParens([]);
    case App(l, a) =>
      RenderKeepsLeaves(l);
      StripParensAppend(Render(l), RenderArg(a));
      if a.Leaf? {
        assert StripParens([a.c]) == [a.c] + StripParens([]);
      } else {
        RenderKeepsLeaves(a);
        StripParensAppend("(", Render(a) + ")");
        StripParensAppend(Render(a), ")");
        assert "(" + Render(a) + ")" == "(" + (Render(a) + ")");
      }
  }

  lemma {:induction false} StripParensAppend(s: string, u: string)
    ensures StripParens(s + u) == StripParens(s) + StripParens(u)
  {
    if s != [] {
      assert (s + u)[1..] == s[1..] + u;
      StripParensAppend(s[1..], u);
    } else {
      assert s + u == u;
    }
  }

  /** Substituting every parameter by its own atom changes nothing. */
  lemma {:induction false} SubstIdentity(params: seq<string>, args: seq<Term>, body: Term)
    requires |args| == |params|
    requires forall i :: 0 <= i < |params| ==> |params[i]| == 1 && args[i] == Leaf(params[i][0])
    ensures Subst(params, args, body) == body
  {
    match body
    case Leaf(c) =>
      var i := IndexOf(params, [c]);
      if i != -1 {
        assert params[i] == [c];
      }
    case App(l, r) =>
      SubstIdentity(params, args, l);
      SubstIdentity(params, args, r);
  }

  /** Applying the first term to the second and folding on is the same fold. */
  lemma FoldAppPair(ts: seq<Term>)
    requires |ts| >= 2
    ensures FoldApp([App(ts[0], ts[1])] + ts[2..]) == FoldApp(ts)
  {
    assert ts[1..][0] == ts[1] && ts[1..][1..] == ts[2..];
    assert ([App(ts[0], ts[1])] + ts[2..])[1..] == ts[2..];
  }
}
