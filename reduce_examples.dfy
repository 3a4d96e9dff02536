/** The table of reduce_test.go, proved on the model in both orders: over
    the basis I x = x, R x y = y x, each statement is parsed, reduced from
    frame 0 in normal order and in applicative order, and printed back as
    the test expects. */
module ReduceExamples {
  import opened Wrappers
  import opened Terms
  import opened Statements
  import opened Combinators
  import opened Semantics
  import opened Laws
  import opened Examples

  /** R x y = y x: the second argument applied to the first. */
  const R := Combinator("R", ["x", "y"], "yx")

  /** The basis of the test: I, then R. */
  const IR: Basis := [I, R]

  /** The definition of R parses to the term it spells. */
  lemma RDefinition()
    ensures WellDefined(R.definition) && ParseTerm(R.definition) == App(Leaf('y'), Leaf('x'))
  {
    Canonical(App(Leaf('y'), Leaf('x')), "yx");
  }

  /** The basis is well defined: both definitions are statements. */
  lemma IRDefined()
    ensures BasisOk(IR)
  {
    Definitions();
    RDefinition();
    assert IR[1..] == [R] && [R][1..] == [];
    assert BasisOk([R]);
  }

  /** The basis names I and R, and leaves x and y free. */
  lemma IRNames()
    ensures FindCombinator("I", IR) == Some(I) && FindCombinator("R", IR) == Some(R)
    ensures FindCombinator("x", IR).None? && FindCombinator("y", IR).None?
  {
    assert IR[1..] == [R] && [R][1..] == [];
    assert FirstIndex(IR, "I") == 0;
    assert FirstIndex([R], "R") == 0 && FirstIndex(IR, "R") == 1;
    assert FirstIndex([R], "x") == -1 && FirstIndex(IR, "x") == -1;
    assert FirstIndex([R], "y") == -1 && FirstIndex(IR, "y") == -1;
  }

  lemma IRBasis()
    ensures BasisOk(IR)
    ensures FindCombinator("I", IR) == Some(I) && FindCombinator("R", IR) == Some(R)
    ensures FindCombinator("x", IR).None? && FindCombinator("y", IR).None?
  {
    IRDefined();
    IRNames();
  }

  /** R x y = y x, in either order: `x1` and `y1` are the actual arguments. */
  lemma RuleR(b: Basis, app: bool, fc: int, x: Term, y: Term, x1: Term, y1: Term,
              rest: seq<Term>, t: Term, u: Term)
    requires BasisOk(b) && fc <= MaxFrames && FindCombinator("R", b) == Some(R)
    requires Actuals([x, y], b, app, fc + 1) == Ok([x1, y1])
    requires t == LeftFold(App(App(Leaf('R'), x), y), rest) && u == LeftFold(App(y1, x1), rest)
    ensures RewriteT(t, b, app, fc) == RewriteT(u, b, app, fc + 1)
  {
    Spine2('R', x, y, rest);
    RDefinition();
    assert IndexOf(R.arguments, "x") == 0 && IndexOf(R.arguments, "y") == 1;
    assert Subst(R.arguments, [x1, y1], App(Leaf('y'), Leaf('x'))) == App(y1, x1);
    assert Args(t)[..2] == [x, y] && Args(t)[2..] == rest;
    RewriteUnfold(t, b, app, fc, R, [x1, y1]);
  }

  /** The applicative-order loop returns the reduced arguments when each
      argument reduces. */
  lemma {:induction false} ReduceArgsAll(ts: seq<Term>, us: seq<Term>, b: Basis, app: bool, fc: int)
    requires BasisOk(b) && |ts| == |us|
    requires forall i :: 0 <= i < |ts| ==> ReduceT(ts[i], b, app, fc) == Ok(us[i])
    ensures ReduceArgs(ts, b, app, fc) == Ok(us)
    decreases |ts|
  {
    if ts != [] {
      ReduceArgsAll(ts[1..], us[1..], b, app, fc);
      assert us == [us[0]] + us[1..];
    }
  }

  /** The actual arguments of a redex: the formal ones in normal order,
      the reduced ones in applicative order. */
  lemma ActualsAre(ts: seq<Term>, us: seq<Term>, b: Basis, app: bool, fc: int)
    requires BasisOk(b) && |ts| == |us| && (!app ==> us == ts)
    requires app ==> forall i :: 0 <= i < |ts| ==> ReduceT(ts[i], b, app, fc) == Ok(us[i])
    ensures Actuals(ts, b, app, fc) == Ok(us)
  {
    if app {
      ReduceArgsAll(ts, us, b, app, fc);
    }
  }

  /** The actual arguments of a redex whose formal arguments are atoms are
      those atoms, in either order. */
  lemma AtomActuals(ts: seq<Term>, b: Basis, app: bool, fc: int)
    requires BasisOk(b) && fc <= MaxFrames
    requires forall i :: 0 <= i < |ts| ==> ts[i].Leaf?
    ensures Actuals(ts, b, app, fc) == Ok(ts)
  {
    forall i | 0 <= i < |ts|
      ensures ReduceT(ts[i], b, app, fc) == Ok(ts[i])
    {
      ReduceLeaf(ts[i].c, b, app, fc);
    }
    ActualsAre(ts, ts, b, app, fc);
  }

  function X(): Term { Leaf('x') }

  /** rewrite of I applied to an atom gives the atom. */
  lemma RewriteIAtom(a: char, app: bool, fc: int)
    requires 0 <= fc <= MaxFrames - 1
    ensures BasisOk(IR) && RewriteT(App(Leaf('I'), Leaf(a)), IR, app, fc) == Ok(Leaf(a))
  {
    IRBasis();
    AtomActuals([Leaf(a)], IR, app, fc + 1);
    RuleI(IR, app, fc, Leaf(a), Leaf(a), [], App(Leaf('I'), Leaf(a)), Leaf(a));
    RewriteLeaf(a, IR, app, fc + 1);
  }

  /** I applied to an atom reduces to the atom: I x to x, and I I to I, a
      lone I having too few arguments to be a redex. */
  lemma ReduceIAtom(a: char, app: bool, fc: int)
    requires 0 <= fc <= MaxFrames - 2
    ensures BasisOk(IR) && ReduceT(App(Leaf('I'), Leaf(a)), IR, app, fc) == Ok(Leaf(a))
  {
    RewriteIAtom(a, app, fc + 1);
    ReducesToLeaf(App(Leaf('I'), Leaf(a)), IR, app, fc, Leaf(a));
  }

  /** rewrite of R applied to two atoms and further arguments swaps the
      atoms, and stops there when the new head names no combinator. */
  lemma RewriteRAtoms(a: char, c: char, rest: seq<Term>, app: bool, fc: int)
    requires 0 <= fc <= MaxFrames - 1 && FindCombinator([c], IR).None?
    ensures BasisOk(IR)
    ensures RewriteT(LeftFold(App(App(Leaf('R'), Leaf(a)), Leaf(c)), rest), IR, app, fc)
            == Ok(LeftFold(App(Leaf(c), Leaf(a)), rest))
  {
    IRBasis();
    var t := LeftFold(App(App(Leaf('R'), Leaf(a)), Leaf(c)), rest);
    var u := LeftFold(App(Leaf(c), Leaf(a)), rest);
    AtomActuals([Leaf(a), Leaf(c)], IR, app, fc + 1);
    RuleR(IR, app, fc, Leaf(a), Leaf(c), Leaf(a), Leaf(c), rest, t, u);
    LeftFoldSpine(App(Leaf(c), Leaf(a)), rest);
    RewriteStuck(u, IR, app, fc + 1);
  }

  /** reduce of an application whose head names no combinator: rewrite
      leaves it alone, and its two children are reduced in turn. */
  lemma ReduceFreeApp(t: Term, l1: Term, r1: Term, app: bool, fc: int)
    requires 0 <= fc <= MaxFrames - 1 && t.App? && FindCombinator([Head(t)], IR).None?
    requires BasisOk(IR) && ReduceT(t.l, IR, app, fc + 1) == Ok(l1) && ReduceT(t.r, IR, app, fc + 1) == Ok(r1)
    ensures ReduceT(t, IR, app, fc) == Ok(App(l1, r1))
  {
    RewriteStuck(t, IR, app, fc + 1);
    ReducesToApp(t, IR, app, fc, t.l, t.r, l1, r1);
  }

  /** An atom that names no combinator applied to an atom is in normal form. */
  lemma ReduceFreePair(a: char, c: char, app: bool, fc: int)
    requires 0 <= fc <= MaxFrames - 2 && FindCombinator([a], IR).None?
    ensures BasisOk(IR) && ReduceT(App(Leaf(a), Leaf(c)), IR, app, fc) == Ok(App(Leaf(a), Leaf(c)))
  {
    IRBasis();
    ReduceLeaf(a, IR, app, fc + 1);
    ReduceLeaf(c, IR, app, fc + 1);
    ReduceFreeApp(App(Leaf(a), Leaf(c)), Leaf(a), Leaf(c), app, fc);
  }

  /** R a c reduces to c a when c names no combinator. */
  lemma ReduceRAtoms(a: char, c: char, app: bool, fc: int)
    requires 0 <= fc <= MaxFrames - 2 && FindCombinator([c], IR).None?
    ensures BasisOk(IR)
    ensures ReduceT(App(App(Leaf('R'), Leaf(a)), Leaf(c)), IR, app, fc) == Ok(App(Leaf(c), Leaf(a)))
  {
    RewriteRAtoms(a, c, [], app, fc + 1);
    ReduceLeaf(a, IR, app, fc + 1);
    ReduceLeaf(c, IR, app, fc + 1);
    ReducesToApp(App(App(Leaf('R'), Leaf(a)), Leaf(c)), IR, app, fc, Leaf(c), Leaf(a), Leaf(c), Leaf(a));
  }

  /** R I x y reduces to x I y: R swaps I and x, and the new head x is free. */
  lemma ReduceRIxy(app: bool, fc: int)
    requires 0 <= fc <= MaxFrames - 3
    ensures BasisOk(IR) && ReduceT(At("RIxy"), IR, app, fc) == Ok(At("xIy"))
  {
    IRBasis();
    var xi := App(X(), Leaf('I'));
    RewriteRAtoms('I', 'x', [Leaf('y')], app, fc + 1);
    ReduceFreePair('x', 'I', app, fc + 1);
    ReduceLeaf('y', IR, app, fc + 1);
    ReducesToApp(At("RIxy"), IR, app, fc, xi, Leaf('y'), xi, Leaf('y'));
  }

  /** x (I x) reduces to x x: reduce goes on into the argument of a free head. */
  lemma ReduceXIx(app: bool, fc: int)
    requires 0 <= fc <= MaxFrames - 3
    ensures BasisOk(IR) && ReduceT(App(X(), At("Ix")), IR, app, fc) == Ok(At("xx"))
  {
    IRBasis();
    ReduceLeaf('x', IR, app, fc + 1);
    ReduceIAtom('x', app, fc + 1);
    ReduceFreeApp(App(X(), At("Ix")), X(), X(), app, fc);
  }

  /** rewrite of I (I x) gives x: in normal order the outer I is contracted
      first, in applicative order its argument I x is reduced first. */
  lemma RewriteIIx(app: bool, fc: int)
    requires 0 <= fc <= MaxFrames - 3
    ensures BasisOk(IR) && RewriteT(App(Leaf('I'), At("Ix")), IR, app, fc) == Ok(X())
  {
    if app {
      RewriteIIxApplicative(fc);
    } else {
      RewriteIIxNormal(fc);
    }
  }

  lemma RewriteIIxNormal(fc: int)
    requires 0 <= fc <= MaxFrames - 3
    ensures BasisOk(IR) && RewriteT(App(Leaf('I'), At("Ix")), IR, false, fc) == Ok(X())
  {
    IRBasis();
    ActualsAre([At("Ix")], [At("Ix")], IR, false, fc + 1);
    RuleI(IR, false, fc, At("Ix"), At("Ix"), [], App(Leaf('I'), At("Ix")), At("Ix"));
    RewriteIAtom('x', false, fc + 1);
  }

  lemma RewriteIIxApplicative(fc: int)
    requires 0 <= fc <= MaxFrames - 3
    ensures BasisOk(IR) && RewriteT(App(Leaf('I'), At("Ix")), IR, true, fc) == Ok(X())
  {
    IRBasis();
    ReduceIAtom('x', true, fc + 1);
    ActualsAre([At("Ix")], [X()], IR, true, fc + 1);
    RuleI(IR, true, fc, At("Ix"), X(), [], App(Leaf('I'), At("Ix")), X());
    RewriteLeaf('x', IR, true, fc + 1);
  }

  /** I (I x) reduces to x. */
  lemma ReduceIIx(app: bool, fc: int)
    requires 0 <= fc <= MaxFrames - 4
    ensures BasisOk(IR) && ReduceT(App(Leaf('I'), At("Ix")), IR, app, fc) == Ok(X())
  {
    RewriteIIx(app, fc + 1);
    ReducesToLeaf(App(Leaf('I'), At("Ix")), IR, app, fc, X());
  }

  /** x (I (I x)) reduces to x x. */
  lemma ReduceXIIx(app: bool, fc: int)
    requires 0 <= fc <= MaxFrames - 5
    ensures BasisOk(IR) && ReduceT(App(X(), App(Leaf('I'), At("Ix"))), IR, app, fc) == Ok(At("xx"))
  {
    IRBasis();
    ReduceIIx(app, fc + 1);
    ReduceLeaf('x', IR, app, fc + 1);
    ReduceFreeApp(App(X(), App(Leaf('I'), At("Ix"))), X(), X(), app, fc);
  }

  /** x (I (I x)) x reduces to x x x. */
  lemma ReduceXIIxX(app: bool, fc: int)
    requires 0 <= fc <= MaxFrames - 6
    ensures BasisOk(IR)
    ensures ReduceT(App(App(X(), App(Leaf('I'), At("Ix"))), X()), IR, app, fc) == Ok(At("xxx"))
  {
    IRBasis();
    ReduceXIIx(app, fc + 1);
    ReduceLeaf('x', IR, app, fc + 1);
    ReduceFreeApp(App(App(X(), App(Leaf('I'), At("Ix"))), X()), At("xx"), X(), app, fc);
  }

  // ----- the table -----

  /** The check reduce_test.go makes of one statement in one order: it is
      parsed, reduced from frame 0 and printed back as `r`. */
  ghost predicate ReducesAs(s: string, app: bool, r: string)
  {
    BasisOk(IR) && WellDefined(s) &&
    var u := ReduceT(ParseTerm(s), IR, app, 0);
    u.Ok? && Render(u.value) == r
  }

  lemma ParsesIx() ensures WellDefined("Ix") && ParseTerm("Ix") == At("Ix")
  {
    Canonical(At("Ix"), "Ix");
  }

  lemma ParsesRxy() ensures WellDefined("Rxy") && ParseTerm("Rxy") == At("Rxy")
  {
    Canonical(At("Rxy"), "Rxy");
  }

  lemma ParsesRyx() ensures WellDefined("Ryx") && ParseTerm("Ryx") == At("Ryx")
  {
    Canonical(At("Ryx"), "Ryx");
  }

  lemma ParsesRIxy() ensures WellDefined("RIxy") && ParseTerm("RIxy") == At("RIxy")
  {
    Canonical(At("RIxy"), "RIxy");
  }

  lemma ParsesII() ensures WellDefined("II") && ParseTerm("II") == At("II")
  {
    Canonical(At("II"), "II");
  }

  lemma ParsesXIx() ensures WellDefined("x(Ix)") && ParseTerm("x(Ix)") == App(X(), At("Ix"))
  {
    Canonical(App(X(), At("Ix")), "x(Ix)");
  }

  lemma ParsesXIIxX()
    ensures WellDefined("x(I(Ix))x")
    ensures ParseTerm("x(I(Ix))x") == App(App(X(), App(Leaf('I'), At("Ix"))), X())
  {
    Canonical(App(App(X(), App(Leaf('I'), At("Ix"))), X()), "x(I(Ix))x");
  }

  /** How unparse prints the results the table expects. */
  lemma Printed()
    ensures Render(X()) == "x" && Render(Leaf('I')) == "I"
    ensures Render(At("yx")) == "yx" && Render(At("xy")) == "xy" && Render(At("xIy")) == "xIy"
    ensures Render(At("xx")) == "xx" && Render(At("xxx")) == "xxx"
  {
  }

  /** The rows of TestReduce, each in normal order (`app` false) and in
      applicative order (`app` true). */
  lemma RowIx(app: bool)
    ensures ReducesAs("Ix", app, "x")
  {
    ParsesIx();
    ReduceIAtom('x', app, 0);
    Printed();
  }

  lemma RowRxy(app: bool)
    ensures ReducesAs("Rxy", app, "yx")
  {
    IRBasis();
    ParsesRxy();
    ReduceRAtoms('x', 'y', app, 0);
    Printed();
  }

  lemma RowRyx(app: bool)
    ensures ReducesAs("Ryx", app, "xy")
  {
    IRBasis();
    ParsesRyx();
    ReduceRAtoms('y', 'x', app, 0);
    Printed();
  }

  lemma RowRIxy(app: bool)
    ensures ReducesAs("RIxy", app, "xIy")
  {
    ParsesRIxy();
    ReduceRIxy(app, 0);
    Printed();
  }

  lemma RowII(app: bool)
    ensures ReducesAs("II", app, "I")
  {
    ParsesII();
    ReduceIAtom('I', app, 0);
    Printed();
  }

  lemma RowXIx(app: bool)
    ensures ReducesAs("x(Ix)", app, "xx")
  {
    ParsesXIx();
    ReduceXIx(app, 0);
    Printed();
  }

  lemma RowXIIxX(app: bool)
    ensures ReducesAs("x(I(Ix))x", app, "xxx")
  {
    ParsesXIIxX();
    ReduceXIIxX(app, 0);
    Printed();
  }

  /** TestReduce as a whole, in either order. */
  lemma ReduceTable(app: bool)
    ensures ReducesAs("Ix", app, "x") && ReducesAs("Rxy", app, "yx")
    ensures ReducesAs("Ryx", app, "xy") && ReducesAs("RIxy", app, "xIy")
    ensures ReducesAs("II", app, "I") && ReducesAs("x(Ix)", app, "xx")
    ensures ReducesAs("x(I(Ix))x", app, "xxx")
  {
    RowIx(app);
    RowRxy(app);
    RowRyx(app);
    RowRIxy(app);
    RowII(app);
    RowXIx(app);
    RowXIIxX(app);
  }
}
