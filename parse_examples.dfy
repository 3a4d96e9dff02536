/** The tables of parse_test.go, proved on the model: isWellDefined accepts
    and rejects the statements TestWellDefined lists, with the error its
    scan stops at, and parse followed by unparse normalises the statements
    TestParse lists, redundant parentheses and all. */
module ParseExamples {
  import opened Wrappers
  import opened Terms
  import opened Statements
  import opened Laws
  import opened Examples

  // ----- isWellDefined -----

  /** The scan of isWellDefined, read left to right as its loop does. */
  function ScanLeft(st: ScanState, s: string): ScanState
    decreases |s|
  {
    if s == [] then st else ScanLeft(ScanStep(st, s[0]), s[1..])
  }

  lemma {:induction false} ScanLeftSnoc(st: ScanState, s: string, ch: char)
    ensures ScanLeft(st, s + [ch]) == ScanStep(ScanLeft(st, s), ch)
    decreases |s|
  {
    if s == [] {
      assert [ch][1..] == [];
    } else {
      assert (s + [ch])[1..] == s[1..] + [ch];
      ScanLeftSnoc(ScanStep(st, s[0]), s[1..], ch);
    }
  }

  /** Scanning from the end back and from the start forward agree. */
  lemma {:induction false} ScanForward(s: string)
    ensures Scan(s) == ScanLeft(Scanning(0, false), s)
    decreases |s|
  {
    if s != [] {
      var p := s[..|s| - 1];
      assert s == p + [s[|s| - 1]];
      ScanForward(p);
      ScanLeftSnoc(Scanning(0, false), p, s[|s| - 1]);
    }
  }

  /** The accepted rows of TestWellDefined. */
  lemma WellDefinedAccepts()
    ensures CheckStatement("x") == None && WellDefined("x")
    ensures CheckStatement("(x)") == None && WellDefined("(x)")
    ensures CheckStatement("(xy)") == None && WellDefined("(xy)")
    ensures CheckStatement("((x))") == None && WellDefined("((x))")
    ensures CheckStatement("(x(x))") == None && WellDefined("(x(x))")
  {
    ScanForward("x");
    ScanForward("(x)");
    ScanForward("(xy)");
    ScanForward("((x))");
    ScanForward("(x(x))");
    CheckStatementCorrect("x");
    CheckStatementCorrect("(x)");
    CheckStatementCorrect("(xy)");
    CheckStatementCorrect("((x))");
    CheckStatementCorrect("(x(x))");
  }

  /** The rejected rows of TestWellDefined, each with the error the scan
      stops at: an empty statement, `()` (also inside `x()` and `(()`), a
      `)` with nothing open (`)(` and the second `)` of `(x))((x)`), and
      parentheses left open (`(x(`). */
  lemma WellDefinedRejects()
    ensures CheckStatement("") == Some(EmptyStatement) && !WellDefined("")
    ensures CheckStatement("()") == Some(EmptyParens) && !WellDefined("()")
    ensures CheckStatement("x()") == Some(EmptyParens) && !WellDefined("x()")
    ensures CheckStatement("(()") == Some(EmptyParens) && !WellDefined("(()")
    ensures CheckStatement(")(") == Some(UnopenedClose) && !WellDefined(")(")
    ensures CheckStatement("(x(") == Some(UnbalancedParens) && !WellDefined("(x(")
    ensures CheckStatement("(x))((x)") == Some(UnopenedClose) && !WellDefined("(x))((x)")
  {
    ScanForward("()");
    ScanForward("x()");
    ScanForward("(()");
    ScanForward(")(");
    ScanForward("(x(");
    ScanForward("(x))((x)");
    CheckStatementCorrect("");
    CheckStatementCorrect("()");
    CheckStatementCorrect("x()");
    CheckStatementCorrect("(()");
    CheckStatementCorrect(")(");
    CheckStatementCorrect("(x(");
    CheckStatementCorrect("(x))((x)");
  }

  // ----- parse and unparse -----

  lemma TripleOperands(o1: Operand, o2: Operand, o3: Operand)
    ensures Join([o1, o2, o3]) == Text(o1) + Text(o2) + Text(o3)
    ensures Inners([o1, o2, o3]) == [Inner(o1), Inner(o2), Inner(o3)]
  {
    assert [o1, o2, o3][..2] == [o1, o2];
    PairOperands(o1, o2);
  }

  lemma TripleTerms(w1: string, w2: string, w3: string, t1: Term, t2: Term, t3: Term)
    requires WellDefined(w1) && ParseTerm(w1) == t1
    requires WellDefined(w2) && ParseTerm(w2) == t2
    requires WellDefined(w3) && ParseTerm(w3) == t3
    ensures FoldApp(ParseAll([w1, w2, w3])) == App(App(t1, t2), t3)
  {
    assert [w1, w2, w3][1..] == [w2, w3] && [w2, w3][1..] == [w3];
    assert ParseAll([w3]) == [t3];
    assert ParseAll([w2, w3]) == [t2, t3];
    assert ParseAll([w1, w2, w3]) == [t1, t2, t3];
    assert [t1, t2, t3][1..] == [t2, t3] && [t2, t3][1..] == [t3] && [t3][1..] == [];
    assert LeftFold(App(App(t1, t2), t3), []) == App(App(t1, t2), t3);
    assert LeftFold(App(t1, t2), [t3]) == App(App(t1, t2), t3);
  }

  /** A statement made of three operands applies them left to right. */
  lemma Triple(o1: Operand, o2: Operand, o3: Operand, s: string, t1: Term, t2: Term, t3: Term)
    requires ValidOperand(o1) && ValidOperand(o2) && ValidOperand(o3)
    requires s == Text(o1) + Text(o2) + Text(o3)
    requires WellDefined(Inner(o1)) && ParseTerm(Inner(o1)) == t1
    requires WellDefined(Inner(o2)) && ParseTerm(Inner(o2)) == t2
    requires WellDefined(Inner(o3)) && ParseTerm(Inner(o3)) == t3
    ensures WellDefined(s) && ParseTerm(s) == App(App(t1, t2), t3)
  {
    TripleOperands(o1, o2, o3);
    ParseOperands([o1, o2, o3]);
    TripleTerms(Inner(o1), Inner(o2), Inner(o3), t1, t2, t3);
  }

  /** `s` is accepted and parses as `t`. */
  ghost predicate Parses(s: string, t: Term)
  {
    WellDefined(s) && ParseTerm(s) == t
  }

  /** parse followed by unparse turns `s` into `r`. */
  ghost predicate Normalises(s: string, r: string)
  {
    WellDefined(s) && Render(ParseTerm(s)) == r
  }

  function X(): Term { Leaf('x') }
  function XX(): Term { App(Leaf('x'), Leaf('x')) }
  function XXX(): Term { App(XX(), Leaf('x')) }

  /** `(x)x` parses as x applied to x. */
  lemma GroupThenAtom()
    ensures Parses("(x)x", XX())
  {
    Canonical(X(), "x");
    Pair(Group("x"), Bare('x'), "(x)x", X(), X());
  }

  /** `((x)x)x` parses as (x x) applied to x. */
  lemma GroupThenAtomTwice()
    ensures Parses("((x)x)x", XXX())
  {
    Canonical(X(), "x");
    GroupThenAtom();
    Pair(Group("(x)x"), Bare('x'), "((x)x)x", XX(), X());
  }

  /** `(x)xx` parses as x applied to x, then to x. */
  lemma GroupThenAtoms()
    ensures Parses("(x)xx", XXX())
  {
    Canonical(X(), "x");
    Triple(Group("x"), Bare('x'), Bare('x'), "(x)xx", X(), X(), X());
  }

  /** The rows of TestParse, in its order, each with the term it parses as. */
  lemma ParseRow1()
    ensures Parses("x", X())
  {
    Canonical(X(), "x");
  }

  lemma ParseRow2()
    ensures Parses("(x)", X())
  {
    Canonical(X(), "x");
    Wrapped("x", "(x)", X());
  }

  lemma ParseRow3()
    ensures Parses("((x))", X())
  {
    Canonical(X(), "x");
    Wrapped("x", "(x)", X());
    Wrapped("(x)", "((x))", X());
  }

  lemma ParseRow4()
    ensures Parses("xx", XX())
  {
    Canonical(XX(), "xx");
  }

  lemma ParseRow5()
    ensures Parses("(x)x", XX())
  {
    GroupThenAtom();
  }

  lemma ParseRow6()
    ensures Parses("((x)x)", XX())
  {
    GroupThenAtom();
    Wrapped("(x)x", "((x)x)", XX());
  }

  lemma ParseRow7()
    ensures Parses("((x)(x))", XX())
  {
    Canonical(X(), "x");
    Pair(Group("x"), Group("x"), "(x)(x)", X(), X());
    Wrapped("(x)(x)", "((x)(x))", XX());
  }

  lemma ParseRow8()
    ensures Parses("x(x)", XX())
  {
    Canonical(X(), "x");
    Pair(Bare('x'), Group("x"), "x(x)", X(), X());
  }

  lemma ParseRow9()
    ensures Parses("xxx", XXX())
  {
    Canonical(XXX(), "xxx");
  }

  lemma ParseRow10()
    ensures Parses("(xxx)", XXX())
  {
    Canonical(XXX(), "xxx");
    Wrapped("xxx", "(xxx)", XXX());
  }

  lemma ParseRow11()
    ensures Parses("((x)xx)", XXX())
  {
    GroupThenAtoms();
    Wrapped("(x)xx", "((x)xx)", XXX());
  }

  lemma ParseRow12()
    ensures Parses("(((x)x)x)", XXX())
  {
    GroupThenAtomTwice();
    Wrapped("((x)x)x", "(((x)x)x)", XXX());
  }

  lemma ParseRow13()
    ensures Parses("((x)(xx))", App(X(), XX()))
  {
    Canonical(X(), "x");
    Canonical(XX(), "xx");
    Pair(Group("x"), Group("xx"), "(x)(xx)", X(), XX());
    Wrapped("(x)(xx)", "((x)(xx))", App(X(), XX()));
  }

  lemma ParseRow14()
    ensures Parses("x(xx)", App(X(), XX()))
  {
    Canonical(App(X(), XX()), "x(xx)");
  }

  lemma ParseRow15()
    ensures Parses("x((x)x)", App(X(), XX()))
  {
    Canonical(X(), "x");
    GroupThenAtom();
    Pair(Bare('x'), Group("(x)x"), "x((x)x)", X(), XX());
  }

  lemma ParseRow16()
    ensures Parses("(x(xx))", App(X(), XX()))
  {
    ParseRow14();
    Wrapped("x(xx)", "(x(xx))", App(X(), XX()));
  }

  lemma ParseRow17()
    ensures Parses("xx(xx)", App(XX(), XX()))
  {
    Canonical(App(XX(), XX()), "xx(xx)");
  }

  lemma ParseRow18()
    ensures Parses("x(xx)x", App(App(X(), XX()), X()))
  {
    Canonical(App(App(X(), XX()), X()), "x(xx)x");
  }

  /** How unparse prints the terms the rows of TestParse parse as. */
  lemma Unparsed()
    ensures Render(X()) == "x" && Render(XX()) == "xx" && Render(XXX()) == "xxx"
    ensures Render(App(X(), XX())) == "x(xx)" && Render(App(XX(), XX())) == "xx(xx)"
    ensures Render(App(App(X(), XX()), X())) == "x(xx)x"
  {
  }

  /** TestParse as a whole: parse followed by unparse drops every pair of
      parentheses that does not group an argument. */
  lemma ParseTable()
    ensures Normalises("x", "x")
    ensures Normalises("(x)", "x")
    ensures Normalises("((x))", "x")
    ensures Normalises("xx", "xx")
    ensures Normalises("(x)x", "xx")
    ensures Normalises("((x)x)", "xx")
    ensures Normalises("((x)(x))", "xx")
    ensures Normalises("x(x)", "xx")
    ensures Normalises("xxx", "xxx")
    ensures Normalises("(xxx)", "xxx")
    ensures Normalises("((x)xx)", "xxx")
    ensures Normalises("(((x)x)x)", "xxx")
    ensures Normalises("((x)(xx))", "x(xx)")
    ensures Normalises("x(xx)", "x(xx)")
    ensures Normalises("x((x)x)", "x(xx)")
    ensures Normalises("(x(xx))", "x(xx)")
    ensures Normalises("xx(xx)", "xx(xx)")
    ensures Normalises("x(xx)x", "x(xx)x")
  {
    Unparsed();
    ParseRow1();
    ParseRow2();
    ParseRow3();
    ParseRow4();
    ParseRow5();
    ParseRow6();
    ParseRow7();
    ParseRow8();
    ParseRow9();
    ParseRow10();
    ParseRow11();
    ParseRow12();
    ParseRow13();
    ParseRow14();
    ParseRow15();
    ParseRow16();
    ParseRow17();
    ParseRow18();
  }
}
