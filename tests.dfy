/** The examples of combinator_test.go, proved on the model: each statement
    is parsed, reduced in normal order from frame 0 and printed back, and
    the result is the one the test expects.  The term of an example is
    written At("...") for a string of atoms applied left to right, and its
    reduction is given as the run of contractions normal order performs. */
module Examples {
  import opened Wrappers
  import opened Terms
  import opened Statements
  import opened Combinators
  import opened Semantics
  import opened Laws

  /** The term spelled by a string of atoms, applied left to right
      (At("SKx") is ((S K) x)). */
  function At(s: string): (t: Term)
    requires s != []
    ensures Head(t) == s[0] && SpineLen(t) == |s| - 1
  {
    AtFrom(Leaf(s[0]), s[1..])
  }

  function AtFrom(acc: Term, s: string): (t: Term)
    ensures Head(t) == Head(acc) && SpineLen(t) == SpineLen(acc) + |s|
    decreases |s|
  {
    if s == [] then acc else AtFrom(App(acc, Leaf(s[0])), s[1..])
  }

  /** A statement wrapped in one pair of parentheses means the same term. */
  lemma Wrapped(w: string, s: string, t: Term)
    requires s == "(" + w + ")" && WellDefined(w) && ParseTerm(w) == t
    ensures CheckStatement(s) == None && WellDefined(s) && ParseTerm(s) == t
  {
    var os := [Group(w)];
    assert os[..0] == [];
    assert Join(os) == s;
    assert Inners(os) == [w];
    assert ValidOperand(os[0]);
    ParseOperands(os);
    assert ParseAll([w]) == [t];
    CheckStatementCorrect(s);
  }

  lemma PairOperands(o1: Operand, o2: Operand)
    ensures Join([o1, o2]) == Text(o1) + Text(o2)
    ensures Inners([o1, o2]) == [Inner(o1), Inner(o2)]
  {
    assert [o1, o2][..1] == [o1] && [o1][..0] == [];
    assert Join([o1]) == Text(o1);
  }

  lemma PairTerms(w1: string, w2: string, t1: Term, t2: Term)
    requires WellDefined(w1) && ParseTerm(w1) == t1
    requires WellDefined(w2) && ParseTerm(w2) == t2
    ensures FoldApp(ParseAll([w1, w2])) == App(t1, t2)
  {
    assert [w1, w2][1..] == [w2];
    assert ParseAll([w1, w2]) == [t1, t2];
    assert [t1, t2][1..] == [t2] && [t2][1..] == [];
    assert LeftFold(App(t1, t2), []) == App(t1, t2);
  }

  /** A statement made of two operands means the first applied to the second. */
  lemma Pair(o1: Operand, o2: Operand, s: string, t1: Term, t2: Term)
    requires ValidOperand(o1) && ValidOperand(o2) && s == Text(o1) + Text(o2)
    requires WellDefined(Inner(o1)) && ParseTerm(Inner(o1)) == t1
    requires WellDefined(Inner(o2)) && ParseTerm(Inner(o2)) == t2
    ensures WellDefined(s) && ParseTerm(s) == App(t1, t2)
  {
    PairOperands(o1, o2);
    ParseOperands([o1, o2]);
    PairTerms(Inner(o1), Inner(o2), t1, t2);
  }

  /** An atom applied to a parenthesised statement means the atom applied
      to that statement's term. */
  lemma Applied(c: char, w: string, s: string, t: Term)
    requires c != '(' && c != ')' && s == [c] + "(" + w + ")"
    requires WellDefined(w) && ParseTerm(w) == t
    ensures WellDefined(s) && ParseTerm(s) == App(Leaf(c), t)
  {
    Canonical(Leaf(c), [c]);
    Pair(Bare(c), Group(w), s, Leaf(c), t);
  }

  /** Transform of a statement whose term reduces to `u` prints `u`. */
  lemma Transforms(b: Basis, s: string, t: Term, u: Term, r: string)
    requires BasisOk(b) && CheckStatement(s) == None && WellDefined(s) && ParseTerm(s) == t
    requires ReduceT(t, b, false, 0) == Ok(u) && Render(u) == r
    ensures TransformT(b, s) == Ok(r)
  {
  }

  /** reduce of an application whose rewrite ends in a leaf. */
  lemma ReducesToLeaf(t: Term, b: Basis, app: bool, fc: int, u: Term)
    requires BasisOk(b) && 0 <= fc <= MaxFrames && t.App? && u.Leaf?
    requires RewriteT(t, b, app, fc + 1) == Ok(u)
    ensures ReduceT(t, b, app, fc) == Ok(u)
  {
  }

  /** reduce of an application whose rewrite ends in an application: its
      children are reduced in turn. */
  lemma ReducesToApp(t: Term, b: Basis, app: bool, fc: int, l: Term, r: Term, l1: Term, r1: Term)
    requires BasisOk(b) && 0 <= fc <= MaxFrames && t.App?
    requires RewriteT(t, b, app, fc + 1) == Ok(App(l, r))
    requires ReduceT(l, b, app, fc + 1) == Ok(l1) && ReduceT(r, b, app, fc + 1) == Ok(r1)
    ensures ReduceT(t, b, app, fc) == Ok(App(l1, r1))
  {
  }

  /** rewrite returns a leaf unchanged while frames remain. */
  lemma RewriteLeaf(c: char, b: Basis, app: bool, fc: int)
    requires BasisOk(b) && fc <= MaxFrames
    ensures RewriteT(Leaf(c), b, app, fc) == Ok(Leaf(c))
  {
  }

  /** A run of steps that ends in a leaf is what reduce returns: the
      rewrite of the whole term performs the run and stops at the leaf. */
  lemma ReducesByRun(b: Basis, rules: Rules, tr: Trace, t: Term, u: Term, fc: int)
    requires BasisOk(b) && Defines(b, rules) && Allowed(rules, tr) && TraceLinked(tr)
    requires t == Redex(tr.st) && u == Contractum(Final(tr)) && t.App? && u.Leaf?
    requires 0 <= fc && fc + 1 + Count(tr) <= MaxFrames
    ensures ReduceT(t, b, false, fc) == Ok(u)
  {
    Runs(b, rules, tr, t, u, fc + 1, fc + 1 + Count(tr));
    RewriteLeaf(u.c, b, false, fc + 1 + Count(tr));
    ReducesToLeaf(t, b, false, fc, u);
  }

  /** A run of steps that ends in a term whose head names no combinator
      is what rewrite returns. */
  lemma RewritesByRun(b: Basis, rules: Rules, tr: Trace, t: Term, u: Term, fc: int)
    requires BasisOk(b) && Defines(b, rules) && Allowed(rules, tr) && TraceLinked(tr)
    requires t == Redex(tr.st) && u == Contractum(Final(tr)) && FindCombinator([Head(u)], b).None?
    requires fc + Count(tr) <= MaxFrames
    ensures RewriteT(t, b, false, fc) == Ok(u)
  {
    Runs(b, rules, tr, t, u, fc, fc + Count(tr));
    RewriteStuck(u, b, false, fc + Count(tr));
  }

  /** A run that ends in a leaf applied to a term is what rewrite returns,
      and reduce goes on to reduce that term. */
  lemma ReducesByRunThenArgument(b: Basis, rules: Rules, tr: Trace, t: Term, c: char, r: Term,
                                 r1: Term, fc: int)
    requires BasisOk(b) && Defines(b, rules) && Allowed(rules, tr) && TraceLinked(tr)
    requires t == Redex(tr.st) && App(Leaf(c), r) == Contractum(Final(tr)) && t.App?
    requires FindCombinator([c], b).None?
    requires 0 <= fc && fc + 1 + Count(tr) <= MaxFrames
    requires ReduceT(r, b, false, fc + 1) == Ok(r1)
    ensures ReduceT(t, b, false, fc) == Ok(App(Leaf(c), r1))
  {
    RewritesByRun(b, rules, tr, t, App(Leaf(c), r), fc + 1);
    ReduceLeaf(c, b, false, fc + 1);
    ReducesToApp(t, b, false, fc, Leaf(c), r, Leaf(c), r1);
  }

  // ----- SKI -----

  /** I x = x. */
  function IxRun(): Trace
  {
    Last(IStep(At("x"), []))
  }

  lemma IxRunFacts()
    ensures TraceLinked(IxRun()) && Allowed(SkiRules(), IxRun()) && Count(IxRun()) == 1
    ensures Redex(IxRun().st) == At("Ix") && Contractum(Final(IxRun())) == At("x")
  {
  }

  lemma ReduceIx(fc: int)
    requires 0 <= fc <= MaxFrames - 2
    ensures BasisOk(SKI)
    ensures ReduceT(At("Ix"), SKI, false, fc) == Ok(At("x"))
  {
    StandardBasesOk();
    StandardBasesDefine();
    IxRunFacts();
    ReducesByRun(SKI, SkiRules(), IxRun(), At("Ix"), At("x"), fc);
  }

  lemma TransformIx()
    ensures BasisOk(SKI) && TransformT(SKI, "Ix") == Ok("x")
  {
    Canonical(At("Ix"), "Ix");
    ReduceIx(0);
    Transforms(SKI, "Ix", At("Ix"), At("x"), "x");
  }

  /** S K S K = K K (S K) = K. */
  function SKSKRun(): Trace
  {
    Then(SStep(At("K"), At("S"), At("K"), []),
    Last(KStep(At("K"), At("SK"), [])))
  }

  lemma SKSKRunFacts()
    ensures TraceLinked(SKSKRun()) && Allowed(SkiRules(), SKSKRun()) && Count(SKSKRun()) == 2
    ensures Redex(SKSKRun().st) == At("SKSK") && Contractum(Final(SKSKRun())) == At("K")
  {
  }

  lemma ReduceSKSK(fc: int)
    requires 0 <= fc <= MaxFrames - 3
    ensures BasisOk(SKI)
    ensures ReduceT(At("SKSK"), SKI, false, fc) == Ok(At("K"))
  {
    StandardBasesOk();
    StandardBasesDefine();
    SKSKRunFacts();
    ReducesByRun(SKI, SkiRules(), SKSKRun(), At("SKSK"), At("K"), fc);
  }

  lemma TransformSKSK()
    ensures BasisOk(SKI) && TransformT(SKI, "SKSK") == Ok("K")
  {
    Canonical(At("SKSK"), "SKSK");
    ReduceSKSK(0);
    Transforms(SKI, "SKSK", At("SKSK"), At("K"), "K");
  }

  /** S K K x = K x (K x) = x. */
  function SKKxRun(): Trace
  {
    Then(SStep(At("K"), At("K"), At("x"), []),
    Last(KStep(At("x"), At("Kx"), [])))
  }

  lemma SKKxRunFacts()
    ensures TraceLinked(SKKxRun()) && Allowed(SkiRules(), SKKxRun()) && Count(SKKxRun()) == 2
    ensures Redex(SKKxRun().st) == At("SKKx") && Contractum(Final(SKKxRun())) == At("x")
  {
  }

  lemma ReduceSKKx(fc: int)
    requires 0 <= fc <= MaxFrames - 3
    ensures BasisOk(SKI)
    ensures ReduceT(At("SKKx"), SKI, false, fc) == Ok(At("x"))
  {
    StandardBasesOk();
    StandardBasesDefine();
    SKKxRunFacts();
    ReducesByRun(SKI, SkiRules(), SKKxRun(), At("SKKx"), At("x"), fc);
  }

  lemma TransformSKKx()
    ensures BasisOk(SKI) && TransformT(SKI, "SKKx") == Ok("x")
  {
    Canonical(At("SKKx"), "SKKx");
    ReduceSKKx(0);
    Transforms(SKI, "SKKx", At("SKKx"), At("x"), "x");
  }

  /** S(K(SI))Kab, the term of the swap example. */
  function Swap(): Term
  {
    LeftFold(At("S"), [App(At("K"), At("SI")), At("K"), At("a"), At("b")])
  }

  /** S (K (S I)) K a b = K (S I) a (K a) b = S I (K a) b = I b (K a b) = b (K a b),
      whose head b is no combinator of SKI. */
  function SwapRun(): Trace
  {
    Then(SStep(App(At("K"), At("SI")), At("K"), At("a"), [At("b")]),
    Then(KStep(At("SI"), At("a"), [At("Ka"), At("b")]),
    Then(SStep(At("I"), At("Ka"), At("b"), []),
    Last(IStep(At("b"), [At("Kab")])))))
  }

  lemma SwapRunFacts()
    ensures TraceLinked(SwapRun()) && Allowed(SkiRules(), SwapRun()) && Count(SwapRun()) == 4
    ensures Redex(SwapRun().st) == Swap() && Contractum(Final(SwapRun())) == App(At("b"), At("Kab"))
  {
  }
  /** K a b = a. */
  function KabRun(): Trace
  {
    Last(KStep(At("a"), At("b"), []))
  }

  lemma KabRunFacts()
    ensures TraceLinked(KabRun()) && Allowed(SkiRules(), KabRun()) && Count(KabRun()) == 1
    ensures Redex(KabRun().st) == At("Kab") && Contractum(Final(KabRun())) == At("a")
  {
  }

  /** b names no combinator of SKI. */
  lemma NoB()
    ensures FindCombinator("b", SKI).None?
  {
    assert SKI[0].name == "S" && SKI[1].name == "K" && SKI[2].name == "I";
  }

  lemma ReduceKab(fc: int)
    requires 0 <= fc <= MaxFrames - 2
    ensures BasisOk(SKI)
    ensures ReduceT(At("Kab"), SKI, false, fc) == Ok(At("a"))
  {
    StandardBasesOk();
    StandardBasesDefine();
    KabRunFacts();
    ReducesByRun(SKI, SkiRules(), KabRun(), At("Kab"), At("a"), fc);
  }

  /** reduce then takes the children: b stays, K a b = a. */
  lemma ReduceSwap(fc: int)
    requires 0 <= fc <= MaxFrames - 6
    ensures BasisOk(SKI)
    ensures ReduceT(Swap(), SKI, false, fc) == Ok(At("ba"))
  {
    StandardBasesOk();
    StandardBasesDefine();
    SwapRunFacts();
    NoB();
    ReduceKab(fc + 1);
    ReducesByRunThenArgument(SKI, SkiRules(), SwapRun(), Swap(), 'b', At("Kab"), At("a"), fc);
  }

  lemma SwapParses()
    ensures CheckStatement("S(K(SI))Kab") == None && WellDefined("S(K(SI))Kab") && ParseTerm("S(K(SI))Kab") == Swap()
  {
    Canonical(Swap(), "S(K(SI))Kab");
  }

  lemma TransformSwap()
    ensures BasisOk(SKI) && TransformT(SKI, "S(K(SI))Kab") == Ok("ba")
  {
    SwapParses();
    ReduceSwap(0);
    Transforms(SKI, "S(K(SI))Kab", Swap(), At("ba"), "ba");
  }

  // ----- Iota -----

  /** i i x = i S K x = S S K K x = S K (K K) x = K x (K K x) = x. */
  function IixRun(): Trace
  {
    Then(IotaStep(At("i"), [At("x")]),
    Then(IotaStep(At("S"), [At("K"), At("x")]),
    Then(SStep(At("S"), At("K"), At("K"), [At("x")]),
    Then(SStep(At("K"), At("KK"), At("x"), []),
    Last(KStep(At("x"), At("KKx"), []))))))
  }

  lemma IixRunFacts()
    ensures TraceLinked(IixRun()) && Allowed(IotaRules(), IixRun()) && Count(IixRun()) == 5
    ensures Redex(IixRun().st) == At("iix") && Contractum(Final(IixRun())) == At("x")
  {
  }

  lemma ReduceIix(fc: int)
    requires 0 <= fc <= MaxFrames - 6
    ensures BasisOk(Iota)
    ensures ReduceT(At("iix"), Iota, false, fc) == Ok(At("x"))
  {
    StandardBasesOk();
    StandardBasesDefine();
    IixRunFacts();
    ReducesByRun(Iota, IotaRules(), IixRun(), At("iix"), At("x"), fc);
  }

  lemma TransformIix()
    ensures BasisOk(Iota) && TransformT(Iota, "iix") == Ok("x")
  {
    Canonical(At("iix"), "iix");
    ReduceIix(0);
    Transforms(Iota, "iix", At("iix"), At("x"), "x");
  }

  /** i (i (i i)), which is K. */
  function IotaK(): Term
  {
    App(At("i"), App(At("i"), At("ii")))
  }

  /** i (i (i i)) = ... = S K (S K) = K K (S K) = K, by iota, S and K steps. */
  function IotaKRun(): Trace
  {
    Then(IotaStep(App(At("i"), At("ii")), []),
    Then(IotaStep(At("ii"), [At("S"), At("K")]),
    Then(IotaStep(At("i"), [At("S"), At("K"), At("S"), At("K")]),
    Then(IotaStep(At("S"), [At("K"), At("S"), At("K"), At("S"), At("K")]),
    Then(SStep(At("S"), At("K"), At("K"), [At("S"), At("K"), At("S"), At("K")]),
    Then(SStep(At("K"), At("KK"), At("S"), [At("K"), At("S"), At("K")]),
    Then(KStep(At("S"), At("KKS"), [At("K"), At("S"), At("K")]),
    Then(SStep(At("K"), At("S"), At("K"), []),
    Last(KStep(At("K"), At("SK"), []))))))))))
  }

  lemma IotaKRunFacts()
    ensures TraceLinked(IotaKRun()) && Allowed(IotaRules(), IotaKRun()) && Count(IotaKRun()) == 9
    ensures Redex(IotaKRun().st) == IotaK() && Contractum(Final(IotaKRun())) == At("K")
  {
  }

  lemma ReduceIotaK(fc: int)
    requires 0 <= fc <= MaxFrames - 10
    ensures BasisOk(Iota)
    ensures ReduceT(IotaK(), Iota, false, fc) == Ok(At("K"))
  {
    StandardBasesOk();
    StandardBasesDefine();
    IotaKRunFacts();
    ReducesByRun(Iota, IotaRules(), IotaKRun(), IotaK(), At("K"), fc);
  }

  lemma IotaKParses()
    ensures CheckStatement("(i(i(ii)))") == None && WellDefined("(i(i(ii)))")
    ensures ParseTerm("(i(i(ii)))") == IotaK()
  {
    InnerKParses();
    Wrapped("i(i(ii))", "(i(i(ii)))", IotaK());
  }

  lemma TransformIotaK()
    ensures BasisOk(Iota) && TransformT(Iota, "(i(i(ii)))") == Ok("K")
  {
    IotaKParses();
    ReduceIotaK(0);
    Transforms(Iota, "(i(i(ii)))", IotaK(), At("K"), "K");
  }

  /** i (i (i (i i))), which is S. */
  function IotaS(): Term
  {
    App(At("i"), IotaK())
  }

  /** i (i (i (i i))) = ... = K S K = S, by iota, S and K steps. */
  function IotaSRun(): Trace
  {
    Then(IotaStep(IotaK(), []),
    Then(IotaStep(App(At("i"), At("ii")), [At("S"), At("K")]),
    Then(IotaStep(At("ii"), [At("S"), At("K"), At("S"), At("K")]),
    Then(IotaStep(At("i"), [At("S"), At("K"), At("S"), At("K"), At("S"), At("K")]),
    Then(IotaStep(At("S"), [At("K"), At("S"), At("K"), At("S"), At("K"), At("S"), At("K")]),
    Then(SStep(At("S"), At("K"), At("K"), [At("S"), At("K"), At("S"), At("K"), At("S"), At("K")]),
    Then(SStep(At("K"), At("KK"), At("S"), [At("K"), At("S"), At("K"), At("S"), At("K")]),
    Then(KStep(At("S"), At("KKS"), [At("K"), At("S"), At("K"), At("S"), At("K")]),
    Then(SStep(At("K"), At("S"), At("K"), [At("S"), At("K")]),
    Then(KStep(At("K"), At("SK"), [At("S"), At("K")]),
    Last(KStep(At("S"), At("K"), []))))))))))))
  }

  lemma IotaSRunLinked()
    ensures TraceLinked(IotaSRun())
  {
  }

  lemma IotaSRunFacts()
    ensures TraceLinked(IotaSRun()) && Allowed(IotaRules(), IotaSRun()) && Count(IotaSRun()) == 11
    ensures Redex(IotaSRun().st) == IotaS() && Contractum(Final(IotaSRun())) == At("S")
  {
    IotaSRunLinked();
  }

  lemma ReduceIotaS(fc: int)
    requires 0 <= fc <= MaxFrames - 12
    ensures BasisOk(Iota)
    ensures ReduceT(IotaS(), Iota, false, fc) == Ok(At("S"))
  {
    StandardBasesOk();
    StandardBasesDefine();
    IotaSRunFacts();
    ReducesByRun(Iota, IotaRules(), IotaSRun(), IotaS(), At("S"), fc);
  }

  lemma InnerKParses()
    ensures WellDefined("i(i(ii))") && ParseTerm("i(i(ii))") == IotaK()
  {
    Canonical(IotaK(), "i(i(ii))");
  }

  lemma InnerSParses()
    ensures WellDefined("i(i(i(ii)))") && ParseTerm("i(i(i(ii)))") == IotaS()
  {
    InnerKParses();
    Applied('i', "i(i(ii))", "i(i(i(ii)))", IotaK());
  }

  lemma IotaSParses()
    ensures CheckStatement("(i(i(i(ii))))") == None && WellDefined("(i(i(i(ii))))")
    ensures ParseTerm("(i(i(i(ii))))") == IotaS()
  {
    InnerSParses();
    Wrapped("i(i(i(ii)))", "(i(i(i(ii))))", IotaS());
  }

  lemma TransformIotaS()
    ensures BasisOk(Iota) && TransformT(Iota, "(i(i(i(ii))))") == Ok("S")
  {
    IotaSParses();
    ReduceIotaS(0);
    Transforms(Iota, "(i(i(i(ii))))", IotaS(), At("S"), "S");
  }
}
