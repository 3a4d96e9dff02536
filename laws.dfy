/** The rules of the standard combinators S, K, I and the iota combinator i,
    stated directly on terms, and the proof that the generic rewriter of
    reduce.go contracts a head redex exactly as the law says whenever the
    basis defines that combinator as combinator.go does. */
module Laws {
  import opened Wrappers
  import opened Terms
  import opened Statements
  import opened Combinators
  import opened Semantics

  /** The definitions of S, K, I and i parse to the terms they spell. */
  lemma Definitions()
    ensures WellDefined("x") && ParseTerm("x") == Leaf('x')
    ensures WellDefined("xz(yz)") && ParseTerm("xz(yz)") == App(App(Leaf('x'), Leaf('z')), App(Leaf('y'), Leaf('z')))
    ensures WellDefined("xSK") && ParseTerm("xSK") == App(App(Leaf('x'), Leaf('S')), Leaf('K'))
  {
    Canonical(Leaf('x'), "x");
    Canonical(App(App(Leaf('x'), Leaf('z')), App(Leaf('y'), Leaf('z'))), "xz(yz)");
    Canonical(App(App(Leaf('x'), Leaf('S')), Leaf('K')), "xSK");
  }

  /** A canonical statement is accepted and parses to the term it renders. */
  lemma Canonical(t: Term, s: string)
    requires ParenFree(t) && Render(t) == s
    ensures CheckStatement(s) == None && WellDefined(s) && ParseTerm(s) == t
  {
    ParseRender(t);
    CheckStatementCorrect(s);
  }

  /** One normal-order contraction at the head of `t`. */
  lemma Contracts(t: Term, b: Basis, fc: int, c: Combinator, u: Term)
    requires BasisOk(b) && fc <= MaxFrames && WellDefined(c.definition)
    requires FindCombinator([Head(t)], b) == Some(c) && 0 < |c.arguments| <= SpineLen(t)
    requires Contract(c, Args(t)[..|c.arguments|], t) == u
    ensures RewriteT(t, b, false, fc) == RewriteT(u, b, false, fc + 1)
  {
    RewriteUnfold(t, b, false, fc, c, Args(t)[..|c.arguments|]);
  }

  /** The spine of a combinator applied to three, two or one arguments. */
  lemma Spine3(h: char, x: Term, y: Term, z: Term, rest: seq<Term>)
    ensures Head(LeftFold(App(App(App(Leaf(h), x), y), z), rest)) == h
    ensures Args(LeftFold(App(App(App(Leaf(h), x), y), z), rest)) == [x, y, z] + rest
  {
    LeftFoldSpine(App(App(App(Leaf(h), x), y), z), rest);
    assert Head(App(Leaf(h), x)) == h && Args(App(Leaf(h), x)) == [x];
    assert Head(App(App(Leaf(h), x), y)) == h && Args(App(App(Leaf(h), x), y)) == [x, y];
  }

  lemma Spine2(h: char, x: Term, y: Term, rest: seq<Term>)
    ensures Head(LeftFold(App(App(Leaf(h), x), y), rest)) == h
    ensures Args(LeftFold(App(App(Leaf(h), x), y), rest)) == [x, y] + rest
  {
    LeftFoldSpine(App(App(Leaf(h), x), y), rest);
    assert Head(App(Leaf(h), x)) == h && Args(App(Leaf(h), x)) == [x];
  }

  lemma Spine1(h: char, x: Term, rest: seq<Term>)
    ensures Head(LeftFold(App(Leaf(h), x), rest)) == h
    ensures Args(LeftFold(App(Leaf(h), x), rest)) == [x] + rest
  {
    LeftFoldSpine(App(Leaf(h), x), rest);
  }

  /** The bodies of S, K, I and i with actual arguments substituted. */
  lemma Bodies(x: Term, y: Term, z: Term)
    ensures WellDefined(S.definition) && WellDefined(K.definition)
    ensures WellDefined(I.definition) && WellDefined(Iota1.definition)
    ensures Subst(S.arguments, [x, y, z], ParseTerm(S.definition)) == App(App(x, z), App(y, z))
    ensures Subst(K.arguments, [x, y], ParseTerm(K.definition)) == x
    ensures Subst(I.arguments, [x], ParseTerm(I.definition)) == x
    ensures Subst(Iota1.arguments, [x], ParseTerm(Iota1.definition)) == App(App(x, Leaf('S')), Leaf('K'))
  {
    Definitions();
    var ps, xs := S.arguments, [x, y, z];
    assert IndexOf(ps, "x") == 0 && IndexOf(ps, "y") == 1 && IndexOf(ps, "z") == 2;
    assert Subst(ps, xs, App(Leaf('x'), Leaf('z'))) == App(x, z);
    assert Subst(ps, xs, App(Leaf('y'), Leaf('z'))) == App(y, z);
    assert IndexOf(K.arguments, "x") == 0;
    assert IndexOf(I.arguments, "x") == 0;
    var qs, ys := Iota1.arguments, [x];
    assert IndexOf(qs, "x") == 0 && IndexOf(qs, "S") == -1 && IndexOf(qs, "K") == -1;
    assert Subst(qs, ys, App(Leaf('x'), Leaf('S'))) == App(x, Leaf('S'));
    assert Subst(qs, ys, Leaf('K')) == Leaf('K');
  }

  /** S x y z = x z (y z), with any further arguments kept. */
  lemma RuleS(b: Basis, fc: int, x: Term, y: Term, z: Term, rest: seq<Term>, t: Term, u: Term)
    requires BasisOk(b) && fc <= MaxFrames && FindCombinator("S", b) == Some(S)
    requires t == LeftFold(App(App(App(Leaf('S'), x), y), z), rest)
    requires u == LeftFold(App(App(x, z), App(y, z)), rest)
    ensures RewriteT(t, b, false, fc) == RewriteT(u, b, false, fc + 1)
  {
    Spine3('S', x, y, z, rest);
    Bodies(x, y, z);
    Definitions();
    assert Args(t)[..3] == [x, y, z] && Args(t)[3..] == rest;
    Contracts(t, b, fc, S, u);
  }

  /** K x y = x. */
  lemma RuleK(b: Basis, fc: int, x: Term, y: Term, rest: seq<Term>, t: Term, u: Term)
    requires BasisOk(b) && fc <= MaxFrames && FindCombinator("K", b) == Some(K)
    requires t == LeftFold(App(App(Leaf('K'), x), y), rest) && u == LeftFold(x, rest)
    ensures RewriteT(t, b, false, fc) == RewriteT(u, b, false, fc + 1)
  {
    Spine2('K', x, y, rest);
    Bodies(x, y, y);
    Definitions();
    assert Args(t)[..2] == [x, y] && Args(t)[2..] == rest;
    Contracts(t, b, fc, K, u);
  }

  /** I x = x, in either order: `x1` is the actual argument, `x` itself in
      normal order and `x` reduced in applicative order. */
  lemma RuleI(b: Basis, app: bool, fc: int, x: Term, x1: Term, rest: seq<Term>, t: Term, u: Term)
    requires BasisOk(b) && fc <= MaxFrames && FindCombinator("I", b) == Some(I)
    requires Actuals([x], b, app, fc + 1) == Ok([x1])
    requires t == LeftFold(App(Leaf('I'), x), rest) && u == LeftFold(x1, rest)
    ensures RewriteT(t, b, app, fc) == RewriteT(u, b, app, fc + 1)
  {
    Spine1('I', x, rest);
    Bodies(x1, x1, x1);
    Definitions();
    assert Args(t)[..1] == [x] && Args(t)[1..] == rest;
    RewriteUnfold(t, b, app, fc, I, [x1]);
  }

  /** i x = x S K. */
  lemma RuleIota(b: Basis, fc: int, x: Term, rest: seq<Term>, t: Term, u: Term)
    requires BasisOk(b) && fc <= MaxFrames && FindCombinator("i", b) == Some(Iota1)
    requires t == LeftFold(App(Leaf('i'), x), rest) && u == LeftFold(App(App(x, Leaf('S')), Leaf('K')), rest)
    ensures RewriteT(t, b, false, fc) == RewriteT(u, b, false, fc + 1)
  {
    Spine1('i', x, rest);
    Bodies(x, x, x);
    Definitions();
    assert Args(t)[..1] == [x] && Args(t)[1..] == rest;
    Contracts(t, b, fc, Iota1, u);
  }

  /** Which of the standard combinators a basis is known to define. */
  datatype Rules = Rules(s: bool, k: bool, i: bool, iota: bool)

  /** The rules of SKI: S, K and I. */
  function SkiRules(): Rules { Rules(true, true, true, false) }

  /** The rules of Iota: S, K and i. */
  function IotaRules(): Rules { Rules(true, true, false, true) }

  /** The basis defines each combinator `rules` names as the standard one. */
  predicate Defines(b: Basis, rules: Rules)
  {
    (rules.s ==> FindCombinator("S", b) == Some(S)) &&
    (rules.k ==> FindCombinator("K", b) == Some(K)) &&
    (rules.i ==> FindCombinator("I", b) == Some(I)) &&
    (rules.iota ==> FindCombinator("i", b) == Some(Iota1))
  }

  /** The bases SKI and Iota of combinator.go are well defined. */
  lemma StandardBasesOk()
    ensures BasisOk(SKI) && BasisOk(Iota)
  {
    Definitions();
    assert [I][1..] == [] && [Iota1][1..] == [];
    assert BasisOk([I]) && BasisOk([Iota1]);
    assert [K, I][1..] == [I] && [K, Iota1][1..] == [Iota1];
    assert BasisOk([K, I]) && BasisOk([K, Iota1]);
    assert SKI[1..] == [K, I] && Iota[1..] == [K, Iota1];
  }

  /** SKI defines S, K and I, and Iota defines S, K and i, as the standard ones. */
  lemma StandardBasesDefine()
    ensures Defines(SKI, SkiRules()) && Defines(Iota, IotaRules())
  {
    assert SKI[0].name == "S" && SKI[1].name == "K" && SKI[2].name == "I";
    assert Iota[0].name == "S" && Iota[1].name == "K" && Iota[2].name == "i";
  }

  /** One contraction at the head of a term: a combinator applied to the
      arguments its law needs, followed by further arguments `rest`. */
  datatype Step =
    | SStep(x: Term, y: Term, z: Term, rest: seq<Term>)
    | KStep(x: Term, y: Term, rest: seq<Term>)
    | IStep(x: Term, rest: seq<Term>)
    | IotaStep(x: Term, rest: seq<Term>)

  /** The combinator the step contracts is one of `rules`. */
  predicate Allows(rules: Rules, st: Step)
  {
    match st
    case SStep(_, _, _, _) => rules.s
    case KStep(_, _, _) => rules.k
    case IStep(_, _) => rules.i
    case IotaStep(_, _) => rules.iota
  }

  /** The term before the step: the combinator applied to its arguments. */
  function Redex(st: Step): Term
  {
    match st
    case SStep(x, y, z, rest) => LeftFold(App(App(App(Leaf('S'), x), y), z), rest)
    case KStep(x, y, rest) => LeftFold(App(App(Leaf('K'), x), y), rest)
    case IStep(x, rest) => LeftFold(App(Leaf('I'), x), rest)
    case IotaStep(x, rest) => LeftFold(App(Leaf('i'), x), rest)
  }

  /** The term after the step, by the combinator's law:
      S x y z = x z (y z), K x y = x, I x = x, i x = x S K. */
  function Contractum(st: Step): Term
  {
    match st
    case SStep(x, y, z, rest) => LeftFold(App(App(x, z), App(y, z)), rest)
    case KStep(x, _, rest) => LeftFold(x, rest)
    case IStep(x, rest) => LeftFold(x, rest)
    case IotaStep(x, rest) => LeftFold(App(App(x, Leaf('S')), Leaf('K')), rest)
  }

  /** A non-empty run of steps. */
  datatype Trace = Last(st: Step) | Then(st: Step, next: Trace)

  function Count(tr: Trace): nat
  {
    match tr
    case Last(_) => 1
    case Then(_, next) => 1 + Count(next)
  }

  function Final(tr: Trace): Step
  {
    match tr
    case Last(st) => st
    case Then(_, next) => Final(next)
  }

  /** Each step starts from the term the step before it produced. */
  predicate TraceLinked(tr: Trace)
  {
    match tr
    case Last(_) => true
    case Then(st, next) => Contractum(st) == Redex(next.st) && TraceLinked(next)
  }

  /** Every step contracts a combinator of `rules`. */
  predicate Allowed(rules: Rules, tr: Trace)
  {
    Allows(rules, tr.st) && (tr.Then? ==> Allowed(rules, tr.next))
  }

  /** The basis defines the combinator the step contracts as the standard one. */
  predicate Known(b: Basis, st: Step)
  {
    match st
    case SStep(_, _, _, _) => FindCombinator("S", b) == Some(S)
    case KStep(_, _, _) => FindCombinator("K", b) == Some(K)
    case IStep(_, _) => FindCombinator("I", b) == Some(I)
    case IotaStep(_, _) => FindCombinator("i", b) == Some(Iota1)
  }

  /** Each step contracts a combinator the basis defines as the standard
      one, and starts from the term the step before it produced. */
  predicate Chained(b: Basis, tr: Trace)
  {
    Known(b, tr.st) &&
    match tr
    case Last(_) => true
    case Then(st, next) => Contractum(st) == Redex(next.st) && Chained(b, next)
  }

  lemma {:induction false} AllowedChained(b: Basis, rules: Rules, tr: Trace)
    requires Defines(b, rules) && Allowed(rules, tr) && TraceLinked(tr)
    ensures Chained(b, tr)
  {
    match tr
    case Last(_) =>
    case Then(_, next) => AllowedChained(b, rules, next);
  }

  /** rewrite contracts a head redex of S, K, I or i exactly as the
      combinator's law states, using one frame. */
  lemma StepSound(b: Basis, fc: int, st: Step)
    requires BasisOk(b) && fc <= MaxFrames && Known(b, st)
    ensures RewriteT(Redex(st), b, false, fc) == RewriteT(Contractum(st), b, false, fc + 1)
  {
    match st
    case SStep(x, y, z, rest) => RuleS(b, fc, x, y, z, rest, Redex(st), Contractum(st));
    case KStep(x, y, rest) => RuleK(b, fc, x, y, rest, Redex(st), Contractum(st));
    case IStep(x, rest) => RuleI(b, false, fc, x, x, rest, Redex(st), Contractum(st));
    case IotaStep(x, rest) => RuleIota(b, fc, x, rest, Redex(st), Contractum(st));
  }

  /** rewrite on `b`, as a function of the term and the frame count. */
  function Rewriter(b: Basis): (Term, int) -> Result<Term, Error>
    requires BasisOk(b)
  {
    (t: Term, k: int) => RewriteT(t, b, false, k)
  }

  /** A function of term and frame count that keeps its value across every
      step the basis knows, while frames remain, has the same value at both
      ends of a chained trace that fits in the frames. */
  lemma {:induction false} Chain(f: (Term, int) -> Result<Term, Error>, b: Basis, fc: int, tr: Trace, end: int)
    requires forall st: Step, k: int :: Known(b, st) && k <= MaxFrames ==>
      f(Redex(st), k) == f(Contractum(st), k + 1)
    requires end == fc + Count(tr) <= MaxFrames + 1 && Chained(b, tr)
    ensures f(Redex(tr.st), fc) == f(Contractum(Final(tr)), end)
    decreases tr
  {
    match tr
    case Last(_) =>
    case Then(_, next) => Chain(f, b, fc + 1, next, end);
  }

  /** A run of contractions by the rules a basis defines, from `t` to `u`:
      rewrite takes one frame per contraction. */
  lemma Runs(b: Basis, rules: Rules, tr: Trace, t: Term, u: Term, fc: int, end: int)
    requires BasisOk(b) && Defines(b, rules) && Allowed(rules, tr) && TraceLinked(tr)
    requires t == Redex(tr.st) && u == Contractum(Final(tr)) && end == fc + Count(tr) <= MaxFrames + 1
    ensures RewriteT(t, b, false, fc) == RewriteT(u, b, false, end)
  {
    AllowedChained(b, rules, tr);
    var f := Rewriter(b);
    forall st: Step, k: int | Known(b, st) && k <= MaxFrames
      ensures f(Redex(st), k) == f(Contractum(st), k + 1)
    {
      StepSound(b, k, st);
    }
    Chain(f, b, fc, tr, end);
  }
}
