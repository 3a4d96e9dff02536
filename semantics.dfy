/** Reference semantics of reduction (reduce.go) and of the Transform entry
    points (combinator.go) on term values.  The imperative engine over the
    node arena is proved to compute exactly these functions. */
module Semantics {
  import opened Wrappers
  import opened Terms
  import opened Statements
  import opened Combinators

  /** Frame budget: a call whose frame count exceeds it reports a loop. */
  const MaxFrames: nat := 1000000

  datatype Error = Malformed(reason: WdError) | LoopDetected

  /** Frames left before the budget runs out; every recursive call spends one. */
  function Measure(fc: int): nat
  {
    if fc <= MaxFrames then MaxFrames + 1 - fc else 0
  }

  /** The head of `t` names a combinator of `b` that has arguments, and at
      least that many arguments are applied along the left spine. */
  predicate IsRedex(t: Term, b: Basis)
  {
    var c := FindCombinator([Head(t)], b);
    c.Some? && 0 < |c.value.arguments| <= SpineLen(t)
  }

  /** No sub-term is a redex. */
  predicate IsNormal(t: Term, b: Basis)
  {
    !IsRedex(t, b) && (t.App? ==> IsNormal(t.l, b) && IsNormal(t.r, b))
  }

  function Height(t: Term): nat
  {
    match t
    case Leaf(_) => 0
    case App(l, r) => 1 + if Height(l) < Height(r) then Height(r) else Height(l)
  }

  lemma LookupWellDefined(b: Basis, name: string)
    requires BasisOk(b) && FindCombinator(name, b).Some?
    ensures WellDefined(FindCombinator(name, b).value.definition)
  {
    var i :| 0 <= i < |b| && b[i] == FindCombinator(name, b).value;
    BasisAt(b, i);
  }

  /** What a redex `t` is replaced by: the definition of `c` with the actual
      arguments substituted for the formal ones, applied to the spine
      arguments beyond the first |c.arguments|. */
  function Contract(c: Combinator, actuals: seq<Term>, t: Term): Term
    requires WellDefined(c.definition)
    requires |actuals| == |c.arguments| <= SpineLen(t)
  {
    LeftFold(Subst(c.arguments, actuals, ParseTerm(c.definition)), Args(t)[|c.arguments|..])
  }

  /** The actual arguments a redex is contracted with: in applicative order
      the formal ones reduced first, otherwise the formal ones themselves. */
  function Actuals(formal: seq<Term>, b: Basis, app: bool, fc: int): (r: Result<seq<Term>, Error>)
    requires BasisOk(b)
    ensures r.Err? ==> app && r.error == LoopDetected
    ensures r.Ok? ==> |r.value| == |formal|
    decreases Measure(fc), |formal| + 2
  {
    if app then ReduceArgs(formal, b, app, fc) else Ok(formal)
  }

  /** rewrite: contract the redex at the head of `t` (after reducing its
      actual arguments in applicative order) and try again, until the head
      is no longer a redex. */
  function RewriteT(t: Term, b: Basis, app: bool, fc: int): (r: Result<Term, Error>)
    requires BasisOk(b)
    ensures r.Err? ==> r.error == LoopDetected
    ensures r.Ok? ==> !IsRedex(r.value, b)
    decreases Measure(fc), 0
  {
    if fc > MaxFrames then Err(LoopDetected)
    else if !IsRedex(t, b) then Ok(t)
    else
      var c := FindCombinator([Head(t)], b).value;
      var k := |c.arguments|;
      LookupWellDefined(b, [Head(t)]);
      var formal := Args(t)[..k];
      var actual := Actuals(formal, b, app, fc + 1);
      if actual.Err? then Err(actual.error)
      else RewriteT(Contract(c, actual.value, t), b, app, fc + 1)
  }

  /** reduce: outer-first (rewrite the node), then left-first (left child,
      then right child). */
  function ReduceT(t: Term, b: Basis, app: bool, fc: int): (r: Result<Term, Error>)
    requires BasisOk(b)
    ensures r.Err? ==> r.error == LoopDetected
    decreases Measure(fc), 0
  {
    if fc > MaxFrames then Err(LoopDetected)
    else if t.Leaf? then Ok(t)
    else
      var t1 := RewriteT(t, b, app, fc + 1);
      if t1.Err? || t1.value.Leaf? then t1
      else
        var l := ReduceT(t1.value.l, b, app, fc + 1);
        if l.Err? then l
        else
          var r := ReduceT(t1.value.r, b, app, fc + 1);
          if r.Err? then r else Ok(App(l.value, r.value))
  }

  /** The applicative-order loop: reduce each argument in turn, stopping at
      the first failure. */
  function ReduceArgs(ts: seq<Term>, b: Basis, app: bool, fc: int): (r: Result<seq<Term>, Error>)
    requires BasisOk(b)
    ensures r.Err? ==> r.error == LoopDetected
    ensures r.Ok? ==> |r.value| == |ts|
    decreases Measure(fc), |ts| + 1
  {
    if ts == [] then Ok([])
    else
      var h := ReduceT(ts[0], b, app, fc);
      if h.Err? then Err(h.error)
      else
        var rest := ReduceArgs(ts[1..], b, app, fc);
        if rest.Err? then rest else Ok([h.value] + rest.value)
  }

  /** Basis.Transform: validate, parse, reduce in normal order from frame 0, unparse. */
  function TransformT(b: Basis, s: string): (r: Result<string, Error>)
    requires BasisOk(b)
  {
    match CheckStatement(s)
    case Some(e) => Err(Malformed(e))
    case None =>
      CheckStatementCorrect(s);
      var u := ReduceT(ParseTerm(s), b, false, 0);
      if u.Err? then Err(u.error) else Ok(Render(u.value))
  }

  // ----- properties of reduction -----

  /** reduce returns a leaf unchanged while frames remain. */
  lemma ReduceLeaf(c: char, b: Basis, app: bool, fc: int)
    requires BasisOk(b) && fc <= MaxFrames
    ensures ReduceT(Leaf(c), b, app, fc) == Ok(Leaf(c))
  {
  }

  /** Past the frame budget both reduce and rewrite report a loop. */
  lemma FrameLimit(t: Term, b: Basis, app: bool, fc: int)
    requires BasisOk(b) && fc > MaxFrames
    ensures ReduceT(t, b, app, fc) == Err(LoopDetected)
    ensures RewriteT(t, b, app, fc) == Err(LoopDetected)
  {
  }

  /** rewrite leaves a term alone when its head is not a redex: no
      combinator by that name, one with no arguments, or too few arguments. */
  lemma RewriteStuck(t: Term, b: Basis, app: bool, fc: int)
    requires BasisOk(b) && fc <= MaxFrames
    requires FindCombinator([Head(t)], b).None?
      || |FindCombinator([Head(t)], b).value.arguments| == 0
      || |FindCombinator([Head(t)], b).value.arguments| > SpineLen(t)
    ensures RewriteT(t, b, app, fc) == Ok(t)
  {
  }

  /** A term whose head is not a redex keeps its head and spine length
      through reduction: only its arguments change. */
  lemma {:induction false} ReduceStuckSpine(t: Term, b: Basis, app: bool, fc: int)
    requires BasisOk(b) && !IsRedex(t, b) && ReduceT(t, b, app, fc).Ok?
    ensures Head(ReduceT(t, b, app, fc).value) == Head(t)
    ensures SpineLen(ReduceT(t, b, app, fc).value) == SpineLen(t)
    decreases t
  {
    if t.App? {
      assert RewriteT(t, b, app, fc + 1) == Ok(t);
      ReduceStuckSpine(t.l, b, app, fc + 1);
    }
  }

  /** One unfolding of a successful reduction of an application. */
  lemma ReduceAppOk(t: Term, b: Basis, app: bool, fc: int) returns (t1: Term)
    requires BasisOk(b) && t.App? && ReduceT(t, b, app, fc).Ok?
    ensures fc < MaxFrames && RewriteT(t, b, app, fc + 1) == Ok(t1)
    ensures t1.Leaf? ==> ReduceT(t, b, app, fc) == Ok(t1)
    ensures t1.App? ==> ReduceT(t1.l, b, app, fc + 1).Ok? && ReduceT(t1.r, b, app, fc + 1).Ok?
    ensures t1.App? ==> (ReduceT(t, b, app, fc) ==
      Ok(App(ReduceT(t1.l, b, app, fc + 1).value, ReduceT(t1.r, b, app, fc + 1).value)))
  {
    t1 := RewriteT(t, b, app, fc + 1).value;
  }

  /** Every successful reduction ends in a normal form. */
  lemma {:induction false} ReduceNormal(t: Term, b: Basis, app: bool, fc: int)
    requires BasisOk(b) && ReduceT(t, b, app, fc).Ok?
    ensures IsNormal(ReduceT(t, b, app, fc).value, b)
    decreases Measure(fc)
  {
    if t.App? {
      var t1 := ReduceAppOk(t, b, app, fc);
      if t1.App? {
        ReduceNormal(t1.l, b, app, fc + 1);
        ReduceNormal(t1.r, b, app, fc + 1);
        ReduceStuckSpine(t1.l, b, app, fc + 1);
      }
    }
  }

  /** A normal form is returned unchanged when the budget covers its height. */
  lemma {:induction false} ReduceNormalFixed(t: Term, b: Basis, app: bool, fc: int)
    requires BasisOk(b) && IsNormal(t, b) && fc + 2 * Height(t) <= MaxFrames
    ensures ReduceT(t, b, app, fc) == Ok(t)
    decreases t
  {
    if t.App? {
      assert RewriteT(t, b, app, fc + 1) == Ok(t);
      ReduceNormalFixed(t.l, b, app, fc + 1);
      ReduceNormalFixed(t.r, b, app, fc + 1);
    }
  }

  /** Reducing twice is reducing once. */
  lemma ReduceIdempotent(t: Term, b: Basis, app: bool, fc: int, fc2: int)
    requires BasisOk(b) && ReduceT(t, b, app, fc).Ok?
    requires fc2 + 2 * Height(ReduceT(t, b, app, fc).value) <= MaxFrames
    ensures ReduceT(ReduceT(t, b, app, fc).value, b, app, fc2) == ReduceT(t, b, app, fc)
  {
    ReduceNormal(t, b, app, fc);
    ReduceNormalFixed(ReduceT(t, b, app, fc).value, b, app, fc2);
  }

  // ----- no parenthesis atoms appear during reduction -----

  lemma {:induction false} SubstParenFree(params: seq<string>, args: seq<Term>, body: Term)
    requires |args| == |params| && ParenFree(body)
    requires forall i :: 0 <= i < |args| ==> ParenFree(args[i])
    ensures ParenFree(Subst(params, args, body))
  {
    if body.App? {
      SubstParenFree(params, args, body.l);
      SubstParenFree(params, args, body.r);
    }
  }

  lemma {:induction false} ArgsParenFree(t: Term)
    requires ParenFree(t)
    ensures forall i :: 0 <= i < |Args(t)| ==> ParenFree(Args(t)[i])
  {
    if t.App? {
      ArgsParenFree(t.l);
    }
  }

  /** One unfolding of rewrite on a redex headed by `c`: it fails when
      the actual arguments fail, and goes on with the contraction otherwise. */
  lemma RewriteUnfold(t: Term, b: Basis, app: bool, fc: int, c: Combinator, actual: seq<Term>)
    requires BasisOk(b) && fc <= MaxFrames
    requires FindCombinator([Head(t)], b) == Some(c) && 0 < |c.arguments| <= SpineLen(t)
    requires WellDefined(c.definition)
    requires Actuals(Args(t)[..|c.arguments|], b, app, fc + 1).Ok? ==>
             Actuals(Args(t)[..|c.arguments|], b, app, fc + 1).value == actual
    ensures Actuals(Args(t)[..|c.arguments|], b, app, fc + 1).Err? ==> RewriteT(t, b, app, fc) == Err(LoopDetected)
    ensures Actuals(Args(t)[..|c.arguments|], b, app, fc + 1).Ok? ==>
            RewriteT(t, b, app, fc) == RewriteT(Contract(c, actual, t), b, app, fc + 1)
  {
    LookupWellDefined(b, [Head(t)]);
  }

  /** One unfolding of a successful rewrite of a redex: its actual
      arguments, and the contraction that rewriting continues with. */
  lemma RewriteRedexOk(t: Term, b: Basis, app: bool, fc: int) returns (c: Combinator, actual: seq<Term>)
    requires BasisOk(b) && IsRedex(t, b) && RewriteT(t, b, app, fc).Ok?
    ensures fc <= MaxFrames && c == FindCombinator([Head(t)], b).value && WellDefined(c.definition)
    ensures |actual| == |c.arguments| <= SpineLen(t)
    ensures Actuals(Args(t)[..|c.arguments|], b, app, fc + 1) == Ok(actual)
    ensures RewriteT(t, b, app, fc) == RewriteT(Contract(c, actual, t), b, app, fc + 1)
  {
    c := FindCombinator([Head(t)], b).value;
    LookupWellDefined(b, [Head(t)]);
    var formal := Args(t)[..|c.arguments|];
    actual := Actuals(formal, b, app, fc + 1).value;
  }

  /** Contracting a redex with parenthesis-free arguments introduces no
      parenthesis atom: the definition parses to a parenthesis-free term. */
  lemma ContractParenFree(c: Combinator, actual: seq<Term>, t: Term)
    requires WellDefined(c.definition) && |actual| == |c.arguments| <= SpineLen(t)
    requires ParenFree(t) && forall i :: 0 <= i < |actual| ==> ParenFree(actual[i])
    ensures ParenFree(Contract(c, actual, t))
  {
    ArgsParenFree(t);
    SubstParenFree(c.arguments, actual, ParseTerm(c.definition));
    LeftFoldParenFree(Subst(c.arguments, actual, ParseTerm(c.definition)), Args(t)[|c.arguments|..]);
  }

  lemma {:induction false} RewriteParenFree(t: Term, b: Basis, app: bool, fc: int)
    requires BasisOk(b) && ParenFree(t) && RewriteT(t, b, app, fc).Ok?
    ensures ParenFree(RewriteT(t, b, app, fc).value)
    decreases Measure(fc), 1
  {
    if IsRedex(t, b) {
      var t2 := RedexParenFree(t, b, app, fc);
      RewriteParenFree(t2, b, app, fc + 1);
    } else {
      RewriteStuck(t, b, app, fc);
    }
  }

  /** One contraction step of a successful rewrite keeps a
      parenthesis-free term parenthesis-free. */
  lemma {:induction false} RedexParenFree(t: Term, b: Basis, app: bool, fc: int) returns (t2: Term)
    requires BasisOk(b) && ParenFree(t) && IsRedex(t, b) && RewriteT(t, b, app, fc).Ok?
    ensures Measure(fc + 1) < Measure(fc) && ParenFree(t2)
    ensures RewriteT(t, b, app, fc) == RewriteT(t2, b, app, fc + 1)
    decreases Measure(fc), 0
  {
    var c, actual := RewriteRedexOk(t, b, app, fc);
    var formal := Args(t)[..|c.arguments|];
    PrefixParenFree(t, |c.arguments|);
    ActualsParenFree(formal, b, app, fc + 1);
    ContractParenFree(c, actual, t);
    t2 := Contract(c, actual, t);
  }

  lemma PrefixParenFree(t: Term, n: nat)
    requires ParenFree(t) && n <= SpineLen(t)
    ensures forall i :: 0 <= i < n ==> ParenFree(Args(t)[..n][i])
  {
    ArgsParenFree(t);
    forall i | 0 <= i < n ensures ParenFree(Args(t)[..n][i]) {
      assert Args(t)[..n][i] == Args(t)[i];
    }
  }

  lemma {:induction false} ActualsParenFree(formal: seq<Term>, b: Basis, app: bool, fc: int)
    requires BasisOk(b) && Actuals(formal, b, app, fc).Ok?
    requires forall i :: 0 <= i < |formal| ==> ParenFree(formal[i])
    ensures forall i :: 0 <= i < |formal| ==> ParenFree(Actuals(formal, b, app, fc).value[i])
    decreases Measure(fc), |formal| + 2
  {
    if app {
      ReduceArgsParenFree(formal, b, app, fc);
    }
  }

  lemma {:induction false} ReduceParenFree(t: Term, b: Basis, app: bool, fc: int)
    requires BasisOk(b) && ParenFree(t) && ReduceT(t, b, app, fc).Ok?
    ensures ParenFree(ReduceT(t, b, app, fc).value)
    decreases Measure(fc), 0
  {
    if t.App? {
      var t1 := ReduceAppOk(t, b, app, fc);
      RewriteParenFree(t, b, app, fc + 1);
      if t1.App? {
        ReduceParenFree(t1.l, b, app, fc + 1);
        ReduceParenFree(t1.r, b, app, fc + 1);
      }
    }
  }

  lemma {:induction false} ReduceArgsParenFree(ts: seq<Term>, b: Basis, app: bool, fc: int)
    requires BasisOk(b) && ReduceArgs(ts, b, app, fc).Ok?
    requires forall i :: 0 <= i < |ts| ==> ParenFree(ts[i])
    ensures forall i :: 0 <= i < |ts| ==> ParenFree(ReduceArgs(ts, b, app, fc).value[i])
    decreases Measure(fc), |ts| + 1
  {
    if ts != [] {
      ReduceParenFree(ts[0], b, app, fc);
      ReduceArgsParenFree(ts[1..], b, app, fc);
    }
  }

  /** The applicative loop over a concatenation succeeds exactly when it
      succeeds on both parts, and then yields both results in order. */
  lemma {:induction false} ReduceArgsAppend(xs: seq<Term>, ys: seq<Term>, b: Basis, app: bool, fc: int)
    requires BasisOk(b)
    ensures ReduceArgs(xs + ys, b, app, fc).Ok? <==> ReduceArgs(xs, b, app, fc).Ok? && ReduceArgs(ys, b, app, fc).Ok?
    ensures ReduceArgs(xs + ys, b, app, fc).Ok? ==>
      ReduceArgs(xs + ys, b, app, fc).value == ReduceArgs(xs, b, app, fc).value + ReduceArgs(ys, b, app, fc).value
    decreases |xs|
  {
    if xs == [] {
      assert xs + ys == ys;
    } else {
      assert (xs + ys)[0] == xs[0] && (xs + ys)[1..] == xs[1..] + ys;
      ReduceArgsAppend(xs[1..], ys, b, app, fc);
    }
  }

  /** One more round of the applicative loop. */
  lemma ReduceArgsSnoc(xs: seq<Term>, x: Term, b: Basis, app: bool, fc: int)
    requires BasisOk(b)
    ensures ReduceArgs(xs + [x], b, app, fc).Ok? <==> ReduceArgs(xs, b, app, fc).Ok? && ReduceT(x, b, app, fc).Ok?
    ensures ReduceArgs(xs + [x], b, app, fc).Ok? ==>
      ReduceArgs(xs + [x], b, app, fc).value == ReduceArgs(xs, b, app, fc).value + [ReduceT(x, b, app, fc).value]
  {
    ReduceArgsAppend(xs, [x], b, app, fc);
    assert [x][1..] == [];
  }

  /** The loop's view of ReduceArgsSnoc: one more argument of `ts`. */
  lemma ReduceArgsNext(ts: seq<Term>, i: nat, b: Basis, app: bool, fc: int)
    requires BasisOk(b) && i < |ts|
    ensures ReduceArgs(ts[..i + 1], b, app, fc).Ok? <==> ReduceArgs(ts[..i], b, app, fc).Ok? && ReduceT(ts[i], b, app, fc).Ok?
    ensures ReduceArgs(ts[..i + 1], b, app, fc).Ok? ==>
      ReduceArgs(ts[..i + 1], b, app, fc).value == ReduceArgs(ts[..i], b, app, fc).value + [ReduceT(ts[i], b, app, fc).value]
  {
    ReduceArgsSnoc(ts[..i], ts[i], b, app, fc);
    assert ts[..i] + [ts[i]] == ts[..i + 1];
  }

  /** A failure on a prefix is a failure of the whole loop. */
  lemma ReduceArgsPrefix(ts: seq<Term>, i: nat, b: Basis, app: bool, fc: int)
    requires BasisOk(b) && i <= |ts| && ReduceArgs(ts[..i], b, app, fc).Err?
    ensures ReduceArgs(ts, b, app, fc).Err?
  {
    ReduceArgsAppend(ts[..i], ts[i..], b, app, fc);
    assert ts[..i] + ts[i..] == ts;
  }

  // ----- properties of Transform -----

  /** Transform fails with a well-formedness error exactly on statements
      that are not well defined, and then with isWellDefined's error. */
  lemma TransformRejects(b: Basis, s: string)
    requires BasisOk(b)
    ensures TransformT(b, s).Err? && TransformT(b, s).error.Malformed? <==> !WellDefined(s)
    ensures CheckStatement(s).Some? ==> TransformT(b, s) == Err(Malformed(CheckStatement(s).value))
    ensures s == [] ==> TransformT(b, s) == Err(Malformed(EmptyStatement))
  {
    CheckStatementCorrect(s);
  }

  /** A successful Transform prints a normal form in canonical text. */
  lemma TransformCanonical(b: Basis, s: string) returns (u: Term)
    requires BasisOk(b) && TransformT(b, s).Ok?
    ensures ParenFree(u) && IsNormal(u, b)
    ensures TransformT(b, s) == Ok(Render(u))
    ensures WellDefined(Render(u)) && ParseTerm(Render(u)) == u
  {
    CheckStatementCorrect(s);
    ReduceNormal(ParseTerm(s), b, false, 0);
    ReduceParenFree(ParseTerm(s), b, false, 0);
    u := ReduceT(ParseTerm(s), b, false, 0).value;
    ParseRender(u);
  }

  /** The canonical text of a normal form is a fixed point of Transform. */
  lemma TransformNormalFixed(b: Basis, u: Term)
    requires BasisOk(b) && ParenFree(u) && IsNormal(u, b) && 2 * Height(u) <= MaxFrames
    ensures TransformT(b, Render(u)) == Ok(Render(u))
  {
    ParseRender(u);
    CheckStatementCorrect(Render(u));
    ReduceNormalFixed(u, b, false, 0);
  }
}
