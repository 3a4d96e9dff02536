/** The Transform entry points of combinator.go: validate the statement,
    parse it into a fresh arena, reduce it in normal order from frame 0 and
    print the result. */
module Transforms {
  import opened Wrappers
  import opened Statements
  import opened Combinators
  import opened Semantics
  import opened Trees
  import opened Parser
  import opened Engine

  /** Basis.Transform: the statement's well-formedness error, or the
      canonical text of its reduct, exactly as the reference TransformT. */
  method Transform(b: Basis, s: string) returns (r: Result<string, Error>)
    requires BasisOk(b)
    ensures r == TransformT(b, s)
  {
    var err := IsWellDefined(s);
    if err.Some? {
      return Err(Malformed(err.value));
    }
    CheckStatementCorrect(s);
    var a := new Arena();
    var tree := Parse(a, s);
    var reduced := Reduce(a, tree, b, false, 0, ParseTerm(s));
    if reduced.Err? {
      return Err(reduced.error);
    }
    var text := Unparse(a.nodes, reduced.value, ReduceT(ParseTerm(s), b, false, 0).value);
    r := Ok(text);
  }

  /** Combinator.Transform: Basis.Transform over the basis holding `c` alone. */
  method CombinatorTransform(c: Combinator, s: string) returns (r: Result<string, Error>)
    requires WellDefined(c.definition)
    ensures r == TransformT([c], s)
  {
    assert [c][1..] == [];
    r := Transform([c], s);
  }
}
