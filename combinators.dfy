/** Combinators and bases (combinator.go): a combinator is a one-character
    name, its formal parameters and its defining statement; a basis is an
    ordered list of combinators searched first-match. */
module Combinators {
  import opened Wrappers
  import opened Terms
  import opened Statements

  datatype Combinator = Combinator(name: string, arguments: seq<string>, definition: string)

  type Basis = seq<Combinator>

  /** Every definition in the basis can be parsed. */
  ghost predicate BasisOk(b: Basis)
  {
    b == [] || (WellDefined(b[0].definition) && BasisOk(b[1..]))
  }

  /** Every entry of a well-formed basis has a definition that parses. */
  lemma {:induction false} BasisAt(b: Basis, i: int)
    requires BasisOk(b) && 0 <= i < |b|
    ensures WellDefined(b[i].definition)
    decreases i
  {
    if i > 0 {
      BasisAt(b[1..], i - 1);
    }
  }

  /** Position of the first combinator called `name`, or -1. */
  function FirstIndex(b: Basis, name: string): (r: int)
    ensures -1 <= r < |b|
    ensures r == -1 <==> forall j :: 0 <= j < |b| ==> b[j].name != name
    ensures r >= 0 ==> b[r].name == name && forall j :: 0 <= j < r ==> b[j].name != name
  {
    if b == [] then -1
    else if b[0].name == name then 0
    else
      var k := FirstIndex(b[1..], name);
      if k == -1 then -1 else k + 1
  }

  /** The first combinator of the basis with that name; earlier entries shadow later ones. */
  function FindCombinator(name: string, b: Basis): (r: Option<Combinator>)
    ensures r.None? <==> forall j :: 0 <= j < |b| ==> b[j].name != name
    ensures r.Some? ==> (r.value.name == name &&
      exists i :: 0 <= i < |b| && b[i] == r.value && forall j :: 0 <= j < i ==> b[j].name != name)
  {
    var i := FirstIndex(b, name);
    if i >= 0 then Some(b[i]) else None
  }

  /** The basis with one more combinator at its end; the original is unchanged. */
  function With(b: Basis, c: Combinator): (r: Basis)
    ensures |r| == |b| + 1 && r[..|b|] == b && r[|b|] == c
  {
    b + [c]
  }

  /** Appending cannot override: a name already present keeps its first
      definition, and only a new name becomes visible. */
  lemma WithLookup(b: Basis, c: Combinator, name: string)
    ensures FindCombinator(name, b).Some? ==> FindCombinator(name, With(b, c)) == FindCombinator(name, b)
    ensures FindCombinator(name, b).None? ==>
      FindCombinator(name, With(b, c)) == if c.name == name then Some(c) else None
  {
    var r := With(b, c);
    var i := FirstIndex(b, name);
    var k := FirstIndex(r, name);
    if i >= 0 {
      assert r[i] == b[i];
      assert forall j :: 0 <= j < i ==> r[j] == b[j];
      assert k == i;
    } else if c.name == name {
      assert r[|b|] == c;
      assert k == |b|;
    }
  }

  lemma {:induction false} WithKeepsBasisOk(b: Basis, c: Combinator)
    requires BasisOk(b) && WellDefined(c.definition)
    ensures BasisOk(With(b, c))
    decreases |b|
  {
    if b != [] {
      WithKeepsBasisOk(b[1..], c);
      assert With(b, c)[1..] == With(b[1..], c);
    }
  }

  // ----- the combinators the tests use -----

  /** Identity. */
  const I := Combinator("I", ["x"], "x")
  /** Constancy. */
  const K := Combinator("K", ["x", "y"], "x")
  /** Fusion. */
  const S := Combinator("S", ["x", "y", "z"], "xz(yz)")
  /** Iota: an improper combinator, its definition names S and K. */
  const Iota1 := Combinator("i", ["x"], "xSK")

  const SKI: Basis := [S, K, I]
  const Iota: Basis := [S, K, Iota1]
}
