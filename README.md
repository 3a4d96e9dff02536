# combinator — a verified model of parsing, rewriting and reducing combinator statements

The `combinator` package evaluates statements of combinatory logic such as
`S(K(SI))Kab`. A statement is a string of one-character names and
parentheses. Juxtaposition is application and associates to the left
(`xyz` is `(xy)z`), and parentheses group.

The package does four things:

- **Validation.** `isWellDefined` rejects a statement that is empty, holds
  empty parentheses `()`, closes a parenthesis that was never opened, or
  leaves one open.
- **Parsing.** `parse` turns a statement into a mutable binary tree. Each
  node carries its left child, its right child, its parent, a leaf flag, a
  root flag and a leaf label. `unparse` prints a tree back with the fewest
  parentheses.
- **Reduction.** A basis is an ordered list of combinators, each with a
  name, its formal arguments and a defining statement. `reduce` is
  outer-first and left-first. It asks `rewrite` to contract the redex at the
  head of the tree until the head is no longer one, then recurses into the
  left child and then the right child. `rewrite` looks up the combinator
  named by the left-most leaf. When enough arguments hang off the left
  spine, it parses the definition, substitutes copies of the arguments for
  the formals (`apply`) and hooks the result into the tree in place of the
  redex. In applicative order it first reduces the arguments. A frame
  counter bounded by `MaxFrames` reports a loop.
- **Entry points.** `Basis.Transform` and `Combinator.Transform` validate,
  parse, reduce in normal order and unparse. `Basis.With` appends a
  combinator to a basis. `findCombinator` returns the first combinator of a
  basis with a given name.

## How the model is built

The model has two layers. The imperative layer (parse.go, tree.go and
reduce.go) is proved against the pure one.

- **The pure reference layer.** A term is `Leaf(c) | App(l, r)`
  (`Terms`). `Statements.ParseTerm` parses a statement into a term and
  `Terms.Render` prints one. `Statements.CheckStatement` is the scanner of
  `isWellDefined`, as a function, and `Statements.WellDefined` is an
  independent grammar for the statements it accepts.
  `Semantics.RewriteT`, `ReduceT`, `ReduceArgs` and `TransformT` are
  `rewrite`, `reduce`, the applicative-order loop and `Transform` as
  functions on terms. Their frame counter and `MaxFrames` are the Go ones.
- **The imperative layer.** The Go heap of `*Tree` nodes is an arena,
  `Trees.Arena`, whose `nodes: seq<Node>` field the methods reassign. A
  pointer is an index into it, and `nil` is `Nil` (-1). `IsTree(ns, h, t)`
  says that the nodes reachable from handle `h` form a proper tree: linked
  parents, distinct nodes, and the shape and labels of term `t`.
  - `Parse`, `Copy`, `Join`, `Apply`, `Rewrite`, `Reduce` and the argument
    loop are proved to build a tree that spells the value of the reference
    function. `Unparse` and `Transform` are proved to return exactly the
    text of `Render` and `TransformT`.
  - The tree-building methods are also proved to change nothing outside the
    tree they were given (`Outside`).
  - Each new node they add is fresh (`Fresh` and `Within`).
  - `Apply` and `Copy` keep the top node's root flag and parent.
  - `Rewrite` and `Reduce` keep the top node's root flag. They keep its
    parent only when the input is not marked root. A root-marked top can
    lose its parent: when the contractum is a copied argument, that copy
    takes the parsed definition's nil parent. Trees the package builds
    never give a root-marked node a parent.
  - When nothing is rewritten, `Rewrite` returns the input node itself and
    leaves the arena unchanged. `Reduce` does the same on a leaf.
- **The laws and the test tables.**
  - `Laws` derives the contraction rules of S, K, I and iota from the
    definitions of the standard bases, and chains them into multi-step
    runs.
  - `Examples` proves the rows of TestSKI and TestIota.
  - `ParseExamples` proves the tables of TestParse and TestWellDefined.
  - `ReduceExamples` proves the rows of TestReduce in both orders.

### Where the model departs from the source

- Names are one character.
  - Statements are `seq<char>` and a leaf label is one character. This is
    what `parse` produces, since it splits statements rune by rune.
  - Combinator names and formal arguments are `string` and are compared as
    strings, as in the Go code.
- The two `Transform` methods in combinator.go call `reduce` without a frame
  count and read its second result as a boolean "canceled". That does not
  match the signature in reduce.go, which returns an error. The model
  follows reduce.go: it calls `reduce(…, false, 0)` and turns a
  loop-detection error into an `Err` result.

## Model

| member | source | states |
|---|---|---|
| Statements.IsWellDefined | parse.go:113-145 | returns exactly the reference scanner's verdict: no error or the first error met (empty statement, `()`, a `)` with nothing open, parentheses left open) |
| Statements.CheckStatementCorrect | parse.go:113-145 | no error if and only if the statement belongs to the independent grammar WellDefined (non-empty, no `()`, no prefix closes more than it opens, balanced); the empty-statement error if and only if the statement is empty; "parens do not match" only when every `)` was matched and some `(` stays open |
| Statements.CheckStatementWitness | parse.go:122-134 | an empty-parens error points at a position holding `()`, and an unopened-close error points at a `)` reached at depth 0 |
| Statements.ScanFailedSticky | parse.go:126-134 | the first error ends the scan: the rest of the statement cannot change it |
| Statements.FirstFailure | parse.go:121-139 | a failing scan fails at one character, after a prefix that scanned cleanly |
| Statements.GetSubStatements | parse.go:51-82 | the loop's operands are those of the reference split SubStatements |
| Statements.SubStatementsWellDefined | parse.go:51-82 | a well-defined statement splits into at least one operand, and each operand is itself well defined, so the recursion in parse is safe |
| Statements.SplitOperands | parse.go:51-82 | a statement written as a sequence of bare names and parenthesised groups splits into exactly the names and the groups' contents |
| Statements.ParseOperands | parse.go:11-47 | such a statement parses as the left-nested application of its operands' parses |
| Statements.ParseTerm | parse.go:11-47 | a parse never produces a leaf labelled with a parenthesis |
| Statements.ParseRender | parse.go:85-110 | unparse always prints a well-defined statement, and parsing it gives back the same term (round trip) |
| Statements.ParseRenderIdempotent | parse.go:11-47 | unparse after parse is a normalisation: doing it twice is the same as doing it once |
| Statements.RenderWellDefined | parse.go:85-110 | the printed statement is well defined and never ends in `(` |
| Terms.RenderKeepsLeaves | parse.go:85-110 | unparse only adds parentheses: deleting them leaves the leaves of the tree in left-to-right order |
| Terms.IndexOf | reduce.go:119 | the first position of the name among the formals, or -1 when it is absent |
| Terms.SubstIdentity | reduce.go:116-140 | applying a combinator to its own formals as leaf arguments leaves the definition unchanged |
| Terms.ReplaceLeftAtFold | reduce.go:93-104 | replacing the sub-tree d steps down the spine puts the new sub-tree under the arguments that were above it |
| Parser.Parse | parse.go:11-47 | the empty statement yields nil; otherwise a tree of fresh nodes spelling the statement's parse, marked root and with no parent, and every existing node is unchanged |
| Parser.Unparse | parse.go:85-110 | the text is the canonical rendering of the term the tree spells |
| Trees.GetRoot | tree.go:14-19 | the first root-marked node on the parent chain, with no root-marked node before it |
| Trees.GetLeftMostLeaf | tree.go:22-27 | the node at the end of the left spine, a leaf labelled with the term's head |
| Trees.GetNthParent | tree.go:30-35 | the node n parent steps up, or the first root-marked node met before that |
| Trees.NumNodesToRoot | tree.go:38-43 | the least number of parent steps that reaches the given root; 0 exactly when the two nodes are the same |
| Trees.GetNRightSiblings | tree.go:49-57 | n handles, the k-th being the right child of the (k+1)-th ancestor |
| Trees.Copy | tree.go:60-82 | a tree of fresh nodes spelling the same term, whose top keeps the original's parent and root flag; every existing node is unchanged |
| Trees.Join | tree.go:84-107 | no trees gives nil; one tree gives its copy; two or more give fresh nodes spelling their left-nested application, under a new root with no parent; every existing node is unchanged |
| Engine.Apply | reduce.go:116-140 | the definition's tree is turned into one spelling the definition with each formal replaced by a copy of its actual argument; names that are not formals stay as they are; the argument copies are fresh; nothing outside the definition's nodes changes |
| Engine.Rewrite | reduce.go:50-113 | succeeds exactly when RewriteT does and fails only with a detected loop; the result tree spells RewriteT's term, only the nodes of the input tree change, and the result keeps the input's root flag and, when the input is not marked root, its parent; when the head is no redex it returns the input node itself and changes nothing |
| Engine.Reduce | reduce.go:12-48 | succeeds exactly when ReduceT does and fails only with a detected loop; the result tree spells ReduceT's term, only the nodes of the input tree change, and the result keeps the input's root flag and, when the input is not marked root, its parent; a leaf is returned itself and nothing changes |
| Engine.ContractRedex | reduce.go:71-110 | one contraction: parse the definition, collect the arguments, apply and hook; RewriteT of the old term equals RewriteT of the new one a frame later |
| Engine.Hook | reduce.go:95-107 | the contracted tree replaces the redex d steps down the spine, and getNthParent climbs from it back to the original root |
| Engine.ApplyAndHook | reduce.go:93-107 | applying and hooking turns the tree into the one spelling the term with the redex replaced by its contractum |
| Engine.CollectArguments | reduce.go:76-90 | the arguments as handed to apply: in applicative order their reductions, otherwise the argument trees themselves; it fails exactly when an argument's reduction fails |
| Engine.ReduceArguments | reduce.go:83-89 | the applicative-order loop: reduces each argument in turn, fails exactly when one of the reductions fails, and otherwise yields the reduced arguments |
| Semantics.RewriteT | reduce.go:50-113 | the only failure is a detected loop, and a successful rewrite leaves no redex at the head |
| Semantics.ReduceT | reduce.go:12-48 | the only failure is a detected loop |
| Semantics.Actuals | reduce.go:81-90 | only applicative order can fail, with a detected loop; the actual arguments are as many as the formal ones |
| Semantics.ReduceArgs | reduce.go:83-89 | the only failure is a detected loop, and a success has one reduct per argument |
| Semantics.FrameLimit | reduce.go:16-18 | beyond MaxFrames both reduce and rewrite report a loop |
| Semantics.RewriteStuck | reduce.go:71 | no rewrite happens when the head names no combinator of the basis, names one without arguments, or has too few arguments |
| Semantics.RewriteUnfold | reduce.go:71-110 | a redex is rewritten by contracting it with its actual arguments and rewriting again a frame later; a failed argument reduction fails the rewrite |
| Semantics.ReduceNormal | reduce.go:12-48 | a successful reduction ends in normal form: no redex anywhere in the result |
| Semantics.ReduceNormalFixed | reduce.go:12-48 | a term in normal form reduces to itself, given enough frames |
| Semantics.ReduceIdempotent | reduce.go:12-48 | reducing a reduct again changes nothing |
| Semantics.ReduceStuckSpine | reduce.go:20-47 | when the head is no redex, reduction keeps the head and the number of spine arguments |
| Semantics.ReduceParenFree | reduce.go:12-48 | reduction never creates a leaf labelled with a parenthesis |
| Semantics.ReduceArgsAppend | reduce.go:83-89 | reducing the arguments of a concatenation fails exactly when one part fails, and otherwise concatenates the parts' results |
| Semantics.TransformRejects | combinator.go:139-142 | Transform fails with a malformed-statement error exactly when the statement is not well defined, and the error is isWellDefined's error |
| Semantics.TransformCanonical | combinator.go:139-149 | a successful Transform prints a normal form in canonical form, which parses back to that normal form |
| Semantics.TransformNormalFixed | combinator.go:139-149 | a statement that is the canonical text of a normal form transforms to itself |
| Transforms.Transform | combinator.go:139-149 | the result of validate, parse, reduce in normal order from frame 0, then unparse, as TransformT defines it |
| Transforms.CombinatorTransform | combinator.go:157-167 | Basis.Transform over the basis holding that combinator alone |
| Combinators.FirstIndex | combinator.go:200-203 | the position of the first combinator with that name, or -1 when there is none |
| Combinators.FindCombinator | combinator.go:200-209 | none exactly when no combinator has that name; otherwise the first one that does |
| Combinators.With | combinator.go:152-154 | the basis with the combinator appended and every earlier entry kept |
| Combinators.WithLookup | combinator.go:152-154 | appending cannot shadow a name already in the basis; only a new name becomes visible |
| Combinators.WithKeepsBasisOk | combinator.go:152-154 | appending a combinator with a well-defined definition keeps every definition parseable |
| Laws.Contracts | reduce.go:71-110 | in normal order a redex rewrites to its contractum a frame later |
| Laws.RuleS | combinator.go:49-53 | S x y z rewrites to x z (y z) under any basis whose S is the standard one |
| Laws.RuleK | combinator.go:28-32 | K x y rewrites to x |
| Laws.RuleI | combinator.go:21-25 | I x rewrites to x, or to the reduct of x in applicative order |
| Laws.RuleIota | combinator.go:88-100 | i x rewrites to x S K |
| Laws.StandardBasesOk | combinator.go:59-100 | every definition of SKI and of Iota is well defined |
| Laws.StandardBasesDefine | combinator.go:59-100 | SKI defines S, K and I, and Iota defines S, K and i, with their standard definitions |
| Laws.StepSound | reduce.go:50-113 | each contraction step a basis defines preserves the result of rewrite |
| Laws.AllowedChained | reduce.go:50-113 | a linked sequence of steps the basis allows is a chain of known contractions |
| Laws.Chain | reduce.go:50-113 | a chain of contractions is transparent to any function that every single step leaves unchanged |
| Laws.Runs | reduce.go:50-113 | a run of allowed steps rewrites its first redex as its last contractum a frame per step later |
| Examples.TransformIx | combinator_test.go:7 | over SKI, `Ix` transforms to `x` |
| Examples.TransformSKSK | combinator_test.go:8 | over SKI, `SKSK` transforms to `K` |
| Examples.TransformSKKx | combinator_test.go:9 | over SKI, `SKKx` transforms to `x` |
| Examples.TransformSwap | combinator_test.go:10 | over SKI, `S(K(SI))Kab` transforms to `ba` |
| Examples.TransformIix | combinator_test.go:24 | over Iota, `iix` transforms to `x` |
| Examples.TransformIotaK | combinator_test.go:25 | over Iota, `(i(i(ii)))` transforms to `K` |
| Examples.TransformIotaS | combinator_test.go:26 | over Iota, `(i(i(i(ii))))` transforms to `S` |
| ParseExamples.ScanForward | parse.go:121-139 | the scan, defined one character at a time from the end, is the left-to-right loop of isWellDefined |
| ParseExamples.WellDefinedAccepts | parse_test.go:41-45 | `x`, `(x)`, `(xy)`, `((x))` and `(x(x))` are accepted |
| ParseExamples.WellDefinedRejects | parse_test.go:46-52 | `""` is rejected as empty; `()`, `x()` and `(()` for empty parentheses; `)(` and `(x))((x)` for an unopened close; `(x(` for unmatched parentheses |
| ParseExamples.ParseTable | parse_test.go:8-27 | each of the 18 statements parses, and unparse prints the expected text |
| ParseExamples.Unparsed | parse_test.go:8-27 | the expected texts `x`, `xx`, `xxx`, `x(xx)`, `xx(xx)` and `x(xx)x` are the renderings of the parsed terms |
| ParseExamples.ParseRow1 | parse_test.go:9 | `x` parses as x |
| ParseExamples.ParseRow2 | parse_test.go:10 | `(x)` parses as x |
| ParseExamples.ParseRow3 | parse_test.go:11 | `((x))` parses as x |
| ParseExamples.ParseRow4 | parse_test.go:12 | `xx` parses as x applied to x |
| ParseExamples.ParseRow5 | parse_test.go:13 | `(x)x` parses as x applied to x |
| ParseExamples.ParseRow6 | parse_test.go:14 | `((x)x)` parses as x applied to x |
| ParseExamples.ParseRow7 | parse_test.go:15 | `((x)(x))` parses as x applied to x |
| ParseExamples.ParseRow8 | parse_test.go:16 | `x(x)` parses as x applied to x |
| ParseExamples.ParseRow9 | parse_test.go:17 | `xxx` parses as (x x) x |
| ParseExamples.ParseRow10 | parse_test.go:18 | `(xxx)` parses as (x x) x |
| ParseExamples.ParseRow11 | parse_test.go:19 | `((x)xx)` parses as (x x) x |
| ParseExamples.ParseRow12 | parse_test.go:20 | `(((x)x)x)` parses as (x x) x |
| ParseExamples.ParseRow13 | parse_test.go:21 | `((x)(xx))` parses as x (x x) |
| ParseExamples.ParseRow14 | parse_test.go:22 | `x(xx)` parses as x (x x) |
| ParseExamples.ParseRow15 | parse_test.go:23 | `x((x)x)` parses as x (x x) |
| ParseExamples.ParseRow16 | parse_test.go:24 | `(x(xx))` parses as x (x x) |
| ParseExamples.ParseRow17 | parse_test.go:25 | `xx(xx)` parses as (x x)(x x) |
| ParseExamples.ParseRow18 | parse_test.go:26 | `x(xx)x` parses as (x (x x)) x |
| ReduceExamples.IRBasis | reduce_test.go:9-20 | the basis {I x = x, R x y = yx} has well-defined definitions, finds I and R, and does not name x or y |
| ReduceExamples.RuleR | reduce_test.go:15-19 | R x y rewrites to y x, with x and y reduced first in applicative order |
| ReduceExamples.ReduceArgsAll | reduce.go:83-89 | when each argument reduces, the loop yields exactly their reducts in order |
| ReduceExamples.RowIx | reduce_test.go:23 | in both orders `Ix` reduces to `x` |
| ReduceExamples.RowRxy | reduce_test.go:24 | in both orders `Rxy` reduces to `yx` |
| ReduceExamples.RowRyx | reduce_test.go:25 | in both orders `Ryx` reduces to `xy` |
| ReduceExamples.RowRIxy | reduce_test.go:26 | in both orders `RIxy` reduces to `xIy` |
| ReduceExamples.RowII | reduce_test.go:27 | in both orders `II` reduces to `I` |
| ReduceExamples.RowXIx | reduce_test.go:28 | in both orders `x(Ix)` reduces to `xx` |
| ReduceExamples.RowXIIxX | reduce_test.go:29 | in both orders `x(I(Ix))x` reduces to `xxx` |
| ReduceExamples.ReduceTable | reduce_test.go:22-43 | all seven rows, parsed, reduced from frame 0 in normal or applicative order, and unparsed, give the expected text |

## Left out

- Engine.Reduce / Engine.Rewrite: the `ctx` cancellation checks at the top of `reduce` and `rewrite` are not modelled. Cancellation comes from outside the package, and the model's only failure is loop detection.
- Semantics.MaxFrames: the frame budget is the constant 1000000. In the Go code it is a package variable that a caller could change.
- Statements.ParseTerm / Parser.Parse: statements are `seq<char>`, one element per rune. The UTF-8 decoding of Go strings, `utf8.RuneCountInString` and byte-based `len` are not modelled. The model therefore takes the check `len(statement) == 0` to mean "no runes".
- Parser.Parse: requires `s == [] || WellDefined(s)`. Go's `parse` accepts any string, but its behaviour on a malformed one (a `nil` dereference on `()`, odd trees elsewhere) is not modelled. Every statement call site validates first. A combinator's definition is parsed unchecked, so it is covered by the BasisOk assumption below.
- Transforms.Transform / BasisOk: Transform, Reduce, Rewrite and the reference functions require every definition in the basis to be well defined. The Go code never checks the basis: it parses a definition only when that combinator fires. A basis holding a malformed but unused combinator is therefore outside the model, although Go would transform with it normally.
- Transforms.Transform: combinator.go calls `reduce` without a frame count and reads a "canceled" result that reduce.go does not return. The model follows reduce.go's `reduce(…, false, 0)` and returns the loop error. There is no separate method per call site beyond Transform and CombinatorTransform.
- ReduceExamples.ReduceTable: TestReduce runs its applicative-order reduction on the same `tree` its normal-order run has already rewritten in place. Each row of the model starts both orders from a fresh parse of the statement, so it states what the table intends, not what the reused tree gives.
- The exported wrappers `WellDefined`, `Parse`, `Basis.Reduce`, `Join` and `Copy` (combinator.go:170-197) only forward to the modelled functions, and are not modelled separately. `Join` there takes two trees while tree.go's `join` takes a slice; the model follows tree.go.
- The other bases of combinator.go (Schönfinkel, SK, BCKW, Church) are data only. SKI and Iota, which the tests use, are modelled.
- Error values: Go returns `error` values carrying English messages. The model uses the enumerations `WdError` and `Error`, one constructor per message.
