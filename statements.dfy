/** The statement syntax of parse.go: the well-definedness check, the split
    of a statement into its top-level operands, and the statement -> term
    reading that `parse` builds a tree for.  The two scans are written once
    as state machines over the characters read so far (ScanState, SubState)
    and once as methods with the source's loops, proved to compute them. */
module Statements {
  import opened Wrappers
  import opened Terms

  // ----- parenthesis depth -----

  function Delta(ch: char): int
  {
    if ch == '(' then 1 else if ch == ')' then -1 else 0
  }

  /** Number of open parentheses minus closed ones. */
  function Depth(s: string): int
  {
    if s == [] then 0 else Depth(s[..|s| - 1]) + Delta(s[|s| - 1])
  }

  /** Every `)` closes a parenthesis that is open and is not the character
      right after a `(`. */
  ghost predicate ClosesOk(s: string)
  {
    forall i :: 0 <= i < |s| && s[i] == ')' ==> 0 < i && Depth(s[..i]) > 0 && s[i - 1] != '('
  }

  /** The statements the interpreter accepts: non-empty, every `)` matched
      and not empty, every `(` closed. */
  ghost predicate WellDefined(s: string)
  {
    |s| > 0 && ClosesOk(s) && Depth(s) == 0
  }

  // ----- isWellDefined -----

  datatype WdError = EmptyStatement | EmptyParens | UnopenedClose | UnbalancedParens

  /** State of the well-definedness scan: the depth counter and whether the
      previous character was `(`, or the error it stopped with. */
  datatype ScanState = Scanning(count: int, prevOpen: bool) | Failed(err: WdError)

  function ScanStep(st: ScanState, ch: char): ScanState
  {
    match st
    case Failed(_) => st
    case Scanning(count, prevOpen) =>
      if ch == '(' then Scanning(count + 1, true)
      else if ch == ')' then
        if prevOpen then Failed(EmptyParens)
        else if count == 0 then Failed(UnopenedClose)
        else Scanning(count - 1, prevOpen)
      else Scanning(count, false)
  }

  function Scan(s: string): ScanState
  {
    if s == [] then Scanning(0, false) else ScanStep(Scan(s[..|s| - 1]), s[|s| - 1])
  }

  /** The error isWellDefined reports, or None when the statement is accepted. */
  function CheckStatement(s: string): Option<WdError>
  {
    if |s| == 0 then Some(EmptyStatement)
    else match Scan(s)
      case Failed(e) => Some(e)
      case Scanning(count, _) => if count != 0 then Some(UnbalancedParens) else None
  }

  method IsWellDefined(s: string) returns (r: Option<WdError>)
    ensures r == CheckStatement(s)
  {
    if |s| == 0 {
      return Some(EmptyStatement);
    }
    var count := 0;
    var prevOpen := false;
    var i := 0;
    while i < |s|
      invariant 0 <= i <= |s|
      invariant Scan(s[..i]) == Scanning(count, prevOpen)
    {
      assert s[..i + 1][..i] == s[..i];
      var ch := s[i];
      if ch == '(' {
        count := count + 1;
        prevOpen := true;
      } else if ch == ')' {
        if prevOpen {
          ScanFailedSticky(s, i + 1);
          return Some(EmptyParens);
        }
        if count == 0 {
          ScanFailedSticky(s, i + 1);
          return Some(UnopenedClose);
        }
        count := count - 1;
      } else {
        prevOpen := false;
      }
      i := i + 1;
    }
    assert s[..i] == s;
    if count != 0 {
      return Some(UnbalancedParens);
    }
    return None;
  }

  lemma {:induction false} ScanFailedSticky(s: string, i: nat)
    requires i <= |s|
    requires Scan(s[..i]).Failed?
    ensures Scan(s) == Scan(s[..i])
    decreases |s| - i
  {
    if i < |s| {
      assert s[..i + 1][..i] == s[..i];
      ScanFailedSticky(s, i + 1);
    } else {
      assert s[..i] == s;
    }
  }

  // ----- facts about depth -----

  lemma {:induction false} DepthAppend(a: string, b: string)
    ensures Depth(a + b) == Depth(a) + Depth(b)
    decreases |b|
  {
    if b == [] {
      assert a + b == a;
    } else {
      assert (a + b)[..|a + b| - 1] == a + b[..|b| - 1];
      DepthAppend(a, b[..|b| - 1]);
    }
  }

  lemma PrefixOfAppend(a: string, b: string, i: nat)
    requires i <= |a| + |b|
    ensures i <= |a| ==> (a + b)[..i] == a[..i]
    ensures i > |a| ==> (a + b)[..i] == a + b[..i - |a|]
  {
  }

  /** Under ClosesOk no prefix goes below depth zero. */
  lemma {:induction false} ClosesOkDepth(s: string, i: nat)
    requires ClosesOk(s) && i <= |s|
    ensures Depth(s[..i]) >= 0
  {
    if i > 0 {
      ClosesOkDepth(s, i - 1);
      assert s[..i][..i - 1] == s[..i - 1];
    }
  }

  /** The scan succeeds exactly while ClosesOk holds, and then its counter is
      the depth and its flag says whether the last character was `(`. */
  lemma {:induction false} ScanMeaning(s: string)
    ensures Scan(s).Scanning? <==> ClosesOk(s)
    ensures Scan(s).Scanning? ==> Scan(s).count == Depth(s) && Depth(s) >= 0
    ensures Scan(s).Scanning? ==> Scan(s).prevOpen == (|s| > 0 && s[|s| - 1] == '(')
    ensures Scan(s).Failed? ==> Scan(s).err == EmptyParens || Scan(s).err == UnopenedClose
    decreases |s|
  {
    if s != [] {
      var p := s[..|s| - 1];
      var ch := s[|s| - 1];
      ScanMeaning(p);
      assert s == p + [ch];
      ClosesOkSnoc(p, ch);
      if ClosesOk(p) {
        ClosesOkDepth(p, |p|);
        assert p[..|p|] == p;
      }
    }
  }

  /** ClosesOk grows one character at a time: a new `)` must close an open,
      non-empty parenthesis. */
  lemma ClosesOkSnoc(p: string, ch: char)
    ensures ClosesOk(p + [ch]) <==>
      ClosesOk(p) && (ch == ')' ==> 0 < |p| && Depth(p) > 0 && p[|p| - 1] != '(')
  {
    var s := p + [ch];
    assert forall i :: 0 <= i <= |p| ==> s[..i] == p[..i];
    assert s[..|p|] == p;
    if ClosesOk(s) {
      forall i | 0 <= i < |p| && p[i] == ')'
        ensures 0 < i && Depth(p[..i]) > 0 && p[i - 1] != '('
      {
        assert s[i] == ')';
      }
    }
  }

  /** isWellDefined accepts exactly the well-defined statements. */
  lemma CheckStatementCorrect(s: string)
    ensures CheckStatement(s) == None <==> WellDefined(s)
    ensures CheckStatement(s) == Some(EmptyStatement) <==> s == []
    ensures CheckStatement(s) == Some(UnbalancedParens) ==> ClosesOk(s) && Depth(s) > 0
  {
    ScanMeaning(s);
  }

  /** A reported `()` or unopened `)` is really there. */
  lemma {:induction false} CheckStatementWitness(s: string)
    ensures CheckStatement(s) == Some(EmptyParens) ==>
      exists i :: 0 < i < |s| && s[i - 1] == '(' && s[i] == ')'
    ensures CheckStatement(s) == Some(UnopenedClose) ==>
      exists i :: 0 <= i < |s| && s[i] == ')' && Depth(s[..i]) == 0
  {
    if |s| > 0 && Scan(s).Failed? {
      var i := FirstFailure(s);
      var p := s[..i];
      ScanMeaning(p);
      assert s[..i + 1][..i] == p;
      if Scan(s).err == EmptyParens {
        assert 0 < i && s[i - 1] == '(' && s[i] == ')';
      }
      if Scan(s).err == UnopenedClose {
        assert s[i] == ')' && Depth(s[..i]) == 0;
      }
    }
  }

  /** The position of the character at which the scan failed. */
  lemma {:induction false} FirstFailure(s: string) returns (i: nat)
    requires Scan(s).Failed?
    ensures i < |s| && Scan(s[..i]).Scanning? && ScanStep(Scan(s[..i]), s[i]) == Scan(s)
    decreases |s|
  {
    var p := s[..|s| - 1];
    if Scan(p).Failed? {
      i := FirstFailure(p);
      assert p[..i] == s[..i];
      assert p[..i + 1] == s[..i + 1];
      assert s[..i + 1][..i] == s[..i];
      ScanFailedSticky(s, i + 1);
    } else {
      i := |s| - 1;
    }
  }

  // ----- getSubStatements -----

  /** State of the split: depth counter, the operand being collected, the
      operands emitted so far. */
  datatype SubState = SubState(count: int, temp: string, subs: seq<string>)

  function SubStep(st: SubState, ch: char): SubState
  {
    if ch == '(' then
      SubState(st.count + 1, if st.count > 0 then st.temp + [ch] else st.temp, st.subs)
    else if ch == ')' then
      var count := st.count - 1;
      var temp := if count > 0 then st.temp + [ch] else st.temp;
      if count == 0 then SubState(count, [], st.subs + [temp]) else SubState(count, temp, st.subs)
    else if st.count > 0 then SubState(st.count, st.temp + [ch], st.subs)
    else SubState(st.count, st.temp, st.subs + [[ch]])
  }

  function SubRun(st: SubState, s: string): SubState
  {
    if s == [] then st else SubStep(SubRun(st, s[..|s| - 1]), s[|s| - 1])
  }

  const SubStart := SubState(0, [], [])

  /** The top-level operands of a statement. */
  function SubStatements(s: string): seq<string>
  {
    SubRun(SubStart, s).subs
  }

  method GetSubStatements(s: string) returns (subs: seq<string>)
    ensures subs == SubStatements(s)
  {
    subs := [];
    var count := 0;
    var temp := "";
    var i := 0;
    while i < |s|
      invariant 0 <= i <= |s|
      invariant SubRun(SubStart, s[..i]) == SubState(count, temp, subs)
    {
      assert s[..i + 1][..i] == s[..i];
      var ch := s[i];
      if ch == '(' {
        if count > 0 {
          temp := temp + [ch];
        }
        count := count + 1;
      } else if ch == ')' {
        count := count - 1;
        if count > 0 {
          temp := temp + [ch];
        }
        if count == 0 {
          subs := subs + [temp];
          temp := "";
        }
      } else {
        if count > 0 {
          temp := temp + [ch];
        } else {
          subs := subs + [[ch]];
        }
      }
      i := i + 1;
    }
    assert s[..i] == s;
  }

  lemma SubRunSnoc(st: SubState, p: string, ch: char)
    ensures SubRun(st, p + [ch]) == SubStep(SubRun(st, p), ch)
  {
    assert (p + [ch])[..|p|] == p;
  }

  lemma {:induction false} SubRunAppend(st: SubState, p: string, q: string)
    ensures SubRun(st, p + q) == SubRun(SubRun(st, p), q)
    decreases |q|
  {
    if q == [] {
      assert p + q == p;
    } else {
      var q' := q[..|q| - 1];
      assert (p + q)[..|p + q| - 1] == p + q';
      SubRunAppend(st, p, q');
    }
  }

  /** Every operand is a single character or strictly shorter than the
      statement (each one emitted by `)` leaves that `)` out). */
  lemma {:induction false} SubStatementsShort(s: string)
    ensures |SubRun(SubStart, s).temp| <= |s|
    ensures forall x :: x in SubStatements(s) ==> |x| == 1 || |x| < |s|
    decreases |s|
  {
    if s != [] {
      SubStatementsShort(s[..|s| - 1]);
    }
  }

  /** On a well-defined statement the split yields at least one operand,
      and every operand is itself well defined, so it can be parsed in turn. */
  lemma SubStatementsWellDefined(s: string)
    requires WellDefined(s)
    ensures SubStatements(s) != []
    ensures forall x :: x in SubStatements(s) ==> WellDefined(x)
  {
    var _ := SubInvariant(s, |s|);
    assert s[..|s|] == s;
  }

  /** The split's state after the first `i` characters of a well-defined
      statement; `j` is the position of the `(` that opened the group being
      collected, when there is one. */
  ghost predicate SubInv(s: string, i: nat, j: int)
    requires i <= |s|
  {
    var st := SubRun(SubStart, s[..i]);
    st.count == Depth(s[..i]) >= 0 &&
    (forall x :: x in st.subs ==> WellDefined(x)) &&
    (st.subs != [] || i == 0 || st.count > 0) &&
    (st.count == 0 ==> st.temp == []) &&
    (st.count > 0 ==>
      0 <= j < i && s[j] == '(' && Depth(s[..j]) == 0 && st.temp == s[j + 1..i] &&
      forall m :: j < m <= i ==> Depth(s[..m]) >= 1)
  }

  lemma {:induction false} SubInvariant(s: string, i: nat) returns (j: int)
    requires WellDefined(s) && i <= |s|
    ensures SubInv(s, i, j)
  {
    if i == 0 {
      j := -1;
    } else {
      var j0 := SubInvariant(s, i - 1);
      assert s[..i][..i - 1] == s[..i - 1];
      var ch := s[i - 1];
      if ch == '(' {
        j := SubInvOpen(s, i, j0);
      } else if ch == ')' {
        j := SubInvClose(s, i, j0);
      } else {
        j := SubInvOther(s, i, j0);
      }
    }
  }

  /** The last step of the split, as the state machine takes it. */
  lemma StepFacts(s: string, i: nat)
    requires 0 < i <= |s|
    ensures SubRun(SubStart, s[..i]) == SubStep(SubRun(SubStart, s[..i - 1]), s[i - 1])
    ensures Depth(s[..i]) == Depth(s[..i - 1]) + Delta(s[i - 1])
  {
    assert s[..i][..i - 1] == s[..i - 1];
  }

  lemma SubInvOpen(s: string, i: nat, j0: int) returns (j: int)
    requires 0 < i <= |s| && s[i - 1] == '('
    requires SubInv(s, i - 1, j0)
    ensures SubInv(s, i, j)
  {
    if SubRun(SubStart, s[..i - 1]).count == 0 {
      j := i - 1;
      SubInvStart(s, i, j0);
    } else {
      j := j0;
      StepFacts(s, i);
      NestedExtend(s, i, j0);
    }
  }

  /** A `(` at depth zero opens a new group, collected from the next character on. */
  lemma SubInvStart(s: string, i: nat, j0: int)
    requires 0 < i <= |s| && s[i - 1] == '('
    requires SubInv(s, i - 1, j0) && SubRun(SubStart, s[..i - 1]).count == 0
    ensures SubInv(s, i, i - 1)
  {
    StepFacts(s, i);
    var st := SubRun(SubStart, s[..i - 1]);
    assert s[i..i] == [];
    assert SubRun(SubStart, s[..i]) == SubState(1, s[i..i], st.subs);
  }

  /** Inside an open group every character is collected, and the depth stays positive. */
  lemma NestedExtend(s: string, i: nat, j: int)
    requires 0 < i <= |s| && s[i - 1] != ')' && 0 <= j < i - 1
    requires forall m :: j < m <= i - 1 ==> Depth(s[..m]) >= 1
    ensures s[j + 1..i] == s[j + 1..i - 1] + [s[i - 1]]
    ensures forall m :: j < m <= i ==> Depth(s[..m]) >= 1
  {
    DepthStep(s, i);
  }

  lemma SubInvClose(s: string, i: nat, j0: int) returns (j: int)
    requires WellDefined(s) && 0 < i <= |s| && s[i - 1] == ')'
    requires SubInv(s, i - 1, j0)
    ensures SubInv(s, i, j)
  {
    assert 0 < i - 1 && Depth(s[..i - 1]) > 0 && s[i - 2] != '(';
    j := j0;
    if SubRun(SubStart, s[..i - 1]).count == 1 {
      SubInvEmit(s, i, j0);
    } else {
      SubInvNest(s, i, j0);
    }
  }

  /** A `)` back at depth zero emits the group collected since its `(`. */
  lemma SubInvEmit(s: string, i: nat, j: int)
    requires WellDefined(s) && 1 < i <= |s| && s[i - 1] == ')'
    requires SubInv(s, i - 1, j) && SubRun(SubStart, s[..i - 1]).count == 1
    ensures SubInv(s, i, j)
  {
    StepFacts(s, i);
    EmittedGroupWellDefined(s, j, i - 1);
    var st := SubRun(SubStart, s[..i - 1]);
    assert SubRun(SubStart, s[..i]) == SubState(0, [], st.subs + [s[j + 1..i - 1]]);
  }

  /** A `)` that leaves the depth positive is collected into the group. */
  lemma SubInvNest(s: string, i: nat, j: int)
    requires 1 < i <= |s| && s[i - 1] == ')'
    requires SubInv(s, i - 1, j) && SubRun(SubStart, s[..i - 1]).count > 1
    ensures SubInv(s, i, j)
  {
    StepFacts(s, i);
    var st := SubRun(SubStart, s[..i - 1]);
    assert Depth(s[..i]) == st.count - 1 >= 1;
    assert forall m :: j < m <= i ==> Depth(s[..m]) >= 1 by {
      forall m | j < m <= i ensures Depth(s[..m]) >= 1 {
        if m < i {
          assert j < m <= i - 1;
        }
      }
    }
    assert s[j + 1..i] == s[j + 1..i - 1] + [s[i - 1]];
    assert SubRun(SubStart, s[..i]) == SubState(st.count - 1, s[j + 1..i], st.subs);
  }

  lemma SubInvOther(s: string, i: nat, j0: int) returns (j: int)
    requires 0 < i <= |s| && s[i - 1] != '(' && s[i - 1] != ')'
    requires SubInv(s, i - 1, j0)
    ensures SubInv(s, i, j)
  {
    StepFacts(s, i);
    if SubRun(SubStart, s[..i - 1]).count > 0 {
      j := j0;
      NestedExtend(s, i, j0);
    } else {
      j := -1;
      SingleCharWellDefined([s[i - 1]]);
    }
  }

  /** A one-character statement is well-defined exactly when it is not a parenthesis. */
  lemma SingleCharWellDefined(s: string)
    requires |s| == 1
    ensures WellDefined(s) <==> s[0] != '(' && s[0] != ')'
  {
    assert s[..|s| - 1] == [];
    assert Depth(s) == Delta(s[0]);
    assert forall i :: 0 <= i < |s| ==> s[i] == s[0];
  }

  lemma DepthSlice(s: string, a: nat, b: nat)
    requires a <= b <= |s|
    ensures Depth(s[..b]) == Depth(s[..a]) + Depth(s[a..b])
  {
    assert s[..b] == s[..a] + s[a..b];
    DepthAppend(s[..a], s[a..b]);
  }

  /** One more character changes the depth by that character's weight. */
  lemma DepthStep(s: string, i: nat)
    requires 0 < i <= |s|
    ensures Depth(s[..i]) == Depth(s[..i - 1]) + Delta(s[i - 1])
  {
    assert s[..i][..i - 1] == s[..i - 1];
  }

  /** The group strictly between the `(` at `j` and the `)` at `k` that
      closes it is itself well-defined. */
  lemma EmittedGroupWellDefined(s: string, j: int, k: int)
    requires WellDefined(s)
    requires 0 <= j < k < |s| && s[j] == '(' && s[k] == ')'
    requires Depth(s[..j]) == 0 && Depth(s[..k]) == 1
    requires forall m :: j < m <= k ==> Depth(s[..m]) >= 1
    ensures WellDefined(s[j + 1..k])
  {
    var x := s[j + 1..k];
    assert 0 < k && s[k - 1] != '(';
    DepthStep(s, j + 1);
    DepthSlice(s, j + 1, k);
    forall m | 0 <= m < |x| && x[m] == ')'
      ensures 0 < m && Depth(x[..m]) > 0 && x[m - 1] != '('
    {
      var n := j + 1 + m;
      assert s[n] == ')';
      assert s[n - 1] != '(';
      assert Depth(s[..n + 1]) >= 1;
      GroupClose(s, j, k, m);
    }
  }

  /** A `)` inside the group closes a parenthesis opened inside the group. */
  lemma GroupClose(s: string, j: int, k: int, m: int)
    requires 0 <= j < k <= |s| && s[j] == '(' && Depth(s[..j]) == 0
    requires 0 <= m < k - j - 1 && s[j + 1 + m] == ')'
    requires s[j + m] != '(' && Depth(s[..j + 2 + m]) >= 1
    ensures 0 < m && Depth(s[j + 1..k][..m]) > 0 && s[j + 1..k][m - 1] != '('
  {
    var n := j + 1 + m;
    DepthStep(s, n + 1);
    DepthStep(s, j + 1);
    DepthSlice(s, j + 1, n);
    var x := s[j + 1..k];
    assert |x[..m]| == |s[j + 1..n]| == m;
    assert forall i :: 0 <= i < m ==> x[..m][i] == s[j + 1 + i] == s[j + 1..n][i];
    assert x[..m] == s[j + 1..n];
  }

  // ----- rendering is well-defined and splits into the rendered arguments -----

  lemma {:induction false} ConcatClosesOk(a: string, b: string)
    requires ClosesOk(a) && Depth(a) == 0 && ClosesOk(b)
    ensures ClosesOk(a + b)
    ensures Depth(a + b) == Depth(b)
  {
    DepthAppend(a, b);
    forall i | 0 <= i < |a + b| && (a + b)[i] == ')'
      ensures 0 < i && Depth((a + b)[..i]) > 0 && (a + b)[i - 1] != '('
    {
      if i < |a| {
        assert (a + b)[..i] == a[..i];
      } else {
        var k := i - |a|;
        assert b[k] == ')';
        assert (a + b)[..i] == a + b[..k];
        DepthAppend(a, b[..k]);
      }
    }
  }

  lemma WrapClosesOk(w: string)
    requires ClosesOk(w) && Depth(w) == 0 && |w| > 0 && w[|w| - 1] != '('
    ensures ClosesOk("(" + w + ")")
    ensures Depth("(" + w + ")") == 0
  {
    var p := "(" + w;
    OpenClosesOk(w);
    assert "(" + w + ")" == p + [')'];
    ClosesOkSnoc(p, ')');
    assert (p + [')'])[..|p|] == p;
  }

  /** An opening parenthesis in front keeps ClosesOk and adds one to the depth. */
  lemma OpenClosesOk(w: string)
    requires ClosesOk(w)
    ensures ClosesOk("(" + w) && Depth("(" + w) == Depth(w) + 1
  {
    var p := "(" + w;
    assert Depth("(") == 1 by { assert "("[..0] == []; }
    DepthAppend("(", w);
    forall i | 0 <= i < |p| && p[i] == ')'
      ensures 0 < i && Depth(p[..i]) > 0 && p[i - 1] != '('
    {
      var k := i - 1;
      assert w[k] == ')';
      assert p[..i] == "(" + w[..k];
      DepthAppend("(", w[..k]);
    }
  }

  lemma {:induction false} RenderWellDefined(t: Term)
    requires ParenFree(t)
    ensures WellDefined(Render(t))
    ensures Render(t)[|Render(t)| - 1] != '('
  {
    match t
    case Leaf(c) =>
      SingleCharWellDefined([c]);
    case App(l, a) =>
      RenderWellDefined(l);
      if a.Leaf? {
        SingleCharWellDefined([a.c]);
      } else {
        RenderWellDefined(a);
        WrapClosesOk(Render(a));
      }
      ConcatClosesOk(Render(l), RenderArg(a));
  }

  /** The split of a rendered term: its head, then each argument's rendering. */
  function Pieces(t: Term): seq<string>
  {
    match t
    case Leaf(c) => [[c]]
    case App(l, a) => Pieces(l) + [Render(a)]
  }

  lemma {:induction false} InnerRun(acc: seq<string>, w: string, i: nat)
    requires ClosesOk(w) && i <= |w|
    ensures SubRun(SubState(1, [], acc), w[..i]) == SubState(1 + Depth(w[..i]), w[..i], acc)
  {
    if i > 0 {
      InnerRun(acc, w, i - 1);
      StepFacts(w, i);
      ClosesOkDepth(w, i);
      ClosesOkDepth(w, i - 1);
      assert w[..i] == w[..i - 1] + [w[i - 1]];
    }
  }

  lemma GroupRun(acc: seq<string>, w: string)
    requires ClosesOk(w) && Depth(w) == 0
    ensures SubRun(SubState(0, [], acc), "(" + w + ")") == SubState(0, [], acc + [w])
  {
    var st := SubState(0, [], acc);
    SubRunSnoc(st, [], '(');
    assert [] + ['('] == "(";
    assert SubRun(st, "(") == SubState(1, [], acc);
    var g := "(" + w;
    SubRunAppend(st, "(", w);
    InnerRun(acc, w, |w|);
    assert w[..|w|] == w;
    assert SubRun(st, g) == SubState(1, w, acc);
    SubRunSnoc(st, g, ')');
    assert g + [')'] == "(" + w + ")";
  }

  lemma {:induction false} RenderSplit(t: Term)
    requires ParenFree(t)
    ensures SubRun(SubStart, Render(t)) == SubState(0, [], Pieces(t))
  {
    match t
    case Leaf(c) =>
      SubRunSnoc(SubStart, [], c);
      assert [] + [c] == [c];
    case App(l, a) =>
      RenderSplit(l);
      SubRunAppend(SubStart, Render(l), RenderArg(a));
      if a.Leaf? {
        SubRunSnoc(SubState(0, [], Pieces(l)), [], a.c);
        assert [] + [a.c] == [a.c];
      } else {
        RenderWellDefined(a);
        GroupRun(Pieces(l), Render(a));
      }
  }

  // ----- parse -----

  function MaxLen(xs: seq<string>): nat
  {
    if xs == [] then 0
    else if |xs[0]| >= MaxLen(xs[1..]) then |xs[0]| else MaxLen(xs[1..])
  }

  lemma {:induction false} MaxLenBelow(xs: seq<string>, n: nat)
    requires forall x :: x in xs ==> |x| < n
    ensures MaxLen(xs) < n || xs == []
  {
    if xs != [] {
      MaxLenBelow(xs[1..], n);
    }
  }

  /** The term a well-defined statement stands for: a single character is an
      atom; otherwise the operands, each read in turn, applied left to right. */
  function ParseTerm(s: string): (t: Term)
    requires WellDefined(s)
    ensures ParenFree(t)
    decreases |s|, 0
  {
    if |s| == 1 then
      SingleCharWellDefined(s);
      Leaf(s[0])
    else
      SubStatementsWellDefined(s);
      SubStatementsShort(s);
      var subs := SubStatements(s);
      MaxLenBelow(subs, |s|);
      var ts := ParseAll(subs);
      LeftFoldParenFree(ts[0], ts[1..]);
      FoldApp(ts)
  }

  function ParseAll(xs: seq<string>): (ts: seq<Term>)
    requires forall x :: x in xs ==> WellDefined(x)
    ensures |ts| == |xs|
    ensures forall i :: 0 <= i < |ts| ==> ParenFree(ts[i])
    decreases MaxLen(xs), |xs|
  {
    if xs == [] then [] else [ParseTerm(xs[0])] + ParseAll(xs[1..])
  }

  lemma {:induction false} ParseAllSnoc(xs: seq<string>, y: string)
    requires forall x :: x in xs ==> WellDefined(x)
    requires WellDefined(y)
    ensures ParseAll(xs + [y]) == ParseAll(xs) + [ParseTerm(y)]
    decreases |xs|
  {
    if xs == [] {
      assert xs + [y] == [y];
    } else {
      assert (xs + [y])[1..] == xs[1..] + [y];
      ParseAllSnoc(xs[1..], y);
    }
  }

  lemma FoldAppSnoc(ts: seq<Term>, u: Term)
    requires |ts| > 0
    ensures FoldApp(ts + [u]) == App(FoldApp(ts), u)
  {
    assert (ts + [u])[1..] == ts[1..] + [u];
    LeftFoldSnoc(ts[0], ts[1..], u);
  }

  /** Parsing the canonical text of a term gives the term back. */
  lemma {:induction false} ParseRender(t: Term)
    requires ParenFree(t)
    ensures WellDefined(Render(t))
    ensures ParseTerm(Render(t)) == t
    decreases t, 1
  {
    RenderWellDefined(t);
    if t.App? {
      RenderSplit(t);
      PiecesParse(t);
    }
  }

  lemma {:induction false} PiecesParse(t: Term)
    requires ParenFree(t)
    ensures forall x :: x in Pieces(t) ==> WellDefined(x)
    ensures |Pieces(t)| > 0 && FoldApp(ParseAll(Pieces(t))) == t
    decreases t, 0
  {
    match t
    case Leaf(c) =>
      SingleCharWellDefined([c]);
    case App(l, a) =>
      PiecesParse(l);
      ParseRender(a);
      ParseAllSnoc(Pieces(l), Render(a));
      FoldAppSnoc(ParseAll(Pieces(l)), a);
  }

  /** Parsing then rendering is idempotent: the rendering of any parse is a
      fixed point of parse-then-render. */
  lemma ParseRenderIdempotent(s: string)
    requires WellDefined(s)
    ensures WellDefined(Render(ParseTerm(s)))
    ensures Render(ParseTerm(Render(ParseTerm(s)))) == Render(ParseTerm(s))
  {
    ParseRender(ParseTerm(s));
  }

  // ----- statements built from operands -----

  /** A top-level operand of a statement: a character, or a parenthesised group. */
  datatype Operand = Bare(c: char) | Group(w: string)

  function Text(o: Operand): string
  {
    match o
    case Bare(c) => [c]
    case Group(w) => "(" + w + ")"
  }

  /** What getSubStatements emits for the operand. */
  function Inner(o: Operand): string
  {
    match o
    case Bare(c) => [c]
    case Group(w) => w
  }

  ghost predicate ValidOperand(o: Operand)
  {
    match o
    case Bare(c) => c != '(' && c != ')'
    case Group(w) => WellDefined(w)
  }

  function Join(os: seq<Operand>): string
  {
    if os == [] then [] else Join(os[..|os| - 1]) + Text(os[|os| - 1])
  }

  function Inners(os: seq<Operand>): (r: seq<string>)
    ensures |r| == |os|
  {
    if os == [] then [] else Inners(os[..|os| - 1]) + [Inner(os[|os| - 1])]
  }

  lemma WellDefinedLast(w: string)
    requires WellDefined(w)
    ensures w[|w| - 1] != '('
  {
    ClosesOkDepth(w, |w| - 1);
    StepFacts(w, |w|);
    assert w[..|w|] == w;
  }

  /** A statement made of operands splits into exactly those operands, each
      group without its outer parentheses. */
  lemma {:induction false} SplitOperands(os: seq<Operand>)
    requires forall i :: 0 <= i < |os| ==> ValidOperand(os[i])
    ensures SubRun(SubStart, Join(os)) == SubState(0, [], Inners(os))
    ensures ClosesOk(Join(os)) && Depth(Join(os)) == 0
    ensures forall x :: x in Inners(os) ==> WellDefined(x)
    decreases |os|
  {
    if os == [] {
      assert ClosesOk([]);
    } else {
      var init, o := os[..|os| - 1], os[|os| - 1];
      assert os == init + [o];
      assert forall i :: 0 <= i < |init| ==> init[i] == os[i];
      SplitOperands(init);
      SplitOperandsStep(init, o);
    }
  }

  lemma SplitOperandsStep(init: seq<Operand>, o: Operand)
    requires ValidOperand(o)
    requires SubRun(SubStart, Join(init)) == SubState(0, [], Inners(init))
    requires ClosesOk(Join(init)) && Depth(Join(init)) == 0
    requires forall x :: x in Inners(init) ==> WellDefined(x)
    ensures SubRun(SubStart, Join(init + [o])) == SubState(0, [], Inners(init + [o]))
    ensures ClosesOk(Join(init + [o])) && Depth(Join(init + [o])) == 0
    ensures forall x :: x in Inners(init + [o]) ==> WellDefined(x)
  {
    var os := init + [o];
    assert os[..|os| - 1] == init && os[|os| - 1] == o;
    assert Join(os) == Join(init) + Text(o);
    assert Inners(os) == Inners(init) + [Inner(o)];
    SubRunAppend(SubStart, Join(init), Text(o));
    OperandFacts(Inners(init), o);
    ConcatClosesOk(Join(init), Text(o));
  }

  lemma OperandFacts(acc: seq<string>, o: Operand)
    requires ValidOperand(o)
    ensures SubRun(SubState(0, [], acc), Text(o)) == SubState(0, [], acc + [Inner(o)])
    ensures ClosesOk(Text(o)) && Depth(Text(o)) == 0 && WellDefined(Inner(o))
  {
    match o
    case Bare(c) =>
      SubRunSnoc(SubState(0, [], acc), [], c);
      assert [] + [c] == [c];
      SingleCharWellDefined([c]);
    case Group(w) =>
      GroupRun(acc, w);
      WellDefinedLast(w);
      WrapClosesOk(w);
  }

  /** The term of a statement made of at least two characters' worth of
      operands is the left-nested application of the operands' terms. */
  lemma ParseOperands(os: seq<Operand>)
    requires forall i :: 0 <= i < |os| ==> ValidOperand(os[i])
    requires |Join(os)| >= 2
    ensures WellDefined(Join(os))
    ensures SubStatements(Join(os)) == Inners(os)
    ensures forall x :: x in Inners(os) ==> WellDefined(x)
    ensures |os| > 0
    ensures ParseTerm(Join(os)) == FoldApp(ParseAll(Inners(os)))
  {
    SplitOperands(os);
  }
}
