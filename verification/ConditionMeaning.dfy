/** When the structure that the parser builds evaluates to the usual meaning of the expression. */
module ConditionMeaning {
  import opened IndexTypes
  import opened ConditionSyntax

  /** The comparisons of an expression. */
  ghost function Comparisons(e: Expr): set<Comparison>
    decreases e, 1
  {
    match e
    case Compare(cmp) => {cmp}
    case Paren(inner) => Comparisons(inner)
    case Chain(_, xs) => ComparisonsOf(xs)
  }

  ghost function ComparisonsOf(xs: seq<Expr>): set<Comparison>
    decreases xs, 0
  {
    if xs == [] then {} else Comparisons(xs[0]) + ComparisonsOf(xs[1..])
  }

  /** No comparison is written twice. */
  ghost predicate AllDifferent(e: Expr) {
    match e
    case Compare(_) => true
    case Paren(inner) => AllDifferent(inner)
    case Chain(_, xs) =>
      && (forall i :: 0 <= i < |xs| ==> AllDifferent(xs[i]))
      && forall i, j :: 0 <= i < j < |xs| ==> Comparisons(xs[i]) !! Comparisons(xs[j])
  }

  /** The operators between the nodes that the structure for e links by next. */
  ghost function ChainOps(e: Expr): set<LogicalOp>
    decreases e, 1
  {
    match e
    case Compare(_) => {}
    case Paren(inner) => ChainOps(inner)
    case Chain(op, xs) =>
      if xs == [] then {op}
      else if xs[0].Compare? then {op} + ChainOpsOf(xs[1..])
      else {op} + ChainOps(xs[|xs| - 1])
  }

  ghost function ChainOpsOf(xs: seq<Expr>): set<LogicalOp>
    decreases xs, 0
  {
    if xs == [] then {} else ChainOpsOf(xs[..|xs| - 1]) + ChainOps(xs[|xs| - 1])
  }

  /** In every chain of three or more operands that starts with a bare comparison, the operands
      between the first and the last use no operator but that of the chain. */
  ghost predicate KeepsMeaning(e: Expr) {
    match e
    case Compare(_) => true
    case Paren(inner) => KeepsMeaning(inner)
    case Chain(op, xs) =>
      && (forall i :: 0 <= i < |xs| ==> KeepsMeaning(xs[i]))
      && (xs != [] && xs[0].Compare? ==> forall i :: 0 < i < |xs| - 1 ==> ChainOps(xs[i]) <= {op})
  }

  // ----- the linked structure -----

  ghost function NextOps(c: Condition): set<LogicalOp> {
    if c.next.None? then {} else {c.logicalOp} + NextOps(c.next.value)
  }

  ghost function Used(c: Condition): set<Comparison> {
    (if c.leftTree.Some? then Used(c.leftTree.value) else {c.cmp})
    + (if c.next.Some? then Used(c.next.value) else {})
  }

  /** A joining node has two sides, and nodes are linked by AND or OR. */
  ghost predicate WellLinked(c: Condition) {
    && (c.leftTree.Some? ==> c.next.Some? && WellLinked(c.leftTree.value))
    && (c.next.Some? ==> c.logicalOp != NONE && WellLinked(c.next.value))
  }

  lemma {:induction false} AppendFacts(c: Condition, op: LogicalOp, right: Condition)
    requires WellLinked(c) && WellLinked(right) && op != NONE
    ensures var a := AppendLast(c, op, right);
            && WellLinked(a) && NextOps(a) == NextOps(c) + {op} + NextOps(right) && Used(a) == Used(c) + Used(right)
            && a.leftTree == c.leftTree && a.next.Some? && a.isParenthesized == c.isParenthesized
            && (c.next.Some? ==> a.logicalOp == c.logicalOp) && (c.next.None? ==> a.logicalOp == op)
  {
    if c.next.Some? {
      AppendFacts(c.next.value, op, right);
    }
  }

  lemma {:induction false} AppendTwice(c: Condition, op: LogicalOp, a: Condition, b: Condition)
    ensures AppendLast(AppendLast(c, op, a), op, b) == AppendLast(c, op, AppendLast(a, op, b))
  {
    if c.next.Some? {
      AppendTwice(c.next.value, op, a, b);
    }
  }

  /** Appending to a chain with one operator joins the two values. */
  lemma {:induction false} AppendSameOp(c: Condition, op: LogicalOp, right: Condition, v: Comparison -> bool)
    requires WellLinked(c) && op != NONE && NextOps(c) <= {op}
    ensures Evaluate(AppendLast(c, op, right), v) == Join(op, Evaluate(c, v), Evaluate(right, v))
  {
    if c.next.Some? {
      assert c.logicalOp in NextOps(c);
      AppendSameOp(c.next.value, op, right, v);
    }
  }

  /** If the chain has the other operator somewhere and all its own comparisons are neutral for op,
      what is appended cannot be seen. */
  lemma {:induction false} AppendHidden(c: Condition, op: LogicalOp, right: Condition, v: Comparison -> bool)
    requires WellLinked(c) && op != NONE && !(NextOps(c) <= {op})
    requires forall cmp :: cmp in Used(c) ==> v(cmp) == (op == AND)
    ensures Evaluate(AppendLast(c, op, right), v) == (op == AND)
  {
    if c.leftTree.Some? {
      Constant(c.leftTree.value, v, op == AND);
    }
    if c.logicalOp == op {
      AppendHidden(c.next.value, op, right, v);
    }
  }

  lemma {:induction false} Constant(c: Condition, v: Comparison -> bool, b: bool)
    requires WellLinked(c) && forall cmp :: cmp in Used(c) ==> v(cmp) == b
    ensures Evaluate(c, v) == b
  {
    if c.leftTree.Some? {
      Constant(c.leftTree.value, v, b);
    }
    if c.next.Some? {
      Constant(c.next.value, v, b);
    }
  }

  // ----- building -----

  lemma {:induction false} Built(e: Expr, level: Level)
    requires Grammatical(e, level)
    ensures var c := Build(e);
            && WellLinked(c) && Used(c) == Comparisons(e) && NextOps(c) == ChainOps(e)
            && (e.Compare? ==> c == Bare(e.cmp)) && (e.Paren? ==> c.isParenthesized)
            && (e.Chain? ==> c.next.Some? && c.logicalOp == e.op && !c.isParenthesized)
    decreases e, 1
  {
    match e {
      case Compare(_) =>
      case Paren(inner) =>
        Built(inner, OrLevel);
        SameWhenParenthesized(Build(inner));
      case Chain(op, xs) =>
        BuiltChain(op, xs, Operand(op));
        assert xs[1..] == xs[1..|xs|];
    }
  }

  function Operand(op: LogicalOp): Level {
    if op == OR then AndLevel else PrimaryLevel
  }

  lemma SameWhenParenthesized(c: Condition)
    ensures var p := c.(isParenthesized := true);
            WellLinked(p) == WellLinked(c) && Used(p) == Used(c) && NextOps(p) == NextOps(c)
  {
  }

  lemma {:induction false} ComparisonsOfLast(xs: seq<Expr>)
    requires xs != []
    ensures ComparisonsOf(xs) == ComparisonsOf(xs[..|xs| - 1]) + Comparisons(xs[|xs| - 1])
  {
    if |xs| > 1 {
      ComparisonsOfLast(xs[1..]);
      assert xs[1..][..|xs| - 2] == xs[..|xs| - 1][1..];
    }
  }

  /** A chain that starts with a bare comparison is linked by next throughout; any other chain is a
      joining node over all but its last operand. */
  lemma {:induction false} BuiltChain(op: LogicalOp, xs: seq<Expr>, level: Level)
    requires op != NONE && level == Operand(op) && xs != [] && forall i :: 0 <= i < |xs| ==> Grammatical(xs[i], level)
    ensures var c := BuildChain(op, xs);
            && WellLinked(c) && Used(c) == ComparisonsOf(xs)
            && (|xs| == 1 ==> c == Build(xs[0]))
            && (|xs| > 1 ==> c.next.Some? && c.logicalOp == op && !c.isParenthesized)
            && (|xs| > 1 && xs[0].Compare? ==> c.leftTree.None? && NextOps(c) == {op} + ChainOpsOf(xs[1..]))
            && (|xs| > 1 && !xs[0].Compare? ==> c.leftTree.Some? && NextOps(c) == {op} + ChainOps(xs[|xs| - 1]))
    decreases xs, 0
  {
    var n := |xs| - 1;
    ComparisonsOfLast(xs);
    Built(xs[n], level);
    if n == 0 {
      assert xs[..n] == [];
      assert ComparisonsOf(xs) == Comparisons(xs[0]);
    } else {
      var front := xs[..n];
      BuiltChain(op, front, level);
      Built(xs[0], level);
      ChainGrown(op, xs, level);
    }
  }

  /** One more operand: what Combine does, by the kind of the first operand. */
  lemma ChainGrown(op: LogicalOp, xs: seq<Expr>, level: Level)
    requires op != NONE && level == Operand(op) && |xs| > 1 && forall i :: 0 <= i < |xs| ==> Grammatical(xs[i], level)
    requires var n := |xs| - 1; var f := BuildChain(op, xs[..n]); var r := Build(xs[n]);
             && WellLinked(f) && Used(f) == ComparisonsOf(xs[..n]) && WellLinked(r) && Used(r) == Comparisons(xs[n])
             && NextOps(r) == ChainOps(xs[n])
             && (n > 1 ==> f.next.Some? && f.logicalOp == op && !f.isParenthesized)
             && (n > 1 && xs[0].Compare? ==> f.leftTree.None? && NextOps(f) == {op} + ChainOpsOf(xs[..n][1..]))
             && (n > 1 && !xs[0].Compare? ==> f.leftTree.Some?)
             && (n == 1 && !xs[0].Compare? ==> f.isParenthesized || (f.next.Some? && f.logicalOp != op))
    ensures var n := |xs| - 1; var c := BuildChain(op, xs);
            && WellLinked(c) && Used(c) == ComparisonsOf(xs[..n]) + Comparisons(xs[n])
            && c.next.Some? && c.logicalOp == op && !c.isParenthesized
            && (xs[0].Compare? ==> c.leftTree.None? && NextOps(c) == {op} + ChainOpsOf(xs[1..]))
            && (!xs[0].Compare? ==> c.leftTree.Some? && NextOps(c) == {op} + ChainOps(xs[n]))
  {
    var n := |xs| - 1;
    var f, r := BuildChain(op, xs[..n]), Build(xs[n]);
    assert xs[1..][..n - 1] == xs[..n][1..];
    if xs[0].Compare? {
      if n == 1 {
        assert f == Bare(xs[0].cmp);
        assert xs[1..][..0] == [];
      } else {
        AppendFacts(f, op, r);
      }
    } else {
      assert BuildChain(op, xs) == Condition(NO_COMPARISON, op, Some(r), Some(f), false);
    }
  }

  lemma FirstNotBare(x: Expr, op: LogicalOp, level: Level)
    requires op != NONE && level == Operand(op) && Grammatical(x, level) && !x.Compare?
    ensures Build(x).isParenthesized || (Build(x).next.Some? && Build(x).logicalOp != op)
  {
    Built(x, level);
  }

  // ----- one chain -----

  /** The operands of a chain, each evaluated by itself, joined by the operator of the chain. */
  ghost predicate Joined(op: LogicalOp, xs: seq<Expr>, v: Comparison -> bool) {
    if op == AND then forall i :: 0 <= i < |xs| ==> Evaluate(Build(xs[i]), v)
    else exists i :: 0 <= i < |xs| && Evaluate(Build(xs[i]), v)
  }

  lemma JoinedLast(op: LogicalOp, xs: seq<Expr>, v: Comparison -> bool)
    requires op != NONE && xs != []
    ensures var n := |xs| - 1;
            Joined(op, xs, v) == if n == 0 then Evaluate(Build(xs[0]), v)
                                 else Join(op, Joined(op, xs[..n], v), Evaluate(Build(xs[n]), v))
  {
    var n := |xs| - 1;
    hide Build, Evaluate;
    assert forall i :: 0 <= i < n ==> xs[..n][i] == xs[i];
    if op == OR && Joined(op, xs, v) {
      var i :| 0 <= i < |xs| && Evaluate(Build(xs[i]), v);
      assert i == n || Evaluate(Build(xs[..n][i]), v);
    }
  }

  /** The operands between the first and the last use only the operator of the chain. */
  ghost predicate InnerSame(op: LogicalOp, xs: seq<Expr>) {
    xs != [] && xs[0].Compare? ==> forall i :: 0 < i < |xs| - 1 ==> ChainOps(xs[i]) <= {op}
  }

  lemma {:induction false} ChainOpsWithin(xs: seq<Expr>, ops: set<LogicalOp>)
    requires forall i :: 0 <= i < |xs| ==> ChainOps(xs[i]) <= ops
    ensures ChainOpsOf(xs) <= ops
  {
    if xs != [] {
      ChainOpsWithin(xs[..|xs| - 1], ops);
    }
  }

  lemma {:induction false} ChainOpsContain(xs: seq<Expr>, i: nat)
    requires i < |xs|
    ensures ChainOps(xs[i]) <= ChainOpsOf(xs)
  {
    if i < |xs| - 1 {
      ChainOpsContain(xs[..|xs| - 1], i);
    }
  }

  /** Then the chain evaluates as its operands joined. */
  lemma {:induction false} ChainValue(op: LogicalOp, xs: seq<Expr>, level: Level, v: Comparison -> bool)
    requires op != NONE && level == Operand(op) && xs != [] && forall i :: 0 <= i < |xs| ==> Grammatical(xs[i], level)
    requires InnerSame(op, xs)
    ensures Evaluate(BuildChain(op, xs), v) == Joined(op, xs, v)
  {
    var n := |xs| - 1;
    JoinedLast(op, xs, v);
    if n > 0 {
      var front := xs[..n];
      ChainValue(op, front, level, v);
      BuiltChain(op, front, level);
      var f, r := BuildChain(op, front), Build(xs[n]);
      if xs[0].Compare? {
        if n == 1 {
          assert f == Bare(xs[0].cmp);
        } else {
          ChainOpsWithin(front[1..], {op});
          AppendSameOp(f, op, r, v);
        }
      } else {
        if n == 1 {
          FirstNotBare(xs[0], op, level);
        }
        assert BuildChain(op, xs) == Condition(NO_COMPARISON, op, Some(r), Some(f), false);
      }
    }
  }

  /** An inner operand with the other operator hides all that follows it, when everything up to it
      is neutral. */
  lemma {:induction false} ChainHidden(op: LogicalOp, xs: seq<Expr>, k: nat, level: Level, v: Comparison -> bool)
    requires op != NONE && level == Operand(op) && forall i :: 0 <= i < |xs| ==> Grammatical(xs[i], level)
    requires 2 <= k < |xs| && xs[0].Compare? && !(ChainOpsOf(xs[1..k]) <= {op})
    requires forall cmp :: cmp in ComparisonsOf(xs[..k]) ==> v(cmp) == (op == AND)
    ensures Evaluate(BuildChain(op, xs), v) == (op == AND)
    ensures exists rest :: BuildChain(op, xs) == AppendLast(BuildChain(op, xs[..k]), op, rest)
  {
    var n := |xs| - 1;
    var front := xs[..n];
    var f, r := BuildChain(op, front), Build(xs[n]);
    var c := BuildChain(op, xs[..k]);
    BuiltChain(op, xs[..k], level);
    BuiltChain(op, front, level);
    assert BuildChain(op, xs) == AppendLast(f, op, r);
    assert xs[..k][1..] == xs[1..k];
    if k == n {
      AppendHidden(c, op, r, v);
    } else {
      assert front[..k] == xs[..k] && front[1..k] == xs[1..k];
      ChainHidden(op, front, k, level, v);
      var rest :| f == AppendLast(c, op, rest);
      AppendTwice(c, op, rest, r);
      AppendHidden(c, op, AppendLast(rest, op, r), v);
    }
  }

  // ----- both directions -----

  /** Enough: the structure has the usual meaning, whatever the comparisons come out as. */
  lemma {:induction false} MeaningKept(e: Expr, level: Level, v: Comparison -> bool)
    requires Grammatical(e, level) && KeepsMeaning(e)
    ensures Evaluate(Build(e), v) == Meaning(e, v)
  {
    match e {
      case Compare(_) =>
      case Paren(inner) =>
        MeaningKept(inner, OrLevel, v);
      case Chain(op, xs) =>
        ChainValue(op, xs, Operand(op), v);
        forall i | 0 <= i < |xs| ensures Evaluate(Build(xs[i]), v) == Meaning(xs[i], v) {
          MeaningKept(xs[i], Operand(op), v);
        }
    }
  }

  lemma {:induction false} MeaningConstant(e: Expr, level: Level, v: Comparison -> bool, b: bool)
    requires Grammatical(e, level) && forall cmp :: cmp in Comparisons(e) ==> v(cmp) == b
    ensures Meaning(e, v) == b
  {
    match e {
      case Compare(_) =>
      case Paren(inner) =>
        MeaningConstant(inner, OrLevel, v, b);
      case Chain(op, xs) =>
        forall i | 0 <= i < |xs| ensures Meaning(xs[i], v) == b {
          ComparisonsWithin(xs, i);
          MeaningConstant(xs[i], Operand(op), v, b);
        }
        assert Meaning(xs[0], v) == b;
    }
  }

  lemma {:induction false} ComparisonsWithin(xs: seq<Expr>, i: nat)
    requires i < |xs|
    ensures Comparisons(xs[i]) <= ComparisonsOf(xs)
  {
    if i > 0 {
      ComparisonsWithin(xs[1..], i - 1);
    }
  }

  lemma {:induction false} ComparisonsApart(xs: seq<Expr>, y: Expr)
    requires forall i :: 0 <= i < |xs| ==> Comparisons(xs[i]) !! Comparisons(y)
    ensures ComparisonsOf(xs) !! Comparisons(y)
  {
    if xs != [] {
      ComparisonsApart(xs[1..], y);
    }
  }

  /** Two valuations that agree on the comparisons of an expression. */
  lemma {:induction false} MeaningDepends(e: Expr, v: Comparison -> bool, w: Comparison -> bool)
    requires forall cmp :: cmp in Comparisons(e) ==> v(cmp) == w(cmp)
    ensures Meaning(e, v) == Meaning(e, w)
  {
    match e {
      case Compare(_) =>
      case Paren(inner) =>
        MeaningDepends(inner, v, w);
      case Chain(op, xs) =>
        forall i | 0 <= i < |xs| ensures Meaning(xs[i], v) == Meaning(xs[i], w) {
          ComparisonsWithin(xs, i);
          MeaningDepends(xs[i], v, w);
        }
    }
  }

  lemma {:induction false} EvaluateDepends(c: Condition, v: Comparison -> bool, w: Comparison -> bool)
    requires forall cmp :: cmp in Used(c) ==> v(cmp) == w(cmp)
    ensures Evaluate(c, v) == Evaluate(c, w)
  {
    if c.leftTree.Some? {
      EvaluateDepends(c.leftTree.value, v, w);
    }
    if c.next.Some? {
      EvaluateDepends(c.next.value, v, w);
    }
  }

  /** Needed: otherwise some truth values of the comparisons tell the two apart. */
  lemma {:induction false} MeaningLost(e: Expr, level: Level) returns (v: Comparison -> bool)
    requires Grammatical(e, level) && AllDifferent(e) && !KeepsMeaning(e)
    ensures Evaluate(Build(e), v) != Meaning(e, v)
  {
    match e {
      case Paren(inner) =>
        v := MeaningLost(inner, OrLevel);
      case Chain(op, xs) =>
        if InnerSame(op, xs) {
          var i :| 0 <= i < |xs| && !KeepsMeaning(xs[i]);
          var w := MeaningLost(xs[i], Operand(op));
          v := OnlyIn(Comparisons(xs[i]), w, op == AND);
          OperandLost(op, xs, i, w, v);
        } else {
          var i :| 0 < i < |xs| - 1 && !(ChainOps(xs[i]) <= {op});
          var w := (cmp: Comparison) => op != AND;
          v := OnlyIn(Comparisons(xs[i + 1]), w, op == AND);
          NextHidden(op, xs, i, v);
        }
    }
  }

  /** As w on some comparisons, and b on all others. */
  ghost function OnlyIn(cmps: set<Comparison>, w: Comparison -> bool, b: bool): Comparison -> bool {
    cmp => if cmp in cmps then w(cmp) else b
  }

  lemma OthersConstant(op: LogicalOp, xs: seq<Expr>, i: nat, w: Comparison -> bool)
    requires AllDifferent(Chain(op, xs)) && i < |xs| && Grammatical(Chain(op, xs), OrLevel)
    ensures var v := OnlyIn(Comparisons(xs[i]), w, op == AND);
            forall j :: 0 <= j < |xs| && j != i ==> Meaning(xs[j], v) == Evaluate(Build(xs[j]), v) == (op == AND)
  {
    var v := OnlyIn(Comparisons(xs[i]), w, op == AND);
    forall j | 0 <= j < |xs| && j != i ensures Meaning(xs[j], v) == Evaluate(Build(xs[j]), v) == (op == AND) {
      assert Comparisons(xs[i]) !! Comparisons(xs[j]);
      MeaningConstant(xs[j], Operand(op), v, op == AND);
      Built(xs[j], Operand(op));
      Constant(Build(xs[j]), v, op == AND);
    }
  }

  lemma OperandLost(op: LogicalOp, xs: seq<Expr>, i: nat, w: Comparison -> bool, v: Comparison -> bool)
    requires Grammatical(Chain(op, xs), OrLevel) && AllDifferent(Chain(op, xs)) && InnerSame(op, xs) && i < |xs|
    requires Evaluate(Build(xs[i]), w) != Meaning(xs[i], w) && v == OnlyIn(Comparisons(xs[i]), w, op == AND)
    ensures Evaluate(BuildChain(op, xs), v) != Meaning(Chain(op, xs), v)
  {
    OthersConstant(op, xs, i, w);
    ChainValue(op, xs, Operand(op), v);
    Built(xs[i], Operand(op));
    MeaningDepends(xs[i], v, w);
    EvaluateDepends(Build(xs[i]), v, w);
    hide Evaluate, Build, BuildChain, Comparisons;
    assert Evaluate(Build(xs[i]), v) != Meaning(xs[i], v);
  }

  lemma NextHidden(op: LogicalOp, xs: seq<Expr>, i: nat, v: Comparison -> bool)
    requires Grammatical(Chain(op, xs), OrLevel) && AllDifferent(Chain(op, xs)) && xs[0].Compare?
    requires 0 < i < |xs| - 1 && !(ChainOps(xs[i]) <= {op})
    requires v == OnlyIn(Comparisons(xs[i + 1]), (cmp: Comparison) => op != AND, op == AND)
    ensures Evaluate(BuildChain(op, xs), v) != Meaning(Chain(op, xs), v)
  {
    var k := i + 1;
    ChainOpsContain(xs[1..k], i - 1);
    forall j | 0 <= j < k ensures Comparisons(xs[..k][j]) !! Comparisons(xs[k]) {
      assert Comparisons(xs[j]) !! Comparisons(xs[k]);
    }
    ComparisonsApart(xs[..k], xs[k]);
    ChainHidden(op, xs, k, Operand(op), v);
    MeaningConstant(xs[k], Operand(op), v, op != AND);
    hide Evaluate, Build, BuildChain, Comparisons;
    assert Meaning(xs[k], v) == (op != AND);
  }

  /** The main result: for an expression whose comparisons are all different, the parsed structure
      evaluates to the usual meaning for all truth values exactly when KeepsMeaning holds. */
  lemma ParsedMeaning(e: Expr)
    requires Grammatical(e, OrLevel) && AllDifferent(e)
    ensures (forall v :: Evaluate(Build(e), v) == Meaning(e, v)) <==> KeepsMeaning(e)
  {
    if KeepsMeaning(e) {
      forall v ensures Evaluate(Build(e), v) == Meaning(e, v) {
        MeaningKept(e, OrLevel, v);
      }
    } else {
      var v := MeaningLost(e, OrLevel);
    }
  }

  /** a OR b AND c OR d is built, and evaluated, as a OR (b AND (c OR d)). */
  lemma ChainRegrouped(a: Comparison, b: Comparison, c: Comparison, d: Comparison, v: Comparison -> bool)
    requires forall x :: x in [a, b, c, d] ==> Grammatical(Compare(x), PrimaryLevel)
    ensures var e := Chain(OR, [Compare(a), Chain(AND, [Compare(b), Compare(c)]), Compare(d)]);
            && Grammatical(e, OrLevel) && !KeepsMeaning(e)
            && Evaluate(Build(e), v) == (v(a) || (v(b) && (v(c) || v(d))))
            && Meaning(e, v) == (v(a) || (v(b) && v(c)) || v(d))
  {
    var bc := Chain(AND, [Compare(b), Compare(c)]);
    var xs := [Compare(a), bc, Compare(d)];
    assert a in [a, b, c, d] && b in [a, b, c, d] && c in [a, b, c, d] && d in [a, b, c, d];
    assert bc.operands[0] == Compare(b) && bc.operands[1] == Compare(c);
    assert xs[0] == Compare(a) && xs[1] == bc && xs[2] == Compare(d);
    RegroupedValue(a, b, c, d, v);
    UsualValue(a, b, c, d, v);
    hide Build, BuildChain, Evaluate, Meaning;
    assert ChainOps(xs[1]) == {AND} + ChainOpsOf([Compare(b), Compare(c)][1..]);
    assert AND in ChainOps(xs[1]);
  }

  lemma UsualValue(a: Comparison, b: Comparison, c: Comparison, d: Comparison, v: Comparison -> bool)
    ensures var e := Chain(OR, [Compare(a), Chain(AND, [Compare(b), Compare(c)]), Compare(d)]);
            Meaning(e, v) == (v(a) || (v(b) && v(c)) || v(d))
  {
    var bc := Chain(AND, [Compare(b), Compare(c)]);
    var xs := [Compare(a), bc, Compare(d)];
    assert bc.operands[0] == Compare(b) && bc.operands[1] == Compare(c);
    assert Meaning(bc, v) == (v(b) && v(c));
    assert xs[0] == Compare(a) && xs[1] == bc && xs[2] == Compare(d);
  }

  lemma RegroupedValue(a: Comparison, b: Comparison, c: Comparison, d: Comparison, v: Comparison -> bool)
    ensures var e := Chain(OR, [Compare(a), Chain(AND, [Compare(b), Compare(c)]), Compare(d)]);
            Evaluate(Build(e), v) == (v(a) || (v(b) && (v(c) || v(d))))
  {
    var bc := Chain(AND, [Compare(b), Compare(c)]);
    var xs := [Compare(a), bc, Compare(d)];
    BuildTwo(AND, Compare(b), Compare(c));
    BuildTwo(OR, Compare(a), bc);
    assert xs[..2] == [Compare(a), bc];
    assert Build(bc) == Condition(b, AND, Some(Bare(c)), None, false);
    assert BuildChain(OR, xs) == AppendLast(BuildChain(OR, xs[..2]), OR, Bare(d));
    hide Build, BuildChain;
    var cd := Condition(c, OR, Some(Bare(d)), None, false);
    assert AppendLast(Build(bc), OR, Bare(d)) == Condition(b, AND, Some(cd), None, false);
    assert Evaluate(cd, v) == (v(c) || v(d));
    assert Evaluate(Condition(b, AND, Some(cd), None, false), v) == (v(b) && (v(c) || v(d)));
  }

  /** Why the main result asks for different comparisons: with one comparison throughout, the same
      expression keeps its meaning although it is regrouped. */
  lemma RepeatsCanAgree(a: Comparison, v: Comparison -> bool)
    requires Grammatical(Compare(a), PrimaryLevel)
    ensures var e := Chain(OR, [Compare(a), Chain(AND, [Compare(a), Compare(a)]), Compare(a)]);
            Grammatical(e, OrLevel) && !KeepsMeaning(e) && Evaluate(Build(e), v) == Meaning(e, v)
  {
    ChainRegrouped(a, a, a, a, v);
  }

  lemma BuildTwo(op: LogicalOp, a: Expr, b: Expr)
    ensures BuildChain(op, [a, b]) == Combine(Build(a), Build(b), op)
  {
    assert [a, b][..1] == [a];
  }
}
