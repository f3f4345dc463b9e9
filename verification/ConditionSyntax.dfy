/** WHERE conditions: their grammar, the linked structure the parser builds for them, and what
    both of them mean. */
module ConditionSyntax {
  import opened IndexTypes

  /** The four bytes of NULL, by which the parser passes on the keyword. */
  const NULL_TEXT: Text := [78, 85, 76, 76]

  datatype CompareOp = EQ | NEQ | LT | GT | LTE | GTE | BETWEEN | LIKE

  datatype LogicalOp = NONE | AND | OR

  /** One comparison, with its operands as the parser records them. */
  datatype Comparison = Comparison(left: Text, leftIsColumn: bool, op: CompareOp,
                                   right: Text, rightIsColumn: bool,
                                   right2: Text, right2IsColumn: bool)

  /** A node of the structure that the parser builds and the query engine walks. */
  datatype Condition = Condition(cmp: Comparison, logicalOp: LogicalOp, next: Option<Condition>,
                                 leftTree: Option<Condition>, isParenthesized: bool)

  /** What the user wrote: a chain has one operator and at least two operands. */
  datatype Expr = Compare(cmp: Comparison) | Paren(inner: Expr) | Chain(op: LogicalOp, operands: seq<Expr>)

  datatype Level = OrLevel | AndLevel | PrimaryLevel

  /** AND binds tighter than OR; parentheses group. */
  ghost predicate Grammatical(e: Expr, level: Level) {
    match e
    case Compare(cmp) => cmp.op == BETWEEN || (cmp.right2 == [] && !cmp.right2IsColumn)
    case Paren(inner) => Grammatical(inner, OrLevel)
    case Chain(op, xs) =>
      && |xs| >= 2
      && match op
         case NONE => false
         case OR => level == OrLevel && forall i :: 0 <= i < |xs| ==> Grammatical(xs[i], AndLevel)
         case AND => level != PrimaryLevel && forall i :: 0 <= i < |xs| ==> Grammatical(xs[i], PrimaryLevel)
  }

  /** The usual meaning, for given truth values of the comparisons. */
  ghost predicate Meaning(e: Expr, v: Comparison -> bool) {
    match e
    case Compare(cmp) => v(cmp)
    case Paren(inner) => Meaning(inner, v)
    case Chain(op, xs) =>
      if op == AND then forall i :: 0 <= i < |xs| ==> Meaning(xs[i], v)
      else exists i :: 0 <= i < |xs| && Meaning(xs[i], v)
  }

  predicate Join(op: LogicalOp, a: bool, b: bool) {
    if op == AND then a && b else a || b
  }

  /** How the query engine evaluates the structure. */
  predicate Evaluate(c: Condition, v: Comparison -> bool) {
    if c.leftTree.Some? then
      var left := Evaluate(c.leftTree.value, v);
      var right := c.next.Some? && Evaluate(c.next.value, v);
      Join(c.logicalOp, left, right)
    else if c.next.None? then
      v(c.cmp)
    else
      var next := Evaluate(c.next.value, v);
      if c.logicalOp == AND then v(c.cmp) && next
      else if c.logicalOp == OR then v(c.cmp) || next
      else v(c.cmp)
  }

  // ----- what the parser builds -----

  function Bare(cmp: Comparison): Condition {
    Condition(cmp, NONE, None, None, false)
  }

  /** The fields of a node that only joins two conditions. */
  const NO_COMPARISON: Comparison := Comparison([], false, EQ, [], false, [], false)

  /** The last node of the next-chain gets a successor. */
  function AppendLast(c: Condition, op: LogicalOp, right: Condition): Condition {
    if c.next.None? then c.(logicalOp := op, next := Some(right))
    else c.(next := Some(AppendLast(c.next.value, op, right)))
  }

  /** How an operand is added to the chain parsed so far. */
  function Combine(left: Condition, right: Condition, op: LogicalOp): Condition {
    if left.next.None? && left.leftTree.None? && !left.isParenthesized then
      Condition(left.cmp, op, Some(right), None, false)
    else if !left.isParenthesized && left.leftTree.None? && left.next.Some? && left.logicalOp == op then
      AppendLast(left, op, right)
    else
      Condition(NO_COMPARISON, op, Some(right), Some(left), false)
  }

  /** The structure for an expression. */
  function Build(e: Expr): Condition
    decreases e, 1
  {
    match e
    case Compare(cmp) => Bare(cmp)
    case Paren(inner) => Build(inner).(isParenthesized := true)
    case Chain(op, xs) => BuildChain(op, xs)
  }

  function BuildChain(op: LogicalOp, xs: seq<Expr>): Condition
    decreases xs, 0
  {
    if xs == [] then Bare(NO_COMPARISON)
    else if |xs| == 1 then Build(xs[0])
    else Combine(BuildChain(op, xs[..|xs| - 1]), Build(xs[|xs| - 1]), op)
  }

  lemma BuildMore(op: LogicalOp, xs: seq<Expr>, x: Expr)
    requires xs != []
    ensures BuildChain(op, xs + [x]) == Combine(BuildChain(op, xs), Build(x), op)
  {
    assert (xs + [x])[..|xs|] == xs;
  }

}
