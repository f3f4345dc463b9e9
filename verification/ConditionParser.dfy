/** The recursive-descent parser of WHERE conditions and the linked nodes it builds. */
module ConditionParser {
  import opened IndexTypes
  import opened ConditionSyntax
  import opened ConditionGrammar

  /** A condition node; next and leftTree own what they point to. */
  class ConditionNode {
    var cmp: Comparison
    var logicalOp: LogicalOp
    var next: ConditionNode?
    var leftTree: ConditionNode?
    var isParenthesized: bool

    constructor (c: Comparison)
      ensures cmp == c && logicalOp == NONE && next == null && leftTree == null && !isParenthesized
    {
      cmp, logicalOp, next, leftTree, isParenthesized := c, NONE, null, null, false;
    }
  }

  // ----- the nodes of a condition -----

  /** Which nodes make up a condition, and how they hang together. */
  datatype Layout = Layout(node: ConditionNode, next: Option<Layout>, left: Option<Layout>)

  ghost function Footprint(l: Layout): set<ConditionNode> {
    {l.node} + (if l.next.Some? then Footprint(l.next.value) else {})
    + (if l.left.Some? then Footprint(l.left.value) else {})
  }

  /** No node occurs twice. */
  ghost predicate Apart(l: Layout) {
    && (l.next.Some? ==> Apart(l.next.value) && l.node !in Footprint(l.next.value))
    && (l.left.Some? ==> Apart(l.left.value) && l.node !in Footprint(l.left.value))
    && (l.next.Some? && l.left.Some? ==> Footprint(l.next.value) !! Footprint(l.left.value))
  }

  /** The pointers of the nodes are those of the layout. */
  ghost predicate Linked(l: Layout)
    reads Footprint(l)
  {
    && (if l.next.Some? then l.node.next == l.next.value.node && Linked(l.next.value) else l.node.next == null)
    && (if l.left.Some? then l.node.leftTree == l.left.value.node && Linked(l.left.value) else l.node.leftTree == null)
  }

  ghost function ValueOf(l: Layout): Condition
    reads Footprint(l)
  {
    Condition(l.node.cmp, l.node.logicalOp,
              if l.next.Some? then Some(ValueOf(l.next.value)) else None,
              if l.left.Some? then Some(ValueOf(l.left.value)) else None,
              l.node.isParenthesized)
  }

  /** The node owns the condition c, laid out as l. */
  ghost predicate Owns(node: ConditionNode?, l: Layout, c: Condition)
    reads Footprint(l)
  {
    node == l.node && Apart(l) && Linked(l) && ValueOf(l) == c
  }

  ghost function Appended(l: Layout, r: Layout): Layout {
    if l.next.None? then l.(next := Some(r)) else l.(next := Some(Appended(l.next.value, r)))
  }

  lemma {:induction false} AppendedApart(l: Layout, r: Layout)
    requires Apart(l) && Apart(r) && Footprint(l) !! Footprint(r)
    ensures Apart(Appended(l, r)) && Footprint(Appended(l, r)) == Footprint(l) + Footprint(r)
  {
    if l.next.Some? {
      AppendedApart(l.next.value, r);
    }
  }

  /** Apart from its successor, the node of l is as c has it. */
  ghost predicate Same(l: Layout, c: Condition)
    reads {l.node} + if l.left.Some? then Footprint(l.left.value) else {}
  {
    && l.node.cmp == c.cmp && l.node.isParenthesized == c.isParenthesized && (c.leftTree.Some? <==> l.left.Some?)
    && if l.left.Some? then
         l.node.leftTree == l.left.value.node && Linked(l.left.value) && ValueOf(l.left.value) == c.leftTree.value
       else l.node.leftTree == null
  }

  /** Following next leads from l to its part at, and from c to its part rest; the nodes passed are
      as c has them. */
  ghost predicate Leads(l: Layout, at: Layout, c: Condition, rest: Condition)
    reads Footprint(l) - Footprint(at)
  {
    if l == at then c == rest
    else
      && l.next.Some? && c.next.Some?
      && l.node !in Footprint(at) && (l.left.Some? ==> Footprint(l.left.value) !! Footprint(at))
      && l.node.next == l.next.value.node && l.node.logicalOp == c.logicalOp && Same(l, c)
      && Leads(l.next.value, at, c.next.value, rest)
  }

  lemma {:induction false} LeadsOn(l: Layout, at: Layout, c: Condition, rest: Condition)
    requires Leads(l, at, c, rest) && Apart(l) && Apart(at) && at.next.Some? && Linked(at) && ValueOf(at) == rest
    ensures Leads(l, at.next.value, c, rest.next.value)
  {
    if l != at {
      LeadsOn(l.next.value, at, c.next.value, rest);
    }
  }

  /** Once the last node has been given the successor r, the nodes form the longer chain. */
  lemma {:induction false} Relinked(l: Layout, at: Layout, c: Condition, rest: Condition, r: Layout, op: LogicalOp)
    requires Leads(l, at, c, rest) && at.next.None? && rest.next.None? && Same(at, rest) && Linked(r)
    requires at.node.next == r.node && at.node.logicalOp == op
    ensures Linked(Appended(l, r)) && ValueOf(Appended(l, r)) == AppendLast(c, op, ValueOf(r))
    ensures Appended(l, r).node == l.node
  {
    if l != at {
      Relinked(l.next.value, at, c.next.value, rest, r, op);
    }
  }

  /** What the fields of the first node say. */
  lemma {:induction false} TopFields(node: ConditionNode, l: Layout, c: Condition)
    requires Owns(node, l, c)
    ensures node in Footprint(l) && (c.next.None? <==> node.next == null)
            && (c.leftTree.None? <==> node.leftTree == null)
    ensures c.isParenthesized == node.isParenthesized && c.logicalOp == node.logicalOp && c.cmp == node.cmp
  {
  }

  lemma {:induction false} TopNode(node: ConditionNode, l: Layout, c: Condition)
    requires Owns(node, l, c)
    ensures node in Footprint(l) && node == l.node && (c.next.None? <==> node.next == null)
    ensures (l.next.Some? <==> node.next != null) && Same(l, c)
    ensures node.next != null ==> Owns(node.next, l.next.value, c.next.value) && Footprint(l.next.value) <= Footprint(l)
  {
  }

  lemma {:induction false} OwnsApart(node: ConditionNode, l: Layout, c: Condition)
    requires Owns(node, l, c)
    ensures Apart(l) && Linked(l) && ValueOf(l) == c && node == l.node
  {
  }

  lemma {:induction false} OwnsAppended(node: ConditionNode, l: Layout, r: Layout, c: Condition)
    requires node == Appended(l, r).node && Apart(Appended(l, r)) && Linked(Appended(l, r))
             && ValueOf(Appended(l, r)) == c
    ensures Owns(node, Appended(l, r), c)
  {
  }

  lemma {:induction false} LeadsSelf(l: Layout, c: Condition)
    ensures Leads(l, l, c, c)
  {
  }

  lemma {:induction false} TwoNodes(node: ConditionNode, rl: Layout, rc: Condition, cmp: Comparison, op: LogicalOp)
    requires Owns(node.next, rl, rc) && node !in Footprint(rl) && node.leftTree == null && !node.isParenthesized
    requires node.cmp == cmp && node.logicalOp == op
    ensures Owns(node, Layout(node, Some(rl), None), Condition(cmp, op, Some(rc), None, false))
  {
  }

  lemma {:induction false} JoinedNodes(node: ConditionNode, ll: Layout, lc: Condition, rl: Layout, rc: Condition,
                                       op: LogicalOp)
    requires Owns(node.next, rl, rc) && Owns(node.leftTree, ll, lc) && Footprint(ll) !! Footprint(rl)
    requires node !in Footprint(rl) && node !in Footprint(ll) && !node.isParenthesized
    requires node.cmp == NO_COMPARISON && node.logicalOp == op
    ensures Owns(node, Layout(node, Some(rl), Some(ll)), Condition(NO_COMPARISON, op, Some(rc), Some(lc), false))
  {
  }

  lemma {:induction false} NodesOf(node: ConditionNode, rl: Layout, ll: Layout)
    ensures Footprint(Layout(node, Some(rl), None)) == {node} + Footprint(rl)
    ensures Footprint(Layout(node, Some(rl), Some(ll))) == {node} + Footprint(rl) + Footprint(ll)
  {
  }

  // ----- the parser -----

  class Parser {
    const tokens: seq<Token>
    var pos: nat

    constructor (ts: seq<Token>)
      ensures tokens == ts && pos == 0
    {
      tokens := ts;
      pos := 0;
    }

    ghost function Input(): seq<Word> {
      Words(tokens)
    }

    predicate IsEnd()
      reads this`pos
    {
      pos >= |tokens| || tokens[pos].kind == END
    }

    predicate Check(kind: TokenType)
      reads this`pos
    {
      !IsEnd() && tokens[pos].kind == kind
    }

    method Match(kind: TokenType) returns (matched: bool)
      requires WordOf(Token(kind, [], 0)).Sign? && kind != END
      modifies this`pos
      ensures matched == SignAt(Input(), old(pos), kind)
      ensures pos == if matched then old(pos) + 1 else old(pos)
      ensures matched ==> pos <= |tokens|
    {
      if Check(kind) {
        pos := pos + 1;
        return true;
      }
      return false;
    }

    method ParseOperand() returns (ok: bool, text: Text, isColumn: bool)
      modifies this`pos
      ensures ok == (old(pos) < |tokens| && Input()[old(pos)].Operand?)
      ensures ok ==> pos == old(pos) + 1 && Input()[old(pos)] == Operand(text, isColumn)
    {
      if IsEnd() {
        return false, [], false;
      }
      var token := tokens[pos];
      if token.kind == IDENTIFIER {
        pos := pos + 1;
        return true, token.value, true;
      } else if token.kind == INT_LITERAL || token.kind == STR_LITERAL {
        pos := pos + 1;
        return true, token.value, false;
      } else if token.kind == KW_NULL {
        pos := pos + 1;
        return true, NULL_TEXT, false;
      } else {
        return false, [], false;
      }
    }

    method ParseCompareOp() returns (op: Option<CompareOp>)
      modifies this`pos
      ensures op == CompareOpAt(Input(), old(pos)) && pos == if op.Some? then old(pos) + 1 else old(pos)
    {
      if IsEnd() {
        return None;
      }
      match tokens[pos].kind {
        case OP_EQ => op := Some(EQ);
        case OP_NEQ => op := Some(NEQ);
        case OP_LT => op := Some(LT);
        case OP_GT => op := Some(GT);
        case OP_LTE => op := Some(LTE);
        case OP_GTE => op := Some(GTE);
        case KW_BETWEEN => op := Some(BETWEEN);
        case KW_LIKE => op := Some(LIKE);
        case _ => return None;
      }
      pos := pos + 1;
    }

    /** The node that a method has built for the expression it has read up to end; null is a ParseError. */
    ghost predicate Result(r: Read, node: ConditionNode?, l: Layout, end: nat)
      reads Footprint(l)
    {
      (node == null <==> r.Failed?) && (r.Read? ==> end == r.end && Owns(node, l, Build(r.expr)))
    }

    method ParseComparison() returns (node: ConditionNode?, ghost l: Layout)
      modifies this`pos
      ensures Result(ComparisonAt(Input(), old(pos)), node, l, pos)
      ensures node != null ==> fresh(Footprint(l)) && forall n :: n in Footprint(l) ==> allocated(n)
    {
      hide ComparisonAt, Words;
      var cond := new ConditionNode(NO_COMPARISON);
      l := Layout(cond, None, None);
      var cmp := ParseFields();
      if cmp.None? {
        return null, l;
      }
      node := cond;
      node.cmp := cmp.value;
    }

    /** The operands and the operator of a comparison, one after the other. */
    method ParseFields() returns (cmp: Option<Comparison>)
      modifies this`pos
      ensures var r := ComparisonAt(Input(), old(pos));
              if r.Failed? then cmp == None else pos == r.end && cmp.Some? && r.expr == Compare(cmp.value)
    {
      var okLeft, left, leftIsColumn := ParseOperand();
      if !okLeft {
        return None;
      }
      var op := ParseCompareOp();
      if op.None? {
        return None;
      }
      var okRight, right, rightIsColumn := ParseOperand();
      if !okRight {
        return None;
      }
      var right2, right2IsColumn := [], false;
      if op.value == BETWEEN {
        var and := Match(KW_AND);
        if !and {
          return None;
        }
        var okRight2;
        okRight2, right2, right2IsColumn := ParseOperand();
        if !okRight2 {
          return None;
        }
      }
      cmp := Some(Comparison(left, leftIsColumn, op.value, right, rightIsColumn, right2, right2IsColumn));
    }

    /** The condition after WHERE. A ParseError means that no expression stands here; otherwise the expression is
        the only one that does, its tokens have been passed over, and the nodes form the structure for it. */
    method ParseCondition() returns (node: ConditionNode?, ghost l: Layout, ghost e: Expr)
      requires pos <= |tokens|
      modifies this`pos
      ensures node != null ==> StandsAt(tokens, old(pos), pos, e) && Owns(node, l, Build(e))
      ensures node != null ==> forall end, x :: StandsAt(tokens, old(pos), end, x) ==> x == e && end == pos
      ensures node == null ==> forall end, x :: !StandsAt(tokens, old(pos), end, x)
    {
      e := OnlyOne(Input(), pos);
      AllStandings(tokens, pos);
      hide ExprAt, Written, StandsAt, Spelled, Owns, Build, Words;
      node, l := ParseOrCondition();
    }

    method ParsePrimaryCondition() returns (node: ConditionNode?, ghost l: Layout)
      requires pos <= |tokens|
      modifies this`pos
      ensures Result(ExprAt(Input(), old(pos), PrimaryLevel), node, l, pos)
      ensures node != null ==> fresh(Footprint(l)) && forall n :: n in Footprint(l) ==> allocated(n)
      decreases |tokens| - pos, 0
    {
      AsManyWords(tokens);
      ghost var inner := PrimaryBegins(Input(), pos);
      hide ExprAt, RestAt, Build, BuildChain, Owns, Footprint, SignAt, Words, ComparisonAt;
      var open := Match(LPAREN);
      if !open {
        node, l := ParseComparison();
        return;
      }
      node, l := ParseGroup(inner);
    }

    /** The condition after an opening parenthesis, and the closing one. */
    method ParseGroup(ghost inner: Expr) returns (node: ConditionNode?, ghost l: Layout)
      requires pos <= |tokens|
      requires ExprAt(Input(), pos, OrLevel).Read? ==> ExprAt(Input(), pos, OrLevel).expr == inner
      modifies this`pos
      ensures var r := ExprAt(Input(), old(pos), OrLevel);
              && (node == null <==> r.Failed? || !SignAt(Input(), r.end, RPAREN))
              && (node != null ==> pos == r.end + 1 && Owns(node, l, Build(inner).(isParenthesized := true)))
      ensures node != null ==> fresh(Footprint(l)) && forall n :: n in Footprint(l) ==> allocated(n)
      decreases |tokens| - pos, 4
    {
      hide ExprAt, RestAt, Build, BuildChain, Owns, Footprint, SignAt, Words;
      node, l := ParseOrCondition();
      if node == null {
        return;
      }
      TopFields(node, l, Build(inner));
      var closed := CloseParenthesis(node, l, Build(inner));
      if !closed {
        return null, l;
      }
    }

    method CloseParenthesis(node: ConditionNode, ghost l: Layout, ghost c: Condition) returns (closed: bool)
      requires Owns(node, l, c) && forall n :: n in Footprint(l) ==> allocated(n)
      modifies this`pos, node
      ensures closed == SignAt(Input(), old(pos), RPAREN)
      ensures closed ==> pos == old(pos) + 1 && Owns(node, l, c.(isParenthesized := true))
    {
      closed := Match(RPAREN);
      if closed {
        node.isParenthesized := true;
      }
    }

    method ParseAndCondition() returns (node: ConditionNode?, ghost l: Layout)
      requires pos <= |tokens|
      modifies this`pos
      ensures Result(ExprAt(Input(), old(pos), AndLevel), node, l, pos)
      ensures node != null ==> fresh(Footprint(l)) && forall n :: n in Footprint(l) ==> allocated(n)
      decreases |tokens| - pos, 1
    {
      ghost var ws, start := Input(), ExprAt(Input(), pos, AndLevel);
      AsManyWords(tokens);
      ghost var x := ChainBegins(ws, pos, AndLevel);
      hide ExprAt, RestAt, InChain, Build, BuildChain, Footprint, Owns, Combine, SignAt, Words;
      node, l := ParsePrimaryCondition();
      if node == null {
        return;
      }
      ghost var xs, at := [x], pos;
      var more := Match(KW_AND);
      while more
        invariant node != null && fresh(Footprint(l)) && (forall n :: n in Footprint(l) ==> allocated(n))
        invariant Owns(node, l, BuildChain(AND, xs))
        invariant old(pos) < at <= |tokens| && InChain(ws, start, at, AndLevel, xs)
        invariant more == SignAt(ws, at, KW_AND) && pos == if more then at + 1 else at
        decreases |tokens| - at, more
      {
        node, l, x := MoreAnd(node, l, start, at, xs);
        if node == null {
          return;
        }
        xs, at := xs + [x], pos;
        more := Match(KW_AND);
      }
      ChainEnds(ws, start, at, AndLevel, xs);
    }

    /** The operand after AND. */
    method MoreAnd(node: ConditionNode, ghost l: Layout, ghost start: Read, ghost at: nat, ghost xs: seq<Expr>)
      returns (longer: ConditionNode?, ghost l': Layout, ghost x: Expr)
      requires Owns(node, l, BuildChain(AND, xs)) && forall n :: n in Footprint(l) ==> allocated(n)
      requires InChain(Input(), start, at, AndLevel, xs) && SignAt(Input(), at, KW_AND) && pos == at + 1 <= |tokens|
      modifies this`pos, Footprint(l)
      ensures longer == null ==> start.Failed?
      ensures longer != null ==>
                && Owns(longer, l', BuildChain(AND, xs + [x])) && InChain(Input(), start, pos, AndLevel, xs + [x])
                && old(pos) < pos <= |tokens|
                && forall n :: n in Footprint(l') ==> allocated(n) && (n in Footprint(l) || fresh(n))
      decreases |tokens| - pos, 3
    {
      AsManyWords(tokens);
      hide ExprAt, RestAt, Build, BuildChain, Footprint, Owns, SignAt, Words;
      x := ChainGoesOn(Input(), start, at, AndLevel, xs);
      hide InChain;
      var right, rl := ParsePrimaryCondition();
      if right == null {
        return null, l, x;
      }
      longer, l' := AddOperand(node, right, AND, l, rl, xs, x);
    }

    method ParseOrCondition() returns (node: ConditionNode?, ghost l: Layout)
      requires pos <= |tokens|
      modifies this`pos
      ensures Result(ExprAt(Input(), old(pos), OrLevel), node, l, pos)
      ensures node != null ==> fresh(Footprint(l)) && forall n :: n in Footprint(l) ==> allocated(n)
      decreases |tokens| - pos, 2
    {
      ghost var ws, start := Input(), ExprAt(Input(), pos, OrLevel);
      AsManyWords(tokens);
      ghost var x := ChainBegins(ws, pos, OrLevel);
      hide ExprAt, RestAt, InChain, Build, BuildChain, Footprint, Owns, Combine, SignAt, Words;
      node, l := ParseAndCondition();
      if node == null {
        return;
      }
      ghost var xs, at := [x], pos;
      var more := Match(KW_OR);
      while more
        invariant node != null && fresh(Footprint(l)) && (forall n :: n in Footprint(l) ==> allocated(n))
        invariant Owns(node, l, BuildChain(OR, xs))
        invariant old(pos) < at <= |tokens| && InChain(ws, start, at, OrLevel, xs)
        invariant more == SignAt(ws, at, KW_OR) && pos == if more then at + 1 else at
        decreases |tokens| - at, more
      {
        node, l, x := MoreOr(node, l, start, at, xs);
        if node == null {
          return;
        }
        xs, at := xs + [x], pos;
        more := Match(KW_OR);
      }
      ChainEnds(ws, start, at, OrLevel, xs);
    }

    /** The operand after OR. */
    method MoreOr(node: ConditionNode, ghost l: Layout, ghost start: Read, ghost at: nat, ghost xs: seq<Expr>)
      returns (longer: ConditionNode?, ghost l': Layout, ghost x: Expr)
      requires Owns(node, l, BuildChain(OR, xs)) && forall n :: n in Footprint(l) ==> allocated(n)
      requires InChain(Input(), start, at, OrLevel, xs) && SignAt(Input(), at, KW_OR) && pos == at + 1 <= |tokens|
      modifies this`pos, Footprint(l)
      ensures longer == null ==> start.Failed?
      ensures longer != null ==>
                && Owns(longer, l', BuildChain(OR, xs + [x])) && InChain(Input(), start, pos, OrLevel, xs + [x])
                && old(pos) < pos <= |tokens|
                && forall n :: n in Footprint(l') ==> allocated(n) && (n in Footprint(l) || fresh(n))
      decreases |tokens| - pos, 3
    {
      AsManyWords(tokens);
      hide ExprAt, RestAt, Build, BuildChain, Footprint, Owns, SignAt, Words;
      x := ChainGoesOn(Input(), start, at, OrLevel, xs);
      hide InChain;
      var right, rl := ParseAndCondition();
      if right == null {
        return null, l, x;
      }
      longer, l' := AddOperand(node, right, OR, l, rl, xs, x);
    }

    method CombineConditions(left: ConditionNode, right: ConditionNode, op: LogicalOp,
                             ghost ll: Layout, ghost rl: Layout, ghost lc: Condition, ghost rc: Condition)
      returns (combined: ConditionNode, ghost l: Layout)
      requires Owns(left, ll, lc) && Owns(right, rl, rc) && Footprint(ll) !! Footprint(rl)
      requires (forall n :: n in Footprint(ll) ==> allocated(n)) && forall n :: n in Footprint(rl) ==> allocated(n)
      modifies Footprint(ll)
      ensures Owns(combined, l, Combine(lc, rc, op))
      ensures forall n :: n in Footprint(l) ==> allocated(n) && (n in Footprint(ll) || n in Footprint(rl) || fresh(n))
    {
      hide AppendLast, Owns, Footprint, Linked, ValueOf;
      TopFields(left, ll, lc);
      if left.next == null && left.leftTree == null && !left.isParenthesized {
        combined, l := LinkTwo(left, right, op, rl, rc);
      } else if !left.isParenthesized && left.leftTree == null && left.next != null && left.logicalOp == op {
        combined, l := left, Appended(ll, rl);
        OwnsApart(left, ll, lc);
        OwnsApart(right, rl, rc);
        AppendedApart(ll, rl);
        hide Apart;
        AppendToLast(left, right, op, ll, rl, lc, rc);
      } else {
        combined, l := JoinTwo(left, right, op, ll, rl, lc, rc);
      }
    }

    /** A copy of a bare comparison, linked to what follows it. */
    method LinkTwo(left: ConditionNode, right: ConditionNode, op: LogicalOp, ghost rl: Layout, ghost rc: Condition)
      returns (combined: ConditionNode, ghost l: Layout)
      requires Owns(right, rl, rc) && forall n :: n in Footprint(rl) ==> allocated(n)
      ensures Owns(combined, l, Condition(left.cmp, op, Some(rc), None, false))
      ensures fresh(combined) && Footprint(l) == {combined} + Footprint(rl)
    {
      hide Owns, Footprint;
      combined := new ConditionNode(left.cmp);
      assert combined !in Footprint(rl);
      combined.logicalOp := op;
      combined.next := right;
      l := Layout(combined, Some(rl), None);
      TwoNodes(combined, rl, rc, left.cmp, op);
      NodesOf(combined, rl, rl);
    }

    /** A new node above both. */
    method JoinTwo(left: ConditionNode, right: ConditionNode, op: LogicalOp,
                   ghost ll: Layout, ghost rl: Layout, ghost lc: Condition, ghost rc: Condition)
      returns (combined: ConditionNode, ghost l: Layout)
      requires Owns(left, ll, lc) && Owns(right, rl, rc) && Footprint(ll) !! Footprint(rl)
      requires (forall n :: n in Footprint(ll) ==> allocated(n)) && forall n :: n in Footprint(rl) ==> allocated(n)
      ensures Owns(combined, l, Condition(NO_COMPARISON, op, Some(rc), Some(lc), false))
      ensures fresh(combined) && Footprint(l) == {combined} + Footprint(rl) + Footprint(ll)
    {
      hide Owns, Footprint;
      combined := new ConditionNode(NO_COMPARISON);
      assert combined !in Footprint(ll) && combined !in Footprint(rl);
      combined.logicalOp := op;
      combined.leftTree := left;
      combined.next := right;
      l := Layout(combined, Some(rl), Some(ll));
      JoinedNodes(combined, ll, lc, rl, rc, op);
      NodesOf(combined, rl, ll);
    }

    /** One more operand for the chain xs. */
    method AddOperand(left: ConditionNode, right: ConditionNode, op: LogicalOp, ghost ll: Layout, ghost rl: Layout,
                      ghost xs: seq<Expr>, ghost x: Expr)
      returns (combined: ConditionNode, ghost l: Layout)
      requires xs != [] && Owns(left, ll, BuildChain(op, xs)) && Owns(right, rl, Build(x))
               && Footprint(ll) !! Footprint(rl)
      requires (forall n :: n in Footprint(ll) ==> allocated(n)) && forall n :: n in Footprint(rl) ==> allocated(n)
      modifies Footprint(ll)
      ensures Owns(combined, l, BuildChain(op, xs + [x]))
      ensures forall n :: n in Footprint(l) ==> allocated(n) && (n in Footprint(ll) || n in Footprint(rl) || fresh(n))
    {
      hide Owns, Footprint, Combine, Build, BuildChain;
      BuildMore(op, xs, x);
      combined, l := CombineConditions(left, right, op, ll, rl, BuildChain(op, xs), Build(x));
    }

    /** Walks to the last node of the chain and links right behind it. */
    method AppendToLast(left: ConditionNode, right: ConditionNode, op: LogicalOp,
                        ghost ll: Layout, ghost rl: Layout, ghost lc: Condition, ghost rc: Condition)
      requires Owns(left, ll, lc) && Owns(right, rl, rc) && Footprint(ll) !! Footprint(rl)
      requires (forall n :: n in Footprint(ll) ==> allocated(n)) && forall n :: n in Footprint(rl) ==> allocated(n)
      modifies Footprint(ll)
      ensures Owns(left, Appended(ll, rl), AppendLast(lc, op, rc))
    {
      hide AppendLast, Footprint, Apart;
      var last: ConditionNode := left;
      ghost var at, rest := ll, lc;
      LeadsSelf(ll, lc);
      TopNode(left, ll, lc);
      while last.next != null
        invariant Owns(last, at, rest) && Footprint(at) <= Footprint(ll) && Leads(ll, at, lc, rest)
        invariant Owns(left, ll, lc) && Owns(right, rl, rc)
        decreases at
      {
        TopNode(last, at, rest);
        OwnsApart(left, ll, lc);
        OwnsApart(last, at, rest);
        LeadsOn(ll, at, lc, rest);
        last := last.next;
        at, rest := at.next.value, rest.next.value;
      }
      TopNode(last, at, rest);
      OwnsApart(left, ll, lc);
      OwnsApart(right, rl, rc);
      OwnsApart(last, at, rest);
      assert last in Footprint(ll) && last !in Footprint(rl) && last in Footprint(at);
      SetNext(last, right, op, at, rest);
      assert ValueOf(rl) == rc;
      assert Linked(rl);
      assert Leads(ll, at, lc, rest);
      AppendedApart(ll, rl);
      Relinked(ll, at, lc, rest, rl, op);
      OwnsAppended(left, ll, rl, AppendLast(lc, op, rc));
    }

    method SetNext(node: ConditionNode, next: ConditionNode, op: LogicalOp, ghost l: Layout, ghost c: Condition)
      requires Apart(l) && node == l.node && Same(l, c)
      modifies node
      ensures Same(l, c) && node.next == next && node.logicalOp == op
    {
      node.logicalOp := op;
      node.next := next;
    }
  }
}
