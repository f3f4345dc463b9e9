/** Reading an expression from a token sequence: which tokens spell it, and what a parser that looks
    one token ahead must find. */
module ConditionGrammar {
  import opened IndexTypes
  import opened Sequences
  import opened ConditionSyntax

  datatype TokenType =
    | KW_SELECT | KW_FROM | KW_WHERE | KW_AS | KW_INSERT | KW_INTO | KW_VALUE | KW_UPDATE | KW_SET | KW_DELETE
    | KW_CREATE | KW_DROP | KW_USE | KW_DATABASE | KW_TABLE | KW_NOT_NULL | KW_INDEXED | KW_DEFAULT
    | KW_BETWEEN | KW_AND | KW_LIKE | KW_OR | KW_NULL | KW_SUM | KW_COUNT | KW_AVG
    | INT_LITERAL | STR_LITERAL | IDENTIFIER
    | OP_EQ | OP_NEQ | OP_LT | OP_GT | OP_LTE | OP_GTE | OP_ASSIGN
    | COMMA | SEMICOLON | LPAREN | RPAREN | STAR | DOT | BACKTICK | END

  datatype Token = Token(kind: TokenType, value: Text, line: nat)

  /** A token as conditions see it: an operand, or a sign. */
  datatype Word = Operand(text: Text, isColumn: bool) | Sign(kind: TokenType)

  function WordOf(t: Token): Word {
    match t.kind
    case IDENTIFIER => Operand(t.value, true)
    case INT_LITERAL => Operand(t.value, false)
    case STR_LITERAL => Operand(t.value, false)
    case KW_NULL => Operand(NULL_TEXT, false)
    case _ => Sign(t.kind)
  }

  function Words(ts: seq<Token>): seq<Word> {
    seq(|ts|, i requires 0 <= i < |ts| => WordOf(ts[i]))
  }

  lemma AsManyWords(ts: seq<Token>)
    ensures |Words(ts)| == |ts|
  {
  }

  function SignOf(op: CompareOp): TokenType {
    match op
    case EQ => OP_EQ
    case NEQ => OP_NEQ
    case LT => OP_LT
    case GT => OP_GT
    case LTE => OP_LTE
    case GTE => OP_GTE
    case BETWEEN => KW_BETWEEN
    case LIKE => KW_LIKE
  }

  function LogicalSign(op: LogicalOp): TokenType {
    if op == AND then KW_AND else KW_OR
  }

  // ----- spelling -----

  function Spelled(e: Expr): seq<Word>
    decreases e, 1
  {
    match e
    case Compare(c) =>
      [Operand(c.left, c.leftIsColumn), Sign(SignOf(c.op)), Operand(c.right, c.rightIsColumn)]
      + if c.op == BETWEEN then [Sign(KW_AND), Operand(c.right2, c.right2IsColumn)] else []
    case Paren(inner) => [Sign(LPAREN)] + Spelled(inner) + [Sign(RPAREN)]
    case Chain(op, xs) => if xs == [] then [] else Spelled(xs[0]) + SpelledRest(op, xs[1..])
  }

  /** Further operands of a chain, each after its operator. */
  function SpelledRest(op: LogicalOp, xs: seq<Expr>): seq<Word>
    decreases xs, 0
  {
    if xs == [] then [] else SpelledRest(op, xs[..|xs| - 1]) + [Sign(LogicalSign(op))] + Spelled(xs[|xs| - 1])
  }

  /** The words from position pos on spell out text. */
  ghost predicate Reads(ws: seq<Word>, pos: nat, text: seq<Word>) {
    pos + |text| <= |ws| && ws[pos..pos + |text|] == text
  }

  predicate SignAt(ws: seq<Word>, pos: nat, kind: TokenType) {
    pos < |ws| && ws[pos] == Sign(kind)
  }

  /** The word at pos would continue an expression of this level. */
  predicate Continues(ws: seq<Word>, pos: nat, level: Level) {
    match level
    case OrLevel => SignAt(ws, pos, KW_OR) || SignAt(ws, pos, KW_AND)
    case AndLevel => SignAt(ws, pos, KW_AND)
    case PrimaryLevel => false
  }

  // ----- reading -----

  datatype Read = Read(expr: Expr, end: nat) | Failed

  function CompareOpAt(ws: seq<Word>, pos: nat): Option<CompareOp> {
    if pos >= |ws| || ws[pos].Operand? then None
    else match ws[pos].kind
      case OP_EQ => Some(EQ)
      case OP_NEQ => Some(NEQ)
      case OP_LT => Some(LT)
      case OP_GT => Some(GT)
      case OP_LTE => Some(LTE)
      case OP_GTE => Some(GTE)
      case KW_BETWEEN => Some(BETWEEN)
      case KW_LIKE => Some(LIKE)
      case _ => None
  }

  function ComparisonAt(ws: seq<Word>, pos: nat): (r: Read)
    ensures r.Read? ==> pos < r.end <= |ws|
  {
    var op := CompareOpAt(ws, pos + 1);
    if op.None? || ws[pos].Sign? || pos + 2 >= |ws| || ws[pos + 2].Sign? then Failed
    else if op.value == BETWEEN then
      if SignAt(ws, pos + 3, KW_AND) && pos + 4 < |ws| && ws[pos + 4].Operand? then
        Read(Compare(Comparison(ws[pos].text, ws[pos].isColumn, BETWEEN, ws[pos + 2].text, ws[pos + 2].isColumn,
                                ws[pos + 4].text, ws[pos + 4].isColumn)), pos + 5)
      else Failed
    else
      Read(Compare(Comparison(ws[pos].text, ws[pos].isColumn, op.value, ws[pos + 2].text, ws[pos + 2].isColumn, [],
                              false)), pos + 3)
  }

  /** How loosely an expression of this level binds. */
  function Looseness(level: Level): nat {
    match level case PrimaryLevel => 0 case AndLevel => 1 case OrLevel => 2
  }

  function OpOf(level: Level): LogicalOp {
    match level case OrLevel => OR case AndLevel => AND case PrimaryLevel => NONE
  }

  function Inner(level: Level): Level {
    if level == OrLevel then AndLevel else PrimaryLevel
  }

  /** The expression of this level that starts at pos, if there is one. */
  function ExprAt(ws: seq<Word>, pos: nat, level: Level): (r: Read)
    ensures r.Read? ==> pos < r.end <= |ws|
    decreases |ws| - pos, Looseness(level), 0
  {
    if pos >= |ws| then Failed
    else if level == PrimaryLevel then
      if SignAt(ws, pos, LPAREN) then
        match ExprAt(ws, pos + 1, OrLevel)
        case Failed => Failed
        case Read(e, q) => if SignAt(ws, q, RPAREN) then Read(Paren(e), q + 1) else Failed
      else ComparisonAt(ws, pos)
    else
      match ExprAt(ws, pos, Inner(level))
      case Failed => Failed
      case Read(e, q) => RestAt(ws, q, level, [e])
  }

  function Chained(op: LogicalOp, xs: seq<Expr>): Expr
    requires xs != []
  {
    if |xs| == 1 then xs[0] else Chain(op, xs)
  }

  /** More operands of the chain whose operands up to pos are xs. */
  function RestAt(ws: seq<Word>, pos: nat, level: Level, xs: seq<Expr>): (r: Read)
    requires pos <= |ws| && xs != [] && level != PrimaryLevel
    ensures r.Read? ==> pos <= r.end <= |ws|
    decreases |ws| - pos, Looseness(level), 1
  {
    if SignAt(ws, pos, LogicalSign(OpOf(level))) then
      match ExprAt(ws, pos + 1, Inner(level))
      case Failed => Failed
      case Read(e, q) => RestAt(ws, q, level, xs + [e])
    else Read(Chained(OpOf(level), xs), pos)
  }

  // ----- one step of reading -----

  lemma PrimaryBegins(ws: seq<Word>, pos: nat) returns (x: Expr)
    requires pos <= |ws|
    ensures !SignAt(ws, pos, LPAREN) ==> ExprAt(ws, pos, PrimaryLevel) == ComparisonAt(ws, pos)
    ensures SignAt(ws, pos, LPAREN) ==>
              var r, start := ExprAt(ws, pos + 1, OrLevel), ExprAt(ws, pos, PrimaryLevel);
              if r.Failed? then start == Failed
              else x == r.expr && start == (if SignAt(ws, r.end, RPAREN) then Read(Paren(x), r.end + 1) else Failed)
                   && Build(Paren(x)) == Build(x).(isParenthesized := true)
  {
    var r := ExprAt(ws, pos + 1, OrLevel);
    x := if r.Failed? then Compare(NO_COMPARISON) else r.expr;
  }

  /** A chain is being read: its operands up to at are xs, and start is what it will come out as. */
  ghost predicate InChain(ws: seq<Word>, start: Read, at: nat, level: Level, xs: seq<Expr>) {
    level != PrimaryLevel && xs != [] && at <= |ws| && start == RestAt(ws, at, level, xs)
  }

  lemma ChainBegins(ws: seq<Word>, pos: nat, level: Level) returns (x: Expr)
    requires pos <= |ws| && level != PrimaryLevel
    ensures var r, start := ExprAt(ws, pos, Inner(level)), ExprAt(ws, pos, level);
            if r.Failed? then start == Failed
            else x == r.expr && InChain(ws, start, r.end, level, [x]) && BuildChain(OpOf(level), [x]) == Build(x)
  {
    var r := ExprAt(ws, pos, Inner(level));
    x := if r.Failed? then Compare(NO_COMPARISON) else r.expr;
  }

  lemma ChainGoesOn(ws: seq<Word>, start: Read, at: nat, level: Level, xs: seq<Expr>) returns (x: Expr)
    requires InChain(ws, start, at, level, xs) && SignAt(ws, at, LogicalSign(OpOf(level)))
    ensures at + 1 <= |ws|
    ensures var r := ExprAt(ws, at + 1, Inner(level));
            if r.Failed? then start == Failed
            else x == r.expr && InChain(ws, start, r.end, level, xs + [x])
  {
    var r := ExprAt(ws, at + 1, Inner(level));
    x := if r.Failed? then Compare(NO_COMPARISON) else r.expr;
  }

  lemma ChainEnds(ws: seq<Word>, start: Read, at: nat, level: Level, xs: seq<Expr>)
    requires InChain(ws, start, at, level, xs) && !SignAt(ws, at, LogicalSign(OpOf(level)))
    ensures start.Read? && start.end == at && Build(start.expr) == BuildChain(OpOf(level), xs)
  {
  }

  // ----- what is read is what is spelled -----

  lemma ReadsJoin(ws: seq<Word>, pos: nat, a: seq<Word>, b: seq<Word>)
    ensures Reads(ws, pos, a + b) <==> Reads(ws, pos, a) && Reads(ws, pos + |a|, b)
  {
    if pos + |a| + |b| <= |ws| {
      var x, y := ws[pos..pos + |a|], ws[pos + |a|..pos + |a + b|];
      assert ws[pos..pos + |a + b|] == x + y;
      assert (a + b)[..|a|] == a && (a + b)[|a|..] == b && (x + y)[..|a|] == x && (x + y)[|a|..] == y;
    }
  }

  lemma ReadsSign(ws: seq<Word>, pos: nat, kind: TokenType)
    ensures Reads(ws, pos, [Sign(kind)]) <==> SignAt(ws, pos, kind)
  {
    if pos < |ws| {
      assert ws[pos..pos + 1] == [ws[pos]];
    }
  }

  lemma ComparisonRead(ws: seq<Word>, pos: nat)
    ensures var r := ComparisonAt(ws, pos);
            r.Read? ==> r.expr.Compare? && Grammatical(r.expr, PrimaryLevel)
                        && Reads(ws, pos, Spelled(r.expr)) && r.end == pos + |Spelled(r.expr)|
  {
    var r := ComparisonAt(ws, pos);
    if r.Read? {
      assert ws[pos..r.end] == Spelled(r.expr);
    }
  }

  lemma ParenSpelled(ws: seq<Word>, pos: nat, inner: Expr)
    ensures |Spelled(Paren(inner))| == |Spelled(inner)| + 2
    ensures Reads(ws, pos, Spelled(Paren(inner))) <==>
              SignAt(ws, pos, LPAREN) && Reads(ws, pos + 1, Spelled(inner))
                && SignAt(ws, pos + 1 + |Spelled(inner)|, RPAREN)
  {
    var text := Spelled(inner);
    ReadsJoin(ws, pos, [Sign(LPAREN)] + text, [Sign(RPAREN)]);
    ReadsJoin(ws, pos, [Sign(LPAREN)], text);
    ReadsSign(ws, pos, LPAREN);
    ReadsSign(ws, pos + 1 + |text|, RPAREN);
  }

  /** Soundness: what is read is an expression of its level, spelled by the words passed over, and
      the next word does not continue it. */
  lemma {:induction false} ReadIsSpelled(ws: seq<Word>, pos: nat, level: Level)
    requires pos <= |ws| && ExprAt(ws, pos, level).Read?
    ensures var r := ExprAt(ws, pos, level);
            && Grammatical(r.expr, level) && Reads(ws, pos, Spelled(r.expr)) && r.end == pos + |Spelled(r.expr)|
            && !Continues(ws, r.end, level) && (level == PrimaryLevel ==> !r.expr.Chain?)
    decreases |ws| - pos, Looseness(level), 0
  {
    if level == PrimaryLevel {
      if SignAt(ws, pos, LPAREN) {
        var r := ExprAt(ws, pos + 1, OrLevel);
        ReadIsSpelled(ws, pos + 1, OrLevel);
        ParenSpelled(ws, pos, r.expr);
        hide Spelled, SpelledRest, Reads;
      } else {
        ComparisonRead(ws, pos);
      }
    } else {
      hide Spelled, Reads, Grammatical, ChainRead;
      var r := ExprAt(ws, pos, Inner(level));
      ReadIsSpelled(ws, pos, Inner(level));
      ChainOfOne(ws, pos, r.end, level, r.expr);
      RestIsSpelled(ws, pos, r.end, level, [r.expr]);
    }
  }

  lemma ChainOfOne(ws: seq<Word>, pos: nat, end: nat, level: Level, e: Expr)
    requires Grammatical(e, Inner(level)) && Reads(ws, pos, Spelled(e)) && end == pos + |Spelled(e)|
    ensures ChainRead(ws, pos, end, level, [e])
  {
    hide Spelled, Grammatical;
    assert [e][1..] == [] && Spelled(e) + [] == Spelled(e);
  }

  lemma ChainFinished(ws: seq<Word>, start: nat, pos: nat, level: Level, xs: seq<Expr>)
    requires level != PrimaryLevel && ChainRead(ws, start, pos, level, xs)
    ensures var e := Chained(OpOf(level), xs);
            Grammatical(e, level) && Reads(ws, start, Spelled(e)) && pos == start + |Spelled(e)|
  {
    if |xs| == 1 {
      assert xs[1..] == [] && Spelled(xs[0]) + [] == Spelled(xs[0]);
      Loosened(xs[0], level);
    }
  }

  /** The operands xs of a chain, as the words between start and pos spell them. */
  ghost predicate ChainRead(ws: seq<Word>, start: nat, pos: nat, level: Level, xs: seq<Expr>) {
    && xs != [] && (forall i :: 0 <= i < |xs| ==> Grammatical(xs[i], Inner(level)))
    && Reads(ws, start, SpelledChain(OpOf(level), xs)) && pos == start + |SpelledChain(OpOf(level), xs)|
  }

  function SpelledChain(op: LogicalOp, xs: seq<Expr>): seq<Word>
    requires xs != []
  {
    Spelled(xs[0]) + SpelledRest(op, xs[1..])
  }

  lemma ChainReadMore(ws: seq<Word>, start: nat, pos: nat, level: Level, xs: seq<Expr>, e: Expr)
    requires ChainRead(ws, start, pos, level, xs) && SignAt(ws, pos, LogicalSign(OpOf(level)))
    requires Grammatical(e, Inner(level)) && Reads(ws, pos + 1, Spelled(e))
    ensures ChainRead(ws, start, pos + 1 + |Spelled(e)|, level, xs + [e])
  {
    var op := OpOf(level);
    hide Spelled, SpelledRest, SpelledChain, Reads, Grammatical, OpOf, LogicalSign, SignAt;
    SpelledMore(op, xs, e);
    ReadsMore(ws, start, SpelledChain(op, xs), LogicalSign(op), Spelled(e));
  }

  lemma ReadsMore(ws: seq<Word>, start: nat, text: seq<Word>, kind: TokenType, tail: seq<Word>)
    requires Reads(ws, start, text) && SignAt(ws, start + |text|, kind) && Reads(ws, start + |text| + 1, tail)
    ensures Reads(ws, start, text + [Sign(kind)] + tail)
  {
    ReadsSign(ws, start + |text|, kind);
    ReadsJoin(ws, start, text, [Sign(kind)]);
    ReadsJoin(ws, start, text + [Sign(kind)], tail);
  }

  lemma SpelledMore(op: LogicalOp, xs: seq<Expr>, e: Expr)
    requires xs != []
    ensures SpelledChain(op, xs + [e]) == SpelledChain(op, xs) + [Sign(LogicalSign(op))] + Spelled(e)
  {
    hide Spelled, SpelledRest, SpelledChain;
    var rest := xs[1..];
    assert (xs + [e])[1..] == rest + [e] && (xs + [e])[0] == xs[0];
    ChainHead(op, xs);
    ChainHead(op, xs + [e]);
    RestGrown(op, rest, e);
    var sign := [Sign(LogicalSign(op))];
    ConcatAssociative(Spelled(xs[0]), SpelledRest(op, rest) + sign, Spelled(e));
    ConcatAssociative(Spelled(xs[0]), SpelledRest(op, rest), sign);
  }

  lemma ChainHead(op: LogicalOp, xs: seq<Expr>)
    requires xs != []
    ensures SpelledChain(op, xs) == Spelled(xs[0]) + SpelledRest(op, xs[1..])
  {
  }

  lemma RestGrown(op: LogicalOp, rest: seq<Expr>, e: Expr)
    ensures SpelledRest(op, rest + [e]) == SpelledRest(op, rest) + [Sign(LogicalSign(op))] + Spelled(e)
  {
    hide Spelled;
    assert (rest + [e])[..|rest + [e]| - 1] == rest && (rest + [e])[|rest + [e]| - 1] == e;
  }

  lemma {:induction false} RestIsSpelled(ws: seq<Word>, start: nat, pos: nat, level: Level, xs: seq<Expr>)
    requires start < pos <= |ws| && level != PrimaryLevel && xs != [] && ChainRead(ws, start, pos, level, xs)
    requires RestAt(ws, pos, level, xs).Read? && !Continues(ws, pos, Inner(level))
    ensures var r := RestAt(ws, pos, level, xs);
            && Grammatical(r.expr, level) && Reads(ws, start, Spelled(r.expr)) && r.end == start + |Spelled(r.expr)|
            && !Continues(ws, r.end, level)
    decreases |ws| - pos, Looseness(level), 1
  {
    hide ExprAt, Spelled, SpelledRest, SpelledChain, Reads, Grammatical, ChainRead;
    if SignAt(ws, pos, LogicalSign(OpOf(level))) {
      var r := ExprAt(ws, pos + 1, Inner(level));
      ReadIsSpelled(ws, pos + 1, Inner(level));
      ChainReadMore(ws, start, pos, level, xs, r.expr);
      RestIsSpelled(ws, start, r.end, level, xs + [r.expr]);
    } else {
      ChainFinished(ws, start, pos, level, xs);
    }
  }

  /** An operand of a level is an expression of that level. */
  lemma Loosened(e: Expr, level: Level)
    requires level != PrimaryLevel && Grammatical(e, Inner(level))
    ensures Grammatical(e, level)
  {
  }

  // ----- what is spelled is read -----

  lemma ComparisonSpelled(ws: seq<Word>, pos: nat, e: Expr)
    requires e.Compare? && Grammatical(e, PrimaryLevel) && Reads(ws, pos, Spelled(e))
    ensures ComparisonAt(ws, pos) == Read(e, pos + |Spelled(e)|) && !SignAt(ws, pos, LPAREN)
  {
    var text := Spelled(e);
    var read := ws[pos..pos + |text|];
    assert read[0] == ws[pos] && read[1] == ws[pos + 1] && read[2] == ws[pos + 2];
    if e.cmp.op == BETWEEN {
      assert read[3] == ws[pos + 3] && read[4] == ws[pos + 4];
    }
  }

  lemma ParenAt(ws: seq<Word>, pos: nat, inner: Expr, q: nat)
    requires pos + 1 <= |ws| && SignAt(ws, pos, LPAREN)
    requires ExprAt(ws, pos + 1, OrLevel) == Read(inner, q) && SignAt(ws, q, RPAREN)
    ensures ExprAt(ws, pos, PrimaryLevel) == Read(Paren(inner), q + 1)
  {
  }

  lemma LevelAt(ws: seq<Word>, pos: nat, level: Level, e: Expr, q: nat)
    requires pos <= |ws| && level != PrimaryLevel && ExprAt(ws, pos, Inner(level)) == Read(e, q)
    ensures q <= |ws| && ExprAt(ws, pos, level) == RestAt(ws, q, level, [e])
    ensures !SignAt(ws, q, LogicalSign(OpOf(level))) ==> ExprAt(ws, pos, level) == Read(e, q)
  {
  }

  lemma MoreAt(ws: seq<Word>, pos: nat, level: Level, xs: seq<Expr>, e: Expr, q: nat)
    requires pos < |ws| && xs != [] && level != PrimaryLevel && SignAt(ws, pos, LogicalSign(OpOf(level)))
    requires ExprAt(ws, pos + 1, Inner(level)) == Read(e, q)
    ensures q <= |ws| && RestAt(ws, pos, level, xs) == RestAt(ws, q, level, xs + [e])
  {
  }

  /** Completeness: an expression that is spelled from pos on, and not continued by the next word,
      is the one that is read. */
  lemma {:induction false} SpelledIsRead(ws: seq<Word>, pos: nat, level: Level, e: Expr)
    requires pos <= |ws| && Grammatical(e, level) && Reads(ws, pos, Spelled(e))
    requires !Continues(ws, pos + |Spelled(e)|, level)
    ensures ExprAt(ws, pos, level) == Read(e, pos + |Spelled(e)|)
    decreases e, Looseness(level), 0
  {
    hide ExprAt, RestAt, Reads, Spelled, SpelledRest;
    if level == PrimaryLevel {
      if e.Compare? {
        ComparisonSpelled(ws, pos, e);
        CompareAt(ws, pos);
      } else {
        ParenSpelled(ws, pos, e.inner);
        var q := pos + 1 + |Spelled(e.inner)|;
        NotContinued(ws, q);
        SpelledIsRead(ws, pos + 1, OrLevel, e.inner);
        ParenAt(ws, pos, e.inner, q);
      }
    } else if e.Chain? && e.op == OpOf(level) {
      var xs := e.operands;
      ChainStart(ws, pos, level, xs);
      SpelledIsRead(ws, pos, Inner(level), xs[0]);
      var mid := pos + |Spelled(xs[0])|;
      LevelAt(ws, pos, level, xs[0], mid);
      assert xs[..1] == [xs[0]];
      ChainSpelledIsRead(ws, mid, level, xs, 1);
    } else {
      SpelledIsRead(ws, pos, Inner(level), e);
      LevelAt(ws, pos, level, e, pos + |Spelled(e)|);
    }
  }

  lemma ReadsWithin(ws: seq<Word>, pos: nat, text: seq<Word>)
    requires Reads(ws, pos, text)
    ensures pos + |text| <= |ws|
  {
  }

  lemma CompareAt(ws: seq<Word>, pos: nat)
    requires pos <= |ws| && !SignAt(ws, pos, LPAREN)
    ensures ExprAt(ws, pos, PrimaryLevel) == ComparisonAt(ws, pos)
  {
  }

  lemma NotContinued(ws: seq<Word>, pos: nat)
    requires SignAt(ws, pos, RPAREN)
    ensures !Continues(ws, pos, OrLevel)
  {
  }

  /** The spelling of the operands from k on starts with the operator. */
  lemma {:induction false} RestSpelledAt(ws: seq<Word>, pos: nat, level: Level, xs: seq<Expr>, k: nat)
    requires level != PrimaryLevel && 1 <= k < |xs| && Reads(ws, pos, SpelledRest(OpOf(level), xs[k..]))
    ensures SignAt(ws, pos, LogicalSign(OpOf(level))) && !Continues(ws, pos, Inner(level))
    ensures Reads(ws, pos + 1, Spelled(xs[k]))
    ensures Reads(ws, pos + 1 + |Spelled(xs[k])|, SpelledRest(OpOf(level), xs[k + 1..]))
    ensures |SpelledRest(OpOf(level), xs[k..])| == 1 + |Spelled(xs[k])| + |SpelledRest(OpOf(level), xs[k + 1..])|
  {
    var op := OpOf(level);
    var head, sign, tail := Spelled(xs[k]), [Sign(LogicalSign(op))], SpelledRest(op, xs[k + 1..]);
    SpelledFirst(op, xs[k..]);
    assert xs[k..][1..] == xs[k + 1..];
    ReadsJoin(ws, pos, sign + head, tail);
    ReadsJoin(ws, pos, sign, head);
    ReadsSign(ws, pos, LogicalSign(op));
  }

  lemma {:induction false} SpelledFirst(op: LogicalOp, xs: seq<Expr>)
    requires xs != []
    ensures SpelledRest(op, xs) == [Sign(LogicalSign(op))] + Spelled(xs[0]) + SpelledRest(op, xs[1..])
  {
    var n := |xs| - 1;
    if n == 0 {
      assert xs[..0] == [] && xs[1..] == [];
    } else {
      SpelledFirst(op, xs[..n]);
      assert xs[1..][..n - 1] == xs[..n][1..];
      var sign := [Sign(LogicalSign(op))];
      assert SpelledRest(op, xs[1..]) == SpelledRest(op, xs[..n][1..]) + sign + Spelled(xs[n]);
      assert SpelledRest(op, xs) == SpelledRest(op, xs[..n]) + sign + Spelled(xs[n]);
      hide Spelled, SpelledRest;
      Regrouped(sign, Spelled(xs[0]), SpelledRest(op, xs[..n][1..]), sign, Spelled(xs[n]));
    }
  }

  lemma Regrouped(a: seq<Word>, b: seq<Word>, c: seq<Word>, d: seq<Word>, e: seq<Word>)
    ensures (a + b + c) + d + e == a + b + (c + d + e)
  {
  }

  /** The spelling of a chain is that of its first operand and of the rest. */
  lemma ChainStart(ws: seq<Word>, pos: nat, level: Level, xs: seq<Expr>)
    requires level != PrimaryLevel && |xs| >= 2 && Reads(ws, pos, Spelled(Chain(OpOf(level), xs)))
    ensures var mid := pos + |Spelled(xs[0])|;
            && mid <= |ws| && Reads(ws, pos, Spelled(xs[0])) && !Continues(ws, mid, Inner(level))
            && Reads(ws, mid, SpelledRest(OpOf(level), xs[1..]))
            && |Spelled(Chain(OpOf(level), xs))| == |Spelled(xs[0])| + |SpelledRest(OpOf(level), xs[1..])|
  {
    var first, rest := Spelled(xs[0]), SpelledRest(OpOf(level), xs[1..]);
    assert Spelled(Chain(OpOf(level), xs)) == first + rest;
    hide Spelled, SpelledRest, Reads;
    ReadsJoin(ws, pos, first, rest);
    ReadsWithin(ws, pos, first);
    RestSpelledAt(ws, pos + |first|, level, xs, 1);
  }

  lemma {:induction false} ChainSpelledIsRead(ws: seq<Word>, pos: nat, level: Level, xs: seq<Expr>, k: nat)
    requires pos <= |ws| && level != PrimaryLevel && 2 <= |xs| && 1 <= k <= |xs|
    requires forall i :: 0 <= i < |xs| ==> Grammatical(xs[i], Inner(level))
    requires Reads(ws, pos, SpelledRest(OpOf(level), xs[k..]))
    requires !Continues(ws, pos + |SpelledRest(OpOf(level), xs[k..])|, level)
    ensures RestAt(ws, pos, level, xs[..k]) == Read(Chain(OpOf(level), xs), pos + |SpelledRest(OpOf(level), xs[k..])|)
    decreases xs, 0, |xs| - k
  {
    hide ExprAt, RestAt, Reads;
    if k == |xs| {
      assert xs[..k] == xs && xs[k..] == [];
      EndAt(ws, pos, level, xs);
    } else {
      hide Spelled, SpelledRest;
      var next := pos + 1 + |Spelled(xs[k])|;
      OperandSpelledAt(ws, pos, level, xs, k);
      SpelledIsRead(ws, pos + 1, Inner(level), xs[k]);
      MoreAt(ws, pos, level, xs[..k], xs[k], next);
      assert xs[..k] + [xs[k]] == xs[..k + 1];
      ChainSpelledIsRead(ws, next, level, xs, k + 1);
    }
  }

  /** The operand after the operator, and what follows it. */
  lemma OperandSpelledAt(ws: seq<Word>, pos: nat, level: Level, xs: seq<Expr>, k: nat)
    requires level != PrimaryLevel && 1 <= k < |xs| && Reads(ws, pos, SpelledRest(OpOf(level), xs[k..]))
    requires !Continues(ws, pos + |SpelledRest(OpOf(level), xs[k..])|, level)
    ensures SignAt(ws, pos, LogicalSign(OpOf(level))) && Reads(ws, pos + 1, Spelled(xs[k]))
    ensures var next := pos + 1 + |Spelled(xs[k])|;
            && next <= |ws| && !Continues(ws, next, Inner(level))
            && Reads(ws, next, SpelledRest(OpOf(level), xs[k + 1..]))
            && next + |SpelledRest(OpOf(level), xs[k + 1..])| == pos + |SpelledRest(OpOf(level), xs[k..])|
  {
    var next := pos + 1 + |Spelled(xs[k])|;
    RestSpelledAt(ws, pos, level, xs, k);
    ReadsWithin(ws, pos + 1, Spelled(xs[k]));
    if k + 1 < |xs| {
      RestSpelledAt(ws, next, level, xs, k + 1);
    } else {
      assert xs[k + 1..] == [];
      LowerContinues(ws, next, level);
    }
  }

  lemma EndAt(ws: seq<Word>, pos: nat, level: Level, xs: seq<Expr>)
    requires pos <= |ws| && level != PrimaryLevel && 2 <= |xs| && !Continues(ws, pos, level)
    ensures RestAt(ws, pos, level, xs) == Read(Chain(OpOf(level), xs), pos)
  {
  }

  lemma LowerContinues(ws: seq<Word>, pos: nat, level: Level)
    requires !Continues(ws, pos, level)
    ensures !Continues(ws, pos, Inner(level))
  {
  }

  /** The words from pos on spell the expression, and the next word does not continue it. */
  ghost predicate Written(ws: seq<Word>, pos: nat, e: Expr) {
    Grammatical(e, OrLevel) && Reads(ws, pos, Spelled(e)) && !Continues(ws, pos + |Spelled(e)|, OrLevel)
  }

  /** What is read is what is written. */
  lemma ReadExactly(ws: seq<Word>, pos: nat, e: Expr)
    requires pos <= |ws|
    ensures ExprAt(ws, pos, OrLevel) == Read(e, pos + |Spelled(e)|) <==> Written(ws, pos, e)
  {
    if ExprAt(ws, pos, OrLevel) == Read(e, pos + |Spelled(e)|) {
      ReadIsSpelled(ws, pos, OrLevel);
    }
    hide ExprAt, Spelled, Reads, Grammatical, Continues;
    if Written(ws, pos, e) {
      SpelledIsRead(ws, pos, OrLevel, e);
    }
  }

  /** At most one expression is written at a position, and nothing is read only if there is none. */
  lemma OnlyOne(ws: seq<Word>, pos: nat) returns (e: Expr)
    requires pos <= |ws|
    ensures var r := ExprAt(ws, pos, OrLevel);
            && (r.Failed? ==> forall x :: !Written(ws, pos, x))
            && (r.Read? ==>
                  && r == Read(e, pos + |Spelled(e)|) && Written(ws, pos, e)
                  && forall x :: Written(ws, pos, x) ==> x == e)
  {
    var r := ExprAt(ws, pos, OrLevel);
    e := if r.Failed? then Compare(NO_COMPARISON) else r.expr;
    if r.Read? {
      ReadIsSpelled(ws, pos, OrLevel);
    }
    hide ExprAt, Spelled, Written;
    ReadExactly(ws, pos, e);
    forall x | Written(ws, pos, x) ensures r.Read? && x == e {
      ReadExactly(ws, pos, x);
    }
  }

  // ----- which tokens spell an expression -----

  /** The token is this operand: an identifier names a column, a literal is its own text, and NULL is passed on
      by its four letters. */
  ghost predicate OperandToken(t: Token, text: Text, isColumn: bool) {
    || (t.kind == IDENTIFIER && isColumn && text == t.value)
    || ((t.kind == INT_LITERAL || t.kind == STR_LITERAL) && !isColumn && text == t.value)
    || (t.kind == KW_NULL && !isColumn && text == [78, 85, 76, 76])
  }

  ghost predicate OperatorToken(t: Token, op: CompareOp) {
    || (t.kind == OP_EQ && op == EQ) || (t.kind == OP_NEQ && op == NEQ)
    || (t.kind == OP_LT && op == LT) || (t.kind == OP_GT && op == GT)
    || (t.kind == OP_LTE && op == LTE) || (t.kind == OP_GTE && op == GTE)
    || (t.kind == KW_BETWEEN && op == BETWEEN) || (t.kind == KW_LIKE && op == LIKE)
  }

  /** All of the tokens, and no others, spell the expression. */
  ghost predicate Spells(ts: seq<Token>, e: Expr)
    decreases e, 1
  {
    match e
    case Compare(c) =>
      && |ts| == (if c.op == BETWEEN then 5 else 3)
      && OperandToken(ts[0], c.left, c.leftIsColumn) && OperatorToken(ts[1], c.op)
      && OperandToken(ts[2], c.right, c.rightIsColumn)
      && (c.op == BETWEEN ==> ts[3].kind == KW_AND && OperandToken(ts[4], c.right2, c.right2IsColumn))
    case Paren(inner) =>
      && |ts| >= 2 && ts[0].kind == LPAREN && ts[|ts| - 1].kind == RPAREN
      && Spells(ts[1..|ts| - 1], inner)
    case Chain(op, xs) => SpellsChain(ts, op, xs)
  }

  /** The operands of a chain, with its operator between each two of them. */
  ghost predicate SpellsChain(ts: seq<Token>, op: LogicalOp, xs: seq<Expr>)
    decreases xs, 0
  {
    var n := |xs| - 1;
    && n >= 0
    && if n == 0 then Spells(ts, xs[0])
       else
         exists k :: 0 <= k < |ts| && ts[k].kind == (if op == AND then KW_AND else KW_OR)
                     && SpellsChain(ts[..k], op, xs[..n]) && Spells(ts[k + 1..], xs[n])
  }

  /** The expression stands at these tokens: they spell it, and the next one does not go on. */
  ghost predicate StandsAt(ts: seq<Token>, pos: nat, end: nat, e: Expr) {
    && pos <= end <= |ts| && Grammatical(e, OrLevel) && Spells(ts[pos..end], e)
    && !(end < |ts| && (ts[end].kind == KW_AND || ts[end].kind == KW_OR))
  }

  lemma OperandMeaning(t: Token, text: Text, isColumn: bool)
    ensures WordOf(t) == Operand(text, isColumn) <==> OperandToken(t, text, isColumn)
  {
  }

  lemma OperatorMeaning(t: Token, op: CompareOp)
    ensures WordOf(t) == Sign(SignOf(op)) <==> OperatorToken(t, op)
  {
  }

  lemma SignMeaning(t: Token, kind: TokenType)
    requires kind == LPAREN || kind == RPAREN || kind == KW_AND || kind == KW_OR
    ensures WordOf(t) == Sign(kind) <==> t.kind == kind
  {
  }

  lemma WordsOfPart(ts: seq<Token>, i: nat, j: nat)
    requires i <= j <= |ts|
    ensures |Words(ts)| == |ts| && Words(ts[i..j]) == Words(ts)[i..j]
  {
  }

  lemma WordAt(ts: seq<Token>, i: nat)
    requires i < |ts|
    ensures |Words(ts)| == |ts| && Words(ts)[i] == WordOf(ts[i])
  {
  }

  lemma OperandAt(ts: seq<Token>, i: nat, text: Text, isColumn: bool)
    requires i < |ts|
    ensures |Words(ts)| == |ts| && (Words(ts)[i] == Operand(text, isColumn) <==> OperandToken(ts[i], text, isColumn))
  {
    hide Words, WordOf, OperandToken;
    WordAt(ts, i);
    OperandMeaning(ts[i], text, isColumn);
  }

  lemma OperatorAt(ts: seq<Token>, i: nat, op: CompareOp)
    requires i < |ts|
    ensures |Words(ts)| == |ts| && (Words(ts)[i] == Sign(SignOf(op)) <==> OperatorToken(ts[i], op))
  {
    hide Words, WordOf, OperatorToken, SignOf;
    WordAt(ts, i);
    OperatorMeaning(ts[i], op);
  }

  lemma ComparisonMeaning(ts: seq<Token>, c: Comparison)
    ensures Spells(ts, Compare(c)) <==> Words(ts) == Spelled(Compare(c))
  {
    hide Words, WordOf, OperandToken, OperatorToken, SignOf;
    AsManyWords(ts);
    var text := Spelled(Compare(c));
    if |ts| == |text| {
      OperandAt(ts, 0, c.left, c.leftIsColumn);
      OperatorAt(ts, 1, c.op);
      OperandAt(ts, 2, c.right, c.rightIsColumn);
      if c.op == BETWEEN {
        SignAtToken(ts, 3, KW_AND);
        OperandAt(ts, 4, c.right2, c.right2IsColumn);
      }
      assert Words(ts) == text <==> forall i :: 0 <= i < |ts| ==> Words(ts)[i] == text[i];
    }
  }

  lemma ParenMeaning(ts: seq<Token>, inner: Expr)
    requires |ts| >= 2 ==> (Spells(ts[1..|ts| - 1], inner) <==> Words(ts[1..|ts| - 1]) == Spelled(inner))
    ensures Spells(ts, Paren(inner)) <==> Words(ts) == Spelled(Paren(inner))
  {
    hide Words, WordOf, Spells, Spelled;
    AsManyWords(ts);
    ParenParts(ts, inner);
    Wrapped(Words(ts), Sign(LPAREN), Spelled(inner), Sign(RPAREN));
    if |ts| >= 2 {
      SignAtToken(ts, 0, LPAREN);
      SignAtToken(ts, |ts| - 1, RPAREN);
      WordsOfPart(ts, 1, |ts| - 1);
    }
  }

  lemma SignAtToken(ts: seq<Token>, i: nat, kind: TokenType)
    requires i < |ts| && (kind == LPAREN || kind == RPAREN || kind == KW_AND || kind == KW_OR)
    ensures |Words(ts)| == |ts| && (Words(ts)[i] == Sign(kind) <==> ts[i].kind == kind)
  {
    hide Words, WordOf;
    WordAt(ts, i);
    SignMeaning(ts[i], kind);
  }

  lemma ParenParts(ts: seq<Token>, inner: Expr)
    ensures Spelled(Paren(inner)) == [Sign(LPAREN)] + Spelled(inner) + [Sign(RPAREN)]
    ensures Spells(ts, Paren(inner)) <==>
              && |ts| >= 2 && ts[0].kind == LPAREN && ts[|ts| - 1].kind == RPAREN
              && Spells(ts[1..|ts| - 1], inner)
  {
  }

  lemma Wrapped(words: seq<Word>, open: Word, text: seq<Word>, close: Word)
    ensures words == [open] + text + [close] <==>
              && |words| >= 2 && words[0] == open && words[|words| - 1] == close && words[1..|words| - 1] == text
  {
    if |words| >= 2 {
      assert words == [words[0]] + words[1..|words| - 1] + [words[|words| - 1]];
    }
    var whole := [open] + text + [close];
    assert whole[1..|whole| - 1] == text;
  }

  /** The tokens spell an expression exactly if their words do. */
  lemma {:induction false} SpellsMeaning(ts: seq<Token>, e: Expr, level: Level)
    requires Grammatical(e, level)
    ensures Spells(ts, e) <==> Words(ts) == Spelled(e)
    decreases e, 1
  {
    match e {
      case Compare(c) => ComparisonMeaning(ts, c);
      case Paren(inner) =>
        if |ts| >= 2 {
          SpellsMeaning(ts[1..|ts| - 1], inner, OrLevel);
        }
        ParenMeaning(ts, inner);
      case Chain(op, xs) =>
        ChainMeaning(ts, op, xs, if op == OR then AndLevel else PrimaryLevel);
    }
  }

  lemma {:induction false} ChainMeaning(ts: seq<Token>, op: LogicalOp, xs: seq<Expr>, inner: Level)
    requires xs != [] && forall i :: 0 <= i < |xs| ==> Grammatical(xs[i], inner)
    ensures SpellsChain(ts, op, xs) <==> Words(ts) == SpelledChain(op, xs)
    decreases xs, 0
  {
    hide Spelled, SpelledRest, SpelledChain, Spells, SpellsChain, Words, WordOf, Grammatical;
    var n := |xs| - 1;
    if n == 0 {
      SpellsMeaning(ts, xs[0], inner);
      LastOfChain(ts, op, xs);
    } else {
      var sign, words := if op == AND then KW_AND else KW_OR, Words(ts);
      AsManyWords(ts);
      ChainParts(ts, op, xs);
      assert xs == xs[..n] + [xs[n]];
      SpelledMore(op, xs[..n], xs[n]);
      Joined(words, SpelledChain(op, xs[..n]), Sign(sign), Spelled(xs[n]));
      forall k | 0 <= k < |ts|
        ensures SpellsChain(ts[..k], op, xs[..n]) <==> words[..k] == SpelledChain(op, xs[..n])
        ensures Spells(ts[k + 1..], xs[n]) <==> words[k + 1..] == Spelled(xs[n])
        ensures ts[k].kind == sign <==> words[k] == Sign(sign)
      {
        ChainMeaning(ts[..k], op, xs[..n], inner);
        SpellsMeaning(ts[k + 1..], xs[n], inner);
        WordsAround(ts, k);
        SignMeaning(ts[k], sign);
      }
    }
  }

  lemma WordsAround(ts: seq<Token>, k: nat)
    requires k < |ts|
    ensures |Words(ts)| == |ts| && Words(ts)[k] == WordOf(ts[k])
    ensures Words(ts[..k]) == Words(ts)[..k] && Words(ts[k + 1..]) == Words(ts)[k + 1..]
  {
    WordsOfPart(ts, 0, k);
    WordsOfPart(ts, k + 1, |ts|);
    WordAt(ts, k);
  }

  lemma LastOfChain(ts: seq<Token>, op: LogicalOp, xs: seq<Expr>)
    requires |xs| == 1
    ensures SpelledChain(op, xs) == Spelled(xs[0]) && (SpellsChain(ts, op, xs) <==> Spells(ts, xs[0]))
  {
    assert xs[1..] == [] && Spelled(xs[0]) + [] == Spelled(xs[0]);
  }

  lemma ChainParts(ts: seq<Token>, op: LogicalOp, xs: seq<Expr>)
    requires |xs| >= 2
    ensures SpellsChain(ts, op, xs) <==>
              exists k :: 0 <= k < |ts| && ts[k].kind == (if op == AND then KW_AND else KW_OR)
                          && SpellsChain(ts[..k], op, xs[..|xs| - 1]) && Spells(ts[k + 1..], xs[|xs| - 1])
  {
  }

  lemma Joined(words: seq<Word>, front: seq<Word>, sign: Word, last: seq<Word>)
    ensures words == front + [sign] + last <==>
              exists k :: 0 <= k < |words| && words[..k] == front && words[k] == sign && words[k + 1..] == last
  {
    if words == front + [sign] + last {
      var k := |front|;
      assert words[..k] == front && words[k] == sign && words[k + 1..] == last;
    }
    if k :| 0 <= k < |words| && words[..k] == front && words[k] == sign && words[k + 1..] == last {
      assert words == words[..k] + [words[k]] + words[k + 1..];
    }
  }

  lemma StandsMeaning(ts: seq<Token>, pos: nat, end: nat, e: Expr)
    ensures StandsAt(ts, pos, end, e) <==> Written(Words(ts), pos, e) && end == pos + |Spelled(e)|
  {
    hide Spelled, Spells, Grammatical, Words, WordOf;
    AsManyWords(ts);
    if pos <= end <= |ts| && Grammatical(e, OrLevel) {
      SpellsMeaning(ts[pos..end], e, OrLevel);
      WordsOfPart(ts, pos, end);
      if end < |ts| {
        SignAtToken(ts, end, KW_AND);
        SignAtToken(ts, end, KW_OR);
      }
    }
  }

  lemma AllStandings(ts: seq<Token>, pos: nat)
    ensures forall end: nat, e :: StandsAt(ts, pos, end, e) <==> Written(Words(ts), pos, e) && end == pos + |Spelled(e)|
  {
    forall end: nat, e
      ensures StandsAt(ts, pos, end, e) <==> Written(Words(ts), pos, e) && end == pos + |Spelled(e)|
    {
      StandsMeaning(ts, pos, end, e);
    }
  }

  /** At most one expression stands at a position. */
  lemma OneStands(ts: seq<Token>, pos: nat, end: nat, e: Expr, end': nat, e': Expr)
    requires StandsAt(ts, pos, end, e) && StandsAt(ts, pos, end', e')
    ensures e == e' && end == end'
  {
    hide StandsAt, Written, Words, ExprAt, Spelled;
    StandsMeaning(ts, pos, end, e);
    StandsMeaning(ts, pos, end', e');
    AsManyWords(ts);
    WithinTokens(ts, pos, end, e);
    var x := OnlyOne(Words(ts), pos);
  }

  lemma WithinTokens(ts: seq<Token>, pos: nat, end: nat, e: Expr)
    requires StandsAt(ts, pos, end, e)
    ensures pos <= end <= |ts|
  {
  }

  lemma PairSpelled(ts: seq<Token>, start: nat, mid: nat, end: nat, op: LogicalOp, x: Expr, y: Expr)
    requires start <= mid < end <= |ts| && Spells(ts[start..mid], x) && Spells(ts[mid + 1..end], y)
    requires ts[mid].kind == if op == AND then KW_AND else KW_OR
    ensures Spells(ts[start..end], Chain(op, [x, y]))
  {
    hide Spells, SpellsChain, SpelledChain, Spelled;
    var part, xs := ts[start..end], [x, y];
    var k := mid - start;
    assert part[..k] == ts[start..mid] && part[k + 1..] == ts[mid + 1..end] && part[k] == ts[mid];
    assert xs[..1] == [x];
    LastOfChain(part[..k], op, [x]);
    ChainParts(part, op, xs);
    ChainSpells(part, op, xs);
  }

  lemma ChainSpells(ts: seq<Token>, op: LogicalOp, xs: seq<Expr>)
    ensures Spells(ts, Chain(op, xs)) <==> SpellsChain(ts, op, xs)
  {
  }

  lemma PairGrammatical(level: Level, x: Expr, y: Expr)
    requires level != PrimaryLevel && Grammatical(x, Inner(level)) && Grammatical(y, Inner(level))
    ensures Grammatical(Chain(OpOf(level), [x, y]), level)
  {
  }

  lemma PairsGrammatical(a: Expr, b: Expr, c: Expr)
    requires Grammatical(a, PrimaryLevel) && Grammatical(b, PrimaryLevel) && Grammatical(c, PrimaryLevel)
    ensures Grammatical(Chain(OR, [a, Chain(AND, [b, c])]), OrLevel)
    ensures Grammatical(Chain(OR, [Chain(AND, [a, b]), c]), OrLevel)
  {
    hide Grammatical;
    Loosened(a, AndLevel);
    Loosened(c, AndLevel);
    PairGrammatical(AndLevel, a, b);
    PairGrammatical(AndLevel, b, c);
    PairGrammatical(OrLevel, a, Chain(AND, [b, c]));
    PairGrammatical(OrLevel, Chain(AND, [a, b]), c);
  }

  /** AND binds tighter than OR: the only reading of three comparisons, or parenthesized expressions, joined by
      one of each. */
  lemma AndBindsTighter(ts: seq<Token>, pos: nat, k: nat, l: nat, end: nat, a: Expr, b: Expr, c: Expr, e: Expr)
    requires pos <= k < l < end <= |ts| && StandsAt(ts, pos, end, e)
    requires Grammatical(a, PrimaryLevel) && Grammatical(b, PrimaryLevel) && Grammatical(c, PrimaryLevel)
    requires Spells(ts[pos..k], a) && Spells(ts[k + 1..l], b) && Spells(ts[l + 1..end], c)
    ensures ts[k].kind == KW_OR && ts[l].kind == KW_AND ==> e == Chain(OR, [a, Chain(AND, [b, c])])
    ensures ts[k].kind == KW_AND && ts[l].kind == KW_OR ==> e == Chain(OR, [Chain(AND, [a, b]), c])
  {
    hide Spells, Grammatical, StandsAt;
    PairsGrammatical(a, b, c);
    if ts[k].kind == KW_OR && ts[l].kind == KW_AND {
      PairSpelled(ts, k + 1, l, end, AND, b, c);
      PairSpelled(ts, pos, k, end, OR, a, Chain(AND, [b, c]));
      StandsToo(ts, pos, end, e, Chain(OR, [a, Chain(AND, [b, c])]));
    }
    if ts[k].kind == KW_AND && ts[l].kind == KW_OR {
      PairSpelled(ts, pos, k, l, AND, a, b);
      PairSpelled(ts, pos, l, end, OR, Chain(AND, [a, b]), c);
      StandsToo(ts, pos, end, e, Chain(OR, [Chain(AND, [a, b]), c]));
    }
  }

  lemma StandsToo(ts: seq<Token>, pos: nat, end: nat, e: Expr, x: Expr)
    requires pos <= end <= |ts| && StandsAt(ts, pos, end, e) && Grammatical(x, OrLevel) && Spells(ts[pos..end], x)
    ensures e == x
  {
    hide Spells, Grammatical;
    OneStands(ts, pos, end, e, end, x);
  }
}
