/** What a WHERE condition says about a row, and which rows it selects. */
module Queries {
  import opened IndexTypes
  import opened KeyOrder
  import opened Values
  import opened ConditionSyntax
  import opened ConditionMeaning
  import opened TableStorage
  import opened NodeCodec
  import opened IndexLayout
  import ConditionGrammar

  /** regex_match of a text against a pattern; None for a pattern that does not compile. */
  type Matcher = (Text, Text) -> Option<bool>

  function FindColumn(columns: seq<ColumnDef>, name: Text): (r: Option<nat>)
    ensures r.Some? ==> r.value < |columns| && columns[r.value].name == name
    ensures r.None? ==> forall i :: 0 <= i < |columns| ==> columns[i].name != name
  {
    if columns == [] then None
    else if columns[0].name == name then Some(0)
    else
      var r := FindColumn(columns[1..], name);
      if r.None? then None else Some(r.value + 1)
  }

  /** The value of a literal in a comparison: a number if all of it is one. */
  function Literal(text: Text): Value {
    if text == NULL_TEXT then Null
    else
      var n := Stoll(text);
      if n.Some? && n.value.1 == |text| then Int(n.value.0) else Str(text)
  }

  /** The value of an operand; None for an unknown column. */
  function ResolveOperand(text: Text, isColumn: bool, columns: seq<ColumnDef>, row: Row): Option<Value>
    requires |row| == |columns|
  {
    if isColumn then
      var c := FindColumn(columns, text);
      if c.None? then None else Some(row[c.value])
    else Some(Literal(text))
  }

  /** A comparison on a row; None for an exception. */
  function EvaluateSimple(cmp: Comparison, columns: seq<ColumnDef>, matcher: Matcher, row: Row): Option<bool>
    requires |row| == |columns|
  {
    var left := ResolveOperand(cmp.left, cmp.leftIsColumn, columns, row);
    var right := ResolveOperand(cmp.right, cmp.rightIsColumn, columns, row);
    if left.None? || right.None? then None
    else if cmp.op == BETWEEN then
      var right2 := ResolveOperand(cmp.right2, cmp.right2IsColumn, columns, row);
      if right2.None? then None
      else
        var geLower, ltUpper := CompareValues(left.value, right.value), CompareValues(left.value, right2.value);
        Some(geLower.Some? && ltUpper.Some? && geLower.value >= 0 && ltUpper.value < 0)
    else if cmp.op == LIKE then
      if !left.value.Str? || !right.value.Str? then Some(false) else matcher(left.value.s, right.value.s)
    else
      var c := CompareValues(left.value, right.value);
      Some(c.Some? && match cmp.op
                      case EQ => c.value == 0
                      case NEQ => c.value != 0
                      case LT => c.value < 0
                      case GT => c.value > 0
                      case LTE => c.value <= 0
                      case GTE => c.value >= 0
                      case BETWEEN => false
                      case LIKE => false)
  }

  /** A condition on a row: both sides are always evaluated; None for an exception. */
  function EvaluateCondition(c: Condition, columns: seq<ColumnDef>, matcher: Matcher, row: Row): Option<bool>
    requires |row| == |columns|
  {
    if c.leftTree.Some? then
      var left := EvaluateCondition(c.leftTree.value, columns, matcher, row);
      var right := if c.next.Some? then EvaluateCondition(c.next.value, columns, matcher, row) else Some(false);
      if left.None? || right.None? then None
      else Some(if c.logicalOp == AND then left.value && right.value else left.value || right.value)
    else
      var current := EvaluateSimple(c.cmp, columns, matcher, row);
      if c.next.None? then current
      else
        var next := EvaluateCondition(c.next.value, columns, matcher, row);
        if current.None? || next.None? then None
        else if c.logicalOp == AND then Some(current.value && next.value)
        else if c.logicalOp == OR then Some(current.value || next.value)
        else current
  }

  // ----- what a comparison says -----

  /** The value of a literal: NULL, a number if all of the text is one that 64 bits can hold, or a string. */
  ghost predicate LiteralIs(text: Text, v: Value) {
    if text == [78, 85, 76, 76] then v == Null
    else if v.Int? then NumberAt(text, |text|, v.i)
    else v == Str(text) && forall n: int64 :: !NumberAt(text, |text|, n)
  }

  /** The value of an operand on a row: of the first column with that name, or of a literal. */
  ghost predicate StandsFor(text: Text, isColumn: bool, columns: seq<ColumnDef>, row: Row, v: Value)
    requires |row| == |columns|
  {
    if isColumn then exists i: nat :: ColumnIs(columns, text, i) && v == row[i] else LiteralIs(text, v)
  }

  ghost predicate ColumnIs(columns: seq<ColumnDef>, name: Text, i: nat) {
    i < |columns| && columns[i].name == name && forall j :: 0 <= j < i ==> columns[j].name != name
  }

  /** Two values can be compared: neither is NULL, and they have one type. */
  predicate SameType(a: Value, b: Value) {
    (a.Int? && b.Int?) || (a.Str? && b.Str?)
  }

  /** What the operators say of two values, in the order of keys. */
  ghost predicate Related(op: CompareOp, a: Value, b: Value, matcher: Matcher) {
    if op == LIKE then a.Str? && b.Str? && matcher(a.s, b.s) == Some(true)
    else
      && SameType(a, b)
      && var x, y := Rank(KeyOf(a)), Rank(KeyOf(b));
         match op
         case EQ => x == y
         case NEQ => x != y
         case LT => x < y
         case GT => x > y
         case LTE => x <= y
         case GTE => x >= y
         case BETWEEN => x >= y
         case LIKE => false
  }

  /** The comparison is true on the row. BETWEEN asks for a value from the lower bound on and below the upper one. */
  ghost predicate Holds(cmp: Comparison, columns: seq<ColumnDef>, matcher: Matcher, row: Row)
    requires |row| == |columns|
  {
    exists a, b ::
      && StandsFor(cmp.left, cmp.leftIsColumn, columns, row, a)
         && StandsFor(cmp.right, cmp.rightIsColumn, columns, row, b)
      && Related(cmp.op, a, b, matcher)
      && (cmp.op == BETWEEN ==>
            exists u :: StandsFor(cmp.right2, cmp.right2IsColumn, columns, row, u) && Related(LT, a, u, matcher))
  }

  ghost predicate NamesColumn(columns: seq<ColumnDef>, name: Text) {
    exists i :: 0 <= i < |columns| && columns[i].name == name
  }

  /** Evaluating the comparison raises no exception: its columns exist, and a pattern compiles. */
  ghost predicate Evaluates(cmp: Comparison, columns: seq<ColumnDef>, matcher: Matcher, row: Row)
    requires |row| == |columns|
  {
    && (cmp.leftIsColumn ==> NamesColumn(columns, cmp.left)) && (cmp.rightIsColumn ==> NamesColumn(columns, cmp.right))
    && (cmp.op == BETWEEN && cmp.right2IsColumn ==> NamesColumn(columns, cmp.right2))
    && (cmp.op == LIKE ==>
          forall a, b :: StandsFor(cmp.left, cmp.leftIsColumn, columns, row, a)
                         && StandsFor(cmp.right, cmp.rightIsColumn, columns, row, b) && a.Str? && b.Str?
                         ==> matcher(a.s, b.s).Some?)
  }

  lemma LiteralMeaning(text: Text, v: Value)
    ensures LiteralIs(text, v) <==> v == Literal(text)
  {
    var n := Stoll(text);
    if n.Some? {
      StollMeaning(text, n.value.0, n.value.1);
    }
    forall m: int64 | NumberAt(text, |text|, m) ensures n == Some((m, |text|)) {
      StollMeaning(text, m, |text|);
    }
  }

  lemma {:induction false} FirstColumn(columns: seq<ColumnDef>, name: Text)
    ensures FindColumn(columns, name).Some? <==> NamesColumn(columns, name)
    ensures forall i: nat :: ColumnIs(columns, name, i) <==> FindColumn(columns, name) == Some(i)
  {
    if columns != [] && columns[0].name != name {
      var rest := columns[1..];
      FirstColumn(rest, name);
      assert forall i :: 0 <= i < |rest| ==> rest[i] == columns[i + 1];
      forall i: nat | i > 0 ensures ColumnIs(columns, name, i) <==> ColumnIs(rest, name, i - 1) {
        assert i < |columns| ==> columns[i] == rest[i - 1];
        if ColumnIs(columns, name, i) {
          assert forall j :: 0 <= j < i - 1 ==> rest[j] == columns[j + 1];
        }
        if ColumnIs(rest, name, i - 1) {
          assert forall j :: 0 < j < i ==> columns[j] == rest[j - 1];
        }
      }
    }
  }

  /** What an operand stands for is what it is resolved to. */
  lemma OperandMeaning(text: Text, isColumn: bool, columns: seq<ColumnDef>, row: Row)
    requires |row| == |columns|
    ensures ResolveOperand(text, isColumn, columns, row).Some? <==> (isColumn ==> NamesColumn(columns, text))
    ensures forall v :: StandsFor(text, isColumn, columns, row, v) <==>
              ResolveOperand(text, isColumn, columns, row) == Some(v)
  {
    hide Literal, LiteralIs, ColumnIs, FindColumn;
    FirstColumn(columns, text);
    forall v ensures LiteralIs(text, v) <==> v == Literal(text) {
      LiteralMeaning(text, v);
    }
  }

  /** Every operator on two values is evaluated as it is meant. */
  lemma RelatedMeaning(op: CompareOp, a: Value, b: Value, matcher: Matcher)
    requires op != LIKE
    ensures var c := CompareValues(a, b);
            && (c.Some? <==> SameType(a, b))
            && (Related(op, a, b, matcher) <==>
                  && c.Some?
                  && match op
                     case EQ => c.value == 0
                     case NEQ => c.value != 0
                     case LT => c.value < 0
                     case GT => c.value > 0
                     case LTE => c.value <= 0
                     case GTE => c.value >= 0
                     case BETWEEN => c.value >= 0
                     case LIKE => false)
  {
    CompareIsKeyOrder(a, b);
    if SameType(a, b) {
      KeyLessIsRank(KeyOf(a), KeyOf(b));
    }
  }

  /** The operands of a comparison are those that are resolved. */
  lemma ResolvedMeaning(cmp: Comparison, columns: seq<ColumnDef>, matcher: Matcher, row: Row)
    requires |row| == |columns|
    ensures var left := ResolveOperand(cmp.left, cmp.leftIsColumn, columns, row);
            var right := ResolveOperand(cmp.right, cmp.rightIsColumn, columns, row);
            var right2 := ResolveOperand(cmp.right2, cmp.right2IsColumn, columns, row);
            && (Holds(cmp, columns, matcher, row) <==>
                  && left.Some? && right.Some? && Related(cmp.op, left.value, right.value, matcher)
                  && (cmp.op == BETWEEN ==> right2.Some? && Related(LT, left.value, right2.value, matcher)))
            && (Evaluates(cmp, columns, matcher, row) <==>
                  && left.Some? && right.Some? && (cmp.op == BETWEEN ==> right2.Some?)
                  && (cmp.op == LIKE && left.value.Str? && right.value.Str? ==>
                        matcher(left.value.s, right.value.s).Some?))
  {
    OperandMeaning(cmp.left, cmp.leftIsColumn, columns, row);
    OperandMeaning(cmp.right, cmp.rightIsColumn, columns, row);
    OperandMeaning(cmp.right2, cmp.right2IsColumn, columns, row);
    hide StandsFor, ResolveOperand, Related, NamesColumn;
  }

  /** A comparison is evaluated as it is meant. */
  lemma SimpleMeaning(cmp: Comparison, columns: seq<ColumnDef>, matcher: Matcher, row: Row)
    requires |row| == |columns|
    ensures EvaluateSimple(cmp, columns, matcher, row) ==
            if Evaluates(cmp, columns, matcher, row) then Some(Holds(cmp, columns, matcher, row)) else None
  {
    ResolvedMeaning(cmp, columns, matcher, row);
    hide Holds, Evaluates, ResolveOperand, CompareValues;
    var left := ResolveOperand(cmp.left, cmp.leftIsColumn, columns, row);
    var right := ResolveOperand(cmp.right, cmp.rightIsColumn, columns, row);
    var right2 := ResolveOperand(cmp.right2, cmp.right2IsColumn, columns, row);
    if left.None? || right.None? {
      return;
    }
    if cmp.op == LIKE {
      if left.value.Str? && right.value.Str? && matcher(left.value.s, right.value.s).Some? {
        var matches := matcher(left.value.s, right.value.s).value;
        assert EvaluateSimple(cmp, columns, matcher, row) == Some(matches);
      }
    } else if cmp.op == BETWEEN {
      RelatedMeaning(BETWEEN, left.value, right.value, matcher);
      if right2.Some? {
        RelatedMeaning(LT, left.value, right2.value, matcher);
      }
      hide Related;
    } else {
      RelatedMeaning(cmp.op, left.value, right.value, matcher);
      hide Related;
    }
  }

  /** The truth values that a row gives to comparisons. */
  ghost function OnRow(columns: seq<ColumnDef>, matcher: Matcher, row: Row): Comparison -> bool
    requires |row| == |columns|
  {
    cmp => Holds(cmp, columns, matcher, row)
  }

  ghost predicate AllEvaluate(cmps: set<Comparison>, columns: seq<ColumnDef>, matcher: Matcher, row: Row)
    requires |row| == |columns|
  {
    forall cmp :: cmp in cmps ==> Evaluates(cmp, columns, matcher, row)
  }

  lemma AllEvaluateBoth(a: set<Comparison>, b: set<Comparison>, columns: seq<ColumnDef>, matcher: Matcher, row: Row)
    requires |row| == |columns|
    ensures AllEvaluate(a + b, columns, matcher, row) <==>
              AllEvaluate(a, columns, matcher, row) && AllEvaluate(b, columns, matcher, row)
  {
    if AllEvaluate(a + b, columns, matcher, row) {
      assert forall cmp :: cmp in a || cmp in b ==> cmp in a + b;
    }
  }

  /** An exception comes out exactly if some comparison raises one. */
  lemma {:induction false} EvaluatedByComparisons(c: Condition, columns: seq<ColumnDef>, matcher: Matcher, row: Row)
    requires |row| == |columns|
    ensures EvaluateCondition(c, columns, matcher, row) ==
            if AllEvaluate(Used(c), columns, matcher, row) then Some(Evaluate(c, OnRow(columns, matcher, row)))
              else None
  {
    if c.leftTree.Some? {
      EvaluatedByComparisons(c.leftTree.value, columns, matcher, row);
    }
    if c.next.Some? {
      EvaluatedByComparisons(c.next.value, columns, matcher, row);
    }
    var own := if c.leftTree.Some? then Used(c.leftTree.value) else {c.cmp};
    var rest := if c.next.Some? then Used(c.next.value) else {};
    assert Used(c) == own + rest;
    AllEvaluateBoth(own, rest, columns, matcher, row);
    var v := OnRow(columns, matcher, row);
    assert AllEvaluate({}, columns, matcher, row);
    if c.leftTree.None? {
      OneEvaluates(c.cmp, columns, matcher, row);
      if c.next.None? {
        assert Evaluate(c, v) == v(c.cmp);
      } else {
        assert EvaluateCondition(c, columns, matcher, row).Some? <==> AllEvaluate(own + rest, columns, matcher, row);
      }
    } else {
      assert EvaluateCondition(c, columns, matcher, row).Some? <==> AllEvaluate(own + rest, columns, matcher, row);
    }
  }

  lemma OneEvaluates(cmp: Comparison, columns: seq<ColumnDef>, matcher: Matcher, row: Row)
    requires |row| == |columns|
    ensures var r := EvaluateSimple(cmp, columns, matcher, row);
            && (AllEvaluate({cmp}, columns, matcher, row) <==> r.Some?)
            && (r.Some? ==> r.value == OnRow(columns, matcher, row)(cmp))
  {
    hide Holds, Evaluates, EvaluateSimple;
    SimpleMeaning(cmp, columns, matcher, row);
    assert cmp in {cmp};
  }

  /** An expression that keeps its meaning is evaluated to its usual meaning. */
  lemma WhereMeaning(e: Expr, columns: seq<ColumnDef>, matcher: Matcher, row: Row)
    requires |row| == |columns| && Grammatical(e, OrLevel) && KeepsMeaning(e)
    ensures EvaluateCondition(Build(e), columns, matcher, row) ==
            if AllEvaluate(Comparisons(e), columns, matcher, row) then Some(Meaning(e, OnRow(columns, matcher, row)))
              else None
  {
    Built(e, OrLevel);
    EvaluatedByComparisons(Build(e), columns, matcher, row);
    MeaningKept(e, OrLevel, OnRow(columns, matcher, row));
  }

  // ----- which rows -----

  /** What a statement looks at: the columns, the matcher and the condition, if there is one. */
  datatype Where = Where(columns: seq<ColumnDef>, matcher: Matcher, condition: Option<Condition>)

  function Accepts(w: Where, row: Row): Option<bool>
    requires |row| == |w.columns|
  {
    if w.condition.None? then Some(true) else EvaluateCondition(w.condition.value, w.columns, w.matcher, row)
  }

  /** The condition is true on the row: always, if there is none. */
  ghost predicate Satisfied(w: Where, row: Row)
    requires |row| == |w.columns|
  {
    w.condition.Some? ==> Evaluate(w.condition.value, OnRow(w.columns, w.matcher, row))
  }

  /** No comparison of the condition raises an exception on the row. */
  ghost predicate Evaluable(w: Where, row: Row)
    requires |row| == |w.columns|
  {
    w.condition.Some? ==> AllEvaluate(Used(w.condition.value), w.columns, w.matcher, row)
  }

  ghost predicate AllEvaluable(w: Where, rows: map<RowId, Row>)
    requires forall id :: id in rows ==> |rows[id]| == |w.columns|
  {
    forall id :: id in rows ==> Evaluable(w, rows[id])
  }

  lemma AcceptsMeaning(w: Where, row: Row)
    requires |row| == |w.columns|
    ensures Accepts(w, row) == if Evaluable(w, row) then Some(Satisfied(w, row)) else None
  {
    if w.condition.Some? {
      EvaluatedByComparisons(w.condition.value, w.columns, w.matcher, row);
    }
    hide Evaluate, AllEvaluate, EvaluateCondition, OnRow, Used;
  }

  /** A single comparison that is true raises no exception. */
  lemma SingleEvaluable(w: Where, row: Row)
    requires |row| == |w.columns| && w.condition.Some? && ComparesColumn(w.condition.value) && Satisfied(w, row)
    ensures Evaluable(w, row)
  {
    var cmp := w.condition.value.cmp;
    ResolvedMeaning(cmp, w.columns, w.matcher, row);
    hide Holds, Evaluates, ResolveOperand;
  }

  ghost predicate Selected(w: Where, rows: map<RowId, Row>, id: RowId) {
    id in rows && |rows[id]| == |w.columns| && Accepts(w, rows[id]) == Some(true)
  }

  /** The selected rows among ids, in that order; None if a row raises an exception. */
  function Scan(w: Where, rows: map<RowId, Row>, ids: seq<RowId>): Option<seq<RowId>>
    requires forall id :: id in rows ==> |rows[id]| == |w.columns|
  {
    if ids == [] then Some([])
    else
      var n := |ids| - 1;
      var front := Scan(w, rows, ids[..n]);
      if front.None? || ids[n] !in rows then front
      else
        var a := Accepts(w, rows[ids[n]]);
        if a.None? then None else Some(if a.value then front.value + [ids[n]] else front.value)
  }

  ghost predicate NoDuplicates(ids: seq<RowId>) {
    forall i, j :: 0 <= i < j < |ids| ==> ids[i] != ids[j]
  }

  lemma {:induction false} ScanMeaning(w: Where, rows: map<RowId, Row>, ids: seq<RowId>)
    requires forall id :: id in rows ==> |rows[id]| == |w.columns|
    requires Scan(w, rows, ids).Some?
    ensures var r := Scan(w, rows, ids).value;
            && (forall id :: id in r <==> id in ids && Selected(w, rows, id))
            && (NoDuplicates(ids) ==> NoDuplicates(r))
  {
    if ids != [] {
      var n := |ids| - 1;
      ScanMeaning(w, rows, ids[..n]);
      assert ids == ids[..n] + [ids[n]];
      if NoDuplicates(ids) {
        assert ids[n] !in ids[..n];
      }
    }
  }

  /** A scan fails exactly if some row raises an exception. */
  lemma {:induction false} ScanFails(w: Where, rows: map<RowId, Row>, ids: seq<RowId>)
    requires forall id :: id in rows ==> |rows[id]| == |w.columns|
    ensures Scan(w, rows, ids).None? <==> exists id :: id in ids && id in rows && Accepts(w, rows[id]).None?
  {
    if ids != [] {
      var n := |ids| - 1;
      ScanFails(w, rows, ids[..n]);
      hide Accepts;
      forall id ensures id in ids <==> id in ids[..n] || id == ids[n] {
        assert ids == ids[..n] + [ids[n]];
      }
    }
  }

  /** What the rows found have in common in pairs, they have from the rows scanned: a scan keeps their order. */
  lemma {:induction false} ScanOrdered(w: Where, rows: map<RowId, Row>, ids: seq<RowId>, before: (RowId, RowId) -> bool)
    requires (forall id :: id in rows ==> |rows[id]| == |w.columns|) && Scan(w, rows, ids).Some?
    requires forall i, j :: 0 <= i < j < |ids| ==> before(ids[i], ids[j])
    ensures var r := Scan(w, rows, ids).value;
            forall i, j :: 0 <= i < j < |r| ==> before(r[i], r[j])
  {
    if ids != [] {
      var n := |ids| - 1;
      ScanOrdered(w, rows, ids[..n], before);
      ScanMeaning(w, rows, ids[..n]);
      hide Accepts, Selected;
      var front := Scan(w, rows, ids[..n]).value;
      forall i | 0 <= i < |front| ensures before(front[i], ids[n]) {
        assert front[i] in ids[..n];
      }
    }
  }

  /** In the terms of what the comparisons say: the rows selected, and those that make a scan fail. */
  lemma SelectedMeaning(w: Where, rows: map<RowId, Row>, all: seq<RowId>)
    requires (forall id :: id in rows ==> |rows[id]| == |w.columns|) && forall id :: id in all <==> id in rows
    ensures forall id :: Selected(w, rows, id) <==> id in rows && Evaluable(w, rows[id]) && Satisfied(w, rows[id])
    ensures Scan(w, rows, all).Some? <==> forall id :: id in rows ==> Evaluable(w, rows[id])
  {
    ScanFails(w, rows, all);
    forall id | id in rows
      ensures Accepts(w, rows[id]) == if Evaluable(w, rows[id]) then Some(Satisfied(w, rows[id])) else None
    {
      AcceptsMeaning(w, rows[id]);
    }
    hide Accepts, Evaluable, Satisfied, Scan;
  }

  lemma {:induction false} NoDuplicatesCount(ids: seq<RowId>, x: RowId)
    requires NoDuplicates(ids)
    ensures multiset(ids)[x] == if x in ids then 1 else 0
  {
    if ids != [] {
      var n := |ids| - 1;
      NoDuplicatesCount(ids[..n], x);
      assert ids == ids[..n] + [ids[n]];
    }
  }

  lemma SameMembers(a: seq<RowId>, b: seq<RowId>)
    requires NoDuplicates(a) && NoDuplicates(b) && forall x :: x in a <==> x in b
    ensures multiset(a) == multiset(b)
  {
    forall x ensures multiset(a)[x] == multiset(b)[x] {
      NoDuplicatesCount(a, x);
      NoDuplicatesCount(b, x);
    }
  }

  /** Row ids that contain every selected row, each once. */
  ghost predicate Covers(w: Where, rows: map<RowId, Row>, ids: seq<RowId>) {
    && NoDuplicates(ids) && (forall id :: id in ids ==> id in rows)
    && forall id :: Selected(w, rows, id) ==> id in ids
  }

  /** Scanning fewer rows finds the same ones, if they contain every selected row. */
  lemma ScanCovered(w: Where, rows: map<RowId, Row>, some: seq<RowId>, all: seq<RowId>)
    requires forall id :: id in rows ==> |rows[id]| == |w.columns|
    requires Covers(w, rows, some) && Covers(w, rows, all)
    requires Scan(w, rows, some).Some? && Scan(w, rows, all).Some?
    ensures multiset(Scan(w, rows, some).value) == multiset(Scan(w, rows, all).value)
  {
    ScanMeaning(w, rows, some);
    ScanMeaning(w, rows, all);
    hide Selected;
    SameMembers(Scan(w, rows, some).value, Scan(w, rows, all).value);
  }

  /** And it does not, if they do not. */
  lemma ScanExactly(w: Where, rows: map<RowId, Row>, some: seq<RowId>, all: seq<RowId>)
    requires forall id :: id in rows ==> |rows[id]| == |w.columns|
    requires NoDuplicates(some) && (forall id :: id in some ==> id in rows) && Covers(w, rows, all)
    requires Scan(w, rows, some).Some? && Scan(w, rows, all).Some?
    ensures NoDuplicates(Scan(w, rows, some).value)
    ensures multiset(Scan(w, rows, some).value) == multiset(Scan(w, rows, all).value) <==> Covers(w, rows, some)
  {
    ScanMeaning(w, rows, some);
    ScanMeaning(w, rows, all);
    if Covers(w, rows, some) {
      ScanCovered(w, rows, some, all);
    }
    hide Selected, Scan;
    if multiset(Scan(w, rows, some).value) == multiset(Scan(w, rows, all).value) {
      SameIds(Scan(w, rows, some).value, Scan(w, rows, all).value);
    }
  }

  lemma OrderCovers(w: Where, rows: map<RowId, Row>, order: seq<RowId>, nextId: nat)
    requires OrderOk(rows, order, nextId)
    ensures Covers(w, rows, order)
  {
  }

  /** From the tokens after WHERE to the result of a statement. They spell an expression that keeps its
      meaning, and the parser has built its structure: then no row raises an exception exactly if every
      comparison can be evaluated on every row, and the rows found are those where the expression is true. */
  lemma ParsedSelects(tokens: seq<ConditionGrammar.Token>, pos: nat, end: nat, e: Expr, w: Where,
                      rows: map<RowId, Row>, order: seq<RowId>, nextId: nat, found: seq<RowId>)
    requires ConditionGrammar.StandsAt(tokens, pos, end, e) && w.condition == Some(Build(e)) && KeepsMeaning(e)
    requires (forall id :: id in rows ==> |rows[id]| == |w.columns|) && OrderOk(rows, order, nextId)
    ensures Scan(w, rows, order).Some? <==>
            forall id :: id in rows ==> AllEvaluate(Comparisons(e), w.columns, w.matcher, rows[id])
    ensures var all := Scan(w, rows, order);
            all.Some? && multiset(found) == multiset(all.value) ==>
              forall id :: id in found <==> id in rows && Meaning(e, OnRow(w.columns, w.matcher, rows[id]))
  {
    hide AllEvaluate, OnRow, Meaning, EvaluateCondition, KeepsMeaning;
    forall id | id in rows
      ensures Accepts(w, rows[id]) == if AllEvaluate(Comparisons(e), w.columns, w.matcher, rows[id])
                                      then Some(Meaning(e, OnRow(w.columns, w.matcher, rows[id]))) else None
    {
      WhereMeaning(e, w.columns, w.matcher, rows[id]);
    }
    ScanFails(w, rows, order);
    var all := Scan(w, rows, order);
    if all.Some? && multiset(found) == multiset(all.value) {
      ScanMeaning(w, rows, order);
      SameIds(found, all.value);
    }
  }

  lemma SameIds(a: seq<RowId>, b: seq<RowId>)
    requires multiset(a) == multiset(b)
    ensures forall id :: id in a <==> id in b
  {
    forall id ensures id in a <==> id in b {
      assert (id in a) == (id in multiset(a)) && (id in b) == (id in multiset(b));
    }
  }

  // ----- the index path -----

  /** A single comparison of a column with a literal. */
  predicate ComparesColumn(c: Condition) {
    c.leftTree.None? && c.next.None? && c.cmp.leftIsColumn && !c.cmp.rightIsColumn
  }

  /** A literal as a key of a column; None for the exceptions: not a number, or NULL. */
  function LiteralKey(text: Text, kind: DataType): Option<IndexKey> {
    if text == NULL_TEXT then None
    else if kind.IntType? then
      var n := Stoll(text);
      if n.None? then None else Some(IntKey(n.value.0))
    else Some(StrKey(text))
  }

  /** The text, read as a literal, is this key: in an integer column of the number that it starts with. */
  ghost predicate KeyIs(text: Text, kind: DataType, key: IndexKey) {
    && text != [78, 85, 76, 76]
    && match kind
       case IntType => key.IntKey? && exists end: nat :: NumberAt(text, end, key.i)
       case StrType => key == StrKey(text)
  }

  lemma LiteralKeyMeaning(text: Text, kind: DataType)
    ensures forall key :: LiteralKey(text, kind) == Some(key) <==> KeyIs(text, kind, key)
  {
    hide Stoll, NumberAt;
    var n := Stoll(text);
    if n.Some? {
      StollMeaning(text, n.value.0, n.value.1);
    }
    forall m: int64, end: nat | NumberAt(text, end, m) ensures n == Some((m, end)) {
      StollMeaning(text, m, end);
    }
  }

  lemma LiteralKeyKind(text: Text, kind: DataType)
    ensures LiteralKey(text, kind).Some? ==> KeyMatchesKind(LiteralKey(text, kind).value, KindFor(kind))
  {
  }

  /** Where a literal compares with a value of the column's type at all, it is the key of that literal. */
  lemma LiteralIsKey(text: Text, v: Value, kind: DataType)
    requires !v.Null? && Matches(v, kind) && CompareValues(v, Literal(text)).Some?
    ensures LiteralKey(text, kind) == Some(KeyOf(Literal(text)))
  {
  }

  /** The keys between which an indexed comparison looks, both included. */
  function Bounds(cmp: Comparison, kind: DataType): Option<(IndexKey, IndexKey)> {
    var lower, upper := LiteralKey(cmp.right, kind), if cmp.op == EQ then LiteralKey(cmp.right, kind)
      else LiteralKey(cmp.right2, kind);
    if lower.None? || upper.None? then None else Some((lower.value, upper.value))
  }

  /** A selected row has its key between the bounds: EQ asks for the one key, and the half-open
      BETWEEN lies in the closed range. The upper bound must be a literal. */
  lemma SelectedWithin(w: Where, c: nat, rows: map<RowId, Row>, id: RowId)
    requires w.condition.Some? && ComparesColumn(w.condition.value)
             && FindColumn(w.columns, w.condition.value.cmp.left) == Some(c)
    requires var cmp := w.condition.value.cmp; cmp.op == EQ || (cmp.op == BETWEEN && !cmp.right2IsColumn)
    requires Selected(w, rows, id) && FitsColumn(w.columns[c], rows[id][c]) && w.columns[c].indexed
    ensures var v, b := rows[id][c], Bounds(w.condition.value.cmp, w.columns[c].kind);
            !v.Null? && b.Some? && Rank(b.value.0) <= Rank(KeyOf(v)) <= Rank(b.value.1)
  {
    var cmp, v := w.condition.value.cmp, rows[id][c];
    CompareIsKeyOrder(v, Literal(cmp.right));
    LiteralIsKey(cmp.right, v, w.columns[c].kind);
    if cmp.op == BETWEEN {
      CompareIsKeyOrder(v, Literal(cmp.right2));
      LiteralIsKey(cmp.right2, v, w.columns[c].kind);
    }
  }

  /** Where a literal is no key of the column, no row is selected; so a full scan would have found nothing. */
  lemma NoKeyNoRow(w: Where, c: nat, rows: map<RowId, Row>, id: RowId)
    requires w.condition.Some? && ComparesColumn(w.condition.value)
             && FindColumn(w.columns, w.condition.value.cmp.left) == Some(c)
    requires var cmp := w.condition.value.cmp; cmp.op == EQ || (cmp.op == BETWEEN && !cmp.right2IsColumn)
    requires id in rows && FitsColumn(w.columns[c], if c < |rows[id]| then rows[id][c] else Null)
             && w.columns[c].indexed
    requires Bounds(w.condition.value.cmp, w.columns[c].kind).None?
    ensures !Selected(w, rows, id)
  {
    if Selected(w, rows, id) {
      SelectedWithin(w, c, rows, id);
    }
  }

  /** On the index path no row raises an exception. */
  lemma IndexedEvaluates(w: Where, c: nat, row: Row)
    requires |row| == |w.columns|
    requires w.condition.Some? && ComparesColumn(w.condition.value)
             && FindColumn(w.columns, w.condition.value.cmp.left) == Some(c)
    requires var cmp := w.condition.value.cmp; cmp.op == EQ || (cmp.op == BETWEEN && !cmp.right2IsColumn)
    ensures Accepts(w, row).Some?
  {
  }

  // ----- a column as the upper bound -----

  /** Index access reads the name of the upper column as a literal. */
  ghost predicate ColumnBound(w: Where, c: nat) {
    && w.condition.Some? && ComparesColumn(w.condition.value)
    && FindColumn(w.columns, w.condition.value.cmp.left) == Some(c)
    && w.condition.value.cmp.op == BETWEEN && w.condition.value.cmp.right2IsColumn
  }

  /** A table with indexes on these columns can hold the row. */
  ghost predicate Holdable(columns: seq<ColumnDef>, attached: set<nat>, row: Row) {
    Fits(columns, row) && forall i :: 0 <= i < |row| && i in attached ==> !row[i].Null? && FitsIndex(columns[i], row[i])
  }

  /** Inserted into an empty table with these indexes, such a row is stored (see Table.Insert). */
  lemma HoldableIsAccepted(columns: seq<ColumnDef>, attached: set<nat>, row: Row)
    requires Holdable(columns, attached, row)
    ensures Verdict(columns, map[], row, None, None)
    ensures forall c :: c in attached && c < |row| && c < |columns| ==> FitsIndex(columns[c], row[c])
  {
    forall c | 0 <= c < |columns| ensures Acceptable(columns, map[], row, None, c) {
      assert FitsColumn(columns[c], row[c]);
    }
  }

  /** A row that a table can hold and the condition selects. */
  ghost predicate Hit(w: Where, attached: set<nat>, row: Row) {
    Holdable(w.columns, attached, row) && Accepts(w, row) == Some(true)
  }

  /** A row that the condition selects but that lies outside the range of keys read. */
  ghost predicate Missed(w: Where, c: nat, attached: set<nat>, row: Row)
    requires c < |w.columns| && w.condition.Some? && Bounds(w.condition.value.cmp, w.columns[c].kind).Some?
  {
    && Hit(w, attached, row) && c < |row| && !row[c].Null?
    && var b := Bounds(w.condition.value.cmp, w.columns[c].kind).value;
       !(Rank(b.0) <= Rank(KeyOf(row[c])) <= Rank(b.1))
  }

  /** The upper bound is another column of the type of column c, and the lower bound a literal of that type. */
  ghost predicate Comparable(w: Where, c: nat)
    requires c < |w.columns| && w.condition.Some?
  {
    var upper := FindColumn(w.columns, w.condition.value.cmp.right2);
    && upper.Some? && upper.value != c && w.columns[upper.value].kind == w.columns[c].kind
    && Matches(Literal(w.condition.value.cmp.right), w.columns[c].kind) && !Literal(w.condition.value.cmp.right).Null?
  }

  function Top(n: nat): (s: Text)
    ensures |s| == n && forall i :: 0 <= i < n ==> s[i] == 255
  {
    seq(n, _ => 255)
  }

  /** The greatest value in an index that leaves room for a greater one in the upper column, where an
      index can be attached, too. */
  function Greatest(kind: DataType, upperAttached: bool): (v: Value)
    ensures !v.Null? && Matches(v, kind)
  {
    if kind.IntType? then Int(0x7FFF_FFFF_FFFF_FFFE)
    else if upperAttached then Str(Top(INDEX_STRING_KEY_SIZE - 1) + [254])
    else Str(Top(INDEX_STRING_KEY_SIZE))
  }

  /** And a greater one. */
  function Above(kind: DataType, upperAttached: bool): (u: Value)
    ensures !u.Null? && Matches(u, kind)
  {
    if kind.IntType? then Int(0x7FFF_FFFF_FFFF_FFFF)
    else Str(Top(if upperAttached then INDEX_STRING_KEY_SIZE else INDEX_STRING_KEY_SIZE + 1))
  }

  ghost function GreatestKey(w: Where, c: nat, attached: set<nat>): (key: IndexKey)
    requires c < |w.columns| && w.condition.Some? && Comparable(w, c)
    ensures key.IntKey? <==> w.columns[c].kind.IntType?
  {
    KeyOf(Greatest(w.columns[c].kind, FindColumn(w.columns, w.condition.value.cmp.right2).value in attached))
  }

  /** The lower bound does not lie above that value. */
  ghost predicate Reachable(w: Where, c: nat, attached: set<nat>)
    requires c < |w.columns| && w.condition.Some?
  {
    Comparable(w, c) && !KeyLess(GreatestKey(w, c, attached), KeyOf(Literal(w.condition.value.cmp.right)))
  }

  /** The name of the upper column, read as a literal, lies below that value. */
  ghost predicate NameBelow(w: Where, c: nat, attached: set<nat>)
    requires c < |w.columns| && w.condition.Some? && Comparable(w, c)
    requires Bounds(w.condition.value.cmp, w.columns[c].kind).Some?
  {
    KeyLess(Bounds(w.condition.value.cmp, w.columns[c].kind).value.1, GreatestKey(w, c, attached))
  }

  lemma ConditionsAsRanks(w: Where, c: nat, attached: set<nat>)
    requires c < |w.columns| && w.condition.Some? && Comparable(w, c)
    ensures Reachable(w, c, attached) <==>
              Rank(KeyOf(Literal(w.condition.value.cmp.right))) <= Rank(GreatestKey(w, c, attached))
    ensures Bounds(w.condition.value.cmp, w.columns[c].kind).Some? ==>
              (NameBelow(w, c, attached) <==>
                 Rank(Bounds(w.condition.value.cmp, w.columns[c].kind).value.1) < Rank(GreatestKey(w, c, attached)))
  {
    hide Rank, KeyLess, Greatest;
    KeyLessIsRank(GreatestKey(w, c, attached), KeyOf(Literal(w.condition.value.cmp.right)));
    var b := Bounds(w.condition.value.cmp, w.columns[c].kind);
    if b.Some? {
      KeyLessIsRank(b.value.1, GreatestKey(w, c, attached));
    }
  }

  lemma TopShorter(n: nat)
    ensures n > 0 ==> Top(n)[0] == 255 && Top(n)[1..] == Top(n - 1)
    ensures n > 1 ==> (Top(n - 1) + [254])[0] == 255 && (Top(n - 1) + [254])[1..] == Top(n - 2) + [254]
  {
  }

  /** No string of n bytes is greater than n times 255, and only that one is greater than the one before it. */
  lemma {:induction false} NoneAboveTop(n: nat, s: Text)
    requires |s| <= n
    ensures !LexLess(Top(n), s) && LexLess(Top(n), Top(n + 1))
    ensures n > 0 ==> LexLess(Top(n - 1) + [254], Top(n)) && (LexLess(s, Top(n)) ==> !LexLess(Top(n - 1) + [254], s))
  {
    TopShorter(n);
    TopShorter(n + 1);
    if n > 0 {
      NoneAboveTop(n - 1, if s == [] then [] else s[1..]);
    }
  }

  lemma GreatestFits(column: ColumnDef, other: ColumnDef, attached: bool)
    requires column.kind == other.kind
    ensures var v, u := Greatest(column.kind, attached), Above(column.kind, attached);
            && !v.Null? && !u.Null? && Matches(v, column.kind) && Matches(u, column.kind)
            && FitsIndex(column, v) && (attached ==> FitsIndex(other, u)) && Rank(KeyOf(v)) < Rank(KeyOf(u))
  {
    var v, u := Greatest(column.kind, attached), Above(column.kind, attached);
    if column.kind.StrType? {
      NoneAboveTop(INDEX_STRING_KEY_SIZE, []);
      KeyLessIsRank(KeyOf(v), KeyOf(u));
    }
  }

  /** A value in an index with a greater one in the other column. */
  lemma GreatestIs(column: ColumnDef, other: ColumnDef, attached: bool, v: Value, u: Value)
    requires column.kind == other.kind && !v.Null? && !u.Null? && Matches(v, column.kind) && Matches(u, other.kind)
    requires FitsIndex(column, v) && (attached ==> FitsIndex(other, u)) && Rank(KeyOf(v)) < Rank(KeyOf(u))
    ensures Rank(KeyOf(v)) <= Rank(KeyOf(Greatest(column.kind, attached)))
  {
    if column.kind.StrType? {
      var max := Str(Top(INDEX_STRING_KEY_SIZE));
      NoneAboveTop(INDEX_STRING_KEY_SIZE, v.s);
      KeyLessIsRank(KeyOf(max), KeyOf(v));
      KeyLessIsRank(KeyOf(v), KeyOf(max));
      KeyLessIsRank(KeyOf(Greatest(column.kind, attached)), KeyOf(v));
      if attached {
        NoneAboveTop(INDEX_STRING_KEY_SIZE, u.s);
        KeyLessIsRank(KeyOf(max), KeyOf(u));
      }
    }
  }

  /** What a selected row has in the two columns. */
  lemma ColumnBoundSelects(w: Where, c: nat, row: Row)
    requires ColumnBound(w, c) && Fits(w.columns, row)
    ensures Accepts(w, row) == Some(true) <==>
              && Comparable(w, c)
              && var lower, d := Literal(w.condition.value.cmp.right),
                 FindColumn(w.columns, w.condition.value.cmp.right2).value;
                 && !row[c].Null? && !row[d].Null?
                 && Rank(KeyOf(lower)) <= Rank(KeyOf(row[c])) < Rank(KeyOf(row[d]))
  {
    var cmp := w.condition.value.cmp;
    var upper := FindColumn(w.columns, cmp.right2);
    assert FitsColumn(w.columns[c], row[c]);
    CompareIsKeyOrder(row[c], Literal(cmp.right));
    if upper.Some? {
      assert FitsColumn(w.columns[upper.value], row[upper.value]);
      CompareIsKeyOrder(row[c], row[upper.value]);
    }
    hide Rank, CompareValues;
  }

  /** The row with the greatest value that leaves room above it, and with a greater value there. */
  function TopRow(w: Where, c: nat, d: nat, attached: set<nat>): (row: Row)
    requires c < |w.columns| && d < |w.columns|
    ensures |row| == |w.columns|
  {
    seq(|w.columns|, i requires 0 <= i < |w.columns| =>
      if i == c then Greatest(w.columns[c].kind, d in attached)
      else if i == d then Above(w.columns[c].kind, d in attached)
      else if w.columns[i].kind.IntType? then Int(0) else Str([]))
  }

  lemma TopRowHoldable(w: Where, c: nat, d: nat, attached: set<nat>)
    requires c < |w.columns| && d < |w.columns| && c != d && w.columns[d].kind == w.columns[c].kind
    ensures Holdable(w.columns, attached, TopRow(w, c, d, attached))
  {
    var row := TopRow(w, c, d, attached);
    GreatestFits(w.columns[c], w.columns[d], d in attached);
    hide Greatest, Above, Rank;
    forall i | 0 <= i < |row|
      ensures FitsColumn(w.columns[i], row[i]) && (i in attached ==> !row[i].Null? && FitsIndex(w.columns[i], row[i]))
    {
    }
  }

  lemma SelectedReaches(w: Where, c: nat, attached: set<nat>, row: Row)
    requires ColumnBound(w, c) && c in attached && Hit(w, attached, row)
    ensures Reachable(w, c, attached) && c < |row| && !row[c].Null?
    ensures Rank(KeyOf(Literal(w.condition.value.cmp.right))) <= Rank(KeyOf(row[c]))
            <= Rank(GreatestKey(w, c, attached))
  {
    hide Accepts, Rank, Greatest, Literal, FitsIndex;
    ColumnBoundSelects(w, c, row);
    var d := FindColumn(w.columns, w.condition.value.cmp.right2).value;
    assert FitsColumn(w.columns[c], row[c]) && FitsColumn(w.columns[d], row[d]);
    GreatestIs(w.columns[c], w.columns[d], d in attached, row[c], row[d]);
    ConditionsAsRanks(w, c, attached);
  }

  lemma TopRowSelected(w: Where, c: nat, attached: set<nat>) returns (row: Row)
    requires ColumnBound(w, c) && Reachable(w, c, attached)
    ensures Hit(w, attached, row) && c < |row| && !row[c].Null?
    ensures Rank(KeyOf(row[c])) == Rank(GreatestKey(w, c, attached))
  {
    hide Accepts, Rank, Greatest, Above, Literal, Matches;
    var d := FindColumn(w.columns, w.condition.value.cmp.right2).value;
    row := TopRow(w, c, d, attached);
    ConditionsAsRanks(w, c, attached);
    TopRowHoldable(w, c, d, attached);
    GreatestFits(w.columns[c], w.columns[d], d in attached);
    ColumnBoundSelects(w, c, row);
  }

  /** Exactly which conditions of this kind select a row of any table at all. */
  lemma ColumnBoundHits(w: Where, c: nat, attached: set<nat>)
    requires ColumnBound(w, c) && c in attached
    ensures (exists row :: Hit(w, attached, row)) <==> Reachable(w, c, attached)
  {
    hide Hit, Rank, GreatestKey, Literal, Comparable, Reachable;
    forall row: Row | Hit(w, attached, row) ensures Reachable(w, c, attached) {
      SelectedReaches(w, c, attached, row);
    }
    if Reachable(w, c, attached) {
      var row := TopRowSelected(w, c, attached);
    }
  }

  /** Exactly when index access, if it does not fail, can miss rows of a table: the condition can select
      a row, and the name of the upper column, read as a literal, lies below the greatest value. */
  lemma ColumnBoundMisses(w: Where, c: nat, attached: set<nat>)
    requires ColumnBound(w, c) && c in attached && Bounds(w.condition.value.cmp, w.columns[c].kind).Some?
    ensures (exists row :: Missed(w, c, attached, row)) <==>
              Reachable(w, c, attached) && NameBelow(w, c, attached)
  {
    hide Hit, Rank, GreatestKey, Literal, Bounds, KeyLess, NameBelow, Comparable;
    if Comparable(w, c) {
      ConditionsAsRanks(w, c, attached);
    }
    forall row: Row | Missed(w, c, attached, row)
      ensures Reachable(w, c, attached) && NameBelow(w, c, attached)
    {
      SelectedReaches(w, c, attached, row);
      LowerIsKey(w, c);
    }
    if Reachable(w, c, attached) {
      var row := TopRowSelected(w, c, attached);
      LowerIsKey(w, c);
      assert NameBelow(w, c, attached) ==> Missed(w, c, attached, row);
    }
  }

  /** In an integer column no key comes of a name that starts like an identifier: index access fails,
      whatever rows the condition selects. */
  lemma ColumnBoundFails(w: Where, c: nat)
    requires ColumnBound(w, c) && w.columns[c].kind.IntType?
    requires var name := w.condition.value.cmp.right2;
             name == [] || (!IsDigit(name[0]) && !IsSpace(name[0]) && name[0] != 43 && name[0] != 45)
    ensures Bounds(w.condition.value.cmp, w.columns[c].kind).None?
  {
  }

  lemma LowerIsKey(w: Where, c: nat)
    requires ColumnBound(w, c) && Comparable(w, c) && Bounds(w.condition.value.cmp, w.columns[c].kind).Some?
    ensures KeyOf(Literal(w.condition.value.cmp.right)) == Bounds(w.condition.value.cmp, w.columns[c].kind).value.0
  {
    var lower := Literal(w.condition.value.cmp.right);
    CompareIsKeyOrder(lower, lower);
    LiteralIsKey(w.condition.value.cmp.right, lower, w.columns[c].kind);
  }
}
