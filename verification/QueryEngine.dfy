/** SELECT, UPDATE and DELETE over one table, through its indexes where that is possible. */
module QueryExecution {
  import opened IndexTypes
  import opened KeyOrder
  import opened Values
  import opened ConditionSyntax
  import opened TableStorage
  import opened Queries
  import opened BStarPlusTree
  import TreeSearch
  import LeafMoves
  import TreeSize

  datatype QueryError = UnknownColumn | BadLiteral | EvaluationError | TableFault(error: TableError)

  datatype Outcome<T> = Success(value: T) | Failure(error: QueryError)

  datatype Assignment = Assignment(column: Text, value: Value)

  // ----- what an index lookup yields -----

  /** The records between two keys are exactly the rows whose values lie there, each once. */
  lemma RangeRows(index: BStarPlusIndex, rows: map<RowId, Row>, c: nat, beg: IndexKey, end: IndexKey)
    requires index.Valid() && Mirrors(index.Model(), rows, c)
    ensures var ids := Records(TreeSearch.InRange(index.Contents(), beg, end));
            && NoDuplicates(ids)
            && KeysAscend(rows, c, ids)
            && forall id :: id in ids <==> id in rows && Rank(beg) <= Rank(KeyOf(rows[id][c])) <= Rank(end)
  {
    hide BStarPlusIndex.Valid, BStarPlusIndex.Model, BStarPlusIndex.Contents, TreeSearch.InRange, NoDuplicates,
         Mirrors, KeysAscend;
    var es := index.Contents();
    ContentsOrdered(index);
    TreeSearch.InRangeMeaning(es, beg, end, index.kind);
    EntriesAreRows(es, index.Model(), rows, c, index.kind);
    RecordsDiffer(TreeSearch.InRange(es, beg, end), es);
    RecordsBetween(TreeSearch.InRange(es, beg, end), es, rows, c, beg, end);
    RecordsAscend(TreeSearch.InRange(es, beg, end), es, rows, c);
  }

  /** The rows with these ids stand in ascending order of their values in the column. */
  ghost predicate KeysAscend(rows: map<RowId, Row>, c: nat, ids: seq<RowId>) {
    forall i, j :: 0 <= i < j < |ids| ==> KeyBefore(rows, c, ids[i], ids[j])
  }

  ghost predicate KeyBefore(rows: map<RowId, Row>, c: nat, a: RowId, b: RowId) {
    && a in rows && b in rows && c < |rows[a]| && c < |rows[b]| && !rows[a][c].Null? && !rows[b][c].Null?
    && Rank(KeyOf(rows[a][c])) < Rank(KeyOf(rows[b][c]))
  }

  lemma RecordsAscend(found: seq<Entry>, es: seq<Entry>, rows: map<RowId, Row>, c: nat)
    requires forall i, j :: 0 <= i < j < |found| ==> Rank(found[i].key) < Rank(found[j].key)
    requires forall e :: e in found ==> e in es
    requires forall id :: id in rows ==> c < |rows[id]| && !rows[id][c].Null?
    requires forall e :: e in es <==> e.rec in rows && e.key == KeyOf(rows[e.rec][c])
    ensures KeysAscend(rows, c, Records(found))
  {
    hide Rank;
    var ids := Records(found);
    forall i, j | 0 <= i < j < |ids| ensures KeyBefore(rows, c, ids[i], ids[j]) {
      assert found[i] in found && found[j] in found;
    }
  }

  /** Entries in ascending order that stand for different rows have different records. */
  lemma RecordsDiffer(found: seq<Entry>, es: seq<Entry>)
    requires forall i, j :: 0 <= i < j < |found| ==> Rank(found[i].key) < Rank(found[j].key)
    requires forall e :: e in found ==> e in es
    requires forall d, e :: d in es && e in es && d.rec == e.rec ==> d.key == e.key
    ensures NoDuplicates(Records(found))
  {
    var ids := Records(found);
    forall i, j | 0 <= i < j < |ids| ensures ids[i] != ids[j] {
      assert found[i] in found && found[j] in found;
    }
  }

  lemma RecordsBetween(found: seq<Entry>, es: seq<Entry>, rows: map<RowId, Row>, c: nat, beg: IndexKey, end: IndexKey)
    requires forall id :: id in rows ==> c < |rows[id]| && !rows[id][c].Null?
    requires forall e :: e in found <==> e in es && Rank(beg) <= Rank(e.key) <= Rank(end)
    requires forall e :: e in es <==> e.rec in rows && e.key == KeyOf(rows[e.rec][c])
    ensures forall id :: id in Records(found) <==> id in rows && Rank(beg) <= Rank(KeyOf(rows[id][c])) <= Rank(end)
  {
    var ids := Records(found);
    forall id ensures id in ids <==> id in rows && Rank(beg) <= Rank(KeyOf(rows[id][c])) <= Rank(end) {
      if id in ids {
        var i :| 0 <= i < |ids| && ids[i] == id;
        assert found[i] in found;
      }
      if id in rows && Rank(beg) <= Rank(KeyOf(rows[id][c])) <= Rank(end) {
        var e := Entry(KeyOf(rows[id][c]), id);
        assert e in found;
        var i :| 0 <= i < |found| && found[i] == e;
        assert ids[i] == id;
      }
    }
  }

  lemma ContentsOrdered(index: BStarPlusIndex)
    requires index.Valid()
    ensures LeafMoves.Ordered(index.Contents(), index.kind) && index.Model() == TreeSearch.AsMap(index.Contents())
  {
  }

  /** The entries of the index of a column are the values and ids of the rows. */
  lemma EntriesAreRows(es: seq<Entry>, m: map<IndexKey, RowId>, rows: map<RowId, Row>, c: nat, kind: KeyKind)
    requires LeafMoves.Ordered(es, kind) && m == TreeSearch.AsMap(es) && Mirrors(m, rows, c)
    ensures forall id :: id in rows ==> c < |rows[id]| && !rows[id][c].Null?
    ensures forall e :: e in es <==> e.rec in rows && e.key == KeyOf(rows[e.rec][c])
  {
    forall e ensures e in es <==> e.rec in rows && e.key == KeyOf(rows[e.rec][c]) {
      if e in es {
        var i :| 0 <= i < |es| && es[i] == e;
        TreeSearch.AsMapGet(es, i, kind);
      }
      if e.rec in rows && e.key == KeyOf(rows[e.rec][c]) {
        TreeSearch.AsMapHas(es, e.key);
        var i :| 0 <= i < |es| && es[i].key == e.key;
        TreeSearch.AsMapGet(es, i, kind);
        assert es[i] == e;
      }
    }
  }

  /** The condition can be answered by the index of column c. */
  predicate Indexable(w: Where, c: nat) {
    && w.condition.Some? && ComparesColumn(w.condition.value)
    && FindColumn(w.columns, w.condition.value.cmp.left) == Some(c)
    && (w.condition.value.cmp.op == EQ || w.condition.value.cmp.op == BETWEEN)
  }

  /** The upper bound of a BETWEEN is a literal, as index access takes for granted. */
  predicate LiteralBounds(w: Where) {
    w.condition.Some? && ComparesColumn(w.condition.value) && w.condition.value.cmp.op == BETWEEN
    ==> !w.condition.value.cmp.right2IsColumn
  }

  /** A single comparison of a literal with a column that does not exist. */
  predicate NamesNoColumn(w: Where) {
    w.condition.Some? && ComparesColumn(w.condition.value) && FindColumn(w.columns, w.condition.value.cmp.left).None?
  }

  /** One of the rows is selected, but not found between the keys that index access makes of the bounds. */
  ghost predicate MissesIn(w: Where, c: nat, attached: set<nat>, rows: map<RowId, Row>) {
    && Indexable(w, c) && Bounds(w.condition.value.cmp, w.columns[c].kind).Some?
    && exists id :: id in rows && Missed(w, c, attached, rows[id])
  }

  /** The ids of the rows with keys between bounds contain every selected row, unless one is missed. */
  lemma RangeCovers(w: Where, c: nat, attached: set<nat>, rows: map<RowId, Row>, ids: seq<RowId>)
    requires RowsOk(w.columns, rows) && Indexable(w, c) && w.columns[c].indexed
    requires forall id :: id in rows ==> c < |rows[id]| && !rows[id][c].Null?
    requires forall id :: id in rows ==> Holdable(w.columns, attached, rows[id])
    requires NoDuplicates(ids) && Bounds(w.condition.value.cmp, w.columns[c].kind).Some?
    requires var b := Bounds(w.condition.value.cmp, w.columns[c].kind).value;
             forall id :: id in ids <==> id in rows && Rank(b.0) <= Rank(KeyOf(rows[id][c])) <= Rank(b.1)
    ensures Covers(w, rows, ids) <==> !MissesIn(w, c, attached, rows)
  {
    hide Bounds, Accepts, RowsOk, Rank, NoDuplicates, FitsIndex;
    forall id | id in rows ensures Selected(w, rows, id) && id !in ids <==> Missed(w, c, attached, rows[id]) {
      assert Holdable(w.columns, attached, rows[id]);
    }
    hide Holdable, Missed, Selected;
    if Covers(w, rows, ids) {
      assert forall id :: id in rows ==> !Missed(w, c, attached, rows[id]);
    }
  }

  /** With literal bounds, none is. */
  lemma LiteralsMissNone(w: Where, c: nat, attached: set<nat>, rows: map<RowId, Row>)
    requires RowsOk(w.columns, rows) && LiteralBounds(w) && (Indexable(w, c) ==> w.columns[c].indexed)
    ensures !MissesIn(w, c, attached, rows)
  {
    if MissesIn(w, c, attached, rows) {
      var id :| id in rows && Missed(w, c, attached, rows[id]);
      assert FitsColumn(w.columns[c], rows[id][c]);
      SelectedWithin(w, c, rows, id);
    }
  }

  /** The row found under a key, as a list. */
  lemma FoundIsRange(m: map<IndexKey, RowId>, rows: map<RowId, Row>, c: nat, key: IndexKey, ids: seq<RowId>)
    requires Mirrors(m, rows, c) && ids == if key in m then [m[key]] else []
    requires forall id :: id in rows ==> (rows[id][c].Int? <==> key.IntKey?)
    ensures NoDuplicates(ids) && KeysAscend(rows, c, ids)
    ensures forall id :: id in ids <==> id in rows && Rank(key) <= Rank(KeyOf(rows[id][c])) <= Rank(key)
  {
    forall id ensures id in ids <==> id in rows && Rank(key) <= Rank(KeyOf(rows[id][c])) <= Rank(key) {
      if id in rows {
        KeyLessIsRank(key, KeyOf(rows[id][c]));
      }
    }
  }

  class QueryEngine {
    const matcher: Matcher
    var lastSelectUsedIndex: bool

    constructor (m: Matcher)
      ensures matcher == m && !lastSelectUsedIndex
    {
      matcher := m;
      lastSelectUsedIndex := false;
    }

    function WhereOf(table: Table, condition: Option<Condition>): Where {
      Where(table.columns, matcher, condition)
    }

    /** An index would be used, but a literal is no key for it: NULL, or no number for an integer column. */
    ghost predicate BadBounds(table: Table, w: Where)
      reads table`indexes
    {
      && w.columns == table.columns
      && exists c :: c in table.indexes && Indexable(w, c) && Bounds(w.condition.value.cmp, w.columns[c].kind).None?
    }

    /** Index access, were it used, would miss a row of the table. */
    ghost predicate Misses(table: Table, w: Where)
      reads table`indexes, table`rows
    {
      exists c :: c in table.indexes && MissesIn(w, c, table.indexes.Keys, table.rows)
    }

    /** The rows to look at: every selected row among them, unless index access misses one. */
    method CollectCandidateRows(table: Table, condition: Option<Condition>)
      returns (r: Outcome<seq<RowId>>, usedIndex: bool)
      requires table.Valid()
      ensures table.Valid()
      ensures var w := WhereOf(table, condition);
              && (usedIndex ==>
                    r.Success? && exists c ::
                      c in table.indexes && Indexable(w, c) && KeysAscend(table.rows, c, r.value))
              && (!usedIndex && r.Success? ==> r.value == table.order && forall c :: c in table.indexes ==>
                    !Indexable(w, c))
              && (NamesNoColumn(w) ==> r == Failure(UnknownColumn))
                 && (BadBounds(table, w) ==> r == Failure(BadLiteral))
              && (r.Failure? ==>
                    && !usedIndex && (r.error == UnknownColumn || r.error == BadLiteral)
                    && (NamesNoColumn(w) || BadBounds(table, w)))
              && (r.Success? ==> NoDuplicates(r.value) && forall id :: id in r.value ==> id in table.rows)
              && (r.Success? ==> (Covers(w, table.rows, r.value) <==> !Misses(table, w)))
              && (LiteralBounds(w) ==> !Misses(table, w))
    {
      hide Table.Valid, RowsOk, OrderOk, Covers, Bounds, MissesIn, QueryEngine.Misses, KeysAscend;
      MissesNone(table, WhereOf(table, condition));
      ghost var w := WhereOf(table, condition);
      table.RowsInOrder();
      OrderCovers(w, table.rows, table.order, table.nextId);
      if condition.None? {
        return Success(table.order), false;
      }
      var c := condition.value;
      if c.leftTree.None? && c.next.None? && c.cmp.leftIsColumn && !c.cmp.rightIsColumn {
        var found := FindColumn(table.columns, c.cmp.left);
        if found.None? {
          return Failure(UnknownColumn), false;
        }
        var col := found.value;
        if table.HasIndex(col) && (c.cmp.op == EQ || c.cmp.op == BETWEEN) {
          r := LookUp(table, condition, col);
          return r, r.Success?;
        }
      }
      r, usedIndex := Success(table.order), false;
    }

    lemma AllHoldable(table: Table)
      requires table.Valid()
      ensures forall id :: id in table.rows ==> Holdable(table.columns, table.indexes.Keys, table.rows[id])
    {
      table.RowsInOrder();
      hide Table.Valid, OrderOk, FitsIndex;
      forall c | c in table.indexes
        ensures forall id :: id in table.rows ==>
                  && c < |table.columns| && c < |table.rows[id]|
                  && !table.rows[id][c].Null? && FitsIndex(table.columns[c], table.rows[id][c])
      {
        table.IndexedValues(c);
      }
    }

    /** No row is missed by a condition that is not answered by an index, or has literal bounds. */
    lemma MissesNone(table: Table, w: Where)
      requires table.Valid() && w.columns == table.columns
      ensures LiteralBounds(w) ==> !Misses(table, w)
      ensures (forall c :: c in table.indexes ==> !Indexable(w, c)) ==> !Misses(table, w)
      ensures forall c :: c in table.indexes && Indexable(w, c) ==>
                (Misses(table, w) <==> MissesIn(w, c, table.indexes.Keys, table.rows))
    {
      table.RowsInOrder();
      if LiteralBounds(w) {
        forall c | c in table.indexes ensures !MissesIn(w, c, table.indexes.Keys, table.rows) {
          LiteralsMissNone(w, c, table.indexes.Keys, table.rows);
        }
      }
    }

    /** The rows between the bounds of an indexed comparison. */
    method LookUp(table: Table, condition: Option<Condition>, c: nat) returns (r: Outcome<seq<RowId>>)
      requires table.Valid() && c in table.indexes && Indexable(WhereOf(table, condition), c)
      ensures table.Valid()
      ensures if Bounds(condition.value.cmp, table.columns[c].kind).Some? then r.Success? else r == Failure(BadLiteral)
      ensures r.Success? ==> NoDuplicates(r.value) && forall id :: id in r.value ==> id in table.rows
      ensures r.Success? ==> KeysAscend(table.rows, c, r.value)
      ensures var w := WhereOf(table, condition);
              r.Success? ==> (Covers(w, table.rows, r.value) <==> !MissesIn(w, c, table.indexes.Keys, table.rows))
    {
      hide BStarPlusIndex.Valid, BStarPlusIndex.Model, BStarPlusIndex.Contents, RowsOk, OrderOk, Mirrors, Covers,
           KindFor;
      var cmp, kind := condition.value.cmp, table.columns[c].kind;
      var index := table.indexes[c];
      var lower := LiteralKey(cmp.right, kind);
      var upper := if cmp.op == EQ then lower else LiteralKey(cmp.right2, kind);
      if lower.None? || upper.None? {
        return Failure(BadLiteral);
      }
      LiteralKeyKind(cmp.right, kind);
      LiteralKeyKind(cmp.right2, kind);
      ColumnKeys(table.columns, table.rows, c, index.Model());
      AllHoldable(table);
      hide KeyMatchesKind, Holdable, MissesIn, Rank, KeysAscend;
      var ids: seq<RowId> := [];
      if cmp.op == EQ {
        var found, path := index.Find(lower.value);
        if found.value.Some? {
          ids := [found.value.value];
        }
        KeyKinds(kind, lower.value);
        FoundIsRange(index.Model(), table.rows, c, lower.value, ids);
      } else {
        var found := index.RangeSearch(lower.value, upper.value);
        ids := found.value;
        RangeRows(index, table.rows, c, lower.value, upper.value);
      }
      RangeCovers(WhereOf(table, condition), c, table.indexes.Keys, table.rows, ids);
      r := Success(ids);
    }

    /** The ids of the selected rows: those of a full scan, found by an index or not, exactly if index access
        misses none, as with literal bounds; without an index also in the order of the table. */
    method Select(table: Table, condition: Option<Condition>) returns (r: Outcome<seq<RowId>>)
      requires table.Valid()
      modifies this`lastSelectUsedIndex
      ensures table.Valid() && SameArity(table)
      ensures var w := WhereOf(table, condition); var all := Scan(w, table.rows, table.order);
              && (r.Success? ==> NoDuplicates(r.value))
              && (r.Success? && all.Some? ==> (multiset(r.value) == multiset(all.value) <==> !Misses(table, w)))
              && (LiteralBounds(w) ==> !Misses(table, w) && (r.Success? ==> all.Some?))
              && (r.Success? ==> forall id :: id in r.value ==> id in table.rows && Satisfied(w, table.rows[id]))
              && (r.Success? && !Misses(table, w) ==>
                    forall id :: id in r.value <==> id in table.rows && Satisfied(w, table.rows[id]))
              && (r.Success? ==>
                    if lastSelectUsedIndex then
                      exists c :: c in table.indexes && Indexable(w, c) && KeysAscend(table.rows, c, r.value)
                    else all == Some(r.value) && Ascending(r.value))
              && (NamesNoColumn(w) ==> r == Failure(UnknownColumn))
                 && (BadBounds(table, w) ==> r == Failure(BadLiteral))
              && (all.Some? <==> AllEvaluable(w, table.rows))
              && (r.Failure? ==> NamesNoColumn(w) || BadBounds(table, w) || all.None?)
              && (LiteralBounds(w) && all.None? ==> r.Failure?)
    {
      hide Table.Valid, RowsOk, OrderOk, Covers, NoDuplicates, LiteralBounds, NamesNoColumn, Selected, Accepts,
           QueryEngine.Misses, QueryEngine.BadBounds, KeysAscend, Ascending, Satisfied, Evaluable, AllEvaluable;
      ghost var w, all := WhereOf(table, condition), table.order;
      table.RowsInOrder();
      RowsHaveArity(table.columns, table.rows);
      OrderCovers(w, table.rows, table.order, table.nextId);
      EvaluableRows(w, table.rows, table.order, table.nextId);
      var candidates, usedIndex := CollectCandidateRows(table, condition);
      NoteIndexUse(table, usedIndex);
      if candidates.Failure? {
        return Failure(candidates.error);
      }
      var found := FilterRows(table, condition, candidates.value);
      FewerFail(w, table.rows, candidates.value, all, table.nextId);
      if found.None? {
        return Failure(EvaluationError);
      }
      ghost var byIndex: Option<nat> := None;
      if usedIndex {
        ghost var c :| c in table.indexes && Indexable(w, c) && KeysAscend(table.rows, c, candidates.value);
        byIndex := Some(c);
        if LiteralBounds(w) {
          IndexedScan(w, c, table.rows, all);
        }
      }
      FoundMeaning(w, table.rows, candidates.value, all, table.nextId, found.value, byIndex);
      if Scan(w, table.rows, all).Some? {
        ScanExactly(w, table.rows, candidates.value, all);
      }
      ScanMeaning(w, table.rows, candidates.value);
      r := Success(found.value);
    }

    method NoteIndexUse(ghost table: Table, usedIndex: bool)
      requires table.Valid()
      modifies this`lastSelectUsedIndex
      ensures table.Valid() && lastSelectUsedIndex == usedIndex
    {
      hide RowsOk, OrderOk, Mirrors, BStarPlusIndex.Valid, BStarPlusIndex.Model, KindFor;
      lastSelectUsedIndex := usedIndex;
    }

    ghost predicate SameArity(table: Table)
      reads table`rows
    {
      forall id :: id in table.rows ==> |table.rows[id]| == |table.columns|
    }

    /** The loop that the three statements share: the rows among the candidates that the condition accepts. */
    method FilterRows(table: Table, condition: Option<Condition>, candidates: seq<RowId>)
      returns (r: Option<seq<RowId>>)
      requires table.Valid() && SameArity(table)
      ensures table.Valid() && r == Scan(WhereOf(table, condition), table.rows, candidates)
    {
      r := FilterAll(table, condition, candidates);
    }

    method FilterAll(table: Table, condition: Option<Condition>, candidates: seq<RowId>) returns (r: Option<seq<RowId>>)
      requires SameArity(table)
      ensures r == Scan(WhereOf(table, condition), table.rows, candidates)
    {
      ghost var w := WhereOf(table, condition);
      var out := [];
      var i := 0;
      while i < |candidates|
        invariant i <= |candidates| && Scan(w, table.rows, candidates[..i]) == Some(out)
      {
        var id := candidates[i];
        assert candidates[..i + 1][..i] == candidates[..i];
        i := i + 1;
        if id !in table.rows {
          continue;
        }
        if condition.Some? {
          var accepted := EvaluateCondition(condition.value, table.columns, matcher, table.rows[id]);
          if accepted.None? {
            ScanFails(w, table.rows, candidates);
            return None;
          }
          if !accepted.value {
            continue;
          }
        }
        out := out + [id];
      }
      assert candidates[..i] == candidates;
      r := Some(out);
    }

    /** Removes the selected rows, exactly if index access misses none; the other rows stay as they are, in
        their order. */
    method Delete(table: Table, condition: Option<Condition>) returns (r: Outcome<()>)
      requires table.Valid()
      modifies table`rows, table`order, table.indexes.Values, table.Disks()
      ensures table.Valid() && SameArity(table) && old(SameArity(table))
      ensures var w := WhereOf(table, condition); var rows, order := old(table.rows), old(table.order);
              && (r.Success? ==> table.rows == rows - (rows.Keys - table.rows.Keys)
                                 && forall id :: id in rows && id !in table.rows ==> Satisfied(w, rows[id]))
              && (r.Success? && !old(Misses(table, w)) ==>
                    forall id :: id in table.rows <==> id in rows && !Satisfied(w, rows[id]))
              && (r.Success? ==> (table.rows == rows - SelectedIds(w, rows) <==> !old(Misses(table, w))))
              && (LiteralBounds(w) ==> !old(Misses(table, w)))
              && (r.Failure? ==> table.rows == rows && table.order == order)
              && (NamesNoColumn(w) ==> r == Failure(UnknownColumn))
                 && (old(BadBounds(table, w)) ==> r == Failure(BadLiteral))
              && (r.Failure? ==> NamesNoColumn(w) || old(BadBounds(table, w)) || !AllEvaluable(w, rows))
              && (LiteralBounds(w) && !AllEvaluable(w, rows) ==> r.Failure?)
    {
      hide Table.Valid, RowsOk, OrderOk, Covers, NoDuplicates, LiteralBounds, NamesNoColumn, Selected, Accepts,
           QueryEngine.Misses, QueryEngine.BadBounds, KeysAscend, Ascending, Satisfied, Evaluable, AllEvaluable;
      ghost var w, rows := WhereOf(table, condition), table.rows;
      table.RowsInOrder();
      RowsHaveArity(table.columns, table.rows);
      EvaluableRows(w, rows, table.order, table.nextId);
      var candidates, usedIndex := CollectCandidateRows(table, condition);
      if candidates.Failure? {
        return Failure(candidates.error);
      }
      var toDelete := FilterRows(table, condition, candidates.value);
      FewerFail(w, table.rows, candidates.value, table.order, table.nextId);
      if toDelete.None? {
        return Failure(EvaluationError);
      }
      ghost var byIndex: Option<nat> := None;
      if usedIndex {
        ghost var c :| c in table.indexes && Indexable(w, c) && KeysAscend(rows, c, candidates.value);
        byIndex := Some(c);
        if LiteralBounds(w) {
          IndexedScan(w, c, rows, table.order);
        }
      }
      FoundMeaning(w, rows, candidates.value, table.order, table.nextId, toDelete.value, byIndex);
      ScanMeaning(w, rows, candidates.value);
      EraseAll(table, toDelete.value);
      table.RowsInOrder();
      RowsHaveArity(table.columns, table.rows);
      DeletedExactly(w, rows, candidates.value, toDelete.value);
      r := Success(());
    }

    method EraseAll(table: Table, toDelete: seq<RowId>)
      requires table.Valid() && NoDuplicates(toDelete) && forall id :: id in toDelete ==> id in table.rows
      modifies table`rows, table`order, table.indexes.Values, table.Disks()
      ensures table.Valid() && table.rows == old(table.rows) - Members(toDelete)
    {
      hide Table.Valid, RowsOk, OrderOk;
      var i := 0;
      while i < |toDelete|
        invariant i <= |toDelete| && table.Valid()
        invariant table.rows == old(table.rows) - Members(toDelete[..i])
      {
        assert toDelete[..i + 1] == toDelete[..i] + [toDelete[i]];
        var erased := table.Erase(toDelete[i]);
        i := i + 1;
      }
      assert toDelete[..i] == toDelete;
    }

    /** Assigns to the selected rows. A statement that succeeds has changed exactly the rows on which the
        condition was true before it, unless index access misses one: each of their cells has the value last
        assigned to its column. A statement that fails half-way has not touched the other rows either. */
    method Update(table: Table, condition: Option<Condition>, assignments: seq<Assignment>) returns (r: Outcome<()>)
      requires table.Valid() && table.Room(Times(|table.rows|, |assignments|))
      modifies table`rows, table.indexes.Values, table.Disks()
      ensures old(SameArity(table)) && (table.Valid() <==> r != Failure(TableFault(IndexRejected)))
      ensures var w := WhereOf(table, condition); var rows := old(table.rows);
              && table.rows.Keys == rows.Keys
              && (forall id :: id in rows && !Satisfied(w, rows[id]) ==> table.rows[id] == rows[id])
              && (forall id :: id in rows ==> Partly(table.columns, rows[id], assignments, table.rows[id]))
              && (LiteralBounds(w) ==> !old(Misses(table, w)))
              && (r.Success? && !old(Misses(table, w)) ==>
                    forall id :: id in rows && Satisfied(w, rows[id]) ==>
                      RowAfter(table.columns, rows[id], assignments, table.rows[id]))
              && (r.Success? && table.rows != rows ==>
                    forall a :: a in assignments ==> NamesColumn(table.columns, a.column))
              && (r.Success? && !old(Misses(table, w)) && (exists id :: id in rows && Satisfied(w, rows[id])) ==>
                    forall a :: a in assignments ==> NamesColumn(table.columns, a.column))
              && (NamesNoColumn(w) ==> r == Failure(UnknownColumn))
              && (old(BadBounds(table, w)) ==> r == Failure(BadLiteral))
              && (r.Failure? ==>
                    match r.error
                    case BadLiteral => old(BadBounds(table, w))
                    case EvaluationError => !AllEvaluable(w, rows)
                    case _ => NamesNoColumn(w) || Refused(table, assignments, r.error))
    {
      hide Table.Valid, RowsOk, OrderOk, Covers, NoDuplicates, LiteralBounds, NamesNoColumn, Accepts, Times,
           Satisfied, Evaluable, Table.Room, QueryEngine.Misses, QueryEngine.BadBounds, QueryEngine.Refused, RowAfter,
           Selected;
      ghost var w, rows := WhereOf(table, condition), table.rows;
      table.RowsInOrder();
      RowsHaveArity(table.columns, table.rows);
      ghost var order, nextId := table.order, table.nextId;
      var candidates, usedIndex := CollectCandidateRows(table, condition);
      if candidates.Failure? {
        NonePartly(table.columns, rows, assignments);
        return Failure(candidates.error);
      }
      var ids := candidates.value;
      DistinctIds(ids, rows.Keys);
      TimesGrows(|rows|, |ids|, |assignments|);
      table.RoomForLess(Times(|rows|, |assignments|), Times(|ids|, |assignments|));
      r := UpdateRows(table, condition, ids, assignments);
      UpdateMeaning(w, rows, ids, assignments, table.rows, order, nextId, usedIndex, r.Success?);
    }

    method UpdateRows(table: Table, condition: Option<Condition>, ids: seq<RowId>, assignments: seq<Assignment>)
      returns (r: Outcome<()>)
      requires table.Valid() && NoDuplicates(ids) && (forall id :: id in ids ==> id in table.rows)
      requires SameArity(table) && table.Room(Times(|ids|, |assignments|))
      modifies table`rows, table.indexes.Values, table.Disks()
      ensures table.Valid() <==> r != Failure(TableFault(IndexRejected))
      ensures var w, rows := WhereOf(table, condition), old(table.rows);
              && Touched(w, rows, assignments, table.rows)
              && (r.Success? ==> UpdatedTo(w, rows, ids, assignments, table.rows))
              && (r.Failure? ==>
                    if r.error == EvaluationError then exists id :: id in rows && Accepts(w, rows[id]).None?
                    else (r.error == UnknownColumn || r.error.TableFault?) && Refused(table, assignments, r.error))
    {
      hide Table.Valid, RowsOk, OrderOk, NoDuplicates, Accepts, Selected, UpdatedTo, Times, Table.Room, RowAfter,
           QueryEngine.Refused;
      ghost var w, rows, m := WhereOf(table, condition), table.rows, |assignments|;
      ghost var left, rest := |ids|, Times(|ids|, m);
      UpdatedNone(w, rows, assignments);
      var i := 0;
      assert ids[..0] == [];
      while i < |ids|
        invariant i <= |ids| && table.Valid()
        invariant left == |ids| - i && rest == Times(left, m) && table.Room(rest)
        invariant UpdatedTo(w, rows, ids[..i], assignments, table.rows)
      {
        UpdatedNext(w, rows, ids, i, assignments, table.rows);
        ghost var now := rest;
        left, rest := TimesLess(left, m);
        r := UpdateRow(table, condition, ids[i], assignments, now, rest);
        if r.Failure? {
          return;
        }
        i := i + 1;
      }
      assert ids[..i] == ids;
      UpdatedTouched(w, rows, ids, assignments, table.rows);
      r := Success(());
    }

    /** One row of the loop: assigned to if the condition accepts it. */
    method UpdateRow(table: Table, condition: Option<Condition>, id: RowId, assignments: seq<Assignment>,
                     ghost room: nat, ghost spare: nat)
      returns (r: Outcome<()>)
      requires table.Valid() && id in table.rows && |table.rows[id]| == |table.columns|
      requires room == |assignments| + spare && table.Room(room)
      modifies table`rows, table.indexes.Values, table.Disks()
      ensures OnlyRow(old(table.rows), table.rows, id)
      ensures (table.Valid() <==> r != Failure(TableFault(IndexRejected))) && table.Room(spare)
      ensures OneUpdated(WhereOf(table, condition), old(table.rows)[id], assignments, table.rows[id], r.Success?)
      ensures r.Failure? ==>
                if r.error == EvaluationError then Accepts(WhereOf(table, condition), old(table.rows)[id]).None?
                else (r.error == UnknownColumn || r.error.TableFault?) && Refused(table, assignments, r.error)
    {
      hide Table.Valid, RowsOk, OrderOk, EvaluateCondition, QueryEngine.Refused, RowAfter;
      UnchangedPartly(table.columns, table.rows[id], assignments);
      if condition.Some? {
        var accepted := AcceptsRow(table, condition, id);
        if accepted.None? {
          return Failure(EvaluationError);
        }
        if !accepted.value {
          return Success(());
        }
      }
      r := Assign(table, id, assignments);
    }

    method AcceptsRow(table: Table, condition: Option<Condition>, id: RowId) returns (accepted: Option<bool>)
      requires table.Valid() && id in table.rows && |table.rows[id]| == |table.columns| && condition.Some?
      ensures table.Valid() && accepted == Accepts(WhereOf(table, condition), table.rows[id])
    {
      accepted := EvaluateCondition(condition.value, table.columns, matcher, table.rows[id]);
    }

    /** One of the assignments cannot be made, and is answered by this error. */
    ghost predicate Refused(table: Table, assignments: seq<Assignment>, error: QueryError)
      reads table`indexes, table`rows
    {
      exists a, id :: a in assignments && Refuses(table, id, a, error)
    }

    /** The column does not exist; or the value cannot be a key in the index of its column; or the row with this
        value in place of the old one has a fault. */
    ghost predicate Refuses(table: Table, id: RowId, a: Assignment, error: QueryError)
      reads table`indexes, table`rows
    {
      match error
      case UnknownColumn => !NamesColumn(table.columns, a.column)
      case TableFault(IndexRejected) =>
        exists c: nat ::
          ColumnIs(table.columns, a.column, c) && c in table.indexes && !FitsIndex(table.columns[c], a.value)
      case TableFault(e) =>
        exists c: nat ::
          && ColumnIs(table.columns, a.column, c) && id in table.rows && c < |table.rows[id]|
          && Verdict(table.columns, table.rows, table.rows[id][c := a.value], Some(id), Some(e))
      case _ => false
    }

    method Assign(table: Table, id: RowId, assignments: seq<Assignment>) returns (r: Outcome<()>)
      requires table.Valid() && id in table.rows && |table.rows[id]| == |table.columns| && table.Room(|assignments|)
      modifies table`rows, table.indexes.Values, table.Disks()
      ensures OnlyRow(old(table.rows), table.rows, id) && table.Grown(|assignments|)
      ensures table.Valid() <==> r != Failure(TableFault(IndexRejected))
      ensures Partly(table.columns, old(table.rows)[id], assignments, table.rows[id])
      ensures r.Success? ==>
                && RowAfter(table.columns, old(table.rows)[id], assignments, table.rows[id])
                && forall a :: a in assignments ==> NamesColumn(table.columns, a.column)
      ensures r.Failure? ==> (r.error == UnknownColumn || r.error.TableFault?) && Refused(table, assignments, r.error)
    {
      hide Table.Valid, Table.Disks, QueryEngine.Refuses, NamesColumn, CellAfter;
      ghost var before := table.rows[id];
      var j := 0;
      UnchangedPartly(table.columns, before, assignments);
      while j < |assignments|
        invariant j <= |assignments| && table.Valid() && table.Grown(j)
        invariant OnlyRow(old(table.rows), table.rows, id)
        invariant RowAfter(table.columns, before, assignments[..j], table.rows[id])
        invariant forall i :: 0 <= i < j ==> NamesColumn(table.columns, assignments[i].column)
      {
        ghost var row := table.rows[id];
        r := AssignOne(table, id, assignments[j]);
        if r.Failure? {
          return;
        }
        RowAfterMore(table.columns, before, assignments, j, row, table.rows[id]);
        j := j + 1;
      }
      assert assignments[..j] == assignments;
      r := Success(());
    }

    method AssignOne(table: Table, id: RowId, a: Assignment) returns (r: Outcome<()>)
      requires table.Valid() && id in table.rows && table.Room(1)
      modifies table`rows, table.indexes.Values, table.Disks()
      ensures (table.Valid() <==> r != Failure(TableFault(IndexRejected))) && table.Grown(1)
      ensures r.Failure? ==>
                table.rows == old(table.rows) && (r.error == UnknownColumn || r.error.TableFault?)
                  && Refuses(table, id, a, r.error)
      ensures r.Success? ==>
                NamesColumn(table.columns, a.column) && exists c: nat ::
                  && ColumnIs(table.columns, a.column, c) && c < |old(table.rows)[id]|
                  && table.rows == old(table.rows)[id := old(table.rows)[id][c := a.value]]
    {
      hide Table.Valid, Table.Disks, FitsIndex, Verdict;
      table.KeepsArity(id);
      FirstColumn(table.columns, a.column);
      var column := FindColumn(table.columns, a.column);
      if column.None? {
        return Failure(UnknownColumn);
      }
      assert ColumnIs(table.columns, a.column, column.value);
      var updated := table.Update(id, column.value, a.value);
      r := if updated.Failed? then Failure(TableFault(updated.error)) else Success(());
    }
  }

  lemma KeyKinds(kind: DataType, key: IndexKey)
    requires KeyMatchesKind(key, KindFor(kind))
    ensures kind.IntType? <==> key.IntKey?
  {
  }

  lemma ColumnKeys(columns: seq<ColumnDef>, rows: map<RowId, Row>, c: nat, m: map<IndexKey, RowId>)
    requires RowsOk(columns, rows) && c < |columns| && columns[c].indexed && Mirrors(m, rows, c)
    ensures forall id :: id in rows ==>
              c < |rows[id]| && !rows[id][c].Null? && (rows[id][c].Int? <==> columns[c].kind.IntType?)
  {
    forall id | id in rows
      ensures c < |rows[id]| && !rows[id][c].Null? && (rows[id][c].Int? <==> columns[c].kind.IntType?)
    {
      assert FitsColumn(columns[c], rows[id][c]);
    }
  }

  lemma RowsHaveArity(columns: seq<ColumnDef>, rows: map<RowId, Row>)
    requires RowsOk(columns, rows)
    ensures forall id :: id in rows ==> |rows[id]| == |columns|
  {
  }

  /** A row that raises an exception among some of the rows raises it among all. */
  lemma FewerFail(w: Where, rows: map<RowId, Row>, some: seq<RowId>, all: seq<RowId>, nextId: nat)
    requires forall id :: id in rows ==> |rows[id]| == |w.columns|
    requires OrderOk(rows, all, nextId)
    ensures Scan(w, rows, some).None? ==> Scan(w, rows, all).None?
  {
    ScanFails(w, rows, some);
    ScanFails(w, rows, all);
  }

  /** What a scan of the candidates has found: rows on which the condition is true, all of them unless some were
      missed, in the order of the table or of the keys. */
  lemma FoundMeaning(w: Where, rows: map<RowId, Row>, candidates: seq<RowId>, all: seq<RowId>, nextId: nat,
                     found: seq<RowId>, byIndex: Option<nat>)
    requires (forall id :: id in rows ==> |rows[id]| == |w.columns|) && OrderOk(rows, all, nextId)
    requires Scan(w, rows, candidates) == Some(found) && forall id :: id in candidates ==> id in rows
    requires if byIndex.Some? then Indexable(w, byIndex.value) && KeysAscend(rows, byIndex.value, candidates)
             else candidates == all
    ensures forall id :: id in found ==> id in rows && Satisfied(w, rows[id])
    ensures Covers(w, rows, candidates) ==> forall id :: id in found <==> id in rows && Satisfied(w, rows[id])
    ensures if byIndex.Some? then KeysAscend(rows, byIndex.value, found) else Ascending(found)
  {
    SelectedMeaning(w, rows, all);
    ScanMeaning(w, rows, candidates);
    hide Selected, Scan, Satisfied, Evaluable, KeyBefore;
    if byIndex.Some? {
      ScanOrdered(w, rows, candidates, (a: RowId, b: RowId) => KeyBefore(rows, byIndex.value, a, b));
      forall id | id in rows && Satisfied(w, rows[id]) ensures Evaluable(w, rows[id]) {
        SingleEvaluable(w, rows[id]);
      }
    } else {
      ScanOrdered(w, rows, candidates, (a: RowId, b: RowId) => a < b);
    }
  }

  lemma EvaluableRows(w: Where, rows: map<RowId, Row>, all: seq<RowId>, nextId: nat)
    requires (forall id :: id in rows ==> |rows[id]| == |w.columns|) && OrderOk(rows, all, nextId)
    ensures Scan(w, rows, all).Some? <==> AllEvaluable(w, rows)
  {
    SelectedMeaning(w, rows, all);
  }

  lemma IndexedScan(w: Where, c: nat, rows: map<RowId, Row>, all: seq<RowId>)
    requires forall id :: id in rows ==> |rows[id]| == |w.columns|
    requires Indexable(w, c) && LiteralBounds(w)
    ensures Scan(w, rows, all).Some?
  {
    ScanFails(w, rows, all);
    if id :| id in all && id in rows && Accepts(w, rows[id]).None? {
      IndexedEvaluates(w, c, rows[id]);
      assert false;
    }
  }

  ghost function Members(ids: seq<RowId>): set<RowId> {
    set id | id in ids
  }

  ghost function SelectedIds(w: Where, rows: map<RowId, Row>): set<RowId> {
    set id | id in rows && Selected(w, rows, id)
  }

  lemma DeletedExactly(w: Where, rows: map<RowId, Row>, candidates: seq<RowId>, ids: seq<RowId>)
    requires forall id :: id in rows ==> |rows[id]| == |w.columns|
    requires Scan(w, rows, candidates) == Some(ids)
    ensures forall id :: id in ids ==> id in rows && Selected(w, rows, id)
    requires NoDuplicates(candidates) && forall id :: id in candidates ==> id in rows
    ensures rows - Members(ids) == rows - SelectedIds(w, rows) <==> Covers(w, rows, candidates)
  {
    ScanMeaning(w, rows, candidates);
    hide Selected, Scan;
    if rows - Members(ids) == rows - SelectedIds(w, rows) {
      forall id | Selected(w, rows, id) ensures id in candidates {
        assert id in SelectedIds(w, rows) && id !in rows - SelectedIds(w, rows);
      }
    }
  }

  /** What the assignments make of a cell: the value of the last one that names its column, or what it was. */
  ghost predicate CellAfter(columns: seq<ColumnDef>, before: Row, assignments: seq<Assignment>, c: nat, v: Value)
    requires c < |before|
  {
    || (exists k: nat ::
          && k < |assignments| && ColumnIs(columns, assignments[k].column, c) && v == assignments[k].value
          && forall l: nat :: k < l < |assignments| ==> !ColumnIs(columns, assignments[l].column, c))
    || (v == before[c] && forall l: nat :: l < |assignments| ==> !ColumnIs(columns, assignments[l].column, c))
  }

  ghost predicate RowAfter(columns: seq<ColumnDef>, before: Row, assignments: seq<Assignment>, after: Row) {
    |after| == |before| && forall c :: 0 <= c < |before| ==> CellAfter(columns, before, assignments, c, after[c])
  }

  /** The row after some of the assignments, from the first one on. */
  ghost predicate Partly(columns: seq<ColumnDef>, before: Row, assignments: seq<Assignment>, after: Row) {
    exists n :: 0 <= n <= |assignments| && RowAfter(columns, before, assignments[..n], after)
  }

  /** There is one such row. */
  lemma RowAfterUnique(columns: seq<ColumnDef>, before: Row, assignments: seq<Assignment>, after: Row, after': Row)
    requires RowAfter(columns, before, assignments, after) && RowAfter(columns, before, assignments, after')
    ensures after == after'
  {
    hide ColumnIs;
    forall c | 0 <= c < |before| ensures after[c] == after'[c] {
      assert CellAfter(columns, before, assignments, c, after[c])
             && CellAfter(columns, before, assignments, c, after'[c]);
    }
  }

  lemma UnchangedPartly(columns: seq<ColumnDef>, row: Row, assignments: seq<Assignment>)
    ensures RowAfter(columns, row, assignments[..0], row) && Partly(columns, row, assignments, row)
  {
  }

  lemma NonePartly(columns: seq<ColumnDef>, rows: map<RowId, Row>, assignments: seq<Assignment>)
    ensures forall id :: id in rows ==> Partly(columns, rows[id], assignments, rows[id])
  {
    forall id | id in rows ensures Partly(columns, rows[id], assignments, rows[id]) {
      UnchangedPartly(columns, rows[id], assignments);
    }
  }

  lemma RowAfterMore(columns: seq<ColumnDef>, before: Row, assignments: seq<Assignment>, j: nat, row: Row, after: Row)
    requires j < |assignments| && RowAfter(columns, before, assignments[..j], row)
    requires exists c: nat ::
               c < |row| && ColumnIs(columns, assignments[j].column, c) && after == row[c := assignments[j].value]
    ensures RowAfter(columns, before, assignments[..j + 1], after)
  {
    var c: nat :| c < |row| && ColumnIs(columns, assignments[j].column, c) && after == row[c := assignments[j].value];
    var more := assignments[..j + 1];
    assert forall i :: 0 <= i < j ==> more[i] == assignments[..j][i];
    forall d: nat | d < |before| ensures CellAfter(columns, before, more, d, after[d]) {
      assert CellAfter(columns, before, assignments[..j], d, row[d]);
      if d == c {
        assert ColumnIs(columns, more[j].column, c);
      } else {
        OneColumn(columns, more[j].column, c, d);
      }
    }
  }

  lemma OneColumn(columns: seq<ColumnDef>, name: Text, c: nat, d: nat)
    requires ColumnIs(columns, name, c) && c != d
    ensures !ColumnIs(columns, name, d)
  {
  }

  /** No row but this one has changed. */
  ghost predicate OnlyRow(before: map<RowId, Row>, after: map<RowId, Row>, id: RowId) {
    id in before && id in after && after == before[id := after[id]]
  }

  /** What has become of one row: all the assignments if it is selected, and none otherwise; only some, if the
      statement has failed. */
  ghost predicate OneUpdated(w: Where, before: Row, assignments: seq<Assignment>, after: Row, success: bool)
    requires |before| == |w.columns|
  {
    && Partly(w.columns, before, assignments, after) && (Accepts(w, before) != Some(true) ==> after == before)
    && (success ==>
          && Accepts(w, before).Some?
          && (Accepts(w, before).value ==>
                && RowAfter(w.columns, before, assignments, after)
                && forall a :: a in assignments ==> NamesColumn(w.columns, a.column)))
  }

  /** Every row is as it was, or is selected and has got some of the assignments. */
  ghost predicate Touched(w: Where, rows: map<RowId, Row>, assignments: seq<Assignment>, now: map<RowId, Row>)
    requires forall id :: id in rows ==> |rows[id]| == |w.columns|
  {
    now.Keys == rows.Keys && forall id :: id in rows ==> OneUpdated(w, rows[id], assignments, now[id], false)
  }

  /** The selected rows among ids have been assigned to, and no others. */
  ghost predicate UpdatedTo(w: Where, rows: map<RowId, Row>, ids: seq<RowId>, assignments: seq<Assignment>,
                            now: map<RowId, Row>)
    requires forall id :: id in rows ==> |rows[id]| == |w.columns|
  {
    && now.Keys == rows.Keys
    && forall id :: id in rows ==>
         if id in ids then OneUpdated(w, rows[id], assignments, now[id], true) else now[id] == rows[id]
  }

  lemma UpdatedNone(w: Where, rows: map<RowId, Row>, assignments: seq<Assignment>)
    requires forall id :: id in rows ==> |rows[id]| == |w.columns|
    ensures UpdatedTo(w, rows, [], assignments, rows)
  {
  }

  lemma UpdatedTouched(w: Where, rows: map<RowId, Row>, ids: seq<RowId>, assignments: seq<Assignment>,
                       now: map<RowId, Row>)
    requires (forall id :: id in rows ==> |rows[id]| == |w.columns|) && UpdatedTo(w, rows, ids, assignments, now)
    ensures Touched(w, rows, assignments, now)
  {
    hide Accepts, RowAfter, Partly;
    forall id | id in rows ensures OneUpdated(w, rows[id], assignments, now[id], false) {
      UnchangedPartly(w.columns, rows[id], assignments);
    }
  }

  /** What the next row brings. */
  lemma UpdatedNext(w: Where, rows: map<RowId, Row>, ids: seq<RowId>, i: nat, assignments: seq<Assignment>,
                    now: map<RowId, Row>)
    requires (forall id :: id in rows ==> |rows[id]| == |w.columns|) && NoDuplicates(ids)
    requires i < |ids| && ids[i] in rows && UpdatedTo(w, rows, ids[..i], assignments, now)
    ensures now.Keys == rows.Keys && now[ids[i]] == rows[ids[i]]
    ensures forall next: map<RowId, Row> ::
              OnlyRow(now, next, ids[i]) && OneUpdated(w, rows[ids[i]], assignments, next[ids[i]], false) ==>
                && Touched(w, rows, assignments, next)
                && (OneUpdated(w, rows[ids[i]], assignments, next[ids[i]], true) ==>
                      UpdatedTo(w, rows, ids[..i + 1], assignments, next))
  {
    hide Accepts, RowAfter, Partly;
    assert ids[..i + 1] == ids[..i] + [ids[i]];
    assert ids[i] !in ids[..i];
    UpdatedTouched(w, rows, ids[..i], assignments, now);
    hide OneUpdated;
  }

  /** What an update has done, in the terms of what the comparisons say of the rows before it. */
  lemma UpdateMeaning(w: Where, rows: map<RowId, Row>, ids: seq<RowId>, assignments: seq<Assignment>,
                      now: map<RowId, Row>, order: seq<RowId>, nextId: nat, usedIndex: bool, success: bool)
    requires (forall id :: id in rows ==> |rows[id]| == |w.columns|) && OrderOk(rows, order, nextId)
    requires Touched(w, rows, assignments, now) && (success ==> UpdatedTo(w, rows, ids, assignments, now))
    requires if usedIndex then exists c :: 0 <= c && Indexable(w, c) else ids == order
    ensures now.Keys == rows.Keys
    ensures forall id :: id in rows && !Satisfied(w, rows[id]) ==> now[id] == rows[id]
    ensures forall id :: id in rows ==> Partly(w.columns, rows[id], assignments, now[id])
    ensures success && Covers(w, rows, ids) ==>
              forall id :: id in rows && Satisfied(w, rows[id]) ==> RowAfter(w.columns, rows[id], assignments, now[id])
    ensures success && (now != rows || (Covers(w, rows, ids) && exists id :: id in rows && Satisfied(w, rows[id]))) ==>
              forall a :: a in assignments ==> NamesColumn(w.columns, a.column)
    ensures (exists id :: id in rows && Accepts(w, rows[id]).None?) ==> !AllEvaluable(w, rows)
  {
    forall id | id in rows
      ensures Accepts(w, rows[id]) == if Evaluable(w, rows[id]) then Some(Satisfied(w, rows[id])) else None
    {
      AcceptsMeaning(w, rows[id]);
    }
    if usedIndex {
      forall id | id in rows && Satisfied(w, rows[id]) ensures Evaluable(w, rows[id]) {
        SingleEvaluable(w, rows[id]);
      }
    }
    hide Accepts, Satisfied, Evaluable, RowAfter, Partly, NamesColumn, NoDuplicates;
    if success && Covers(w, rows, ids) {
      forall id | id in rows && Satisfied(w, rows[id])
        ensures id in ids && RowAfter(w.columns, rows[id], assignments, now[id])
      {
        assert !usedIndex ==> id in ids;
        assert Selected(w, rows, id);
      }
    }
    if success && now != rows {
      var id :| id in rows && now[id] != rows[id];
      assert id in ids;
    }
  }

  lemma {:induction false} DistinctIds(ids: seq<RowId>, all: set<RowId>)
    requires NoDuplicates(ids) && forall id :: id in ids ==> id in all
    ensures |ids| <= |all|
  {
    if ids != [] {
      var n := |ids| - 1;
      assert ids == ids[..n] + [ids[n]];
      DistinctIds(ids[..n], all - {ids[n]});
    }
  }

  ghost function Times(n: nat, m: nat): nat {
    n * m
  }

  lemma TimesGrows(n: nat, less: nat, m: nat)
    requires less <= n
    ensures Times(less, m) <= Times(n, m)
  {
    TreeSize.Scaled(n, less, m);
  }

  lemma TimesLess(n: nat, m: nat) returns (less: nat, rest: nat)
    requires n > 0
    ensures less == n - 1 && rest == Times(less, m) && Times(n, m) == m + rest
  {
    less, rest := n - 1, Times(n - 1, m);
    TreeSize.OneMore(n, m);
  }
}
