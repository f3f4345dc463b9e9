/** A table with its rows, their order and the indexes attached to its columns. */
module TableStorage {
  import opened IndexTypes
  import opened Values
  import opened NodeCodec
  import opened DiskStorage
  import opened BStarPlusTree
  import opened TreeFacts
  import TreeSearch
  import TreeSteps

  type Row = seq<Value>

  datatype TableError =
    | ArityMismatch
    | NullNotAllowed(column: nat)
    | TypeMismatch(column: nat)
    | DuplicateValue(column: nat)
    | RowNotFound
    | ColumnOutOfRange
    | TooManyValues
    | MissingValue(column: nat)
    | IndexRejected
    | NoIndex

  datatype Result<T> = Done(value: T) | Failed(error: TableError)

  // ----- rows -----

  /** The row has a value of the right type in each column, and NULL only where NULL may be. */
  ghost predicate Fits(columns: seq<ColumnDef>, row: Row) {
    && |row| == |columns|
    && forall i :: 0 <= i < |row| ==> FitsColumn(columns[i], row[i])
  }

  ghost predicate FitsColumn(column: ColumnDef, v: Value) {
    if v.Null? then !column.notNull && !column.indexed else Matches(v, column.kind)
  }

  /** Another row has this value in the column. */
  ghost predicate Taken(rows: map<RowId, Row>, c: nat, v: Value, exclude: Option<RowId>)
    requires forall id :: id in rows ==> c < |rows[id]|
  {
    exists id :: id in rows && Some(id) != exclude && rows[id][c] == v
  }

  ghost predicate Ascending(ids: seq<RowId>) {
    forall i, j :: 0 <= i < j < |ids| ==> ids[i] < ids[j]
  }

  /** The rows fit their columns, and no indexed column has a value twice. */
  ghost predicate RowsOk(columns: seq<ColumnDef>, rows: map<RowId, Row>) {
    && (forall id :: id in rows ==> Fits(columns, rows[id]))
    && forall c :: 0 <= c < |columns| && columns[c].indexed ==> Unique(rows, c)
  }

  ghost predicate Unique(rows: map<RowId, Row>, c: nat)
    requires forall id :: id in rows ==> c < |rows[id]|
  {
    forall a, b :: a in rows && b in rows && rows[a][c] == rows[b][c] ==> a == b
  }

  /** The order lists the ids of the rows, ascending and below the next free id. */
  ghost predicate OrderOk(rows: map<RowId, Row>, order: seq<RowId>, nextId: nat) {
    && Ascending(order) && (forall id :: id in order <==> id in rows) && forall id :: id in order ==> id < nextId
  }

  /** The index of a column: exactly the map from the values of the column to the ids of their rows. */
  ghost predicate Mirrors(m: map<IndexKey, RowId>, rows: map<RowId, Row>, c: nat) {
    && (forall id :: id in rows ==>
          c < |rows[id]| && !rows[id][c].Null? && KeyOf(rows[id][c]) in m && m[KeyOf(rows[id][c])] == id)
    && (forall k :: k in m ==> m[k] in rows && c < |rows[m[k]]| && !rows[m[k]][c].Null? && KeyOf(rows[m[k]][c]) == k)
  }

  lemma MirrorFind(m: map<IndexKey, RowId>, rows: map<RowId, Row>, c: nat, v: Value, exclude: Option<RowId>)
    requires Mirrors(m, rows, c) && !v.Null?
    ensures Taken(rows, c, v, exclude) <==> KeyOf(v) in m && Some(m[KeyOf(v)]) != exclude
  {
    SameKey();
  }

  lemma SameKey()
    ensures forall a: Value, b: Value :: !a.Null? && !b.Null? && KeyOf(a) == KeyOf(b) ==> a == b
  {
  }

  lemma MirrorInsert(m: map<IndexKey, RowId>, rows: map<RowId, Row>, c: nat, id: RowId, row: Row)
    requires Mirrors(m, rows, c) && id !in rows && c < |row| && !row[c].Null? && !Taken(rows, c, row[c], None)
    ensures KeyOf(row[c]) !in m && Mirrors(m[KeyOf(row[c]) := id], rows[id := row], c)
  {
    MirrorFind(m, rows, c, row[c], None);
  }

  lemma MirrorErase(m: map<IndexKey, RowId>, rows: map<RowId, Row>, c: nat, id: RowId)
    requires Mirrors(m, rows, c) && id in rows
    ensures KeyOf(rows[id][c]) in m && Mirrors(m - {KeyOf(rows[id][c])}, rows - {id}, c)
  {
  }

  lemma MirrorUpdate(m: map<IndexKey, RowId>, rows: map<RowId, Row>, c: nat, id: RowId, v: Value)
    requires Mirrors(m, rows, c) && id in rows && !v.Null? && !Taken(rows, c, v, Some(id))
    ensures var k, k' := KeyOf(rows[id][c]), KeyOf(v);
            && k in m && k' !in m - {k} && Mirrors((m - {k})[k' := id], rows[id := rows[id][c := v]], c)
  {
    MirrorFind(m, rows, c, v, Some(id));
    MirrorErase(m, rows, c, id);
    var row := rows[id][c := v];
    var rest := rows - {id};
    assert !Taken(rest, c, v, None);
    MirrorInsert(m - {KeyOf(rows[id][c])}, rest, c, id, row);
    assert rest[id := row] == rows[id := row];
  }

  /** An index that mirrors the rows has as many entries. */
  lemma MirrorSize(m: map<IndexKey, RowId>, rows: map<RowId, Row>, c: nat)
    requires Mirrors(m, rows, c)
    ensures |m| == |rows|
    decreases |rows|
  {
    if id :| id in rows {
      var key := KeyOf(rows[id][c]);
      MirrorErase(m, rows, c, id);
      assert (m - {key}).Keys == m.Keys - {key} && (rows - {id}).Keys == rows.Keys - {id};
      MirrorSize(m - {key}, rows - {id}, c);
    } else {
      assert m.Keys == {} && rows.Keys == {};
    }
  }

  /** The value can be a key in the index of its column: a string has at most 256 bytes and no NUL. */
  ghost predicate FitsIndex(column: ColumnDef, v: Value) {
    v.Null? || KeyEncodable(KeyOf(v), KindFor(column.kind))
  }

  /** A change in another column. */
  lemma MirrorElsewhere(m: map<IndexKey, RowId>, rows: map<RowId, Row>, c: nat, id: RowId, d: nat, v: Value)
    requires Mirrors(m, rows, c) && id in rows && c != d && d < |rows[id]|
    ensures Mirrors(m, rows[id := rows[id][d := v]], c)
  {
  }

  /** The row has this fault in column c. */
  ghost predicate Complaint(columns: seq<ColumnDef>, rows: map<RowId, Row>, row: Row, existing: Option<RowId>,
                            e: TableError, c: nat)
    requires RowsOk(columns, rows) && c < |columns| == |row|
  {
    match e
    case NullNotAllowed(d) => d == c && row[c].Null? && (columns[c].notNull || columns[c].indexed)
    case TypeMismatch(d) => d == c && !Matches(row[c], columns[c].kind)
    case DuplicateValue(d) => d == c && columns[c].indexed && Taken(rows, c, row[c], existing)
    case _ => false
  }

  ghost predicate Acceptable(columns: seq<ColumnDef>, rows: map<RowId, Row>, row: Row, existing: Option<RowId>, c: nat)
    requires RowsOk(columns, rows) && c < |columns| == |row|
  {
    FitsColumn(columns[c], row[c]) && (columns[c].indexed ==> !Taken(rows, c, row[c], existing))
  }

  /** What validation says about a row that is to be stored in place of existing: no fault, or the
      fault in the first column that has one. */
  ghost predicate Verdict(columns: seq<ColumnDef>, rows: map<RowId, Row>, row: Row, existing: Option<RowId>,
                          r: Option<TableError>) {
    && RowsOk(columns, rows)
    && if |row| != |columns| then r == Some(ArityMismatch)
       else if r.None? then forall c :: 0 <= c < |columns| ==> Acceptable(columns, rows, row, existing, c)
       else exists c :: 0 <= c < |columns| && Complaint(columns, rows, row, existing, r.value, c)
                        && forall d :: 0 <= d < c ==> Acceptable(columns, rows, row, existing, d)
  }

  /** No fault in column c: NULL only where it may be, a value of the type of the column, and in an indexed
      column none that another row has. */
  ghost predicate Faultless(columns: seq<ColumnDef>, rows: map<RowId, Row>, row: Row, existing: Option<RowId>, c: nat)
    requires c < |columns| == |row| && forall id :: id in rows ==> |rows[id]| == |columns|
  {
    && (row[c] == Null ==> !columns[c].notNull && !columns[c].indexed)
    && (row[c].Int? ==> columns[c].kind == IntType) && (row[c].Str? ==> columns[c].kind == StrType)
    && (columns[c].indexed ==> forall id :: id in rows && Some(id) != existing ==> rows[id][c] != row[c])
  }

  /** The fault in column c, if there is one. */
  ghost predicate Fault(columns: seq<ColumnDef>, rows: map<RowId, Row>, row: Row, existing: Option<RowId>, c: nat,
                        e: TableError)
    requires c < |columns| == |row| && forall id :: id in rows ==> |rows[id]| == |columns|
  {
    if row[c] == Null then e == NullNotAllowed(c) && (columns[c].notNull || columns[c].indexed)
    else if row[c].Int? <==> columns[c].kind == StrType then e == TypeMismatch(c)
    else
      && e == DuplicateValue(c) && columns[c].indexed
      && exists id :: id in rows && Some(id) != existing && rows[id][c] == row[c]
  }

  lemma ColumnMeaning(columns: seq<ColumnDef>, rows: map<RowId, Row>, row: Row, existing: Option<RowId>, c: nat)
    requires RowsOk(columns, rows) && c < |columns| == |row|
    ensures Acceptable(columns, rows, row, existing, c) <==> Faultless(columns, rows, row, existing, c)
    ensures forall e :: Complaint(columns, rows, row, existing, e, c) <==> Fault(columns, rows, row, existing, c, e)
  {
    forall id | id in rows ensures FitsColumn(columns[c], rows[id][c]) {
      assert Fits(columns, rows[id]);
    }
  }

  /** The verdict in terms of the fields of columns and rows: the fault of the first column that has one. */
  lemma VerdictMeaning(columns: seq<ColumnDef>, rows: map<RowId, Row>, row: Row, existing: Option<RowId>)
    requires RowsOk(columns, rows)
    ensures forall id :: id in rows ==> |rows[id]| == |columns|
    ensures Verdict(columns, rows, row, existing, None) <==>
              |row| == |columns| && forall c :: 0 <= c < |columns| ==> Faultless(columns, rows, row, existing, c)
    ensures forall e :: Verdict(columns, rows, row, existing, Some(e)) <==>
              if |row| != |columns| then e == ArityMismatch
              else
                exists c: nat ::
                  && c < |columns| && Fault(columns, rows, row, existing, c, e)
                  && forall d :: 0 <= d < c ==> Faultless(columns, rows, row, existing, d)
  {
    if |row| == |columns| {
      forall c | 0 <= c < |columns|
        ensures Acceptable(columns, rows, row, existing, c) <==> Faultless(columns, rows, row, existing, c)
        ensures forall e :: Complaint(columns, rows, row, existing, e, c) <==> Fault(columns, rows, row, existing, c, e)
      {
        ColumnMeaning(columns, rows, row, existing, c);
      }
      hide Acceptable, Faultless, Complaint, Fault, RowsOk;
      forall e
        ensures Verdict(columns, rows, row, existing, Some(e)) <==>
                  exists c: nat ::
                    && c < |columns| && Fault(columns, rows, row, existing, c, e)
                    && forall d :: 0 <= d < c ==> Faultless(columns, rows, row, existing, d)
      {
        if Verdict(columns, rows, row, existing, Some(e)) {
          var c :| 0 <= c < |columns| && Complaint(columns, rows, row, existing, e, c)
                   && forall d :: 0 <= d < c ==> Acceptable(columns, rows, row, existing, d);
          assert Fault(columns, rows, row, existing, c, e);
        }
        if c: nat :| c < |columns| && Fault(columns, rows, row, existing, c, e)
                     && forall d :: 0 <= d < c ==> Faultless(columns, rows, row, existing, d)
        {
          assert Complaint(columns, rows, row, existing, e, c);
        }
      }
    }
  }

  /** An accepted row can be stored under its id. */
  lemma AcceptedKeeps(columns: seq<ColumnDef>, rows: map<RowId, Row>, row: Row, id: RowId)
    requires Verdict(columns, rows, row, if id in rows then Some(id) else None, None)
    ensures RowsOk(columns, rows[id := row])
  {
    var existing := if id in rows then Some(id) else None;
    var rows' := rows[id := row];
    forall c | 0 <= c < |columns| && columns[c].indexed ensures Unique(rows', c) {
      assert Acceptable(columns, rows, row, existing, c);
      assert !Taken(rows, c, row[c], existing);
    }
    assert Fits(columns, row) by {
      forall c | 0 <= c < |row| ensures FitsColumn(columns[c], row[c]) {
        assert Acceptable(columns, rows, row, existing, c);
      }
    }
  }

  /** An accepted row can be entered into the index of an indexed column. */
  lemma AcceptedEnters(columns: seq<ColumnDef>, rows: map<RowId, Row>, row: Row, id: RowId, c: nat,
                       m: map<IndexKey, RowId>)
    requires Verdict(columns, rows, row, None, None) && id !in rows && Mirrors(m, rows, c)
    requires c < |columns| && columns[c].indexed
    ensures c < |row| && !row[c].Null? && Matches(row[c], columns[c].kind) && KeyOf(row[c]) !in m
    ensures Mirrors(m[KeyOf(row[c]) := id], rows[id := row], c)
  {
    assert Acceptable(columns, rows, row, None, c);
    MirrorInsert(m, rows, c, id, row);
  }

  lemma AcceptedChanges(columns: seq<ColumnDef>, rows: map<RowId, Row>, id: RowId, c: nat, v: Value,
                        m: map<IndexKey, RowId>)
    requires id in rows && c < |rows[id]| && Verdict(columns, rows, rows[id][c := v], Some(id), None)
             && Mirrors(m, rows, c)
    requires c < |columns| && columns[c].indexed
    ensures !rows[id][c].Null? && Matches(rows[id][c], columns[c].kind) && !v.Null? && Matches(v, columns[c].kind)
    ensures var k, k' := KeyOf(rows[id][c]), KeyOf(v);
            k in m && k' !in m - {k} && Mirrors((m - {k})[k' := id], rows[id := rows[id][c := v]], c)
  {
    assert Acceptable(columns, rows, rows[id][c := v], Some(id), c);
    assert Fits(columns, rows[id]);
    assert FitsColumn(columns[c], rows[id][c]);
    MirrorUpdate(m, rows, c, id, v);
  }

  lemma StoredErases(columns: seq<ColumnDef>, rows: map<RowId, Row>, id: RowId, c: nat, m: map<IndexKey, RowId>)
    requires RowsOk(columns, rows) && id in rows && Mirrors(m, rows, c) && c < |columns| && columns[c].indexed
    ensures c < |rows[id]| && !rows[id][c].Null? && Matches(rows[id][c], columns[c].kind)
    ensures KeyOf(rows[id][c]) in m && Mirrors(m - {KeyOf(rows[id][c])}, rows - {id}, c)
  {
    assert FitsColumn(columns[c], rows[id][c]);
    MirrorErase(m, rows, c, id);
  }

  lemma OrderGrows(rows: map<RowId, Row>, order: seq<RowId>, nextId: nat, row: Row)
    requires OrderOk(rows, order, nextId) && nextId < TWO_64
    ensures OrderOk(rows[nextId := row], order + [nextId], nextId + 1) && nextId !in rows
  {
    assert forall i :: 0 <= i < |order| ==> order[i] in order;
  }

  lemma ErasedKeeps(columns: seq<ColumnDef>, rows: map<RowId, Row>, id: RowId)
    requires RowsOk(columns, rows)
    ensures RowsOk(columns, rows - {id})
  {
  }

  lemma OrderShrinks(rows: map<RowId, Row>, order: seq<RowId>, nextId: nat, i: nat)
    requires OrderOk(rows, order, nextId) && i < |order|
    ensures OrderOk(rows - {order[i]}, order[..i] + order[i + 1..], nextId)
  {
    var order' := order[..i] + order[i + 1..];
    assert forall j :: 0 <= j < |order'| ==> order'[j] == order[if j < i then j else j + 1];
    forall id ensures id in order' <==> id in rows - {order[i]} {
      if id in order && id != order[i] {
        var j :| 0 <= j < |order| && order[j] == id;
        assert order'[if j < i then j else j - 1] == id;
      }
    }
  }

  lemma OrderSame(rows: map<RowId, Row>, order: seq<RowId>, nextId: nat, id: RowId, row: Row)
    requires OrderOk(rows, order, nextId) && id in rows
    ensures OrderOk(rows[id := row], order, nextId)
  {
  }

  /** The rows with these ids. */
  ghost function Those(rows: map<RowId, Row>, ids: seq<RowId>): map<RowId, Row> {
    map id | id in ids && id in rows :: rows[id]
  }

  // ----- filling an index -----

  /** All rows have this column. */
  ghost predicate HasColumn(rows: map<RowId, Row>, order: seq<RowId>, c: nat) {
    (forall id :: id in order ==> id in rows) && forall id :: id in rows ==> c < |rows[id]|
  }

  /** Exactly the map of the rows from some row on. */
  ghost predicate MirrorsRest(m: map<IndexKey, RowId>, rows: map<RowId, Row>, order: seq<RowId>, c: nat) {
    exists i :: 0 <= i <= |order| && Mirrors(m, Those(rows, order[i..]), c)
  }

  /** The values of a column, in the order of the rows. */
  ghost function ColumnValues(rows: map<RowId, Row>, order: seq<RowId>, c: nat): (vs: seq<Value>)
    requires HasColumn(rows, order, c)
    ensures |vs| == |order| && forall i :: 0 <= i < |vs| ==> vs[i] == rows[order[i]][c]
  {
    seq(|order|, i requires 0 <= i < |order| => rows[order[i]][c])
  }

  /** An index that has held m0 cannot take the value at position i after those before it. */
  ghost predicate Blocked(m0: map<IndexKey, RowId>, kind: KeyKind, vs: seq<Value>, i: nat)
    requires i < |vs|
  {
    vs[i].Null? || !KeyEncodable(KeyOf(vs[i]), kind) || KeyOf(vs[i]) in m0 || vs[i] in vs[..i]
  }

  ghost predicate NoneBlocked(m0: map<IndexKey, RowId>, kind: KeyKind, vs: seq<Value>, n: nat)
    requires n <= |vs|
  {
    forall j :: 0 <= j < n ==> !Blocked(m0, kind, vs, j)
  }

  lemma NoneBlockedUpTo(m0: map<IndexKey, RowId>, kind: KeyKind, vs: seq<Value>, n: nat)
    requires n <= |vs| && NoneBlocked(m0, kind, vs, n) && (n < |vs| ==> Blocked(m0, kind, vs, n))
    ensures NoneBlocked(m0, kind, vs, |vs|) <==> n == |vs|
  {
    hide Blocked;
  }

  lemma EncodableKind(key: IndexKey, kind: KeyKind)
    ensures KeyEncodable(key, kind) ==> KeyMatchesKind(key, kind)
  {
  }

  lemma ColumnThere(columns: seq<ColumnDef>, rows: map<RowId, Row>, order: seq<RowId>, nextId: nat, c: nat)
    requires RowsOk(columns, rows) && OrderOk(rows, order, nextId) && c < |columns|
    ensures HasColumn(rows, order, c)
  {
  }

  /** An indexed column has no NULL and no value twice. */
  lemma ColumnDistinct(columns: seq<ColumnDef>, rows: map<RowId, Row>, order: seq<RowId>, nextId: nat, c: nat)
    requires RowsOk(columns, rows) && OrderOk(rows, order, nextId) && c < |columns| && columns[c].indexed
    ensures HasColumn(rows, order, c)
    ensures forall j :: 0 <= j < |order| ==> !rows[order[j]][c].Null?
    ensures forall j, j' :: 0 <= j < j' < |order| ==> rows[order[j]][c] != rows[order[j']][c]
  {
    assert Unique(rows, c);
    forall id | id in rows ensures !rows[id][c].Null? {
      assert FitsColumn(columns[c], rows[id][c]);
    }
    forall j, j' | 0 <= j < j' < |order| ensures rows[order[j]][c] != rows[order[j']][c] {
      assert order[j] < order[j'] && order[j] in order && order[j'] in order;
    }
  }

  lemma OrderAscends(rows: map<RowId, Row>, order: seq<RowId>, nextId: nat)
    requires OrderOk(rows, order, nextId)
    ensures Ascending(order)
  {
  }

  /** The map m0 with the first n values as further keys. */
  ghost predicate Extends(m: map<IndexKey, RowId>, m0: map<IndexKey, RowId>, vs: seq<Value>, ids: seq<RowId>, n: nat)
    requires n <= |vs| == |ids|
  {
    && (forall k :: k in m0 ==> k in m && m[k] == m0[k])
    && (forall j :: 0 <= j < n ==>
          !vs[j].Null? && KeyOf(vs[j]) !in m0 && KeyOf(vs[j]) in m && m[KeyOf(vs[j])] == ids[j])
    && forall k :: k in m && k !in m0 ==> exists j :: 0 <= j < n && !vs[j].Null? && KeyOf(vs[j]) == k
  }

  /** Exactly the map from the values from position i on to their ids. */
  ghost predicate MapsFrom(m: map<IndexKey, RowId>, vs: seq<Value>, ids: seq<RowId>, i: nat)
    requires i <= |vs| == |ids|
  {
    && (forall j :: i <= j < |vs| ==> !vs[j].Null? && KeyOf(vs[j]) in m && m[KeyOf(vs[j])] == ids[j])
    && forall k :: k in m ==> exists j :: i <= j < |vs| && !vs[j].Null? && KeyOf(vs[j]) == k && m[k] == ids[j]
  }

  lemma ExtendsNothing(m: map<IndexKey, RowId>, vs: seq<Value>, ids: seq<RowId>)
    requires |vs| == |ids|
    ensures Extends(m, m, vs, ids, 0)
  {
  }

  lemma TakenBefore(m: map<IndexKey, RowId>, m0: map<IndexKey, RowId>, vs: seq<Value>, ids: seq<RowId>, i: nat)
    requires i < |vs| == |ids| && Extends(m, m0, vs, ids, i) && !vs[i].Null?
    ensures KeyOf(vs[i]) in m <==> KeyOf(vs[i]) in m0 || vs[i] in vs[..i]
  {
    SameKey();
    if vs[i] in vs[..i] {
      var j :| 0 <= j < i && vs[..i][j] == vs[i];
      assert vs[j] == vs[i];
    }
    if KeyOf(vs[i]) in m && KeyOf(vs[i]) !in m0 {
      var j :| 0 <= j < i && !vs[j].Null? && KeyOf(vs[j]) == KeyOf(vs[i]);
      assert vs[..i][j] == vs[i];
    }
  }

  lemma ExtendsOn(m: map<IndexKey, RowId>, m0: map<IndexKey, RowId>, vs: seq<Value>, ids: seq<RowId>, i: nat)
    requires i < |vs| == |ids| && Extends(m, m0, vs, ids, i) && !vs[i].Null? && KeyOf(vs[i]) !in m
    ensures Extends(m[KeyOf(vs[i]) := ids[i]], m0, vs, ids, i + 1)
  {
    var m' := m[KeyOf(vs[i]) := ids[i]];
    forall k | k in m' && k !in m0 ensures exists j :: 0 <= j < i + 1 && !vs[j].Null? && KeyOf(vs[j]) == k {
      if k in m {
        var j :| 0 <= j < i && !vs[j].Null? && KeyOf(vs[j]) == k;
      } else {
        assert k == KeyOf(vs[i]);
      }
    }
  }

  /** The index mirrors all rows exactly if it has held the rows that have not been entered. */
  lemma FilledFrom(m: map<IndexKey, RowId>, m0: map<IndexKey, RowId>, vs: seq<Value>, ids: seq<RowId>, i: nat)
    requires i <= |vs| == |ids| && Extends(m, m0, vs, ids, i) && Ascending(ids)
    ensures MapsFrom(m, vs, ids, 0) <==> MapsFrom(m0, vs, ids, i)
  {
    hide MapsFrom, Extends, Ascending;
    if MapsFrom(m, vs, ids, 0) {
      RestHeld(m, m0, vs, ids, i);
    }
    if MapsFrom(m0, vs, ids, i) {
      AllHeld(m, m0, vs, ids, i);
    }
  }

  lemma RestHeld(m: map<IndexKey, RowId>, m0: map<IndexKey, RowId>, vs: seq<Value>, ids: seq<RowId>, i: nat)
    requires i <= |vs| == |ids| && Extends(m, m0, vs, ids, i) && Ascending(ids) && MapsFrom(m, vs, ids, 0)
    ensures MapsFrom(m0, vs, ids, i)
  {
    forall j | i <= j < |vs| ensures KeyOf(vs[j]) in m0 {
      assert forall j' :: 0 <= j' < i ==> ids[j'] < ids[j];
    }
    forall k | k in m0 ensures exists j :: i <= j < |vs| && !vs[j].Null? && KeyOf(vs[j]) == k && m0[k] == ids[j] {
      var j :| 0 <= j < |vs| && !vs[j].Null? && KeyOf(vs[j]) == k && m[k] == ids[j];
      assert j >= i;
    }
  }

  lemma AllHeld(m: map<IndexKey, RowId>, m0: map<IndexKey, RowId>, vs: seq<Value>, ids: seq<RowId>, i: nat)
    requires i <= |vs| == |ids| && Extends(m, m0, vs, ids, i) && MapsFrom(m0, vs, ids, i)
    ensures MapsFrom(m, vs, ids, 0)
  {
    forall k | k in m ensures exists j :: 0 <= j < |vs| && !vs[j].Null? && KeyOf(vs[j]) == k && m[k] == ids[j] {
      if k in m0 {
        var j :| i <= j < |vs| && !vs[j].Null? && KeyOf(vs[j]) == k && m0[k] == ids[j];
      } else {
        var j :| 0 <= j < i && !vs[j].Null? && KeyOf(vs[j]) == k;
      }
    }
  }

  /** Filling stops at the first value that the index has held. */
  lemma StopsAt(m0: map<IndexKey, RowId>, kind: KeyKind, vs: seq<Value>, ids: seq<RowId>, i: nat, held: nat)
    requires i <= |vs| == |ids| && held <= |vs| && MapsFrom(m0, vs, ids, held)
    requires (forall j :: 0 <= j < i ==> !Blocked(m0, kind, vs, j)) && (i < |vs| ==> Blocked(m0, kind, vs, i))
    requires forall j :: 0 <= j < |vs| ==> !vs[j].Null? && KeyEncodable(KeyOf(vs[j]), kind)
    requires forall j, j' :: 0 <= j < j' < |vs| ==> vs[j] != vs[j']
    ensures i == held
  {
    hide KeyEncodable;
    SameKey();
    assert held < |vs| ==> Blocked(m0, kind, vs, held);
    if i < |vs| {
      assert KeyOf(vs[i]) in m0;
      var j :| held <= j < |vs| && !vs[j].Null? && KeyOf(vs[j]) == KeyOf(vs[i]) && m0[KeyOf(vs[i])] == ids[j];
      assert vs[j] == vs[i];
    }
  }

  /** A map of values in the order of the rows mirrors the rows. */
  lemma MapsRows(m: map<IndexKey, RowId>, rows: map<RowId, Row>, order: seq<RowId>, nextId: nat, c: nat, i: nat)
    requires OrderOk(rows, order, nextId) && i <= |order| && HasColumn(rows, order, c)
    ensures MapsFrom(m, ColumnValues(rows, order, c), order, i) <==> Mirrors(m, Those(rows, order[i..]), c)
    ensures Those(rows, order[0..]) == rows
  {
    TailRows(rows, order, nextId, i);
    hide OrderOk, Those, MapsFrom, Mirrors;
    if MapsFrom(m, ColumnValues(rows, order, c), order, i) {
      MapsMirrors(m, rows, order, c, i, Those(rows, order[i..]));
    }
    if Mirrors(m, Those(rows, order[i..]), c) {
      MirrorsMaps(m, rows, order, c, i, Those(rows, order[i..]));
    }
  }

  /** These are the rows from position i of the order on. */
  ghost predicate IsTail(those: map<RowId, Row>, rows: map<RowId, Row>, order: seq<RowId>, i: nat) {
    && (forall id :: id in those ==>
          id in rows && those[id] == rows[id] && exists j :: i <= j < |order| && order[j] == id)
    && forall j :: i <= j < |order| ==> order[j] in those
  }

  lemma MapsMirrors(m: map<IndexKey, RowId>, rows: map<RowId, Row>, order: seq<RowId>, c: nat, i: nat,
                    those: map<RowId, Row>)
    requires HasColumn(rows, order, c) && i <= |order| && IsTail(those, rows, order, i)
    requires MapsFrom(m, ColumnValues(rows, order, c), order, i)
    ensures Mirrors(m, those, c)
  {
    var vs := ColumnValues(rows, order, c);
    forall id | id in those
      ensures c < |those[id]| && !those[id][c].Null? && KeyOf(those[id][c]) in m && m[KeyOf(those[id][c])] == id
    {
      var j :| i <= j < |order| && order[j] == id;
      assert vs[j] == those[id][c];
    }
    forall k | k in m
      ensures m[k] in those && c < |those[m[k]]| && !those[m[k]][c].Null? && KeyOf(those[m[k]][c]) == k
    {
      var j :| i <= j < |vs| && !vs[j].Null? && KeyOf(vs[j]) == k && m[k] == order[j];
    }
  }

  lemma MirrorsMaps(m: map<IndexKey, RowId>, rows: map<RowId, Row>, order: seq<RowId>, c: nat, i: nat,
                    those: map<RowId, Row>)
    requires HasColumn(rows, order, c) && i <= |order| && IsTail(those, rows, order, i) && Mirrors(m, those, c)
    ensures MapsFrom(m, ColumnValues(rows, order, c), order, i)
  {
    var vs := ColumnValues(rows, order, c);
    forall j | i <= j < |vs| ensures !vs[j].Null? && KeyOf(vs[j]) in m && m[KeyOf(vs[j])] == order[j] {
      assert order[j] in those;
    }
    forall k | k in m ensures exists j :: i <= j < |vs| && !vs[j].Null? && KeyOf(vs[j]) == k && m[k] == order[j] {
      var j :| i <= j < |order| && order[j] == m[k];
    }
  }

  /** The rows from position i of the order on. */
  lemma TailRows(rows: map<RowId, Row>, order: seq<RowId>, nextId: nat, i: nat)
    requires OrderOk(rows, order, nextId) && i <= |order|
    ensures Those(rows, order[0..]) == rows
    ensures IsTail(Those(rows, order[i..]), rows, order, i)
  {
    var tail := order[i..];
    assert order[0..] == order;
    forall j | i <= j < |order| ensures order[j] in tail {
      assert tail[j - i] == order[j];
    }
    forall id | id in tail ensures exists j :: i <= j < |order| && order[j] == id {
      var j :| 0 <= j < |tail| && tail[j] == id;
      assert order[i + j] == id;
    }
  }

  lemma StoredFits(columns: seq<ColumnDef>, rows: map<RowId, Row>, id: RowId)
    requires RowsOk(columns, rows) && id in rows
    ensures Fits(columns, rows[id]) && |rows[id]| == |columns|
  {
  }

  /** The order is as before, but without id. */
  ghost predicate Without(order: seq<RowId>, id: RowId, order': seq<RowId>) {
    if id in order then exists i :: 0 <= i < |order| && order[i] == id && order' == order[..i] + order[i + 1..]
    else order' == order
  }

  lemma NotListed(rows: map<RowId, Row>, order: seq<RowId>, nextId: nat, id: RowId)
    requires OrderOk(rows, order, nextId) && id !in rows
    ensures id !in order && rows - {id} == rows
  {
  }

  lemma Listed(rows: map<RowId, Row>, order: seq<RowId>, nextId: nat, id: RowId)
    requires OrderOk(rows, order, nextId) && id in rows
    ensures id in order
    ensures var i := TreeSteps.IndexOf(order, id);
            i < |order| && order[i] == id && OrderOk(rows - {id}, order[..i] + order[i + 1..], nextId)
  {
    var i := TreeSteps.IndexOf(order, id);
    OrderShrinks(rows, order, nextId, i);
  }

  // ----- rows from partial values -----

  /** No value, no default, and NULL is not allowed. */
  predicate MissingAt(columns: seq<ColumnDef>, values: seq<Option<Value>>, c: nat)
    requires c < |columns|
  {
    !(c < |values| && values[c].Some?) && columns[c].defaultValue.None? && columns[c].notNull
  }

  function Completed(columns: seq<ColumnDef>, values: seq<Option<Value>>): (row: Row)
    ensures |row| == |columns|
  {
    seq(|columns|, i requires 0 <= i < |columns| =>
      if i < |values| && values[i].Some? then values[i].value else columns[i].defaultValue.GetOr(Null))
  }

  /** Validation raises no other complaints than its own, and raises one or none. */
  lemma VerdictKinds(columns: seq<ColumnDef>, rows: map<RowId, Row>, row: Row, existing: Option<RowId>,
                     r: Option<TableError>)
    ensures Verdict(columns, rows, row, existing, r) && r.Some? ==>
              !r.value.MissingValue? && r.value != IndexRejected && r.value != TooManyValues
                && !Verdict(columns, rows, row, existing, None)
  {
    if Verdict(columns, rows, row, existing, r) && r.Some? && |row| == |columns| {
      var c :| 0 <= c < |columns| && Complaint(columns, rows, row, existing, r.value, c)
               && forall d :: 0 <= d < c ==> Acceptable(columns, rows, row, existing, d);
      assert !Acceptable(columns, rows, row, existing, c);
    }
  }

  lemma AcceptedColumn(columns: seq<ColumnDef>, rows: map<RowId, Row>, id: RowId, c: nat, v: Value)
    requires id in rows && c < |rows[id]| && Verdict(columns, rows, rows[id][c := v], Some(id), None)
    ensures c < |columns| && |rows[id]| == |columns|
  {
  }

  lemma OneFewer(m: map<IndexKey, RowId>, key: IndexKey)
    requires key in m
    ensures |m - {key}| + 1 == |m|
  {
    assert (m - {key}).Keys == m.Keys - {key};
  }

  /** All values that an index mirrors can be its keys. */
  lemma MirroredFits(index: BStarPlusIndex, rows: map<RowId, Row>, c: nat, columns: seq<ColumnDef>)
    requires index.Valid() && Mirrors(index.Model(), rows, c) && c < |columns| && index.kind == KindFor(columns[c].kind)
    ensures forall id :: id in rows ==> c < |rows[id]| && FitsIndex(columns[c], rows[id][c])
  {
    hide BStarPlusIndex.Valid, BStarPlusIndex.Model, BStarPlusIndex.Contents, KeyEncodable, KindFor;
    forall id | id in rows ensures c < |rows[id]| && FitsIndex(columns[c], rows[id][c]) {
      KeysAreWritable(index, KeyOf(rows[id][c]));
    }
  }

  lemma ModelOf(index: BStarPlusIndex)
    ensures index.Model() == TreeSearch.AsMap(index.Contents())
  {
  }

  /** Validation accepts a string of 257 bytes in an indexed column, which no index can take. */
  lemma LongStringAccepted(column: ColumnDef)
    requires column.kind.StrType?
    ensures var row := [Str(seq(257, _ => 97))];
            Verdict([column], map[], row, None, None) && !FitsIndex(column, row[0])
  {
  }

  // ----- the table -----

  class Table {
    const columns: seq<ColumnDef>
    var rows: map<RowId, Row>
    var order: seq<RowId>
    var indexes: map<nat, BStarPlusIndex>
    var nextId: nat

    /** The files of the indexes. */
    ghost function Disks(): set<DiskPageManager>
      reads this`indexes
    {
      set c | c in indexes :: indexes[c].disk
    }

    /** Rows, order and indexes belong together. */
    ghost predicate Valid()
      reads this, indexes.Values, Disks()
    {
      && RowsOk(columns, rows) && OrderOk(rows, order, nextId)
      && Attached() && Mirrored(rows)
    }

    /** Each index is exactly the map from the values of its column in these rows to their ids. */
    ghost predicate Mirrored(rs: map<RowId, Row>)
      reads this`indexes, indexes.Values, Disks()
    {
      forall c :: c in indexes ==> Mirrors(indexes[c].Model(), rs, c)
    }

    /** Each index is in order, has its own column, which is an indexed one, and that column's type. */
    ghost predicate Attached()
      reads this`indexes, indexes.Values, Disks()
    {
      Separate() && forall c :: c in indexes ==> AttachedAt(c)
    }

    ghost predicate AttachedAt(c: nat)
      requires c in indexes
      reads this`indexes, indexes[c], indexes[c].disk
    {
      c < |columns| && columns[c].indexed && indexes[c].Valid() && indexes[c].kind == KindFor(columns[c].kind)
    }

    /** The index of the column is in order and mirrors the rows. */
    ghost predicate Agrees(c: nat, rs: map<RowId, Row>)
      requires c in indexes
      reads this`indexes, indexes[c], indexes[c].disk
    {
      AttachedAt(c) && Mirrors(indexes[c].Model(), rs, c)
    }

    /** No two columns share an index or a file. */
    ghost predicate Separate()
      reads this`indexes
    {
      && (forall c :: c in indexes ==> indexes[c].disk in Disks())
      && forall c, d :: c in indexes && d in indexes && c != d ==>
           indexes[c] != indexes[d] && indexes[c].disk != indexes[d].disk
    }

    /** There are pages for n more entries in every index. */
    ghost predicate Room(n: nat)
      reads this`indexes, indexes.Values
    {
      forall c :: c in indexes ==> |indexes[c].nodes| + 64 * n <= MAX_PAGES
    }

    lemma RoomForLess(more: nat, less: nat)
      requires Room(more) && less <= more
      ensures Room(less)
    {
    }

    lemma RowsInOrder()
      requires Valid()
      ensures RowsOk(columns, rows) && OrderOk(rows, order, nextId)
    {
    }

    /** The indexes hold keys of their columns. */
    lemma IndexedValues(c: nat)
      requires Valid() && c in indexes
      ensures c < |columns| && forall id :: id in rows ==>
                c < |rows[id]| && !rows[id][c].Null? && FitsIndex(columns[c], rows[id][c])
    {
      hide RowsOk, OrderOk, FitsIndex, BStarPlusIndex.Valid, BStarPlusIndex.Model, KindFor;
      assert AttachedAt(c) && Mirrors(indexes[c].Model(), rows, c);
      MirroredFits(indexes[c], rows, c, columns);
    }

    lemma KeepsArity(id: RowId)
      requires Valid() && id in rows
      ensures |rows[id]| == |columns|
    {
    }

    constructor (cols: seq<ColumnDef>)
      ensures Valid() && columns == cols && rows == map[] && order == [] && indexes == map[] && nextId == 1
    {
      columns := cols;
      rows, order, indexes, nextId := map[], [], map[], 1;
    }

    /** Is the value in the column of a row other than exclude? Asked of the index if there is one. */
    method ValueExistsInColumn(column: nat, value: Value, exclude: Option<RowId>) returns (found: bool)
      requires Valid() && column < |columns| && !value.Null? && Matches(value, columns[column].kind)
      ensures found == Taken(rows, column, value, exclude)
    {
      if column in indexes {
        var index := indexes[column];
        KeyOfMatches(value, columns[column].kind);
        var r, path := index.Find(KeyOf(value));
        MirrorFind(index.Model(), rows, column, value, exclude);
        if r.value.None? {
          return false;
        }
        return exclude.None? || r.value.value != exclude.value;
      }
      var todo := rows.Keys;
      while todo != {}
        invariant todo <= rows.Keys
        invariant forall id :: id in rows && id !in todo && Some(id) != exclude ==> rows[id][column] != value
        decreases |todo|
      {
        var id :| id in todo;
        todo := todo - {id};
        if exclude == Some(id) {
          continue;
        }
        CompareIsKeyOrder(rows[id][column], value);
        if CompareValues(rows[id][column], value) == Some(0) {
          return true;
        }
      }
      found := false;
    }

    method Validate(row: Row, existing: Option<RowId>) returns (r: Option<TableError>)
      requires Valid()
      ensures Verdict(columns, rows, row, existing, r)
    {
      if |row| != |columns| {
        return Some(ArityMismatch);
      }
      var i := 0;
      while i < |columns|
        invariant i <= |columns|
        invariant forall c :: 0 <= c < i ==> Acceptable(columns, rows, row, existing, c)
      {
        var value := row[i];
        if value.Null? {
          if columns[i].notNull || columns[i].indexed {
            assert Complaint(columns, rows, row, existing, NullNotAllowed(i), i);
            return Some(NullNotAllowed(i));
          }
        } else {
          if !Matches(value, columns[i].kind) {
            assert Complaint(columns, rows, row, existing, TypeMismatch(i), i);
            return Some(TypeMismatch(i));
          }
          if columns[i].indexed {
            var taken := ValueExistsInColumn(i, value, existing);
            if taken {
              assert Complaint(columns, rows, row, existing, DuplicateValue(i), i);
              return Some(DuplicateValue(i));
            }
          }
        }
        i := i + 1;
      }
      r := None;
    }

    // ----- keeping the indexes up to date -----

    /** Every index has grown by at most n entries' worth of pages. */
    twostate predicate Grown(n: nat)
      reads this`indexes, indexes.Values
    {
      indexes == old(indexes) && forall c :: c in indexes ==> |indexes[c].nodes| <= |old(indexes[c].nodes)| + 64 * n
    }

    ghost function Sizes(): map<nat, nat>
      reads this`indexes, indexes.Values
    {
      map c | c in indexes :: |indexes[c].nodes|
    }

    ghost predicate Within(sizes: map<nat, nat>, more: nat)
      reads this`indexes, indexes.Values
    {
      forall c :: c in indexes ==> c in sizes && |indexes[c].nodes| <= sizes[c] + more
    }

    /** The indexes of the columns in done mirror the new rows, the others still the old ones. */
    ghost predicate Partly(done: set<nat>, rs: map<RowId, Row>, rs': map<RowId, Row>)
      reads this`indexes, indexes.Values, Disks()
    {
      Separate() && forall c :: c in indexes ==> Agrees(c, if c in done then rs' else rs)
    }

    lemma AllAgree(rs: map<RowId, Row>, rs': map<RowId, Row>)
      requires Attached() && Mirrored(rs)
      ensures Partly({}, rs, rs') && Within(Sizes(), 0)
      ensures forall c :: c in indexes ==> c in Sizes() && |indexes[c].nodes| == Sizes()[c]
    {
    }

    lemma RoomForOne()
      requires Room(1)
      ensures forall c :: c in indexes ==> |indexes[c].nodes| + 64 <= MAX_PAGES
    {
    }

    lemma WithinMeans(sizes: map<nat, nat>, more: nat)
      requires Within(sizes, more)
      ensures forall c :: c in indexes ==> c in sizes && |indexes[c].nodes| <= sizes[c] + more
    {
    }

    lemma WithinGrown(sizes: map<nat, nat>, less: nat, more: nat)
      requires Within(sizes, less) && less <= more
      ensures Within(sizes, more)
    {
    }

    lemma AgreeAll(rs: map<RowId, Row>, rs': map<RowId, Row>)
      requires Partly(indexes.Keys, rs, rs')
      ensures Attached() && Mirrored(rs')
    {
      forall c | c in indexes ensures AttachedAt(c) && Mirrors(indexes[c].Model(), rs', c) {
        assert Agrees(c, rs');
      }
    }

    /** The indexes can take the values of the row. */
    ghost predicate Storable(row: Row)
      reads this`indexes
    {
      forall c :: c in indexes && c < |row| && c < |columns| ==> FitsIndex(columns[c], row[c])
    }

    /** Agreement with the indexes needs values that the indexes can take. */
    lemma NoAgreement(c: nat, id: RowId)
      requires c in indexes && id in rows && c < |rows[id]| && c < |columns| && !FitsIndex(columns[c], rows[id][c])
      ensures !Valid()
    {
      hide BStarPlusIndex.Valid, BStarPlusIndex.Model, BStarPlusIndex.Contents, RowsOk, OrderOk, KeyEncodable;
      if Attached() && AttachedAt(c) && Mirrored(rows) {
        assert Mirrors(indexes[c].Model(), rows, c);
        KeysAreWritable(indexes[c], KeyOf(rows[id][c]));
        assert false;
      }
    }

    lemma NotStorable(id: RowId)
      requires id in rows && !Storable(rows[id])
      ensures !Valid()
    {
      hide Table.Valid, FitsIndex;
      var row := rows[id];
      var c :| c in indexes && c < |row| && c < |columns| && !FitsIndex(columns[c], row[c]);
      NoAgreement(c, id);
    }

    /** And it needs indexes with as many entries as there are rows. */
    lemma NoAgreementBySize(c: nat)
      requires c in indexes && indexes[c].size != |rows|
      ensures !Valid()
    {
      hide BStarPlusIndex.Valid, BStarPlusIndex.Model, BStarPlusIndex.Contents, RowsOk, OrderOk, Mirrors;
      if Attached() && AttachedAt(c) && Mirrored(rows) {
        MirrorSize(indexes[c].Model(), rows, c);
        ModelSize(indexes[c]);
        assert false;
      }
    }

    /** false is the exception of the first index that cannot take its value. */
    method NotifyIndexesInsert(id: RowId, row: Row, ghost rs: map<RowId, Row>) returns (ok: bool)
      requires Attached() && Mirrored(rs) && Room(1)
      requires Verdict(columns, rs, row, None, None) && id !in rs
      modifies indexes.Values, Disks()
      ensures ok == Storable(row) && Grown(1)
      ensures ok ==> Attached() && Mirrored(rs[id := row])
    {
      hide Table.Attached, Table.Mirrored, Table.Partly, Table.Room, Table.Sizes, Table.Within, Verdict, FitsIndex;
      ghost var rs', sizes := rs[id := row], Sizes();
      RoomForOne();
      AllAgree(rs, rs');
      WithinGrown(sizes, 0, 64);
      var done := {};
      while done != indexes.Keys
        invariant done <= indexes.Keys && Partly(done, rs, rs') && Within(sizes, 64)
        invariant forall c :: c in indexes && c !in done ==>
                    |indexes[c].nodes| + 64 <= MAX_PAGES && |indexes[c].nodes| == sizes[c]
        invariant forall c :: c in done && c < |row| && c < |columns| ==> FitsIndex(columns[c], row[c])
        decreases indexes.Keys - done
      {
        assert indexes.Keys - done != {};
        var c :| c in indexes.Keys - done;
        ok := EnterStep(c, id, row, rs, done, sizes);
        WithinMeans(sizes, 64);
        if !ok {
          return;
        }
        done := done + {c};
      }
      WithinMeans(sizes, 64);
      AgreeAll(rs, rs');
      ok := true;
    }

    method EnterStep(c: nat, id: RowId, row: Row, ghost rs: map<RowId, Row>, ghost done: set<nat>,
                     ghost sizes: map<nat, nat>)
      returns (ok: bool)
      requires Partly(done, rs, rs[id := row]) && Within(sizes, 64) && c in indexes && c !in done
      requires |indexes[c].nodes| + 64 <= MAX_PAGES && c in sizes && |indexes[c].nodes| == sizes[c]
      requires Verdict(columns, rs, row, None, None) && id !in rs
      modifies indexes[c], indexes[c].disk
      ensures c < |row| && c < |columns| && ok == FitsIndex(columns[c], row[c]) && Within(sizes, 64)
      ensures ok ==> Partly(done + {c}, rs, rs[id := row])
      ensures forall d :: d in indexes && d != c ==> indexes[d].nodes == old(indexes[d].nodes)
    {
      hide Table.Agrees, Verdict, FitsIndex;
      ok := EnterInto(c, id, row, rs);
    }

    method EnterInto(c: nat, id: RowId, row: Row, ghost rs: map<RowId, Row>) returns (ok: bool)
      requires c in indexes && Agrees(c, rs) && |indexes[c].nodes| + 64 <= MAX_PAGES
      requires Verdict(columns, rs, row, None, None) && id !in rs
      modifies indexes[c], indexes[c].disk
      ensures c < |row| && c < |columns| && ok == FitsIndex(columns[c], row[c])
      ensures ok ==> Agrees(c, rs[id := row])
      ensures |indexes[c].nodes| <= |old(indexes[c].nodes)| + 64
    {
      hide BStarPlusIndex.Valid, BStarPlusIndex.Model, BStarPlusIndex.Contents, Verdict, Mirrors, KeyEncodable, KindFor;
      AcceptedEnters(columns, rs, row, id, c, indexes[c].Model());
      KeyOfMatches(row[c], columns[c].kind);
      LowTree(indexes[c]);
      hide KeyMatchesKind;
      var r := indexes[c].Insert(KeyOf(row[c]), id);
      ok := r.Inserted?;
    }

    /** false is the exception of the index; by then the old value has been taken out of it. */
    method NotifyIndexesUpdate(id: RowId, column: nat, oldValue: Value, newValue: Value, ghost rs: map<RowId, Row>)
      returns (ok: bool)
      requires Attached() && Mirrored(rs) && Room(1)
      requires id in rs && column < |rs[id]| && rs[id][column] == oldValue
      requires Verdict(columns, rs, rs[id][column := newValue], Some(id), None)
      modifies indexes.Values, Disks()
      ensures column < |columns| && ok == (column in indexes ==> FitsIndex(columns[column], newValue)) && Grown(1)
      ensures ok ==> Attached() && Mirrored(rs[id := rs[id][column := newValue]])
      ensures !ok ==> column in indexes && indexes[column].size + 1 == |rs|
    {
      hide BStarPlusIndex.Valid, BStarPlusIndex.Model, BStarPlusIndex.Contents, Verdict, Mirrors, KeyEncodable,
           KindFor, FitsIndex;
      AcceptedColumn(columns, rs, id, column, newValue);
      ghost var rs' := rs[id := rs[id][column := newValue]];
      forall c | c in indexes && c != column ensures Mirrors(indexes[c].Model(), rs', c) {
        MirrorElsewhere(indexes[c].Model(), rs, c, id, column, newValue);
      }
      if column !in indexes {
        return true;
      }
      MirrorSize(indexes[column].Model(), rs, column);
      ok := ReplaceIn(column, id, oldValue, newValue, rs);
    }

    method ReplaceIn(column: nat, id: RowId, oldValue: Value, newValue: Value, ghost rs: map<RowId, Row>)
      returns (ok: bool)
      requires column in indexes && Agrees(column, rs) && |indexes[column].nodes| + 64 <= MAX_PAGES
      requires id in rs && column < |rs[id]| && rs[id][column] == oldValue
      requires Verdict(columns, rs, rs[id][column := newValue], Some(id), None)
      modifies indexes[column], indexes[column].disk
      ensures ok == FitsIndex(columns[column], newValue)
      ensures ok ==> Agrees(column, rs[id := rs[id][column := newValue]])
      ensures !ok ==> indexes[column].size + 1 == |old(indexes[column].Model())|
      ensures |indexes[column].nodes| <= |old(indexes[column].nodes)| + 64
    {
      hide BStarPlusIndex.Valid, BStarPlusIndex.Model, BStarPlusIndex.Contents, Verdict, Mirrors, KeyEncodable, KindFor;
      AcceptedChanges(columns, rs, id, column, newValue, indexes[column].Model());
      KeyOfMatches(oldValue, columns[column].kind);
      KeyOfMatches(newValue, columns[column].kind);
      hide KeyMatchesKind;
      ghost var m := indexes[column].Model();
      var erased := indexes[column].Erase(KeyOf(oldValue));
      OneFewer(m, KeyOf(oldValue));
      LowTree(indexes[column]);
      ModelSize(indexes[column]);
      var r := indexes[column].Insert(KeyOf(newValue), id);
      ok := r.Inserted?;
    }

    method NotifyIndexesErase(id: RowId, row: Row, ghost rs: map<RowId, Row>)
      requires Attached() && Mirrored(rs) && RowsOk(columns, rs) && id in rs && rs[id] == row
      modifies indexes.Values, Disks()
      ensures Attached() && Mirrored(rs - {id}) && Grown(0)
    {
      hide Table.Attached, Table.Mirrored, Table.Partly, Table.Sizes, Table.Within, RowsOk;
      ghost var rs', sizes := rs - {id}, Sizes();
      AllAgree(rs, rs');
      var done := {};
      while done != indexes.Keys
        invariant done <= indexes.Keys && Partly(done, rs, rs') && Within(sizes, 0)
        decreases indexes.Keys - done
      {
        assert indexes.Keys - done != {};
        var c :| c in indexes.Keys - done;
        EraseStep(c, id, row, rs, done, sizes);
        done := done + {c};
      }
      WithinMeans(sizes, 0);
      AgreeAll(rs, rs');
    }

    method EraseStep(c: nat, id: RowId, row: Row, ghost rs: map<RowId, Row>, ghost done: set<nat>,
                     ghost sizes: map<nat, nat>)
      requires Partly(done, rs, rs - {id}) && Within(sizes, 0) && c in indexes && c !in done
      requires RowsOk(columns, rs) && id in rs && rs[id] == row
      modifies indexes[c], indexes[c].disk
      ensures Within(sizes, 0) && Partly(done + {c}, rs, rs - {id})
    {
      hide Table.Agrees, RowsOk;
      EraseFrom(c, id, row, rs);
    }

    method EraseFrom(c: nat, id: RowId, row: Row, ghost rs: map<RowId, Row>)
      requires c in indexes && Agrees(c, rs)
      requires RowsOk(columns, rs) && id in rs && rs[id] == row
      modifies indexes[c], indexes[c].disk
      ensures Agrees(c, rs - {id}) && |indexes[c].nodes| <= |old(indexes[c].nodes)|
    {
      hide BStarPlusIndex.Valid, BStarPlusIndex.Model, BStarPlusIndex.Contents, RowsOk, Mirrors, KindFor;
      StoredErases(columns, rs, id, c, indexes[c].Model());
      KeyOfMatches(row[c], columns[c].kind);
      hide KeyMatchesKind;
      var erased := indexes[c].Erase(KeyOf(row[c]));
    }

    // ----- changing rows -----

    /** The table is valid again unless an index has rejected its value: the row has been stored by then. */
    method Insert(row: Row) returns (r: Result<RowId>)
      requires Valid() && Room(1) && nextId < TWO_64
      modifies this`rows, this`order, this`nextId, indexes.Values, Disks()
      ensures (Valid() <==> r != Failed(IndexRejected)) && Grown(1)
      ensures r == Failed(IndexRejected) <==> Verdict(columns, old(rows), row, None, None) && !Storable(row)
      ensures r.Failed? && r.error != IndexRejected ==>
                && Verdict(columns, old(rows), row, None, Some(r.error))
                && rows == old(rows) && order == old(order) && nextId == old(nextId) && unchanged(indexes.Values)
                   && unchanged(Disks())
      ensures r.Done? || r == Failed(IndexRejected) ==>
                && Verdict(columns, old(rows), row, None, None)
                && rows == old(rows)[old(nextId) := row] && order == old(order) + [old(nextId)]
                   && nextId == old(nextId) + 1
      ensures r.Done? ==> r.value == old(nextId)
    {
      hide Verdict, RowsOk, OrderOk, Table.Attached, Table.Mirrored, BStarPlusIndex.Valid, BStarPlusIndex.Model,
           BStarPlusIndex.Contents, FitsIndex, Table.Storable, Table.AttachedAt;
      var e := Validate(row, None);
      VerdictKinds(columns, rows, row, None, e);
      if e.Some? {
        return Failed(e.value);
      }
      var id: RowId := nextId;
      OrderGrows(rows, order, nextId, row);
      AcceptedKeeps(columns, rows, row, id);
      ghost var rs := rows;
      nextId := nextId + 1;
      rows := rows[id := row];
      order := order + [id];
      var ok := NotifyIndexesInsert(id, row, rs);
      if !ok {
        NotStorable(id);
        return Failed(IndexRejected);
      }
      r := Done(id);
    }

    /** As for Insert; but the row keeps its old value when the index, which has lost it, rejects the new one. */
    method Update(id: RowId, column: nat, newValue: Value) returns (r: Result<()>)
      requires Valid() && Room(1)
      modifies this`rows, indexes.Values, Disks()
      ensures (Valid() <==> r != Failed(IndexRejected)) && Grown(1)
      ensures id !in old(rows) ==> r == Failed(RowNotFound)
      ensures id in old(rows) && column >= |columns| ==> r == Failed(ColumnOutOfRange)
      ensures id in old(rows) && column < |columns| ==>
                && column < |old(rows)[id]|
                && (r == Failed(IndexRejected) <==>
                      && Verdict(columns, old(rows), old(rows)[id][column := newValue], Some(id), None)
                      && column in indexes && !FitsIndex(columns[column], newValue))
                && (r != Failed(IndexRejected) ==>
                      Verdict(columns, old(rows), old(rows)[id][column := newValue], Some(id),
                              if r.Failed? then Some(r.error) else None))
      ensures r.Done? ==> rows == old(rows)[id := old(rows)[id][column := newValue]]
      ensures r.Failed? ==> rows == old(rows)
      ensures r.Failed? && r.error != IndexRejected ==> unchanged(indexes.Values) && unchanged(Disks())
    {
      hide Verdict, OrderOk, Table.Attached, Table.Mirrored, BStarPlusIndex.Valid, BStarPlusIndex.Model, FitsIndex;
      if id !in rows {
        return Failed(RowNotFound);
      }
      if column >= |columns| {
        return Failed(ColumnOutOfRange);
      }
      StoredFits(columns, rows, id);
      hide RowsOk;
      var oldValue := rows[id][column];
      var updated := rows[id][column := newValue];
      var e := Validate(updated, Some(id));
      VerdictKinds(columns, rows, updated, Some(id), e);
      if e.Some? {
        return Failed(e.value);
      }
      AcceptedKeeps(columns, rows, updated, id);
      OrderSame(rows, order, nextId, id, updated);
      var ok := NotifyIndexesUpdate(id, column, oldValue, newValue, rows);
      if !ok {
        NoAgreementBySize(column);
        return Failed(IndexRejected);
      }
      rows := rows[id := updated];
      r := Done(());
    }

    method Erase(id: RowId) returns (r: Result<()>)
      requires Valid()
      modifies this`rows, this`order, indexes.Values, Disks()
      ensures Valid() && Grown(0)
      ensures r == if id in old(rows) then Done(()) else Failed(RowNotFound)
      ensures rows == old(rows) - {id} && Without(old(order), id, order)
      ensures r.Failed? ==> rows == old(rows) && order == old(order) && unchanged(indexes.Values) && unchanged(Disks())
    {
      hide OrderOk, RowsOk, Table.Attached, Table.Mirrored, BStarPlusIndex.Valid, BStarPlusIndex.Model;
      if id !in rows {
        NotListed(rows, order, nextId, id);
        return Failed(RowNotFound);
      }
      NotifyIndexesErase(id, rows[id], rows);
      ErasedKeeps(columns, rows, id);
      Listed(rows, order, nextId, id);
      rows := rows - {id};
      var pos := TreeSteps.IndexOf(order, id);
      if pos < |order| {
        order := order[..pos] + order[pos + 1..];
      }
      r := Done(());
    }

    /** A row from values that may be missing: each value supplied is stored as given, each one not supplied is
        the default of its column if there is one, and NULL otherwise, where NULL may be. */
    method InsertRow(values: seq<Option<Value>>) returns (r: Result<RowId>)
      requires Valid() && Room(1) && nextId < TWO_64
      modifies this`rows, this`order, this`nextId, indexes.Values, Disks()
      ensures (Valid() <==> r != Failed(IndexRejected)) && Grown(1)
      ensures r == Failed(TooManyValues) <==> |values| > |columns|
      ensures r.Done? || r == Failed(IndexRejected) ==>
                && |values| <= |columns| && rows == old(rows)[old(nextId) := Completed(columns, values)]
                && order == old(order) + [old(nextId)] && nextId == old(nextId) + 1
                && forall c :: 0 <= c < |columns| ==>
                     rows[old(nextId)][c] == if c < |values| && values[c].Some? then values[c].value
                                             else if columns[c].defaultValue.Some? then columns[c].defaultValue.value
                                             else Null
      ensures r.Done? ==> r.value == old(nextId)
      ensures r.Failed? && r.error != IndexRejected ==>
                rows == old(rows) && order == old(order) && nextId == old(nextId) && unchanged(indexes.Values)
                  && unchanged(Disks())
      ensures r.Failed? && r.error.MissingValue? ==>
                && r.error.column < |columns| && |values| <= |columns| && MissingAt(columns, values, r.error.column)
                && forall c :: 0 <= c < r.error.column ==> !MissingAt(columns, values, c)
      ensures r != Failed(TooManyValues) && !(r.Failed? && r.error.MissingValue?) ==>
                && (forall c :: 0 <= c < |columns| ==> !MissingAt(columns, values, c))
                && Verdict(columns, old(rows), Completed(columns, values), None,
                           if r.Failed? && r.error != IndexRejected then Some(r.error) else None)
                && (r == Failed(IndexRejected) ==> !Storable(Completed(columns, values)))
    {
      hide OrderOk, RowsOk, Verdict, FitsIndex, Table.Attached, Table.Mirrored, BStarPlusIndex.Valid,
           BStarPlusIndex.Model;
      if |values| > |columns| {
        return Failed(TooManyValues);
      }
      var row: Row := [];
      var i := 0;
      while i < |columns|
        invariant i <= |columns| && row == Completed(columns, values)[..i]
        invariant forall c :: 0 <= c < i ==> !MissingAt(columns, values, c)
        invariant unchanged(this) && unchanged(indexes.Values) && unchanged(Disks())
      {
        if i < |values| && values[i].Some? {
          row := row + [values[i].value];
        } else if columns[i].defaultValue.Some? {
          row := row + [columns[i].defaultValue.value];
        } else if columns[i].notNull {
          return Failed(MissingValue(i));
        } else {
          row := row + [Null];
        }
        i := i + 1;
      }
      assert row == Completed(columns, values);
      r := Insert(row);
      VerdictKinds(columns, old(rows), row, None, if r.Failed? then Some(r.error) else None);
    }

    /** An index is attached to the column, and with rebuild filled with the rows of the table; it throws at
        the first value that it cannot take. Table and index agree afterwards exactly if the column is an
        indexed one of the type of the index, every value can be a key, and the index has held exactly the
        rows that have not been entered: without rebuild all of them, with rebuild those from some row on. */
    method AttachIndex(column: nat, index: BStarPlusIndex?, rebuild: bool) returns (r: Result<()>)
      requires Valid()
      requires index != null ==> index.Valid() && index !in indexes.Values && index.disk !in Disks()
      requires index != null && rebuild ==> |index.nodes| + 64 * |order| <= MAX_PAGES
      modifies this`indexes, if index != null then {index, index.disk} else {}
      ensures column >= |columns| ==> r == Failed(ColumnOutOfRange)
      ensures column < |columns| && index == null ==> r == Failed(NoIndex)
      ensures column >= |columns| || index == null ==> Valid() && indexes == old(indexes)
      ensures column < |columns| && index != null ==>
                indexes == old(indexes)[column := index] && (r.Done? || r == Failed(IndexRejected))
      ensures column < |columns| && index != null && !rebuild ==>
                && r.Done?
                && (Valid() <==>
                      Suits(column, index.kind) && KeysOnly(column) && Mirrors(old(index.Model()), rows, column))
      ensures column < |columns| && index != null && rebuild ==>
                && HasColumn(rows, order, column)
                && (r.Done? <==>
                      NoneBlocked(old(index.Model()), index.kind, ColumnValues(rows, order, column), |order|))
                && (Valid() <==>
                      Suits(column, index.kind) && KeysOnly(column)
                        && MirrorsRest(old(index.Model()), rows, order, column))
    {
      hide OrderOk, RowsOk, Mirrors, KindFor, FitsIndex, Those, MapsFrom, Extends, NoneBlocked, KeyEncodable,
           Table.Agrees, BStarPlusIndex.Valid, BStarPlusIndex.Model, BStarPlusIndex.Contents;
      if column >= |columns| {
        return Failed(ColumnOutOfRange);
      }
      if index == null {
        return Failed(NoIndex);
      }
      ghost var m0 := index.Model();
      ColumnThere(columns, rows, order, nextId, column);
      ghost var vs := ColumnValues(rows, order, column);
      Bind(column, index);
      if !rebuild {
        ExtendsNothing(m0, vs, order);
        Outcome(column, index, m0, vs, 0);
        MapsRows(m0, rows, order, nextId, column, 0);
        return Done(());
      }
      var filled := FillIndex(column, index);
      Outcome(column, index, m0, vs, filled);
      FilledOutcome(column, index, m0, vs, filled);
      NoneBlockedUpTo(m0, index.kind, vs, filled);
      r := if filled < |order| then Failed(IndexRejected) else Done(());
    }

    /** An index of this kind can belong to the column. */
    ghost predicate Suits(column: nat, kind: KeyKind) {
      column < |columns| && columns[column].indexed && kind == KindFor(columns[column].kind)
    }

    /** All values of the column can be keys. */
    ghost predicate KeysOnly(column: nat)
      reads this`rows
    {
      column < |columns| && forall id :: id in rows ==>
        column < |rows[id]| && FitsIndex(columns[column], rows[id][column])
    }

    method Bind(column: nat, index: BStarPlusIndex)
      requires Valid() && column < |columns| && index !in indexes.Values && index.disk !in Disks()
      modifies this`indexes
      ensures indexes == old(indexes)[column := index] && Separate()
      ensures forall c :: c in indexes && c != column ==> Agrees(c, rows)
    {
      hide RowsOk, OrderOk, Mirrors, BStarPlusIndex.Valid, BStarPlusIndex.Model, KindFor;
      assert forall c :: c in indexes ==> Agrees(c, rows);
      indexes := indexes[column := index];
    }

    /** Agreement of the whole table once the index of the column holds m0 and the first values. */
    lemma Outcome(column: nat, index: BStarPlusIndex, m0: map<IndexKey, RowId>, vs: seq<Value>, filled: nat)
      requires RowsOk(columns, rows) && OrderOk(rows, order, nextId) && Separate()
      requires column in indexes && indexes[column] == index && column < |columns|
      requires forall c :: c in indexes && c != column ==> Agrees(c, rows)
      requires HasColumn(rows, order, column) && vs == ColumnValues(rows, order, column) && filled <= |vs|
      requires index.Valid() ==> Extends(index.Model(), m0, vs, order, filled)
      ensures Valid() <==> Suits(column, index.kind) && index.Valid() && MapsFrom(m0, vs, order, filled)
      ensures Valid() ==> KeysOnly(column)
    {
      hide RowsOk, Mirrors, KindFor, FitsIndex, MapsFrom, Extends, BStarPlusIndex.Valid, BStarPlusIndex.Model;
      OrderAscends(rows, order, nextId);
      hide OrderOk;
      if index.Valid() {
        FilledFrom(index.Model(), m0, vs, order, filled);
        MapsRows(index.Model(), rows, order, nextId, column, 0);
      }
      if Valid() {
        assert AttachedAt(column) && Mirrors(index.Model(), rows, column);
        MirroredFits(index, rows, column, columns);
      }
    }

    /** What filling says about the table, in terms of what the index has held before. */
    lemma FilledOutcome(column: nat, index: BStarPlusIndex, m0: map<IndexKey, RowId>, vs: seq<Value>, filled: nat)
      requires RowsOk(columns, rows) && OrderOk(rows, order, nextId) && column < |columns|
      requires HasColumn(rows, order, column) && vs == ColumnValues(rows, order, column) && filled <= |vs|
      requires NoneBlocked(m0, index.kind, vs, filled) && (filled < |vs| ==> Blocked(m0, index.kind, vs, filled))
      requires !index.Valid() ==> filled < |vs| && !vs[filled].Null? && !KeyEncodable(KeyOf(vs[filled]), index.kind)
      ensures Suits(column, index.kind) && KeysOnly(column) ==>
                (index.Valid() && MapsFrom(m0, vs, order, filled) <==> MirrorsRest(m0, rows, order, column))
    {
      hide RowsOk, OrderOk, Mirrors, Those, MapsFrom, Blocked, KeyEncodable, KindFor, BStarPlusIndex.Valid;
      if Suits(column, index.kind) && KeysOnly(column) {
        ColumnDistinct(columns, rows, order, nextId, column);
        assert forall j :: 0 <= j < |vs| ==> FitsIndex(columns[column], rows[order[j]][column]);
        MapsRows(m0, rows, order, nextId, column, filled);
        forall i | 0 <= i <= |order| && Mirrors(m0, Those(rows, order[i..]), column) ensures i == filled {
          MapsRows(m0, rows, order, nextId, column, i);
          StopsAt(m0, index.kind, vs, order, filled, i);
        }
      }
    }

    /** Enters the rows in their order, up to the first value that the index does not take. */
    method FillIndex(column: nat, index: BStarPlusIndex) returns (filled: nat)
      requires RowsOk(columns, rows) && OrderOk(rows, order, nextId) && index.Valid()
      requires HasColumn(rows, order, column) && |index.nodes| + 64 * |order| <= MAX_PAGES
      modifies index, index.disk
      ensures filled <= |order|
      ensures var m0, vs := old(index.Model()), ColumnValues(rows, order, column);
              && NoneBlocked(m0, index.kind, vs, filled) && (filled < |order| ==> Blocked(m0, index.kind, vs, filled))
              && (index.Valid() ==> Extends(index.Model(), m0, vs, order, filled))
              && (!index.Valid() ==>
                    filled < |order| && !vs[filled].Null? && !KeyEncodable(KeyOf(vs[filled]), index.kind))
    {
      hide OrderOk, RowsOk, KeyEncodable, Extends, BStarPlusIndex.Valid, BStarPlusIndex.Model, BStarPlusIndex.Contents;
      ghost var m0, vs := index.Model(), ColumnValues(rows, order, column);
      ExtendsNothing(m0, vs, order);
      filled := 0;
      while filled < |order|
        invariant filled <= |order| && index.Valid() && Extends(index.Model(), m0, vs, order, filled)
        invariant NoneBlocked(m0, index.kind, vs, filled)
        invariant |index.nodes| + 64 * (|order| - filled) <= MAX_PAGES
      {
        var value := rows[order[filled]][column];
        if value.Null? {
          return;
        }
        TakenBefore(index.Model(), m0, vs, order, filled);
        ghost var m := index.Model();
        LowTree(index);
        EncodableKind(KeyOf(value), index.kind);
        ModelOf(index);
        var r := index.Insert(KeyOf(value), order[filled]);
        if !r.Inserted? {
          ModelOf(index);
          return;
        }
        ExtendsOn(m, m0, vs, order, filled);
        filled := filled + 1;
      }
    }

    predicate HasIndex(column: nat)
      reads this`indexes
    {
      column in indexes
    }
  }
}
