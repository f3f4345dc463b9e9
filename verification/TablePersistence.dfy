/** Saving a table, and loading it into a pool that may hold other strings under other ids. */
module TablePersistence {
  import opened IndexTypes
  import opened ByteCodec
  import opened Values
  import opened StringPools
  import opened TableFiles
  import TableStorage

  /** A table as it is held in memory: its cells refer to the string pool. */
  datatype StoredTable = StoredTable(name: Text, columns: seq<StoredColumn>, rows: map<RowId, seq<Cell>>,
                                     order: seq<RowId>, nextId: nat)

  // ----- what a stored table means -----

  ghost predicate AllKnown(strings: seq<Text>, t: StoredTable) {
    && (forall i :: 0 <= i < |t.columns| && t.columns[i].def.Some? ==> Known(strings, t.columns[i].def.value))
    && (forall id :: id in t.rows ==> CellsKnown(strings, t.rows[id]))
  }

  ghost predicate CellsKnown(strings: seq<Text>, cells: seq<Cell>) {
    forall i :: 0 <= i < |cells| ==> Known(strings, cells[i])
  }

  ghost function ColumnMeaning(strings: seq<Text>, c: StoredColumn): ColumnDef
    requires c.def.Some? ==> Known(strings, c.def.value)
  {
    ColumnDef(c.name, c.kind, c.notNull, c.indexed, if c.def.Some? then Some(MeaningOf(strings, c.def.value)) else None)
  }

  ghost function CellsMeaning(strings: seq<Text>, cells: seq<Cell>): TableStorage.Row
    requires CellsKnown(strings, cells)
  {
    seq(|cells|, i requires 0 <= i < |cells| => MeaningOf(strings, cells[i]))
  }

  /** Name, columns, rows and order with the values themselves in place of ids. */
  datatype Meaning = Meaning(name: Text, columns: seq<ColumnDef>, rows: map<RowId, TableStorage.Row>, order: seq<RowId>)

  ghost function TableMeaning(strings: seq<Text>, t: StoredTable): Meaning
    requires AllKnown(strings, t)
  {
    Meaning(t.name,
            seq(|t.columns|, i requires 0 <= i < |t.columns| => ColumnMeaning(strings, t.columns[i])),
            map id | id in t.rows :: CellsMeaning(strings, t.rows[id]),
            t.order)
  }

  // ----- translating ids -----

  /** Each string of the file has its id in the pool. */
  ghost predicate Translates(ids: seq<nat>, strings: seq<Text>, byId: seq<Text>) {
    && |ids| == |strings| + 1 && ids[0] == 0
    && forall i :: 0 < i < |ids| ==> 0 < ids[i] < |byId| && byId[ids[i]] == strings[i - 1]
  }

  /** A cell with its id translated; None for an id that the file does not define. */
  function Translated(ids: seq<nat>, c: Cell): Option<Cell> {
    if c.StrCell? then if c.id < |ids| then Some(StrCell(ids[c.id])) else None
    else Some(c)
  }

  lemma TranslatedMeaning(ids: seq<nat>, strings: seq<Text>, byId: seq<Text>, c: Cell)
    requires Translates(ids, strings, byId) && Known([[]] + strings, c)
    ensures Translated(ids, c).Some?
    ensures Known(byId, Translated(ids, c).value)
            && MeaningOf(byId, Translated(ids, c).value) == MeaningOf([[]] + strings, c)
  {
  }

  function TranslatedCells(ids: seq<nat>, cells: seq<Cell>): Option<seq<Cell>> {
    if cells == [] then Some([])
    else
      var n := |cells| - 1;
      var front, last := TranslatedCells(ids, cells[..n]), Translated(ids, cells[n]);
      if front.None? || last.None? then None else Some(front.value + [last.value])
  }

  function TranslatedColumn(ids: seq<nat>, c: StoredColumn): Option<StoredColumn> {
    if c.def.None? then Some(c)
    else
      var def := Translated(ids, c.def.value);
      if def.None? then None else Some(c.(def := def))
  }

  function TranslatedColumns(ids: seq<nat>, columns: seq<StoredColumn>): Option<seq<StoredColumn>> {
    if columns == [] then Some([])
    else
      var n := |columns| - 1;
      var front, last := TranslatedColumns(ids, columns[..n]), TranslatedColumn(ids, columns[n]);
      if front.None? || last.None? then None else Some(front.value + [last.value])
  }

  /** The rows by id: the first of several with one id counts. */
  function RowsById(ids: seq<nat>, rows: seq<StoredRow>): Option<map<RowId, seq<Cell>>> {
    if rows == [] then Some(map[])
    else
      var n := |rows| - 1;
      var front, cells := RowsById(ids, rows[..n]), TranslatedCells(ids, rows[n].cells);
      if front.None? || cells.None? then None
      else Some(if rows[n].id in front.value then front.value else front.value[rows[n].id := cells.value])
  }

  function RowIds(rows: seq<StoredRow>): (ids: seq<RowId>)
    ensures |ids| == |rows| && forall i :: 0 <= i < |rows| ==> ids[i] == rows[i].id
  {
    seq(|rows|, i requires 0 <= i < |rows| => rows[i].id)
  }

  function Largest(order: seq<RowId>): (max: RowId)
    requires order != []
    ensures max in order && forall id :: id in order ==> id <= max
  {
    var n := |order| - 1;
    if n == 0 then order[0]
    else
      assert order == order[..n] + [order[n]];
      var front := Largest(order[..n]);
      if order[n] > front then order[n] else front
  }

  /** One more than the largest id, in 64 bits, and at least 1. */
  function NextFree(order: seq<RowId>): nat {
    if order == [] then 1
    else
      var largest: nat := Largest(order);
      if (largest + 1) % TWO_64 > 1 then (largest + 1) % TWO_64 else 1
  }

  /** What TableSchema demands of its columns: no name is empty, and none occurs twice. */
  predicate NamesOk(columns: seq<StoredColumn>) {
    && (forall i :: 0 <= i < |columns| ==> columns[i].name != [])
    && forall i, j :: 0 <= i < j < |columns| ==> columns[i].name != columns[j].name
  }

  // ----- the file of a table -----

  /** The table as the file has it. */
  function FileOf(t: StoredTable): FileTable
    requires forall id :: id in t.order ==> id in t.rows
  {
    FileTable(t.name, t.columns,
              seq(|t.order|, i requires 0 <= i < |t.order| => StoredRow(t.order[i], t.rows[t.order[i]])))
  }

  /** What loading makes of the parts of a file. */
  function Loaded(ids: seq<nat>, f: FileTable): Option<StoredTable> {
    var columns, rows := TranslatedColumns(ids, f.columns), RowsById(ids, f.rows);
    if columns.None? || !NamesOk(f.columns) || rows.None? then None
    else Some(StoredTable(f.name, columns.value, rows.value, RowIds(f.rows), NextFree(RowIds(f.rows))))
  }

  /** The rows and the order list the same ids, each once. */
  ghost predicate Listed(t: StoredTable) {
    && (forall id :: id in t.order <==> id in t.rows)
    && forall i, j :: 0 <= i < j < |t.order| ==> t.order[i] != t.order[j]
  }

  // ----- loading what was saved -----

  lemma {:induction false} CellsTranslated(ids: seq<nat>, strings: seq<Text>, byId: seq<Text>, cells: seq<Cell>)
    requires Translates(ids, strings, byId) && CellsKnown([[]] + strings, cells)
    ensures TranslatedCells(ids, cells).Some?
    ensures CellsKnown(byId, TranslatedCells(ids, cells).value)
    ensures CellsMeaning(byId, TranslatedCells(ids, cells).value) == CellsMeaning([[]] + strings, cells)
  {
    hide Translates, Known, MeaningOf, Translated;
    if cells != [] {
      var n := |cells| - 1;
      CellsTranslated(ids, strings, byId, cells[..n]);
      TranslatedMeaning(ids, strings, byId, cells[n]);
      var front, last := TranslatedCells(ids, cells[..n]).value, Translated(ids, cells[n]).value;
      assert CellsMeaning(byId, front + [last]) == CellsMeaning(byId, front) + [MeaningOf(byId, last)];
      assert CellsMeaning([[]] + strings, cells)
             == CellsMeaning([[]] + strings, cells[..n]) + [MeaningOf([[]] + strings, cells[n])];
    }
  }

  lemma {:induction false} ColumnsTranslated(ids: seq<nat>, strings: seq<Text>, byId: seq<Text>,
                                             columns: seq<StoredColumn>)
    requires Translates(ids, strings, byId)
    requires forall i :: 0 <= i < |columns| && columns[i].def.Some? ==> Known([[]] + strings, columns[i].def.value)
    ensures TranslatedColumns(ids, columns).Some? && |TranslatedColumns(ids, columns).value| == |columns|
    ensures var r := TranslatedColumns(ids, columns).value;
            forall i :: 0 <= i < |columns| ==> (r[i].def.Some? ==> Known(byId, r[i].def.value))
                                               && ColumnMeaning(byId, r[i]) == ColumnMeaning([[]] + strings, columns[i])
  {
    hide Translates, Known, MeaningOf, Translated;
    if columns != [] {
      var n := |columns| - 1;
      ColumnsTranslated(ids, strings, byId, columns[..n]);
      if columns[n].def.Some? {
        TranslatedMeaning(ids, strings, byId, columns[n].def.value);
      }
    }
  }

  lemma {:induction false} RowsTranslated(ids: seq<nat>, strings: seq<Text>, byId: seq<Text>, rows: seq<StoredRow>)
    requires Translates(ids, strings, byId)
    requires forall i :: 0 <= i < |rows| ==> CellsKnown([[]] + strings, rows[i].cells)
    requires forall i, j :: 0 <= i < j < |rows| ==> rows[i].id != rows[j].id
    ensures RowsById(ids, rows).Some?
    ensures var r := RowsById(ids, rows).value;
            && (forall id :: id in r <==> id in RowIds(rows))
            && forall i :: 0 <= i < |rows| ==>
                 && rows[i].id in r && CellsKnown(byId, r[rows[i].id])
                 && CellsMeaning(byId, r[rows[i].id]) == CellsMeaning([[]] + strings, rows[i].cells)
  {
    hide Translates, CellsKnown, CellsMeaning, TranslatedCells;
    if rows != [] {
      var n := |rows| - 1;
      RowsTranslated(ids, strings, byId, rows[..n]);
      CellsTranslated(ids, strings, byId, rows[n].cells);
      assert RowIds(rows) == RowIds(rows[..n]) + [rows[n].id];
      forall i | 0 <= i < n ensures rows[i].id in RowsById(ids, rows[..n]).value {
        assert rows[..n][i] == rows[i];
      }
      assert rows[n].id !in RowIds(rows[..n]);
    }
  }

  /** The round trip: whatever strings the pool holds already, the loaded table means what the saved
      one meant, and its next id is free unless the last id of all has been given away. */
  lemma LoadedMeansTheSame(strings: seq<Text>, t: StoredTable, ids: seq<nat>, byId: seq<Text>)
    requires AllKnown([[]] + strings, t) && Listed(t) && NamesOk(t.columns) && Translates(ids, strings, byId)
    ensures Loaded(ids, FileOf(t)).Some?
    ensures var r := Loaded(ids, FileOf(t)).value;
            && AllKnown(byId, r) && TableMeaning(byId, r) == TableMeaning([[]] + strings, t)
            && r.order == t.order && Listed(r) && Follows(t.order, r.nextId)
            && ((forall id :: id in r.rows ==> id < r.nextId) <==> TWO_64 - 1 !in t.rows)
  {
    var f := FileOf(t);
    hide Translates, CellsKnown, CellsMeaning, TranslatedCells, Known;
    forall i | 0 <= i < |f.rows| ensures CellsKnown([[]] + strings, f.rows[i].cells) {
      assert t.order[i] in t.order;
    }
    ColumnsTranslated(ids, strings, byId, t.columns);
    RowsTranslated(ids, strings, byId, f.rows);
    var r := Loaded(ids, f).value;
    assert r.order == t.order;
    RowMeanings(strings, t, byId, r);
    NextFreeAbove(r.order);
  }

  /** The next id follows the largest one; it is 1 if there is none, or if that one was the last of all. */
  ghost predicate Follows(order: seq<RowId>, next: nat) {
    if order == [] || TWO_64 - 1 in order then next == 1
    else exists id :: id in order && next == id + 1 && forall other :: other in order ==> other <= id
  }

  /** The next id lies above the ids of the rows unless the last id of all has been given away. */
  lemma NextFreeAbove(order: seq<RowId>)
    ensures Follows(order, NextFree(order))
    ensures (forall id :: id in order ==> id < NextFree(order)) <==> TWO_64 - 1 !in order
  {
  }

  /** Of several rows with one id the first one counts, and a row whose cells cannot be translated fails the file. */
  lemma {:induction false} FirstCounts(ids: seq<nat>, rows: seq<StoredRow>)
    ensures RowsById(ids, rows).Some? <==> forall i :: 0 <= i < |rows| ==> TranslatedCells(ids, rows[i].cells).Some?
    ensures RowsById(ids, rows).Some? ==>
              && (forall id :: id in RowsById(ids, rows).value <==> id in RowIds(rows))
              && (forall i :: 0 <= i < |rows| ==> rows[i].id in RowIds(rows))
              && forall i :: 0 <= i < |rows| && rows[i].id !in RowIds(rows[..i]) ==>
                   RowsById(ids, rows).value[rows[i].id] == TranslatedCells(ids, rows[i].cells).value
  {
    if rows != [] {
      hide TranslatedCells, RowIds, RowsById;
      var n := |rows| - 1;
      var front := rows[..n];
      FirstCounts(ids, front);
      OneRowMore(ids, rows);
      assert rows == front + [rows[n]];
      forall i | 0 <= i < |rows| && rows[i].id !in RowIds(rows[..i]) && RowsById(ids, rows).Some?
        ensures RowsById(ids, rows).value[rows[i].id] == TranslatedCells(ids, rows[i].cells).value
      {
        if i < n {
          assert front[i] == rows[i] && front[..i] == rows[..i];
          assert front[i].id in RowsById(ids, front).value;
        }
      }
    }
  }

  lemma OneRowMore(ids: seq<nat>, rows: seq<StoredRow>)
    requires rows != []
    ensures var n := |rows| - 1;
            var front, cells := RowsById(ids, rows[..n]), TranslatedCells(ids, rows[n].cells);
            && RowIds(rows) == RowIds(rows[..n]) + [rows[n].id]
            && (RowsById(ids, rows).Some? <==> front.Some? && cells.Some?)
            && (front.Some? && cells.Some? ==>
                  RowsById(ids, rows).value ==
                    if rows[n].id in front.value then front.value else front.value[rows[n].id := cells.value])
  {
  }

  lemma RowMeanings(strings: seq<Text>, t: StoredTable, byId: seq<Text>, r: StoredTable)
    requires AllKnown([[]] + strings, t) && Listed(t) && r.order == t.order && r.name == t.name
    requires |r.columns| == |t.columns|
    requires forall i :: 0 <= i < |t.columns| ==>
               && (r.columns[i].def.Some? ==> Known(byId, r.columns[i].def.value))
               && ColumnMeaning(byId, r.columns[i]) == ColumnMeaning([[]] + strings, t.columns[i])
    requires forall id :: id in r.rows <==> id in r.order
    requires forall i :: 0 <= i < |t.order| ==>
               && t.order[i] in t.rows && t.order[i] in r.rows && CellsKnown(byId, r.rows[t.order[i]])
               && CellsMeaning(byId, r.rows[t.order[i]]) == CellsMeaning([[]] + strings, t.rows[t.order[i]])
    ensures AllKnown(byId, r) && TableMeaning(byId, r) == TableMeaning([[]] + strings, t) && Listed(r)
  {
    hide CellsKnown, CellsMeaning, Known, ColumnMeaning;
    forall id | id in r.rows ensures id in t.rows && CellsKnown(byId, r.rows[id])
                                     && CellsMeaning(byId, r.rows[id]) == CellsMeaning([[]] + strings, t.rows[id]) {
      var i :| 0 <= i < |t.order| && t.order[i] == id;
    }
  }

  /** The strings and the table that a file holds. */
  function FileParts(data: seq<byte>): Option<(seq<Text>, FileTable)> {
    match ReadHead(data)
    case Truncated => None
    case Parsed(name, p1) =>
      match ReadPool(data, p1)
      case Truncated => None
      case Parsed(strings, p2) =>
        match ReadColumns(data, p2)
        case Truncated => None
        case Parsed(columns, p3) =>
          match ReadRows(data, p3, |columns|)
          case Truncated => None
          case Parsed(rows, _) => Some((strings, FileTable(name, columns, rows)))
  }

  /** The widths of the file format suffice for the table, its columns have different names, and each row has
      a cell for each column. */
  ghost predicate Savable(byId: seq<Text>, t: StoredTable) {
    && AllKnown(byId, t) && Listed(t) && NamesOk(t.columns) && |byId| < TWO_32 && |t.name| < TWO_16
       && |t.columns| < TWO_32 && |t.order| < TWO_64
    && (forall i :: 0 <= i < |byId| ==> |byId[i]| < TWO_32)
    && (forall i :: 0 <= i < |t.columns| ==> |t.columns[i].name| < TWO_16)
    && (forall id :: id in t.rows ==> |t.rows[id]| == |t.columns|)
  }

  lemma SavedFits(byId: seq<Text>, t: StoredTable)
    requires Savable(byId, t) && byId != []
    ensures Storable(byId[1..]) && Fits(FileOf(t))
  {
    var f := FileOf(t);
    forall i | 0 <= i < |f.rows| ensures RowFits(f.rows[i], |f.columns|) {
      assert t.order[i] in t.order;
      assert CellsKnown(byId, t.rows[t.order[i]]);
    }
  }

  /** Saving a table and loading the file into any pool: the file holds what was saved, loading does
      not fail, and the loaded table means what the saved one meant. */
  lemma SavedIsLoaded(byId: seq<Text>, byValue: map<Text, nat>, t: StoredTable, ids: seq<nat>, byId': seq<Text>)
    requires Consistent(byId, byValue) && Savable(byId, t) && Translates(ids, byId[1..], byId')
    ensures FileParts(TableBytes(byId[1..], FileOf(t))) == Some((byId[1..], FileOf(t)))
    ensures Loaded(ids, FileOf(t)).Some?
    ensures var r := Loaded(ids, FileOf(t)).value;
            && AllKnown(byId', r) && TableMeaning(byId', r) == TableMeaning(byId, t)
            && Follows(t.order, r.nextId) && ((forall id :: id in r.rows ==> id < r.nextId) <==> TWO_64 - 1 !in t.rows)
  {
    hide *;
    PoolStrings(byId, byValue);
    SavedParts(byId, t);
    SavableParts(byId, t);
    LoadedMeansTheSame(byId[1..], t, ids, byId');
  }

  lemma SavableParts(byId: seq<Text>, t: StoredTable)
    requires Savable(byId, t)
    ensures AllKnown(byId, t) && Listed(t) && NamesOk(t.columns) && forall id :: id in t.order ==> id in t.rows
  {
  }

  lemma SavedParts(byId: seq<Text>, t: StoredTable)
    requires Savable(byId, t) && |byId| >= 1
    ensures FileParts(TableBytes(byId[1..], FileOf(t))) == Some((byId[1..], FileOf(t)))
  {
    hide *;
    SavableParts(byId, t);
    SavedFits(byId, t);
    var f, strings := FileOf(t), byId[1..];
    TableBack(strings, f);
    var p1 := |HeadBytes(f.name)|;
    var p2 := p1 + |PoolBytes(strings)|;
    PartsRead(TableBytes(strings, f), strings, f, p1, p2, p2 + |ColumnsBytes(f.columns)|);
  }

  lemma PartsRead(data: seq<byte>, strings: seq<Text>, f: FileTable, p1: nat, p2: nat, p3: nat)
    requires ReadHead(data) == Parsed(f.name, p1) && ReadPool(data, p1) == Parsed(strings, p2)
    requires ReadColumns(data, p2) == Parsed(f.columns, p3) && ReadRows(data, p3, |f.columns|) == Parsed(f.rows, |data|)
    ensures FileParts(data) == Some((strings, f))
  {
  }

  /** A table whose ids were in order still has them in order, below its next id. */
  lemma LoadedOrderOk(byId: seq<Text>, t: StoredTable, byId': seq<Text>, r: StoredTable)
    requires AllKnown(byId, t) && AllKnown(byId', r) && TableMeaning(byId', r) == TableMeaning(byId, t)
    requires TableStorage.OrderOk(TableMeaning(byId, t).rows, t.order, t.nextId) && forall id :: id in r.rows ==>
               id < r.nextId
    ensures TableStorage.OrderOk(TableMeaning(byId', r).rows, r.order, r.nextId)
  {
    assert TableMeaning(byId', r).order == TableMeaning(byId, t).order;
    assert TableMeaning(byId', r).rows.Keys == r.rows.Keys;
  }

  // ----- the code -----

  lemma TranslatedLonger(ids: seq<nat>, a: seq<StoredColumn>, b: seq<StoredColumn>)
    requires TranslatedColumns(ids, a).None?
    ensures TranslatedColumns(ids, a + b).None?
    decreases |b|
  {
    if b == [] {
      assert a + b == a;
    } else {
      TranslatedLonger(ids, a, b[..|b| - 1]);
      assert (a + b)[..|a + b| - 1] == a + b[..|b| - 1];
    }
  }

  lemma RowsLonger(ids: seq<nat>, a: seq<StoredRow>, b: seq<StoredRow>)
    requires RowsById(ids, a).None?
    ensures RowsById(ids, a + b).None?
    decreases |b|
  {
    if b == [] {
      assert a + b == a;
    } else {
      RowsLonger(ids, a, b[..|b| - 1]);
      assert (a + b)[..|a + b| - 1] == a + b[..|b| - 1];
    }
  }

  /** Enters the strings of the file into the pool; ids[i] is where string i of the file is now. */
  method LoadStrings(data: seq<byte>, pos: nat, pool: StringPool) returns (r: Parsed<seq<nat>>)
    requires pool.Valid() && |pool.byId| + |data| < TWO_32
    modifies pool
    ensures pool.Valid() && old(pool.byId) <= pool.byId
    ensures var read := ReadPool(data, pos);
            if read.Truncated? then r.Truncated?
              else r.Parsed? && r.next == read.next && Translates(r.value, read.value, pool.byId)
  {
    hide ReadString, ReadUnsigned, Consistent, Translates;
    var counted := ReadUnsigned(data, pos, 4);
    if counted.Truncated? {
      return Truncated;
    }
    var ids := [0];
    var at: nat := counted.next;
    ghost var strings, all := [], ReadPool(data, pos);
    var i := 0;
    PrependNothing(all);
    NothingTranslated(pool.byId);
    while i < counted.value
      invariant i <= counted.value && i <= |data| && (i > 0 ==> i <= at <= |data|)
      invariant pool.Valid() && old(pool.byId) <= pool.byId && |pool.byId| <= |old(pool.byId)| + i
      invariant all == Prepend(strings, ReadMany(StringReader(data), at, counted.value - i))
      invariant Translates(ids, strings, pool.byId)
    {
      var s := ReadString(data, at);
      if s.Truncated? {
        return Truncated;
      }
      StringTakesBytes(data, at);
      PrependOne(strings, s.value, ReadMany(StringReader(data), s.next, counted.value - i - 1));
      ghost var before := pool.byId;
      var id := pool.Intern(s.value);
      OneMoreTranslated(ids, strings, before, pool.byId, id, s.value);
      ids, strings, at := ids + [id], strings + [s.value], s.next;
      i := i + 1;
    }
    PrependEnd(strings, at);
    r := Parsed(ids, at);
  }

  lemma NothingTranslated(byId: seq<Text>)
    ensures Translates([0], [], byId)
  {
  }

  lemma StringTakesBytes(data: seq<byte>, at: nat)
    ensures ReadString(data, at).Parsed? ==> at + 4 <= ReadString(data, at).next <= |data|
  {
  }

  lemma OneMoreTranslated(ids: seq<nat>, strings: seq<Text>, before: seq<Text>, byId: seq<Text>, id: nat, s: Text)
    requires Translates(ids, strings, before) && before <= byId && 0 < id < |byId| && byId[id] == s
    ensures Translates(ids + [id], strings + [s], byId)
  {
  }

  method LoadColumns(data: seq<byte>, pos: nat, ids: seq<nat>) returns (r: Parsed<seq<StoredColumn>>)
    ensures var read := ReadColumns(data, pos);
            r == if read.Truncated? || TranslatedColumns(ids, read.value).None? then Truncated
                 else Parsed(TranslatedColumns(ids, read.value).value, read.next)
  {
    hide ReadColumn, ReadUnsigned, TranslatedColumn;
    var counted := ReadUnsigned(data, pos, 4);
    if counted.Truncated? {
      return Truncated;
    }
    var columns, at := [], counted.next;
    ghost var raw, all := [], ReadColumns(data, pos);
    var i := 0;
    PrependNothing(all);
    while i < counted.value
      invariant i <= counted.value && TranslatedColumns(ids, raw) == Some(columns)
      invariant all == Prepend(raw, ReadMany(ColumnReader(data), at, counted.value - i))
    {
      var c := ReadColumn(data, at);
      if c.Truncated? {
        return Truncated;
      }
      ghost var rest := ReadMany(ColumnReader(data), c.next, counted.value - i - 1);
      PrependOne(raw, c.value, rest);
      assert (raw + [c.value])[..|raw|] == raw;
      var column := TranslatedColumn(ids, c.value);
      if column.None? {
        if rest.Parsed? {
          TranslatedLonger(ids, raw + [c.value], rest.value);
        }
        return Truncated;
      }
      columns, raw, at := columns + [column.value], raw + [c.value], c.next;
      i := i + 1;
    }
    PrependEnd(raw, at);
    r := Parsed(columns, at);
  }

  lemma {:induction false} TranslatedNames(ids: seq<nat>, columns: seq<StoredColumn>)
    requires TranslatedColumns(ids, columns).Some?
    ensures |TranslatedColumns(ids, columns).value| == |columns|
    ensures forall i :: 0 <= i < |columns| ==> TranslatedColumns(ids, columns).value[i].name == columns[i].name
  {
    if columns != [] {
      TranslatedNames(ids, columns[..|columns| - 1]);
    }
  }

  /** The loop of TableSchema over its columns. */
  method CheckNames(columns: seq<StoredColumn>) returns (ok: bool)
    ensures ok == NamesOk(columns)
  {
    var seen: set<Text> := {};
    var i := 0;
    while i < |columns|
      invariant i <= |columns| && NamesOk(columns[..i]) && forall n :: n in seen <==>
                  exists j :: 0 <= j < i && columns[j].name == n
    {
      if columns[i].name == [] || columns[i].name in seen {
        return false;
      }
      seen := seen + {columns[i].name};
      i := i + 1;
    }
    assert columns[..i] == columns;
    ok := true;
  }

  lemma SameNames(ids: seq<nat>, read: Parsed<seq<StoredColumn>>)
    ensures read.Parsed? && TranslatedColumns(ids, read.value).Some? ==>
              && |TranslatedColumns(ids, read.value).value| == |read.value|
              && (NamesOk(TranslatedColumns(ids, read.value).value) <==> NamesOk(read.value))
  {
    if read.Parsed? && TranslatedColumns(ids, read.value).Some? {
      TranslatedNames(ids, read.value);
    }
  }

  method LoadRows(data: seq<byte>, pos: nat, columnCount: nat, ids: seq<nat>)
    returns (ok: bool, rows: map<RowId, seq<Cell>>, order: seq<RowId>)
    ensures var read := ReadRows(data, pos, columnCount);
            && ok == (read.Parsed? && RowsById(ids, read.value).Some?)
            && (ok ==> rows == RowsById(ids, read.value).value && order == RowIds(read.value))
  {
    hide ReadRow, ReadUnsigned, TranslatedCells;
    rows, order := map[], [];
    var counted := ReadUnsigned(data, pos, 8);
    if counted.Truncated? {
      return false, rows, order;
    }
    var at := counted.next;
    ghost var raw, all := [], ReadRows(data, pos, columnCount);
    var i := 0;
    PrependNothing(all);
    while i < counted.value
      invariant i <= counted.value && RowsById(ids, raw) == Some(rows) && order == RowIds(raw)
      invariant all == Prepend(raw, ReadMany(RowReader(data, columnCount), at, counted.value - i))
    {
      var row := ReadRow(data, at, columnCount);
      if row.Truncated? {
        return false, rows, order;
      }
      ghost var rest := ReadMany(RowReader(data, columnCount), row.next, counted.value - i - 1);
      PrependOne(raw, row.value, rest);
      assert (raw + [row.value])[..|raw|] == raw;
      var cells := TranslatedCells(ids, row.value.cells);
      if cells.None? {
        if rest.Parsed? {
          RowsLonger(ids, raw + [row.value], rest.value);
        }
        return false, rows, order;
      }
      assert RowIds(raw + [row.value]) == RowIds(raw) + [row.value.id];
      if row.value.id !in rows {
        rows := rows[row.value.id := cells.value];
      }
      order := order + [row.value.id];
      raw, at := raw + [row.value], row.next;
      i := i + 1;
    }
    PrependEnd(raw, at);
    ok := true;
  }

  /** Table::load; None stands for its exceptions. */
  method Load(data: seq<byte>, pool: StringPool) returns (r: Option<StoredTable>, ghost ids: seq<nat>)
    requires pool.Valid() && |pool.byId| + |data| < TWO_32
    modifies pool
    ensures pool.Valid() && old(pool.byId) <= pool.byId
    ensures FileParts(data).None? ==> r == None
    ensures FileParts(data).Some? ==>
              && Translates(ids, FileParts(data).value.0, pool.byId)
              && r == Loaded(ids, FileParts(data).value.1)
  {
    hide ReadHead, ReadPool, ReadColumns, ReadRows, TranslatedColumns, NamesOk, RowsById, Translates, NextFree,
         Consistent;
    ids := [];
    var head := ReadHead(data);
    if head.Truncated? {
      return None, ids;
    }
    var map' := LoadStrings(data, head.next, pool);
    if map'.Truncated? {
      return None, ids;
    }
    ids := map'.value;
    var columns := LoadColumns(data, map'.next, map'.value);
    if columns.Truncated? {
      return None, ids;
    }
    SameNames(map'.value, ReadColumns(data, map'.next));
    var named := CheckNames(columns.value);
    if !named {
      return None, ids;
    }
    var ok, rows, order := LoadRows(data, columns.next, |columns.value|, map'.value);
    if !ok {
      return None, ids;
    }
    r := Some(StoredTable(head.value, columns.value, rows, order, NextFree(order)));
  }

  /** Table::save. */
  method Save(t: StoredTable, pool: StringPool) returns (out: seq<byte>)
    requires pool.Valid() && forall id :: id in t.order ==> id in t.rows
    ensures out == TableBytes(pool.byId[1..], FileOf(t))
  {
    hide Consistent, ColumnBytes, CellBytes, NameBytes, PoolBytes;
    out := Bytes(MAGIC, 4) + Bytes(VERSION, 4) + NameBytes(t.name);
    var strings := pool.Serialize();
    out := out + strings;
    var columns := SaveColumns(t.columns);
    out := out + columns;
    var rows := SaveRows(t);
    out := out + rows;
  }

  method SaveColumns(columns: seq<StoredColumn>) returns (out: seq<byte>)
    ensures out == ColumnsBytes(columns)
  {
    hide ColumnBytes;
    out := Bytes(|columns|, 4);
    var i := 0;
    while i < |columns|
      invariant i <= |columns| && out == Bytes(|columns|, 4) + ManyBytes(ColumnBytes, columns[..i])
    {
      ManyBytesMore(ColumnBytes, columns[..i], columns[i]);
      assert columns[..i + 1] == columns[..i] + [columns[i]];
      out := out + ColumnBytes(columns[i]);
      i := i + 1;
    }
    assert columns[..i] == columns;
  }

  method SaveRows(t: StoredTable) returns (out: seq<byte>)
    requires forall id :: id in t.order ==> id in t.rows
    ensures out == RowsBytes(FileOf(t).rows)
  {
    ghost var rows := FileOf(t).rows;
    hide RowBytes, Bytes;
    out := Bytes(|t.order|, 8);
    var i := 0;
    while i < |t.order|
      invariant i <= |t.order| && out == Bytes(|rows|, 8) + ManyBytes(RowBytes, rows[..i])
    {
      ManyBytesMore(RowBytes, rows[..i], rows[i]);
      assert rows[..i + 1] == rows[..i] + [rows[i]];
      var row := SaveRow(t.order[i], t.rows[t.order[i]]);
      out := out + row;
      i := i + 1;
    }
    assert rows[..i] == rows;
  }

  method SaveRow(id: RowId, cells: seq<Cell>) returns (out: seq<byte>)
    ensures out == RowBytes(StoredRow(id, cells))
  {
    hide CellBytes;
    out := Bytes(id, 8);
    var j := 0;
    while j < |cells|
      invariant j <= |cells| && out == Bytes(id, 8) + ManyBytes(CellBytes, cells[..j])
    {
      ManyBytesMore(CellBytes, cells[..j], cells[j]);
      assert cells[..j + 1] == cells[..j] + [cells[j]];
      out := out + CellBytes(cells[j]);
      j := j + 1;
    }
    assert cells[..j] == cells;
  }
}
