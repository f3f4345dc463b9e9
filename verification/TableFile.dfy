/** A table as a file: how it is written, and how it is read into a pool with other strings. */
module TableFiles {
  import opened IndexTypes
  import opened ByteCodec
  import opened Values
  import opened StringPools

  const MAGIC: nat := 0x42445442
  const VERSION: nat := 3

  datatype StoredColumn = StoredColumn(name: Text, kind: DataType, notNull: bool, indexed: bool, def: Option<Cell>)

  datatype StoredRow = StoredRow(id: RowId, cells: seq<Cell>)

  datatype FileTable = FileTable(name: Text, columns: seq<StoredColumn>, rows: seq<StoredRow>)

  // ----- writing -----

  /** The length has two bytes, and so many characters are written. */
  function NameBytes(name: Text): seq<byte> {
    Bytes(|name| % TWO_16, 2) + name[..|name| % TWO_16]
  }

  function CellBytes(c: Cell): seq<byte> {
    match c
    case NullCell => [0]
    case IntCell(i) => [1] + Bytes(ToBits(i), 8)
    case StrCell(id) => [2] + Bytes(id, 4)
  }

  function Flags(c: StoredColumn): byte {
    (if c.notNull then 1 else 0) + if c.indexed then 2 else 0
  }

  function DefaultBytes(def: Option<Cell>): seq<byte> {
    if def.None? then [0] else [1] + CellBytes(def.value)
  }

  function ColumnBytes(c: StoredColumn): seq<byte> {
    NameBytes(c.name) + [if c.kind.IntType? then 1 else 2, Flags(c)] + DefaultBytes(c.def)
  }

  function RowBytes(r: StoredRow): seq<byte> {
    Bytes(r.id, 8) + ManyBytes(CellBytes, r.cells)
  }

  function HeadBytes(name: Text): seq<byte> {
    Bytes(MAGIC, 4) + Bytes(VERSION, 4) + NameBytes(name)
  }

  function ColumnsBytes(columns: seq<StoredColumn>): seq<byte> {
    Bytes(|columns|, 4) + ManyBytes(ColumnBytes, columns)
  }

  function RowsBytes(rows: seq<StoredRow>): seq<byte> {
    Bytes(|rows|, 8) + ManyBytes(RowBytes, rows)
  }

  function TableBytes(strings: seq<Text>, t: FileTable): seq<byte> {
    HeadBytes(t.name) + PoolBytes(strings) + ColumnsBytes(t.columns) + RowsBytes(t.rows)
  }

  // ----- reading -----

  function ReadName(data: seq<byte>, pos: nat): Parsed<Text> {
    match ReadUnsigned(data, pos, 2)
    case Truncated => Truncated
    case Parsed(length, next) => ReadBlock(data, next, length)
  }

  function ReadCell(data: seq<byte>, pos: nat): Parsed<Cell> {
    match ReadUnsigned(data, pos, 1)
    case Truncated => Truncated
    case Parsed(tag, next) =>
      if tag == 0 then Parsed(NullCell, next)
      else if tag == 1 then
        match ReadUnsigned(data, next, 8)
        case Truncated => Truncated
        case Parsed(bits, end) => Parsed(IntCell(AsInt64(bits)), end)
      else
        match ReadUnsigned(data, next, 4)
        case Truncated => Truncated
        case Parsed(id, end) => Parsed(StrCell(id), end)
  }

  function CellReader(data: seq<byte>): nat -> Parsed<Cell> {
    (pos: nat) => ReadCell(data, pos)
  }

  function ReadDefault(data: seq<byte>, pos: nat): Parsed<Option<Cell>> {
    match ReadUnsigned(data, pos, 1)
    case Truncated => Truncated
    case Parsed(has, next) =>
      if has == 0 then Parsed(None, next)
      else
        match ReadCell(data, next)
        case Truncated => Truncated
        case Parsed(cell, end) => Parsed(Some(cell), end)
  }

  function ReadColumn(data: seq<byte>, pos: nat): Parsed<StoredColumn> {
    match ReadName(data, pos)
    case Truncated => Truncated
    case Parsed(name, p) =>
      if p + 2 > |data| then Truncated
      else
        match ReadDefault(data, p + 2)
        case Truncated => Truncated
        case Parsed(def, end) =>
          Parsed(StoredColumn(name, if data[p] == 1 then IntType else StrType,
                              data[p + 1] % 2 == 1, data[p + 1] / 2 % 2 == 1, def), end)
  }

  function ColumnReader(data: seq<byte>): nat -> Parsed<StoredColumn> {
    (pos: nat) => ReadColumn(data, pos)
  }

  function ReadRow(data: seq<byte>, pos: nat, columnCount: nat): Parsed<StoredRow> {
    match ReadUnsigned(data, pos, 8)
    case Truncated => Truncated
    case Parsed(id, next) =>
      match ReadMany(CellReader(data), next, columnCount)
      case Truncated => Truncated
      case Parsed(cells, end) => Parsed(StoredRow(id % TWO_64, cells), end)
  }

  function RowReader(data: seq<byte>, columnCount: nat): nat -> Parsed<StoredRow> {
    (pos: nat) => ReadRow(data, pos, columnCount)
  }

  function ReadHead(data: seq<byte>): Parsed<Text> {
    if ReadUnsigned(data, 0, 4) != Parsed(MAGIC, 4) || ReadUnsigned(data, 4, 4) != Parsed(VERSION, 8) then Truncated
    else ReadName(data, 8)
  }

  function ReadColumns(data: seq<byte>, pos: nat): Parsed<seq<StoredColumn>> {
    match ReadUnsigned(data, pos, 4)
    case Truncated => Truncated
    case Parsed(count, next) => ReadMany(ColumnReader(data), next, count)
  }

  function ReadRows(data: seq<byte>, pos: nat, columnCount: nat): Parsed<seq<StoredRow>> {
    match ReadUnsigned(data, pos, 8)
    case Truncated => Truncated
    case Parsed(count, next) => ReadMany(RowReader(data, columnCount), next, count)
  }

  // ----- what is written is read -----

  /** Lengths, ids and counts fit their fields, and every row has a cell for each column. */
  ghost predicate ColumnFits(c: StoredColumn) {
    |c.name| < TWO_16 && (c.def.Some? ==> CellFits(c.def.value))
  }

  ghost predicate CellFits(c: Cell) {
    c.StrCell? ==> c.id < TWO_32
  }

  ghost predicate RowFits(r: StoredRow, columnCount: nat) {
    r.id < TWO_64 && |r.cells| == columnCount && forall i :: 0 <= i < |r.cells| ==> CellFits(r.cells[i])
  }

  ghost predicate Fits(t: FileTable) {
    && |t.name| < TWO_16 && |t.columns| < TWO_32 && |t.rows| < TWO_64
    && (forall i :: 0 <= i < |t.columns| ==> ColumnFits(t.columns[i]))
    && forall i :: 0 <= i < |t.rows| ==> RowFits(t.rows[i], |t.columns|)
  }

  lemma NameBack(data: seq<byte>, pos: nat, name: Text)
    requires At(data, pos, NameBytes(name)) && |name| < TWO_16
    ensures ReadName(data, pos) == Parsed(name, pos + |NameBytes(name)|)
  {
    PowersOf256();
    assert name[..|name| % TWO_16] == name;
    AtJoin(data, pos, Bytes(|name|, 2), name);
    UnsignedBack(data, pos, |name|, 2);
  }

  lemma ByteBack(data: seq<byte>, pos: nat, b: byte)
    requires At(data, pos, [b])
    ensures pos < |data| && data[pos] == b && ReadUnsigned(data, pos, 1) == Parsed(b as nat, pos + 1)
  {
    var one := data[pos..pos + 1];
    assert one == [b] && data[pos] == one[0] && one[1..] == [];
    assert Number(one) == one[0] as int + 256 * Number(one[1..]);
  }

  lemma CellBack(data: seq<byte>, pos: nat, c: Cell)
    requires At(data, pos, CellBytes(c)) && CellFits(c)
    ensures ReadCell(data, pos) == Parsed(c, pos + |CellBytes(c)|)
  {
    PowersOf256();
    hide At, Power256, Bytes, Number, ReadUnsigned, ToBits, FromBits, AsInt64;
    match c {
      case NullCell =>
        ByteBack(data, pos, 0);
      case IntCell(i) =>
        AtJoin(data, pos, [1], Bytes(ToBits(i), 8));
        ByteBack(data, pos, 1);
        AsInt64Back(i);
        UnsignedBack(data, pos + 1, ToBits(i), 8);
      case StrCell(id) =>
        AtJoin(data, pos, [2], Bytes(id, 4));
        ByteBack(data, pos, 2);
        UnsignedBack(data, pos + 1, id, 4);
    }
  }

  lemma DefaultBack(data: seq<byte>, pos: nat, def: Option<Cell>)
    requires At(data, pos, DefaultBytes(def)) && (def.Some? ==> CellFits(def.value))
    ensures ReadDefault(data, pos) == Parsed(def, pos + |DefaultBytes(def)|)
  {
    hide At, ReadUnsigned, CellBytes, ReadCell, CellFits;
    if def.None? {
      ByteBack(data, pos, 0);
    } else {
      AtJoin(data, pos, [1], CellBytes(def.value));
      ByteBack(data, pos, 1);
      CellBack(data, pos + 1, def.value);
    }
  }

  lemma ColumnBack(data: seq<byte>, pos: nat, c: StoredColumn)
    requires At(data, pos, ColumnBytes(c)) && ColumnFits(c)
    ensures ReadColumn(data, pos) == Parsed(c, pos + |ColumnBytes(c)|)
  {
    hide At, ReadUnsigned, CellFits, NameBytes, ReadName, DefaultBytes, ReadDefault;
    var kind: byte := if c.kind.IntType? then 1 else 2;
    var front := NameBytes(c.name) + [kind, Flags(c)];
    AtJoin(data, pos, front, DefaultBytes(c.def));
    AtJoin(data, pos, NameBytes(c.name), [kind, Flags(c)]);
    assert [kind, Flags(c)] == [kind] + [Flags(c)];
    var p := pos + |NameBytes(c.name)|;
    AtJoin(data, p, [kind], [Flags(c)]);
    NameBack(data, pos, c.name);
    ByteBack(data, p, kind);
    ByteBack(data, p + 1, Flags(c));
    DefaultBack(data, p + 2, c.def);
  }

  lemma CellsBack(data: seq<byte>, pos: nat, cells: seq<Cell>)
    requires At(data, pos, ManyBytes(CellBytes, cells)) && forall i :: 0 <= i < |cells| ==> CellFits(cells[i])
    ensures ReadMany(CellReader(data), pos, |cells|) == Parsed(cells, pos + |ManyBytes(CellBytes, cells)|)
  {
    hide At, CellBytes, ReadCell, CellFits, ManyBytes;
    forall i | 0 <= i < |cells| ensures ReadsBack(data, CellReader(data), CellBytes, cells[i]) {
      forall p: nat | At(data, p, CellBytes(cells[i]))
        ensures CellReader(data)(p) == Parsed(cells[i], p + |CellBytes(cells[i])|)
      {
        CellBack(data, p, cells[i]);
      }
    }
    ManyBack(data, pos, CellReader(data), CellBytes, cells);
  }

  lemma RowBack(data: seq<byte>, pos: nat, r: StoredRow, columnCount: nat)
    requires At(data, pos, RowBytes(r)) && RowFits(r, columnCount)
    ensures ReadRow(data, pos, columnCount) == Parsed(r, pos + |RowBytes(r)|)
  {
    hide At, ReadUnsigned, CellBytes, ReadCell, CellReader, Power256, CellFits, Bytes, ManyBytes, ReadMany;
    PowersOf256();
    AtJoin(data, pos, Bytes(r.id, 8), ManyBytes(CellBytes, r.cells));
    UnsignedBack(data, pos, r.id, 8);
    CellsBack(data, pos + 8, r.cells);
  }

  lemma ColumnsBack(data: seq<byte>, pos: nat, columns: seq<StoredColumn>)
    requires At(data, pos, ColumnsBytes(columns)) && |columns| < TWO_32 && forall i :: 0 <= i < |columns| ==>
               ColumnFits(columns[i])
    ensures ReadColumns(data, pos) == Parsed(columns, pos + |ColumnsBytes(columns)|)
  {
    PowersOf256();
    hide At, ReadUnsigned, ColumnBytes, ReadColumn, Power256, ColumnFits;
    AtJoin(data, pos, Bytes(|columns|, 4), ManyBytes(ColumnBytes, columns));
    UnsignedBack(data, pos, |columns|, 4);
    forall i | 0 <= i < |columns| ensures ReadsBack(data, ColumnReader(data), ColumnBytes, columns[i]) {
      forall p: nat | At(data, p, ColumnBytes(columns[i]))
        ensures ColumnReader(data)(p) == Parsed(columns[i], p + |ColumnBytes(columns[i])|)
      {
        ColumnBack(data, p, columns[i]);
      }
    }
    ManyBack(data, pos + 4, ColumnReader(data), ColumnBytes, columns);
  }

  lemma RowsBack(data: seq<byte>, pos: nat, rows: seq<StoredRow>, columnCount: nat)
    requires At(data, pos, RowsBytes(rows)) && |rows| < TWO_64 && forall i :: 0 <= i < |rows| ==>
               RowFits(rows[i], columnCount)
    ensures ReadRows(data, pos, columnCount) == Parsed(rows, pos + |RowsBytes(rows)|)
  {
    PowersOf256();
    hide At, ReadUnsigned, RowBytes, ReadRow, Power256, RowFits;
    AtJoin(data, pos, Bytes(|rows|, 8), ManyBytes(RowBytes, rows));
    UnsignedBack(data, pos, |rows|, 8);
    var read := RowReader(data, columnCount);
    forall i | 0 <= i < |rows| ensures ReadsBack(data, read, RowBytes, rows[i]) {
      forall p: nat | At(data, p, RowBytes(rows[i])) ensures read(p) == Parsed(rows[i], p + |RowBytes(rows[i])|) {
        RowBack(data, p, rows[i], columnCount);
      }
    }
    ManyBack(data, pos + 8, read, RowBytes, rows);
  }

  lemma HeadBack(data: seq<byte>, name: Text)
    requires At(data, 0, HeadBytes(name)) && |name| < TWO_16
    ensures ReadHead(data) == Parsed(name, |HeadBytes(name)|)
  {
    PowersOf256();
    hide At, ReadUnsigned, NameBytes, ReadName, Power256;
    AtJoin(data, 0, Bytes(MAGIC, 4) + Bytes(VERSION, 4), NameBytes(name));
    AtJoin(data, 0, Bytes(MAGIC, 4), Bytes(VERSION, 4));
    UnsignedBack(data, 0, MAGIC, 4);
    UnsignedBack(data, 4, VERSION, 4);
    NameBack(data, 8, name);
  }

  /** The parts of a file, each read where the one before it ends. */
  lemma TableBack(strings: seq<Text>, t: FileTable)
    requires Storable(strings) && Fits(t)
    ensures var data := TableBytes(strings, t);
            var p1 := |HeadBytes(t.name)|;
            var p2 := p1 + |PoolBytes(strings)|;
            var p3 := p2 + |ColumnsBytes(t.columns)|;
            && ReadHead(data) == Parsed(t.name, p1) && ReadPool(data, p1) == Parsed(strings, p2)
            && ReadColumns(data, p2) == Parsed(t.columns, p3)
            && ReadRows(data, p3, |t.columns|) == Parsed(t.rows, |data|)
  {
    hide *;
    var head, pool, columns, rows := HeadBytes(t.name), PoolBytes(strings), ColumnsBytes(t.columns), RowsBytes(t.rows);
    var data := head + pool + columns + rows;
    TableParts(strings, t);
    FileFits(t);
    FourParts(head, pool, columns, rows);
    HeadBack(data, t.name);
    PoolBack(data, |head|, strings);
    ColumnsBack(data, |head| + |pool|, t.columns);
    RowsBack(data, |head| + |pool| + |columns|, t.rows, |t.columns|);
  }

  lemma TableParts(strings: seq<Text>, t: FileTable)
    ensures TableBytes(strings, t)
            == HeadBytes(t.name) + PoolBytes(strings) + ColumnsBytes(t.columns) + RowsBytes(t.rows)
  {
  }

  lemma FileFits(t: FileTable)
    requires Fits(t)
    ensures |t.name| < TWO_16 && |t.columns| < TWO_32 && |t.rows| < TWO_64
    ensures forall i :: 0 <= i < |t.columns| ==> ColumnFits(t.columns[i])
    ensures forall i :: 0 <= i < |t.rows| ==> RowFits(t.rows[i], |t.columns|)
  {
  }

  lemma FourParts(a: seq<byte>, b: seq<byte>, c: seq<byte>, d: seq<byte>)
    ensures var data := a + b + c + d;
            && At(data, 0, a) && At(data, |a|, b) && At(data, |a| + |b|, c) && At(data, |a| + |b| + |c|, d)
            && |data| == |a| + |b| + |c| + |d|
  {
    var data := a + b + c + d;
    assert At(data, 0, data);
    hide At;
    AtJoin(data, 0, a + b + c, d);
    AtJoin(data, 0, a + b, c);
    AtJoin(data, 0, a, b);
  }

  // ----- one file, byte by byte -----

  lemma ManyOne<T>(write: T -> seq<byte>, x: T)
    ensures ManyBytes(write, [x]) == write(x)
  {
    assert [x][1..] == [];
  }

  lemma ManyTwo<T>(write: T -> seq<byte>, x: T, y: T)
    ensures ManyBytes(write, [x, y]) == write(x) + write(y)
  {
    assert [x, y][1..] == [y];
    ManyOne(write, y);
  }

  lemma {:induction false} ZeroBytes(width: nat)
    ensures Bytes(0, width) == Zeros(width)
  {
    if width > 0 {
      ZeroBytes(width - 1);
    }
  }

  lemma SmallBytes(v: byte, width: nat)
    requires width > 0
    ensures Bytes(v, width) == [v] + Zeros(width - 1)
  {
    ZeroBytes(width - 1);
  }

  lemma FirstByte(v: nat, width: nat)
    requires width > 0
    ensures Bytes(v, width) == [v % 256] + Bytes(v / 256, width - 1)
  {
  }

  lemma LargeBytes()
    ensures Bytes(MAGIC, 4) == [0x42, 0x54, 0x44, 0x42]
    ensures Bytes(ToBits(-2), 8) == [0xFE, 0xFF, 0xFF, 0xFF, 0xFF, 0xFF, 0xFF, 0xFF]
  {
    hide Bytes;
    FirstByte(MAGIC, 4);
    FirstByte(0x424454, 3);
    FirstByte(0x4244, 2);
    SmallBytes(0x42, 1);
    FirstByte(0xFFFF_FFFF_FFFF_FFFE, 8);
    FirstByte(0xFF_FFFF_FFFF_FFFF, 7);
    FirstByte(0xFFFF_FFFF_FFFF, 6);
    FirstByte(0xFF_FFFF_FFFF, 5);
    FirstByte(0xFFFF_FFFF, 4);
    FirstByte(0xFF_FFFF, 3);
    FirstByte(0xFFFF, 2);
    SmallBytes(0xFF, 1);
  }

  lemma NameExample(c: byte)
    ensures NameBytes([c]) == [1, 0, c]
  {
    SmallBytes(1, 2);
    assert [c][..1] == [c];
  }

  const KEY_COLUMN: StoredColumn := StoredColumn([105], IntType, true, false, None)

  const TEXT_COLUMN: StoredColumn := StoredColumn([110], StrType, false, true, Some(StrCell(1)))

  lemma KeyColumnExample()
    ensures ColumnBytes(KEY_COLUMN) == [1, 0, 105, 1, 1, 0]
  {
    hide NameBytes;
    NameExample(105);
  }

  lemma TextColumnExample()
    ensures ColumnBytes(TEXT_COLUMN) == [1, 0, 110, 2, 2, 1, 2, 1, 0, 0, 0]
  {
    hide NameBytes, Bytes;
    NameExample(110);
    SmallBytes(1, 4);
  }

  lemma ColumnsExample()
    ensures ColumnsBytes([KEY_COLUMN, TEXT_COLUMN])
            == [2, 0, 0, 0, 1, 0, 105, 1, 1, 0, 1, 0, 110, 2, 2, 1, 2, 1, 0, 0, 0]
  {
    hide Bytes, ManyBytes, ColumnBytes;
    SmallBytes(2, 4);
    ManyTwo(ColumnBytes, KEY_COLUMN, TEXT_COLUMN);
    KeyColumnExample();
    TextColumnExample();
  }

  lemma PoolExample()
    ensures PoolBytes([[97]]) == [1, 0, 0, 0, 1, 0, 0, 0, 97]
  {
    hide Bytes, ManyBytes;
    SmallBytes(1, 4);
    ManyOne(StringBytes, [97]);
  }

  lemma HeadExample()
    ensures HeadBytes([116]) == [0x42, 0x54, 0x44, 0x42, 3, 0, 0, 0, 1, 0, 116]
  {
    hide Bytes, NameBytes;
    LargeBytes();
    SmallBytes(3, 4);
    NameExample(116);
  }

  lemma CellsExample()
    ensures CellBytes(IntCell(-2)) == [1, 0xFE, 0xFF, 0xFF, 0xFF, 0xFF, 0xFF, 0xFF, 0xFF] && CellBytes(NullCell) == [0]
  {
    hide Bytes;
    LargeBytes();
  }

  lemma RowExample()
    ensures RowBytes(StoredRow(7, [IntCell(-2), NullCell]))
            == [7, 0, 0, 0, 0, 0, 0, 0, 1, 0xFE, 0xFF, 0xFF, 0xFF, 0xFF, 0xFF, 0xFF, 0xFF, 0]
  {
    hide Bytes, ManyBytes, CellBytes;
    SmallBytes(7, 8);
    ManyTwo(CellBytes, IntCell(-2), NullCell);
    CellsExample();
  }

  lemma RowsExample()
    ensures RowsBytes([StoredRow(7, [IntCell(-2), NullCell])]) == [1, 0, 0, 0, 0, 0, 0, 0]
            + [7, 0, 0, 0, 0, 0, 0, 0, 1, 0xFE, 0xFF, 0xFF, 0xFF, 0xFF, 0xFF, 0xFF, 0xFF, 0]
  {
    hide Bytes, ManyBytes, RowBytes;
    SmallBytes(1, 8);
    ManyOne(RowBytes, StoredRow(7, [IntCell(-2), NullCell]));
    RowExample();
  }

  /** The file of a table t with a key column i and a text column n, whose default is the string a, and one row. */
  lemma FileExample()
    ensures TableBytes([[97]], FileTable([116], [KEY_COLUMN, TEXT_COLUMN], [StoredRow(7, [IntCell(-2), NullCell])]))
            == [0x42, 0x54, 0x44, 0x42, 3, 0, 0, 0, 1, 0, 116]
               + [1, 0, 0, 0, 1, 0, 0, 0, 97]
               + [2, 0, 0, 0, 1, 0, 105, 1, 1, 0, 1, 0, 110, 2, 2, 1, 2, 1, 0, 0, 0]
               + ([1, 0, 0, 0, 0, 0, 0, 0]
                  + [7, 0, 0, 0, 0, 0, 0, 0, 1, 0xFE, 0xFF, 0xFF, 0xFF, 0xFF, 0xFF, 0xFF, 0xFF, 0])
  {
    hide HeadBytes, PoolBytes, ColumnsBytes, RowsBytes;
    HeadExample();
    PoolExample();
    ColumnsExample();
    RowsExample();
  }
}
