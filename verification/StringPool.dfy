/** Strings kept once and known by their ids, and values that refer to them. */
module StringPools {
  import opened IndexTypes
  import opened ByteCodec
  import opened KeyOrder
  import opened Values

  /** The strings by id, with id 0 reserved, and the ids by string say the same. */
  ghost predicate Consistent(byId: seq<Text>, byValue: map<Text, nat>) {
    && |byId| >= 1 && byId[0] == []
    && (forall s :: s in byValue ==> 0 < byValue[s] < |byId| && byId[byValue[s]] == s)
    && (forall i :: 0 < i < |byId| ==> byId[i] in byValue && byValue[byId[i]] == i)
  }

  lemma Added(byId: seq<Text>, byValue: map<Text, nat>, s: Text)
    requires Consistent(byId, byValue) && s !in byValue
    ensures Consistent(byId + [s], byValue[s := |byId|])
  {
  }

  // ----- strings in a file -----

  function StringBytes(s: Text): seq<byte> {
    Bytes(|s|, 4) + s
  }

  function ReadBlock(data: seq<byte>, pos: nat, length: nat): Parsed<Text> {
    if pos + length > |data| then Truncated else Parsed(data[pos..pos + length], pos + length)
  }

  function ReadString(data: seq<byte>, pos: nat): Parsed<Text> {
    match ReadUnsigned(data, pos, 4)
    case Truncated => Truncated
    case Parsed(length, next) => ReadBlock(data, next, length)
  }

  function StringReader(data: seq<byte>): nat -> Parsed<Text> {
    (pos: nat) => ReadString(data, pos)
  }

  function PoolBytes(strings: seq<Text>): seq<byte> {
    Bytes(|strings|, 4) + ManyBytes(StringBytes, strings)
  }

  function ReadPool(data: seq<byte>, pos: nat): Parsed<seq<Text>> {
    match ReadUnsigned(data, pos, 4)
    case Truncated => Truncated
    case Parsed(count, next) => ReadMany(StringReader(data), next, count)
  }

  /** Lengths and count fit 32 bits. */
  ghost predicate Storable(strings: seq<Text>) {
    |strings| < TWO_32 && forall i :: 0 <= i < |strings| ==> |strings[i]| < TWO_32
  }

  lemma StringBack(data: seq<byte>, pos: nat, s: Text)
    requires At(data, pos, StringBytes(s)) && |s| < TWO_32
    ensures ReadString(data, pos) == Parsed(s, pos + |StringBytes(s)|)
  {
    PowersOf256();
    AtJoin(data, pos, Bytes(|s|, 4), s);
    UnsignedBack(data, pos, |s|, 4);
  }

  /** The strings of a pool are read back as they were written, in the order of their ids. */
  lemma PoolBack(data: seq<byte>, pos: nat, strings: seq<Text>)
    requires At(data, pos, PoolBytes(strings)) && Storable(strings)
    ensures ReadPool(data, pos) == Parsed(strings, pos + |PoolBytes(strings)|)
  {
    PowersOf256();
    AtJoin(data, pos, Bytes(|strings|, 4), ManyBytes(StringBytes, strings));
    UnsignedBack(data, pos, |strings|, 4);
    forall i | 0 <= i < |strings| ensures ReadsBack(data, StringReader(data), StringBytes, strings[i]) {
      forall p: nat | At(data, p, StringBytes(strings[i]))
        ensures StringReader(data)(p) == Parsed(strings[i], p + |StringBytes(strings[i])|)
      {
        StringBack(data, p, strings[i]);
      }
    }
    hide At, StringBytes, ReadString;
    ManyBack(data, pos + 4, StringReader(data), StringBytes, strings);
  }

  // ----- reading from a stream that may end too early -----

  /** Where the next read starts, and whether a read has failed: then no read yields anything any more. */
  datatype Stream = Stream(pos: nat, failed: bool)

  /** The bytes that a read of n bytes yields: what is left, if that is less. */
  function Got(data: seq<byte>, s: Stream, n: nat): (b: seq<byte>)
    requires s.pos <= |data|
    ensures |b| <= n
  {
    if s.failed then [] else if s.pos + n <= |data| then data[s.pos..s.pos + n] else data[s.pos..]
  }

  function After(data: seq<byte>, s: Stream, n: nat): (s': Stream)
    requires s.pos <= |data|
    ensures s.pos <= s'.pos <= |data|
  {
    if s.failed then s else if s.pos + n <= |data| then Stream(s.pos + n, false) else Stream(|data|, true)
  }

  /** A string of zeros, overwritten by what has been read. */
  function Overwritten(n: nat, b: seq<byte>): (text: Text)
    requires |b| <= n
    ensures |text| == n
  {
    b + Zeros(n - |b|)
  }

  function StringAt(data: seq<byte>, s: Stream): Text
    requires s.pos <= |data|
  {
    var length := Number(Got(data, s, 4));
    Overwritten(length, Got(data, After(data, s, 4), length))
  }

  function BehindString(data: seq<byte>, s: Stream): (s': Stream)
    requires s.pos <= |data|
    ensures s'.pos <= |data|
  {
    After(data, After(data, s, 4), Number(Got(data, s, 4)))
  }

  function StringsAt(data: seq<byte>, s: Stream, count: nat): (strings: seq<Text>)
    requires s.pos <= |data|
    ensures |strings| == count
    decreases count
  {
    if count == 0 then [] else [StringAt(data, s)] + StringsAt(data, BehindString(data, s), count - 1)
  }

  /** All strings that are read from pos on. */
  function PoolAt(data: seq<byte>, pos: nat): seq<Text>
    requires pos <= |data|
  {
    var start := Stream(pos, false);
    StringsAt(data, After(data, start, 4), Number(Got(data, start, 4)))
  }

  lemma {:induction false} StringsRead(data: seq<byte>, pos: nat, count: nat)
    requires pos <= |data| && ReadMany(StringReader(data), pos, count).Parsed?
    ensures StringsAt(data, Stream(pos, false), count) == ReadMany(StringReader(data), pos, count).value
    decreases count
  {
    if count > 0 {
      var s := ReadString(data, pos);
      assert StringReader(data)(pos) == s;
      assert StringAt(data, Stream(pos, false)) == s.value
             && BehindString(data, Stream(pos, false)) == Stream(s.next, false);
      hide StringAt, BehindString, ReadString;
      StringsRead(data, s.next, count - 1);
    }
  }

  /** From a complete stream the strings are read that are there. */
  lemma CompletePool(data: seq<byte>, pos: nat)
    requires pos <= |data| && ReadPool(data, pos).Parsed?
    ensures PoolAt(data, pos) == ReadPool(data, pos).value
  {
    hide StringsAt;
    var counted := ReadUnsigned(data, pos, 4);
    StringsRead(data, counted.next, counted.value);
  }

  // ----- the pool -----

  class StringPool {
    var byId: seq<Text>
    var byValue: map<Text, nat>

    ghost predicate Valid()
      reads this
    {
      Consistent(byId, byValue)
    }

    constructor ()
      ensures Valid() && byId == [[]]
    {
      byId, byValue := [[]], map[];
    }

    /** The id of a string: the one it has, or the next one. */
    method Intern(s: Text) returns (id: nat)
      requires Valid() && |byId| < TWO_32
      modifies this
      ensures Valid() && 0 < id < |byId| && byId[id] == s
      ensures byId == if s in old(byValue) then old(byId) else old(byId) + [s]
    {
      if s in byValue {
        return byValue[s];
      }
      id := |byId|;
      Added(byId, byValue, s);
      byId := byId + [s];
      byValue := byValue[s := id];
    }

    /** The string of an id; in a pool that is in order, it is the one that Intern has given this id. */
    method Get(id: nat) returns (s: Option<Text>)
      ensures s.Some? <==> 0 < id < |byId|
      ensures s.Some? ==> s.value == byId[id]
      ensures s.Some? && Valid() ==> s.value in byValue && byValue[s.value] == id
    {
      if id == 0 || id >= |byId| {
        return None;
      }
      s := Some(byId[id]);
    }

    method Serialize() returns (out: seq<byte>)
      requires Valid()
      ensures out == PoolBytes(byId[1..])
    {
      var count := |byId| - 1;
      out := Bytes(count, 4);
      var i := 1;
      ghost var strings := byId[1..];
      while i <= count
        invariant 1 <= i <= count + 1
        invariant out == Bytes(count, 4) + ManyBytes(StringBytes, strings[..i - 1])
      {
        ManyBytesMore(StringBytes, strings[..i - 1], byId[i]);
        assert strings[..i] == strings[..i - 1] + [byId[i]];
        out := out + Bytes(|byId[i]|, 4);
        out := out + byId[i];
        i := i + 1;
      }
      assert strings[..count] == strings;
    }

    /** Replaces the contents by those in the data, as far as they go. */
    method Deserialize(data: seq<byte>, pos: nat)
      requires pos <= |data|
      modifies this
      ensures byId == [[]] + PoolAt(data, pos)
      ensures Valid() <==> Different(PoolAt(data, pos))
    {
      hide StringAt, BehindString, Got, After;
      byId, byValue := [[]], map[];
      var stream := Stream(pos, false);
      var count := Number(Got(data, stream, 4));
      stream := After(data, stream, 4);
      var i := 0;
      assert byId[1..] == [];
      while i < count
        invariant i <= count && |byId| == i + 1 && byId[0] == [] && stream.pos <= |data|
        invariant PoolAt(data, pos) == byId[1..] + StringsAt(data, stream, count - i)
        invariant Different(byId[1..]) ==> Consistent(byId, byValue)
      {
        assert byId[1..] + StringsAt(data, stream, count - i)
            == byId[1..] + [StringAt(data, stream)] + StringsAt(data, BehindString(data, stream), count - i - 1);
        var text := StringAt(data, stream);
        stream := BehindString(data, stream);
        Enter(text);
        i := i + 1;
      }
      assert byId == [[]] + byId[1..];
      if Consistent(byId, byValue) {
        PoolIsDifferent(byId, byValue);
      }
    }

    /** One string of a file: it gets the next id, even where another one holds it already. */
    method Enter(s: Text)
      requires byId != [] && (Different(byId[1..]) ==> Consistent(byId, byValue))
      modifies this
      ensures byId == old(byId) + [s] && byId[1..] == old(byId)[1..] + [s]
      ensures Different(byId[1..]) ==> Consistent(byId, byValue)
    {
      DifferentMore(byId[1..], s);
      assert (byId + [s])[1..] == byId[1..] + [s];
      if Different(byId[1..] + [s]) {
        NotThere(byId, byValue, s);
        Added(byId, byValue, s);
      }
      var id := |byId|;
      byId := byId + [s];
      if s !in byValue {
        byValue := byValue[s := id];
      }
    }
  }

  /** No string occurs twice. */
  ghost predicate Different(strings: seq<Text>) {
    forall i, j :: 0 <= i < j < |strings| ==> strings[i] != strings[j]
  }

  lemma DifferentMore(strings: seq<Text>, s: Text)
    ensures Different(strings + [s]) ==> Different(strings) && s !in strings
  {
    if Different(strings + [s]) {
      forall i, j | 0 <= i < j < |strings| ensures strings[i] != strings[j] {
        assert (strings + [s])[i] == strings[i] && (strings + [s])[j] == strings[j];
      }
      forall i | 0 <= i < |strings| ensures strings[i] != s {
        assert (strings + [s])[i] == strings[i] && (strings + [s])[|strings|] == s;
      }
    }
  }

  lemma NotThere(byId: seq<Text>, byValue: map<Text, nat>, s: Text)
    requires Consistent(byId, byValue) && s !in byId[1..]
    ensures s !in byValue
  {
    forall i | 0 < i < |byId| ensures byId[i] != s {
      assert byId[1..][i - 1] == byId[i];
    }
  }

  /** The strings of a pool are different. */
  lemma PoolIsDifferent(byId: seq<Text>, byValue: map<Text, nat>)
    requires Consistent(byId, byValue)
    ensures Different(byId[1..])
  {
    forall i, j | 0 <= i < j < |byId[1..]| ensures byId[1..][i] != byId[1..][j] {
      assert byId[1..][i] == byId[i + 1] && byId[1..][j] == byId[j + 1];
    }
  }

  /** The round trip: from the bytes that Serialize makes of a pool, Deserialize restores all of it. */
  lemma PoolRestored(byId: seq<Text>, byValue: map<Text, nat>, data: seq<byte>, pos: nat)
    requires Consistent(byId, byValue) && Storable(byId[1..]) && At(data, pos, PoolBytes(byId[1..]))
    ensures pos <= |data| && [[]] + PoolAt(data, pos) == byId && Different(PoolAt(data, pos))
    ensures forall ids :: Consistent(byId, ids) ==> ids == byValue
  {
    PoolIsDifferent(byId, byValue);
    PoolStrings(byId, byValue);
    PoolBack(data, pos, byId[1..]);
    hide Consistent, Different, Storable, PoolBytes, ReadPool, PoolAt;
    CompletePool(data, pos);
    forall ids | Consistent(byId, ids) ensures ids == byValue {
      OneIndex(byId, byValue, ids);
    }
  }

  lemma PoolStrings(byId: seq<Text>, byValue: map<Text, nat>)
    requires Consistent(byId, byValue)
    ensures |byId| >= 1 && [[]] + byId[1..] == byId
  {
  }

  /** The ids by string are determined by the strings by id. */
  lemma OneIndex(byId: seq<Text>, a: map<Text, nat>, b: map<Text, nat>)
    requires Consistent(byId, a) && Consistent(byId, b)
    ensures a == b
  {
    assert a.Keys == b.Keys;
  }

  // ----- values that refer to the pool -----

  datatype Cell = NullCell | IntCell(i: int64) | StrCell(id: nat)

  ghost predicate Known(strings: seq<Text>, cell: Cell) {
    cell.StrCell? ==> 0 < cell.id < |strings|
  }

  /** What a cell means: a string, not its id. */
  ghost function MeaningOf(strings: seq<Text>, cell: Cell): Value
    requires Known(strings, cell)
  {
    match cell
    case NullCell => Null
    case IntCell(i) => Int(i)
    case StrCell(id) => Str(strings[id])
  }

  /** Value::compare: equal ids are equal strings; otherwise the strings are compared. */
  function CompareCells(strings: seq<Text>, a: Cell, b: Cell): Option<int>
    requires a.StrCell? ==> a.id < |strings|
    requires b.StrCell? ==> b.id < |strings|
  {
    if a.NullCell? || b.NullCell? then None
    else if a.IntCell? != b.IntCell? then None
    else if a.IntCell? then Some(if a.i < b.i then -1 else if a.i > b.i then 1 else 0)
    else if a.id == b.id then Some(0)
    else if LexLess(strings[a.id], strings[b.id]) then Some(-1)
    else if LexLess(strings[b.id], strings[a.id]) then Some(1)
    else Some(0)
  }

  /** Value::operator==: by tag, and by id for strings. */
  predicate SameCell(a: Cell, b: Cell) {
    match (a, b)
    case (NullCell, NullCell) => true
    case (IntCell(i), IntCell(j)) => i == j
    case (StrCell(i), StrCell(j)) => i == j
    case _ => false
  }

  /** In a pool, comparing by id agrees with comparing what the cells mean. */
  lemma ComparedByMeaning(byId: seq<Text>, byValue: map<Text, nat>, a: Cell, b: Cell)
    requires Consistent(byId, byValue) && Known(byId, a) && Known(byId, b)
    ensures CompareCells(byId, a, b) == CompareValues(MeaningOf(byId, a), MeaningOf(byId, b))
    ensures SameCell(a, b) <==> MeaningOf(byId, a) == MeaningOf(byId, b)
  {
    if a.StrCell? && b.StrCell? {
      LexLessIsFraction(byId[a.id], byId[b.id]);
      LexLessIsFraction(byId[b.id], byId[a.id]);
      assert byId[a.id] == byId[b.id] ==> a.id == b.id;
    }
  }
}
