/** SQL values, column definitions and the numbers written in query text. */
module Values {
  import opened IndexTypes
  import opened KeyOrder
  import opened Sequences

  type RowId = Record

  datatype DataType = IntType | StrType

  datatype Value = Null | Int(i: int64) | Str(s: Text)

  datatype ColumnDef = ColumnDef(name: Text, kind: DataType, notNull: bool, indexed: bool, defaultValue: Option<Value>)

  /** A column takes values of its type; NULL goes with every type. */
  predicate Matches(v: Value, kind: DataType) {
    v.Null? || (if kind.IntType? then v.Int? else v.Str?)
  }

  /** -1, 0 or 1; None for NULL operands and for different types. */
  function CompareValues(a: Value, b: Value): Option<int> {
    if a.Null? || b.Null? || a.Int? != b.Int? then None
    else if a.Int? then Some(if a.i < b.i then -1 else if a.i > b.i then 1 else 0)
    else if a.s == b.s then Some(0)
    else Some(if LexLess(a.s, b.s) then -1 else if LexLess(b.s, a.s) then 1 else 0)
  }

  function KeyOf(v: Value): IndexKey
    requires !v.Null?
  {
    if v.Int? then IntKey(v.i) else StrKey(v.s)
  }

  function KindFor(kind: DataType): KeyKind {
    if kind.IntType? then Int64 else String
  }

  lemma KeyOfMatches(v: Value, kind: DataType)
    requires !v.Null?
    ensures Matches(v, kind) <==> KeyMatchesKind(KeyOf(v), KindFor(kind))
  {
  }

  /** Comparing values of one type is comparing their index keys; only equal values compare as equal. */
  lemma CompareIsKeyOrder(a: Value, b: Value)
    ensures CompareValues(a, b).Some? <==> !a.Null? && !b.Null? && (a.Int? == b.Int?)
    ensures CompareValues(a, b).Some? ==>
              var x, y := Rank(KeyOf(a)), Rank(KeyOf(b));
              && (CompareValues(a, b).value < 0 <==> x < y) && (CompareValues(a, b).value > 0 <==> x > y)
              && (CompareValues(a, b).value == 0 <==> a == b)
  {
    if CompareValues(a, b).Some? {
      KeyLessIsRank(KeyOf(a), KeyOf(b));
      KeyLessIsRank(KeyOf(b), KeyOf(a));
    }
  }

  // ----- std::stoll -----

  predicate IsDigit(c: byte) { 48 <= c <= 57 }

  predicate IsSpace(c: byte) { c == 32 || 9 <= c <= 13 }

  function SpacesAt(text: Text, pos: nat): (n: nat)
    requires pos <= |text|
    ensures pos <= n <= |text|
    decreases |text| - pos
  {
    if pos < |text| && IsSpace(text[pos]) then SpacesAt(text, pos + 1) else pos
  }

  /** The number that the digits from pos on spell, after those read so far, and where they end. */
  function DigitsAt(text: Text, pos: nat, sofar: nat): (r: (nat, nat))
    requires pos <= |text|
    ensures pos <= r.1 <= |text|
    decreases |text| - pos
  {
    if pos < |text| && IsDigit(text[pos]) then DigitsAt(text, pos + 1, 10 * sofar + (text[pos] as int - 48))
      else (sofar, pos)
  }

  /** The number at the start of text and how many characters it takes; None for the exceptions
      invalid_argument and out_of_range. */
  function Stoll(text: Text): Option<(int64, nat)> {
    var start := SpacesAt(text, 0);
    var signed := start < |text| && (text[start] == 43 || text[start] == 45);
    var first := if signed then start + 1 else start;
    var (magnitude, end) := DigitsAt(text, first, 0);
    var n := if signed && text[start] == 45 then 0 - magnitude as int else magnitude as int;
    if end == first || !(-0x8000_0000_0000_0000 <= n < 0x8000_0000_0000_0000) then None else Some((n, end))
  }

  // ----- what std::stoll reads -----

  predicate AllDigits(ds: Text) {
    forall i :: 0 <= i < |ds| ==> IsDigit(ds[i])
  }

  /** The number that digits spell. */
  function DecimalValue(ds: Text): nat
    requires AllDigits(ds)
  {
    if ds == [] then 0 else 10 * DecimalValue(ds[..|ds| - 1]) + (ds[|ds| - 1] as int - 48)
  }

  /** A number in decimal digits. */
  function Decimal(n: nat): (ds: Text)
    ensures ds != [] && AllDigits(ds)
  {
    if n < 10 then [48 + n] else Decimal(n / 10) + [48 + n % 10]
  }

  lemma {:induction false} DecimalBack(n: nat)
    ensures DecimalValue(Decimal(n)) == n
  {
    if n >= 10 {
      DecimalBack(n / 10);
      var ds := Decimal(n);
      assert ds[..|ds| - 1] == Decimal(n / 10);
    }
  }

  /** Up to end, the text consists of spaces, at most one sign, and all the digits of n. */
  ghost predicate NumberAt(text: Text, end: nat, n: int) {
    exists start, first :: NumberParts(text, start, first, end, n)
  }

  ghost predicate NumberParts(text: Text, start: nat, first: nat, end: nat, n: int) {
    && start <= first < end <= |text|
    && (forall i :: 0 <= i < start ==> text[i] == 32 || 9 <= text[i] <= 13)
    && (first == start || (first == start + 1 && (text[start] == 43 || text[start] == 45)))
    && AllDigits(text[first..end]) && (end < |text| ==> !(48 <= text[end] <= 57))
    && var magnitude: int := DecimalValue(text[first..end]);
       n == if first > start && text[start] == 45 then -magnitude else magnitude
  }

  lemma {:induction false} SpacesSkipped(text: Text, pos: nat)
    requires pos <= |text|
    ensures var n := SpacesAt(text, pos);
            (forall i :: pos <= i < n ==> IsSpace(text[i])) && (n < |text| ==> !IsSpace(text[n]))
    decreases |text| - pos
  {
    if pos < |text| && IsSpace(text[pos]) {
      SpacesSkipped(text, pos + 1);
    }
  }

  lemma {:induction false} DigitsRead(text: Text, first: nat, pos: nat)
    requires first <= pos <= |text| && AllDigits(text[first..pos])
    ensures var r := DigitsAt(text, pos, DecimalValue(text[first..pos]));
            && AllDigits(text[first..r.1]) && (r.1 < |text| ==> !IsDigit(text[r.1]))
            && r.0 == DecimalValue(text[first..r.1])
    decreases |text| - pos
  {
    if pos < |text| && IsDigit(text[pos]) {
      var ds := text[first..pos + 1];
      assert ds == text[first..pos] + [text[pos]];
      assert ds[..|ds| - 1] == text[first..pos];
      DigitsRead(text, first, pos + 1);
    }
  }

  /** Stoll finds exactly the number that the text starts with, if 64 bits can hold it. */
  lemma StollMeaning(text: Text, n: int, end: nat)
    ensures (exists r :: Stoll(text) == Some(r) && r.0 as int == n && r.1 == end) <==>
              NumberAt(text, end, n) && -0x8000_0000_0000_0000 <= n < 0x8000_0000_0000_0000
  {
    var start := SpacesAt(text, 0);
    var signed := start < |text| && (text[start] == 43 || text[start] == 45);
    var first := if signed then start + 1 else start;
    SpacesSkipped(text, 0);
    assert text[first..first] == [];
    DigitsRead(text, first, first);
    var (magnitude, stop) := DigitsAt(text, first, 0);
    if Stoll(text).Some? && Stoll(text).value.0 as int == n && Stoll(text).value.1 == end {
      assert NumberParts(text, start, first, end, n);
    }
    if NumberAt(text, end, n) {
      var start', first' :| NumberParts(text, start', first', end, n);
      PartsUnique(text, start', first', end, n, start, first, stop);
    }
  }

  lemma DigitsWithin(text: Text, first: nat, end: nat)
    requires first <= end <= |text| && AllDigits(text[first..end])
    ensures forall i :: first <= i < end ==> IsDigit(text[i])
  {
    assert forall i :: first <= i < end ==> text[i] == text[first..end][i - first];
  }

  /** There is one way to divide a text into spaces, sign and digits. */
  lemma PartsUnique(text: Text, start': nat, first': nat, end: nat, n: int, start: nat, first: nat, stop: nat)
    requires NumberParts(text, start', first', end, n)
    requires start <= |text| && (forall i :: 0 <= i < start ==> IsSpace(text[i]))
    requires start < |text| ==> !IsSpace(text[start])
    requires first == if start < |text| && (text[start] == 43 || text[start] == 45) then start + 1 else start
    requires first <= stop <= |text| && AllDigits(text[first..stop]) && (stop < |text| ==> !IsDigit(text[stop]))
    ensures start' == start && first' == first && end == stop
  {
    hide DecimalValue;
    assert IsDigit(text[first']) by {
      assert text[first'..end][0] == text[first'];
    }
    assert start' == start;
    assert first' == first;
    DigitsWithin(text, first, stop);
    DigitsWithin(text, first, end);
  }

  /** The round trip: spaces, a sign and the digits of a number are read as that number. */
  lemma StollBack(spaces: Text, sign: Text, n: int)
    requires n >= 0 && forall i :: 0 <= i < |spaces| ==> spaces[i] == 32 || 9 <= spaces[i] <= 13
    requires sign == [] || sign == [43] || sign == [45]
    ensures var text, v := spaces + sign + Decimal(n), if sign == [45] then -n else n;
            if -0x8000_0000_0000_0000 <= v < 0x8000_0000_0000_0000 then Stoll(text) == Some((v, |text|))
            else Stoll(text) == None
  {
    var text, v := spaces + sign + Decimal(n), if sign == [45] then -n else n;
    WrittenParts(spaces, sign, n);
    hide Stoll, NumberParts;
    assert NumberAt(text, |text|, v);
    StollMeaning(text, v, |text|);
    if Stoll(text).Some? {
      StollMeaning(text, Stoll(text).value.0, Stoll(text).value.1);
      var start, first :| NumberParts(text, start, first, Stoll(text).value.1, Stoll(text).value.0);
      OneNumber(text, |spaces|, |spaces| + |sign|, |text|, v, start, first, Stoll(text).value.1, Stoll(text).value.0);
    }
  }

  lemma WrittenParts(spaces: Text, sign: Text, n: int)
    requires n >= 0 && forall i :: 0 <= i < |spaces| ==> spaces[i] == 32 || 9 <= spaces[i] <= 13
    requires sign == [] || sign == [43] || sign == [45]
    ensures var text := spaces + sign + Decimal(n);
            NumberParts(text, |spaces|, |spaces| + |sign|, |text|, if sign == [45] then -n else n)
  {
    DecimalBack(n);
    hide Decimal, DecimalValue;
    var ds := Decimal(n);
    var text, first := spaces + sign + ds, |spaces| + |sign|;
    var front := spaces + sign;
    ConcatParts(front, ds);
    ConcatParts(spaces, sign);
    assert text == front + ds && text[first..|text|] == ds;
    assert forall i :: 0 <= i < |front| ==> text[i] == front[i];
    if sign != [] {
      assert front[|spaces| + 0] == sign[0];
    }
  }

  lemma OneNumber(text: Text, start: nat, first: nat, end: nat, n: int, start': nat, first': nat, end': nat, n': int)
    requires NumberParts(text, start, first, end, n) && NumberParts(text, start', first', end', n')
    ensures end == end' && n == n'
  {
    hide DecimalValue;
    assert text[first..end][0] == text[first];
    assert text[first'..end'][0] == text[first'];
    PartsUnique(text, start', first', end', n', start, first, end);
  }
}
