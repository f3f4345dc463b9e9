/** Keys, entries and in-memory nodes of the B*+ index. */
module IndexTypes {
  const TWO_64: nat := 0x1_0000_0000_0000_0000

  /** Page ids and records are unsigned 64-bit numbers. */
  type PageId = p: nat | p < 0x1_0000_0000_0000_0000

  type Record = r: nat | r < 0x1_0000_0000_0000_0000

  type int64 = i: int | -0x8000_0000_0000_0000 <= i < 0x8000_0000_0000_0000

  /** The page id that stands for "no page" (UINT64_MAX). */
  const INVALID_PAGE_ID: PageId := 0xFFFF_FFFF_FFFF_FFFF

  /** The most pages whose file offsets all fit 63 bits, the page of metadata in front included. */
  const MAX_PAGES: nat := 0x7_FFFF_FFFF_FFFF

  datatype KeyKind = Int64 | String

  type byte = b: int | 0 <= b < 256

  /** A std::string: any bytes. */
  type Text = seq<byte>

  datatype IndexKey = IntKey(i: int64) | StrKey(s: Text)

  predicate KeyMatchesKind(key: IndexKey, kind: KeyKind) {
    key.IntKey? <==> kind.Int64?
  }

  datatype Option<T> = None | Some(value: T) {
    function GetOr(default_: T): T {
      if None? then default_ else value
    }
  }

  /** A result, or the exception thrown for a key of the other kind. */
  datatype Checked<T> = Ok(value: T) | WrongKeyKind

  /** KeyRejected is the exception for a string that has no place in a page. */
  datatype InsertResult = Inserted | DuplicateKey | WrongKind | KeyRejected

  datatype Entry = Entry(key: IndexKey, rec: Record)

  /** A node as it is held in memory and as its page is decoded. */
  datatype Node = Node(isLeaf: bool, pageId: PageId, nextLeaf: PageId,
                       keys: seq<IndexKey>, children: seq<PageId>, records: seq<Record>)

  function Keys(es: seq<Entry>): (ks: seq<IndexKey>)
    ensures |ks| == |es| && forall i :: 0 <= i < |es| ==> ks[i] == es[i].key
  {
    seq(|es|, i requires 0 <= i < |es| => es[i].key)
  }

  function Records(es: seq<Entry>): (rs: seq<Record>)
    ensures |rs| == |es| && forall i :: 0 <= i < |es| ==> rs[i] == es[i].rec
  {
    seq(|es|, i requires 0 <= i < |es| => es[i].rec)
  }
}

/** The order of keys, and its embedding into the reals. */
module KeyOrder {
  import opened IndexTypes

  /** std::string order: bytewise, a proper prefix is smaller. */
  predicate LexLess(a: Text, b: Text) {
    if b == [] then false
    else if a == [] then true
    else if a[0] != b[0] then a[0] < b[0]
    else LexLess(a[1..], b[1..])
  }

  /** The first byte in which two strings differ decides, and a string comes before those it is the start of. */
  lemma {:induction false} LexMeaning(a: Text, b: Text)
    ensures LexLess(a, b) <==>
              exists n :: 0 <= n <= |a| && n < |b| && a[..n] == b[..n] && (n == |a| || a[n] < b[n])
  {
    if a != [] && b != [] && a[0] == b[0] {
      var a', b' := a[1..], b[1..];
      LexMeaning(a', b');
      if n :| 0 <= n <= |a'| && n < |b'| && a'[..n] == b'[..n] && (n == |a'| || a'[n] < b'[n]) {
        assert a[..n + 1] == [a[0]] + a'[..n] && b[..n + 1] == [b[0]] + b'[..n];
      }
      if n :| 0 <= n <= |a| && n < |b| && a[..n] == b[..n] && (n == |a| || a[n] < b[n]) {
        assert n > 0 && a'[..n - 1] == a[..n][1..] && b'[..n - 1] == b[..n][1..];
      }
    } else if b != [] {
      assert a[..0] == b[..0];
      assert forall n :: 0 < n <= |a| && n < |b| ==> a[..n][0] == a[0] && b[..n][0] == b[0];
    }
  }

  predicate KeyLess(left: IndexKey, right: IndexKey)
    requires left.IntKey? == right.IntKey?
  {
    if left.IntKey? then left.i < right.i else LexLess(left.s, right.s)
  }

  /** A string read as the digits of a base-257 fraction: every byte is a nonzero digit. */
  ghost function Fraction(s: Text): (r: real)
    ensures 0.0 <= r < 1.0
    ensures s != [] ==> r > 0.0
  {
    if s == [] then 0.0 else (1.0 + s[0] as real + Fraction(s[1..])) / 257.0
  }

  /** A number whose order is the order of keys, for keys of one kind. */
  ghost function Rank(key: IndexKey): real {
    if key.IntKey? then key.i as real else Fraction(key.s)
  }

  lemma {:induction false} LexLessIsFraction(a: Text, b: Text)
    ensures LexLess(a, b) <==> Fraction(a) < Fraction(b)
    ensures a == b <==> Fraction(a) == Fraction(b)
  {
    if a != [] && b != [] {
      LexLessIsFraction(a[1..], b[1..]);
      if a[0] == b[0] {
        assert a == [a[0]] + a[1..] && b == [b[0]] + b[1..];
      } else if a[0] < b[0] {
        assert a[0] as real + 1.0 <= b[0] as real;
      } else {
        assert b[0] as real + 1.0 <= a[0] as real;
      }
    }
  }

  /** Comparing keys of one kind is comparing their ranks, and a rank determines its key. */
  lemma KeyLessIsRank(left: IndexKey, right: IndexKey)
    requires left.IntKey? == right.IntKey?
    ensures KeyLess(left, right) <==> Rank(left) < Rank(right)
    ensures left == right <==> Rank(left) == Rank(right)
  {
    if left.StrKey? {
      LexLessIsFraction(left.s, right.s);
    }
  }
}
