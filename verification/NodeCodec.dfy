/** Index nodes as pages of bytes. */
module NodeCodec {
  import opened IndexTypes
  import opened Sequences
  import opened ByteCodec
  import opened IndexLayout

  const INDEX_NODE_MAGIC: nat := 0x31495042
  const INDEX_NODE_VERSION: nat := 1
  const INTERNAL_NODE_TYPE: nat := 0
  const LEAF_NODE_TYPE: nat := 1

  // ----- which nodes have a page -----

  /** A leaf has a record for each key, an internal node one child more than keys. */
  predicate WellShaped(n: Node) {
    if n.isLeaf then n.children == [] && |n.records| == |n.keys| else n.records == [] && |n.children| == |n.keys| + 1
  }

  /** A key has its kind; a string has at most 256 bytes and no NUL. */
  predicate KeyEncodable(key: IndexKey, kind: KeyKind) {
    && KeyMatchesKind(key, kind)
    && match key
       case IntKey(_) => true
       case StrKey(s) => |s| <= INDEX_STRING_KEY_SIZE && 0 !in s
  }

  /** The size that node_fits_page reckons with: ten bytes for a record, of which only eight are written. */
  function ReckonedSize(n: Node, kind: KeyKind): nat {
    INDEX_NODE_HEADER_SIZE + |n.keys| * FixedKeySize(kind)
    + if n.isLeaf then |n.records| * (SIZEOF_PAGE_ID + SIZEOF_SLOT_ID) else |n.children| * SIZEOF_PAGE_ID
  }

  /** All keys can be written. */
  predicate KeysFit(keys: seq<IndexKey>, kind: KeyKind) {
    forall k :: k in keys ==> KeyEncodable(k, kind)
  }

  lemma FitParts(keys: seq<IndexKey>, from: nat, to: nat, kind: KeyKind)
    requires KeysFit(keys, kind) && from <= to <= |keys|
    ensures KeysFit(keys[from..to], kind) && KeysFit(keys[..to], kind) && KeysFit(keys[from..], kind)
    ensures forall i :: 0 <= i < |keys| ==> KeyEncodable(keys[i], kind)
  {
  }

  lemma FitJoin(a: seq<IndexKey>, b: seq<IndexKey>, kind: KeyKind)
    ensures KeysFit(a + b, kind) <==> KeysFit(a, kind) && KeysFit(b, kind)
  {
    assert forall k :: k in a + b <==> k in a || k in b;
  }

  lemma FitOne(key: IndexKey, kind: KeyKind)
    ensures KeysFit([key], kind) <==> KeyEncodable(key, kind)
    ensures KeysFit([], kind)
  {
    assert key in [key];
  }

  /** The node can be written: its shape and its keys are right. */
  predicate Writable(n: Node, kind: KeyKind) {
    WellShaped(n) && KeysFit(n.keys, kind)
  }

  /** A well-shaped node fits its page exactly if it has no more keys than its capacity. */
  lemma FitsByCount(n: Node, kind: KeyKind)
    requires WellShaped(n)
    ensures ReckonedSize(n, kind) <= PAGE_SIZE <==>
              |n.keys| <= if n.isLeaf then MaxLeafKeyCount(kind) else MaxInternalKeyCount(kind)
  {
  }

  // ----- writing -----

  function KeyBytes(key: IndexKey, kind: KeyKind): (b: seq<byte>)
    requires KeyEncodable(key, kind)
    ensures |b| == FixedKeySize(kind)
  {
    match key
    case IntKey(i) => Bytes(ToBits(i), 8)
    case StrKey(s) => s + Zeros(INDEX_STRING_KEY_SIZE - |s|)
  }

  function KeysBytes(keys: seq<IndexKey>, kind: KeyKind): seq<byte>
    requires KeysFit(keys, kind)
  {
    if keys == [] then [] else KeyBytes(keys[0], kind) + KeysBytes(keys[1..], kind)
  }

  lemma {:induction false} KeysLength(keys: seq<IndexKey>, kind: KeyKind)
    requires KeysFit(keys, kind)
    ensures |KeysBytes(keys, kind)| == |keys| * FixedKeySize(kind)
  {
    if keys != [] {
      KeysLength(keys[1..], kind);
      OneMoreKey(|keys|, kind);
    }
  }

  lemma OneMoreKey(n: nat, kind: KeyKind)
    requires n > 0
    ensures n * FixedKeySize(kind) == FixedKeySize(kind) + (n - 1) * FixedKeySize(kind)
  {
  }

  function NumbersBytes(xs: seq<PageId>): (b: seq<byte>)
    ensures |b| == 8 * |xs|
  {
    if xs == [] then [] else Bytes(xs[0], 8) + NumbersBytes(xs[1..])
  }

  function Payload(n: Node): seq<PageId> {
    if n.isLeaf then n.records else n.children
  }

  function HeaderBytes(n: Node): (b: seq<byte>)
    ensures |b| == INDEX_NODE_HEADER_SIZE
  {
    Bytes(INDEX_NODE_MAGIC, 4) + Bytes(INDEX_NODE_VERSION, 2)
      + Bytes(if n.isLeaf then LEAF_NODE_TYPE else INTERNAL_NODE_TYPE, 1)
    + Bytes(0, 1) + Bytes(n.pageId, 8) + Bytes(n.nextLeaf, 8) + Bytes(|n.keys|, 4) + Bytes(|Payload(n)|, 4)
  }

  function NodeBytes(n: Node, kind: KeyKind): seq<byte>
    requires Writable(n, kind)
  {
    HeaderBytes(n) + KeysBytes(n.keys, kind) + NumbersBytes(Payload(n))
  }

  /** The page of a node: its bytes, then zeros. */
  function PageBytes(n: Node, kind: KeyKind): (b: seq<byte>)
    requires Writable(n, kind) && ReckonedSize(n, kind) <= PAGE_SIZE
    ensures |b| == PAGE_SIZE
  {
    NodeLength(n, kind);
    NodeBytes(n, kind) + Zeros(PAGE_SIZE - |NodeBytes(n, kind)|)
  }

  /** What is written is no longer than what was reckoned with. */
  lemma NodeLength(n: Node, kind: KeyKind)
    requires Writable(n, kind)
    ensures |NodeBytes(n, kind)| == INDEX_NODE_HEADER_SIZE + |n.keys| * FixedKeySize(kind)
            + 8 * |Payload(n)| <= ReckonedSize(n, kind)
  {
    KeysLength(n.keys, kind);
  }

  // ----- reading -----

  datatype Decoded = Good(node: Node) | Corrupt

  function UpToZero(b: seq<byte>): seq<byte> {
    if b == [] || b[0] == 0 then [] else [b[0]] + UpToZero(b[1..])
  }

  function ReadKey(data: seq<byte>, offset: nat, kind: KeyKind): Option<IndexKey> {
    if offset + FixedKeySize(kind) > |data| then None
    else if kind.Int64? then Some(IntKey(AsInt64(Number(data[offset..offset + 8]))))
    else Some(StrKey(UpToZero(data[offset..offset + INDEX_STRING_KEY_SIZE])))
  }

  function ReadKeys(data: seq<byte>, offset: nat, count: nat, kind: KeyKind): Option<seq<IndexKey>>
    decreases count
  {
    if count == 0 then Some([])
    else
      var key, rest := ReadKey(data, offset, kind), ReadKeys(data, offset + FixedKeySize(kind), count - 1, kind);
      if key.None? || rest.None? then None else Some([key.value] + rest.value)
  }

  function ReadNumber(data: seq<byte>, offset: nat): Option<PageId> {
    if offset + 8 > |data| then None else Some(Unsigned64(data[offset..offset + 8]))
  }

  function ReadNumbers(data: seq<byte>, offset: nat, count: nat): Option<seq<PageId>>
    decreases count
  {
    if count == 0 then Some([])
    else
      var x, rest := ReadNumber(data, offset), ReadNumbers(data, offset + 8, count - 1);
      if x.None? || rest.None? then None else Some([x.value] + rest.value)
  }

  function DecodeNode(data: seq<byte>, kind: KeyKind): Decoded {
    if |data| != PAGE_SIZE then Corrupt
    else if Number(data[0..4]) != INDEX_NODE_MAGIC || Number(data[4..6]) != INDEX_NODE_VERSION then Corrupt
    else
      var nodeType := Number(data[6..7]);
      var pageId, nextLeaf := Unsigned64(data[8..16]), Unsigned64(data[16..24]);
      var keyCount, payloadCount := Number(data[24..28]), Number(data[28..32]);
      if nodeType != INTERNAL_NODE_TYPE && nodeType != LEAF_NODE_TYPE then Corrupt
      else if keyCount > |data| || payloadCount > |data| then Corrupt
      else
        var isLeaf := nodeType == LEAF_NODE_TYPE;
        var keys := ReadKeys(data, INDEX_NODE_HEADER_SIZE, keyCount, kind);
        if keys.None? || payloadCount != (if isLeaf then keyCount else keyCount + 1) then Corrupt
        else
          var payload := ReadNumbers(data, INDEX_NODE_HEADER_SIZE + keyCount * FixedKeySize(kind), payloadCount);
          if payload.None? then Corrupt
          else if isLeaf then Good(Node(true, pageId, nextLeaf, keys.value, [], payload.value))
          else Good(Node(false, pageId, nextLeaf, keys.value, payload.value, []))
  }

  // ----- what is written is read -----

  lemma {:induction false} UpToZeroBack(s: seq<byte>, n: nat)
    requires 0 !in s
    ensures UpToZero(s + Zeros(n)) == s
  {
    if s == [] {
      assert s + Zeros(n) == Zeros(n);
    } else {
      assert (s + Zeros(n))[1..] == s[1..] + Zeros(n);
      UpToZeroBack(s[1..], n);
    }
  }

  lemma KeyBack(data: seq<byte>, offset: nat, key: IndexKey, kind: KeyKind)
    requires KeyEncodable(key, kind) && At(data, offset, KeyBytes(key, kind))
    ensures ReadKey(data, offset, kind) == Some(key)
  {
    match key {
      case IntKey(i) =>
        PowersOf256();
        AsInt64Back(i);
        NumberOfBytes(ToBits(i), 8);
      case StrKey(s) =>
        UpToZeroBack(s, INDEX_STRING_KEY_SIZE - |s|);
    }
  }

  lemma {:induction false} KeysBack(data: seq<byte>, offset: nat, keys: seq<IndexKey>, kind: KeyKind)
    requires KeysFit(keys, kind) && At(data, offset, KeysBytes(keys, kind))
    ensures ReadKeys(data, offset, |keys|, kind) == Some(keys)
    decreases |keys|
  {
    hide At, ReadKey, KeyEncodable, KeyBytes, FixedKeySize;
    if keys != [] {
      AtJoin(data, offset, KeyBytes(keys[0], kind), KeysBytes(keys[1..], kind));
      KeyBack(data, offset, keys[0], kind);
      KeysBack(data, offset + FixedKeySize(kind), keys[1..], kind);
      assert keys == [keys[0]] + keys[1..];
    }
  }

  lemma {:induction false} NumbersBack(data: seq<byte>, offset: nat, xs: seq<PageId>)
    requires At(data, offset, NumbersBytes(xs))
    ensures ReadNumbers(data, offset, |xs|) == Some(xs)
    decreases |xs|
  {
    if xs != [] {
      PowersOf256();
      AtJoin(data, offset, Bytes(xs[0], 8), NumbersBytes(xs[1..]));
      FieldBack(data, offset, xs[0], 8);
      hide At, Power256, Number, Bytes;
      NumbersBack(data, offset + 8, xs[1..]);
      assert xs == [xs[0]] + xs[1..];
    }
  }

  lemma HeaderParts(data: seq<byte>, n: Node)
    requires At(data, 0, HeaderBytes(n))
    ensures At(data, 0, Bytes(INDEX_NODE_MAGIC, 4)) && At(data, 4, Bytes(INDEX_NODE_VERSION, 2))
    ensures At(data, 6, Bytes(if n.isLeaf then LEAF_NODE_TYPE else INTERNAL_NODE_TYPE, 1)) && At(data, 7, Bytes(0, 1))
    ensures At(data, 8, Bytes(n.pageId, 8)) && At(data, 16, Bytes(n.nextLeaf, 8))
    ensures At(data, 24, Bytes(|n.keys|, 4)) && At(data, 28, Bytes(|Payload(n)|, 4))
  {
    var nodeType := if n.isLeaf then LEAF_NODE_TYPE else INTERNAL_NODE_TYPE;
    hide At, Bytes, Payload;
    var a := Bytes(INDEX_NODE_MAGIC, 4);
    var b := a + Bytes(INDEX_NODE_VERSION, 2);
    var c := b + Bytes(nodeType, 1);
    var d := c + Bytes(0, 1);
    var e := d + Bytes(n.pageId, 8);
    var f := e + Bytes(n.nextLeaf, 8);
    var g := f + Bytes(|n.keys|, 4);
    AtJoin(data, 0, g, Bytes(|Payload(n)|, 4));
    AtJoin(data, 0, f, Bytes(|n.keys|, 4));
    AtJoin(data, 0, e, Bytes(n.nextLeaf, 8));
    AtJoin(data, 0, d, Bytes(n.pageId, 8));
    AtJoin(data, 0, c, Bytes(0, 1));
    AtJoin(data, 0, b, Bytes(nodeType, 1));
    AtJoin(data, 0, a, Bytes(INDEX_NODE_VERSION, 2));
  }

  lemma HeaderBack(data: seq<byte>, n: Node)
    requires At(data, 0, HeaderBytes(n)) && |n.keys| < TWO_32 && |Payload(n)| < TWO_32
    ensures |data| >= 32
    ensures Number(data[0..4]) == INDEX_NODE_MAGIC && Number(data[4..6]) == INDEX_NODE_VERSION
    ensures Number(data[6..7]) == if n.isLeaf then LEAF_NODE_TYPE else INTERNAL_NODE_TYPE
    ensures Unsigned64(data[8..16]) == n.pageId && Unsigned64(data[16..24]) == n.nextLeaf
    ensures Number(data[24..28]) == |n.keys| && Number(data[28..32]) == |Payload(n)|
  {
    var nodeType := if n.isLeaf then LEAF_NODE_TYPE else INTERNAL_NODE_TYPE;
    PowersOf256();
    hide At, Bytes, Number, Power256, Payload, HeaderBytes;
    HeaderParts(data, n);
    FieldBack(data, 28, |Payload(n)|, 4);
    FieldBack(data, 24, |n.keys|, 4);
    FieldBack(data, 16, n.nextLeaf, 8);
    FieldBack(data, 8, n.pageId, 8);
    FieldBack(data, 6, nodeType, 1);
    FieldBack(data, 4, INDEX_NODE_VERSION, 2);
    FieldBack(data, 0, INDEX_NODE_MAGIC, 4);
  }

  lemma PageParts(n: Node, kind: KeyKind)
    requires Writable(n, kind) && ReckonedSize(n, kind) <= PAGE_SIZE
    ensures var data, k := PageBytes(n, kind), INDEX_NODE_HEADER_SIZE + |n.keys| * FixedKeySize(kind);
            && At(data, 0, HeaderBytes(n)) && At(data, INDEX_NODE_HEADER_SIZE, KeysBytes(n.keys, kind))
            && At(data, k, NumbersBytes(Payload(n)))
  {
    var header, keys, payload := HeaderBytes(n), KeysBytes(n.keys, kind), NumbersBytes(Payload(n));
    NodeLength(n, kind);
    KeysLength(n.keys, kind);
    var zeros := Zeros(PAGE_SIZE - |NodeBytes(n, kind)|);
    var data := PageBytes(n, kind);
    assert data == header + keys + payload + zeros;
    hide HeaderBytes, KeysBytes, NumbersBytes, At, Zeros, NodeBytes, PageBytes, Writable;
    WholeAt(data);
    AtJoin(data, 0, header + keys + payload, zeros);
    AtJoin(data, 0, header + keys, payload);
    AtJoin(data, 0, header, keys);
  }

  lemma WholeAt(data: seq<byte>)
    ensures At(data, 0, data)
  {
  }

  /** The round trip: a node that fits its page is read back as it was. */
  lemma NodeBack(n: Node, kind: KeyKind)
    requires Writable(n, kind) && ReckonedSize(n, kind) <= PAGE_SIZE
    ensures DecodeNode(PageBytes(n, kind), kind) == Good(n)
  {
    hide PageBytes, At, Number, ReadKeys, ReadNumbers, Bytes, HeaderBytes, KeysBytes, NumbersBytes, KeyEncodable,
         ReckonedSize, FixedKeySize;
    var data := PageBytes(n, kind);
    CountsSmall(n, kind);
    PageParts(n, kind);
    HeaderBack(data, n);
    KeysBack(data, INDEX_NODE_HEADER_SIZE, n.keys, kind);
    NumbersBack(data, INDEX_NODE_HEADER_SIZE + |n.keys| * FixedKeySize(kind), Payload(n));
  }

  lemma {:induction false} KeyAt(data: seq<byte>, offset: nat, keys: seq<IndexKey>, kind: KeyKind, i: nat)
    requires KeysFit(keys, kind) && At(data, offset, KeysBytes(keys, kind)) && i < |keys|
    ensures KeyEncodable(keys[i], kind) && At(data, offset + i * FixedKeySize(kind), KeyBytes(keys[i], kind))
    decreases i
  {
    hide At, KeyBytes, KeyEncodable, FixedKeySize;
    AtJoin(data, offset, KeyBytes(keys[0], kind), KeysBytes(keys[1..], kind));
    if i > 0 {
      KeyAt(data, offset + FixedKeySize(kind), keys[1..], kind, i - 1);
      OneMoreKey(i, kind);
    }
  }

  lemma {:induction false} PayloadAt(data: seq<byte>, offset: nat, xs: seq<PageId>, i: nat)
    requires At(data, offset, NumbersBytes(xs)) && i < |xs|
    ensures At(data, offset + 8 * i, Bytes(xs[i], 8))
    decreases i
  {
    AtJoin(data, offset, Bytes(xs[0], 8), NumbersBytes(xs[1..]));
    if i > 0 {
      hide At, Bytes;
      PayloadAt(data, offset + 8, xs[1..], i - 1);
    }
  }

  /** The fields of the header by their offsets. */
  ghost predicate HeaderAt(data: seq<byte>, n: Node) {
    && |data| >= 32 && data[0..4] == Bytes(0x31495042, 4) && data[4..6] == Bytes(1, 2)
    && data[6] == (if n.isLeaf then 1 else 0) && data[7] == 0
    && data[8..16] == Bytes(n.pageId, 8) && data[16..24] == Bytes(n.nextLeaf, 8)
    && data[24..28] == Bytes(|n.keys|, 4) && data[28..32] == Bytes(|n.records| + |n.children|, 4)
  }

  lemma HeaderLayout(data: seq<byte>, n: Node)
    requires WellShaped(n) && At(data, 0, HeaderBytes(n))
    ensures HeaderAt(data, n)
  {
    hide HeaderBytes;
    HeaderParts(data, n);
    assert Bytes(0, 1) == [0] && Bytes(1, 1) == [1];
    hide Bytes;
    assert data[6..7][0] == data[6] && data[7..8][0] == data[7];
  }

  ghost predicate KeyLaidOut(data: seq<byte>, key: IndexKey, i: nat) {
    match key
    case IntKey(v) => At(data, 32 + 8 * i, Bytes(if v < 0 then v + TWO_64 else v, 8))
    case StrKey(s) => |s| <= 256 && At(data, 32 + 256 * i, s + seq(256 - |s|, _ => 0))
  }

  /** Where a page has what: the header, the keys one after the other from byte 32 on, strings with zeros up to
      256 bytes, then the records or children, and zeros up to the end. */
  lemma NodeLayout(n: Node, kind: KeyKind)
    requires Writable(n, kind) && ReckonedSize(n, kind) <= PAGE_SIZE
    ensures var data, size := PageBytes(n, kind), if kind == Int64 then 8 else 256;
            && |data| == 4096 && HeaderAt(data, n)
            && (forall i :: 0 <= i < |n.keys| ==> KeyLaidOut(data, n.keys[i], i))
            && (forall i :: 0 <= i < |n.records| ==> At(data, 32 + size * |n.keys| + 8 * i, Bytes(n.records[i], 8)))
            && (forall i :: 0 <= i < |n.children| ==> At(data, 32 + size * |n.keys| + 8 * i, Bytes(n.children[i], 8)))
            && forall i :: 32 + size * |n.keys| + 8 * (|n.records| + |n.children|) <= i < 4096 ==> data[i] == 0
  {
    hide PageBytes, At, Bytes, HeaderBytes, KeyBytes, KeysBytes, NumbersBytes, ReckonedSize, NodeBytes, HeaderAt,
         KeyLaidOut, KeyEncodable;
    var data, size := PageBytes(n, kind), FixedKeySize(kind);
    PageParts(n, kind);
    HeaderLayout(data, n);
    forall i | 0 <= i < |n.keys| ensures KeyLaidOut(data, n.keys[i], i) {
      KeyAt(data, 32, n.keys, kind, i);
      KeyLayout(data, n.keys[i], kind, i);
    }
    forall i | 0 <= i < |Payload(n)| ensures At(data, 32 + size * |n.keys| + 8 * i, Bytes(Payload(n)[i], 8)) {
      PayloadAt(data, 32 + size * |n.keys|, Payload(n), i);
    }
    PageTail(n, kind);
  }

  lemma KeyLayout(data: seq<byte>, key: IndexKey, kind: KeyKind, i: nat)
    requires KeyEncodable(key, kind) && At(data, 32 + i * FixedKeySize(kind), KeyBytes(key, kind))
    ensures KeyLaidOut(data, key, i)
  {
    hide Bytes, At;
    if key.StrKey? {
      assert Zeros(256 - |key.s|) == seq(256 - |key.s|, _ => 0);
    }
  }

  lemma PageTail(n: Node, kind: KeyKind)
    requires Writable(n, kind) && ReckonedSize(n, kind) <= PAGE_SIZE
    ensures var data := PageBytes(n, kind);
            forall i :: 32 + FixedKeySize(kind) * |n.keys| + 8 * |Payload(n)| <= i < |data| ==> data[i] == 0
  {
    hide NodeBytes, ReckonedSize, FixedKeySize;
    NodeLength(n, kind);
  }

  lemma CountsSmall(n: Node, kind: KeyKind)
    requires Writable(n, kind) && ReckonedSize(n, kind) <= PAGE_SIZE
    ensures |n.keys| <= PAGE_SIZE && |Payload(n)| <= PAGE_SIZE
    ensures |Payload(n)| == if n.isLeaf then |n.keys| else |n.keys| + 1
  {
    FitsByCount(n, kind);
  }

  // ----- which pages are read -----

  /** The number in the four bytes from offset on. */
  function Four(data: seq<byte>, offset: nat): nat
    requires offset + 4 <= |data|
  {
    data[offset] as nat + 0x100 * data[offset + 1] as nat + 0x1_0000 * data[offset + 2] as nat
    + 0x100_0000 * data[offset + 3] as nat
  }

  lemma LeastFirst(data: seq<byte>, i: nat, j: nat)
    requires i < j <= |data|
    ensures Number(data[i..j]) == data[i] as nat + 256 * Number(data[i + 1..j])
    ensures Number(data[j..j]) == 0
  {
    assert data[i..j][1..] == data[i + 1..j];
  }

  lemma FourBytes(data: seq<byte>, offset: nat)
    requires offset + 4 <= |data|
    ensures Number(data[offset..offset + 4]) == Four(data, offset)
  {
    hide Number;
    var end := offset + 4;
    LeastFirst(data, offset, end);
    LeastFirst(data, offset + 1, end);
    LeastFirst(data, offset + 2, end);
    LeastFirst(data, offset + 3, end);
  }

  lemma TwoBytes(data: seq<byte>, offset: nat)
    requires offset + 2 <= |data|
    ensures Number(data[offset..offset + 2]) == data[offset] as nat + 0x100 * data[offset + 1] as nat
    ensures Number(data[offset..offset + 1]) == data[offset]
  {
    hide Number;
    LeastFirst(data, offset, offset + 2);
    LeastFirst(data, offset + 1, offset + 2);
    LeastFirst(data, offset, offset + 1);
  }

  lemma {:induction false} KeysEnd(data: seq<byte>, offset: nat, count: nat, kind: KeyKind)
    requires offset <= |data|
    ensures ReadKeys(data, offset, count, kind).Some? <==> offset + count * FixedKeySize(kind) <= |data|
    decreases count
  {
    hide FixedKeySize, Number;
    if count > 0 {
      OneMoreKey(count, kind);
      KeySizes(kind);
      if offset + FixedKeySize(kind) <= |data| {
        KeysEnd(data, offset + FixedKeySize(kind), count - 1, kind);
      } else {
        Multiples(count - 1, kind);
      }
    }
  }

  lemma KeySizes(kind: KeyKind)
    ensures FixedKeySize(kind) == if kind == Int64 then 8 else 256
  {
  }

  lemma Multiples(n: nat, kind: KeyKind)
    ensures n * FixedKeySize(kind) >= 0
  {
  }

  lemma {:induction false} NumbersEnd(data: seq<byte>, offset: nat, count: nat)
    requires offset <= |data|
    ensures ReadNumbers(data, offset, count).Some? <==> offset + 8 * count <= |data|
    decreases count
  {
    hide Number;
    if count > 0 && offset + 8 <= |data| {
      NumbersEnd(data, offset + 8, count - 1);
    }
  }

  lemma HeaderBytesRead(data: seq<byte>)
    requires |data| >= 32
    ensures Number(data[0..4]) == INDEX_NODE_MAGIC <==> data[0..4] == [0x42, 0x50, 0x49, 0x31]
    ensures Number(data[4..6]) == INDEX_NODE_VERSION <==> data[4..6] == [1, 0]
    ensures Number(data[6..7]) == data[6]
    ensures Number(data[24..28]) == Four(data, 24) && Number(data[28..32]) == Four(data, 28)
  {
    hide Number;
    FourBytes(data, 0);
    TwoBytes(data, 4);
    TwoBytes(data, 6);
    FourBytes(data, 24);
    FourBytes(data, 28);
    assert data[0..4] == [data[0], data[1], data[2], data[3]] && data[4..6] == [data[4], data[5]];
  }

  lemma KeysSize(n: nat, kind: KeyKind)
    ensures n * FixedKeySize(kind) == n * (if kind == Int64 then 8 else 256) >= n
  {
  }

  /** Exactly which pages are read: those with the right header whose keys and payload, in the numbers that the
      header gives, lie within the page. */
  lemma DecodedExactly(data: seq<byte>, kind: KeyKind)
    ensures DecodeNode(data, kind).Good? <==>
              && |data| == 4096 && data[0..4] == [0x42, 0x50, 0x49, 0x31] && data[4..6] == [1, 0] && data[6] <= 1
              && Four(data, 28) == (if data[6] == 1 then Four(data, 24) else Four(data, 24) + 1)
              && 32 + Four(data, 24) * (if kind == Int64 then 8 else 256) + 8 * Four(data, 28) <= 4096
  {
    hide Number, FixedKeySize, ReadKeys, ReadNumbers, Unsigned64, Four;
    if |data| == 4096 {
      HeaderBytesRead(data);
      var keys, payload := Four(data, 24), Four(data, 28);
      KeysSize(keys, kind);
      var end := 32 + keys * FixedKeySize(kind);
      KeysEnd(data, 32, keys, kind);
      if end <= 4096 {
        NumbersEnd(data, end, payload);
      }
    }
  }

  // ----- the code -----

  /** memcpy into the page. */
  method Put(page: array<byte>, offset: nat, bytes: seq<byte>) returns (next: nat)
    requires offset + |bytes| <= page.Length
    modifies page
    ensures next == offset + |bytes|
    ensures page[..] == old(page[..offset]) + bytes + old(page[next..])
  {
    var i := 0;
    while i < |bytes|
      invariant i <= |bytes|
      invariant forall k :: 0 <= k < i ==> page[offset + k] == bytes[k]
      invariant forall k :: 0 <= k < offset || offset + i <= k < page.Length ==> page[k] == old(page[k])
    {
      page[offset + i] := bytes[i];
      i := i + 1;
    }
    next := offset + |bytes|;
  }

  /** A page into which text has been written so far. */
  ghost predicate Filled(page: array<byte>, text: seq<byte>)
    reads page
  {
    page.Length == PAGE_SIZE && |text| <= PAGE_SIZE && page[..] == text + Zeros(PAGE_SIZE - |text|)
  }

  method PutNext(page: array<byte>, offset: nat, bytes: seq<byte>, ghost text: seq<byte>) returns (next: nat)
    requires Filled(page, text) && offset == |text| && offset + |bytes| <= PAGE_SIZE
    modifies page
    ensures Filled(page, text + bytes) && next == |text + bytes|
  {
    ghost var before := page[..];
    next := Put(page, offset, bytes);
    assert before[..offset] == text;
    assert before[next..] == Zeros(PAGE_SIZE - next);
    assert page[..] == text + bytes + Zeros(PAGE_SIZE - next);
  }

  /** serialize_node; None for the exceptions that a malformed or oversized node raises. */
  method SerializeNode(n: Node, kind: KeyKind) returns (r: Option<seq<byte>>)
    ensures r.Some? <==> Writable(n, kind) && ReckonedSize(n, kind) <= PAGE_SIZE
    ensures r.Some? ==> r.value == PageBytes(n, kind)
  {
    hide HeaderBytes, KeyBytes, KeysBytes, NumbersBytes, Bytes, KeyEncodable, Filled, PageBytes, NodeBytes;
    if !WellShaped(n) {
      return None;
    }
    var i := 0;
    while i < |n.keys|
      invariant i <= |n.keys| && KeysFit(n.keys[..i], kind)
    {
      if !KeyEncodable(n.keys[i], kind) {
        return None;
      }
      i := i + 1;
    }
    if ReckonedSize(n, kind) > PAGE_SIZE {
      return None;
    }
    var page := FillPage(n, kind);
    FilledPage(page, n, kind);
    r := Some(page[..]);
  }

  method FillPage(n: Node, kind: KeyKind) returns (page: array<byte>)
    requires Writable(n, kind) && ReckonedSize(n, kind) <= PAGE_SIZE
    ensures fresh(page) && Filled(page, NodeBytes(n, kind))
  {
    hide HeaderBytes, KeyBytes, KeysBytes, NumbersBytes, Bytes, KeyEncodable, Filled, FixedKeySize;
    page := new byte[PAGE_SIZE](_ => 0);
    EmptyPage(page);
    var offset := PutHeader(page, n);
    offset := PutKeys(page, n, kind, offset);
    offset := PutPayload(page, n, kind, offset);
  }

  method PutKeys(page: array<byte>, n: Node, kind: KeyKind, start: nat) returns (offset: nat)
    requires Writable(n, kind) && ReckonedSize(n, kind) <= PAGE_SIZE
    requires Filled(page, HeaderBytes(n)) && start == |HeaderBytes(n)|
    modifies page
    ensures var front := HeaderBytes(n) + KeysBytes(n.keys, kind); Filled(page, front) && offset == |front|
  {
    hide HeaderBytes, KeyBytes, KeysBytes, NumbersBytes, Bytes, KeyEncodable, Filled, FixedKeySize;
    ghost var header := HeaderBytes(n);
    offset := start;
    var i := 0;
    KeysNone(n.keys, kind);
    while i < |n.keys|
      invariant i <= |n.keys| && Filled(page, header + KeysBytes(n.keys[..i], kind))
      invariant offset == |header + KeysBytes(n.keys[..i], kind)|
    {
      KeysBytesMore(n.keys, i, kind);
      KeysRoom(n, i, kind);
      ghost var text := header + KeysBytes(n.keys[..i], kind);
      offset := PutNext(page, offset, KeyBytes(n.keys[i], kind), text);
      i := i + 1;
      ConcatAssociative(header, KeysBytes(n.keys[..i - 1], kind), KeyBytes(n.keys[i - 1], kind));
    }
    assert n.keys[..i] == n.keys;
  }

  method PutPayload(page: array<byte>, n: Node, kind: KeyKind, start: nat) returns (offset: nat)
    requires Writable(n, kind) && ReckonedSize(n, kind) <= PAGE_SIZE
    requires var front := HeaderBytes(n) + KeysBytes(n.keys, kind); Filled(page, front) && start == |front|
    modifies page
    ensures Filled(page, NodeBytes(n, kind)) && offset == |NodeBytes(n, kind)|
  {
    hide HeaderBytes, KeyBytes, KeysBytes, NumbersBytes, Bytes, KeyEncodable, Filled, FixedKeySize;
    ghost var front := HeaderBytes(n) + KeysBytes(n.keys, kind);
    var payload := Payload(n);
    offset := start;
    var i := 0;
    NumbersNone(payload);
    assert front + [] == front;
    while i < |payload|
      invariant i <= |payload| && Filled(page, front + NumbersBytes(payload[..i]))
      invariant offset == |front + NumbersBytes(payload[..i])|
    {
      NumbersBytesMore(payload, i);
      NodeLength(n, kind);
      KeysLength(n.keys, kind);
      ghost var text := front + NumbersBytes(payload[..i]);
      offset := PutNext(page, offset, Bytes(payload[i], 8), text);
      i := i + 1;
      ConcatAssociative(front, NumbersBytes(payload[..i - 1]), Bytes(payload[i - 1], 8));
    }
    assert payload[..i] == payload;
  }

  method PutHeader(page: array<byte>, n: Node) returns (offset: nat)
    requires Filled(page, [])
    modifies page
    ensures Filled(page, HeaderBytes(n)) && offset == |HeaderBytes(n)|
  {
    hide Filled, Bytes, Payload;
    ghost var text: seq<byte> := [];
    offset := PutNext(page, 0, Bytes(INDEX_NODE_MAGIC, 4), text);
    text := Bytes(INDEX_NODE_MAGIC, 4);
    assert [] + text == text;
    offset := PutNext(page, offset, Bytes(INDEX_NODE_VERSION, 2), text);
    text := text + Bytes(INDEX_NODE_VERSION, 2);
    var nodeType := if n.isLeaf then LEAF_NODE_TYPE else INTERNAL_NODE_TYPE;
    offset := PutNext(page, offset, Bytes(nodeType, 1), text);
    text := text + Bytes(nodeType, 1);
    offset := PutNext(page, offset, Bytes(0, 1), text);
    text := text + Bytes(0, 1);
    offset := PutNext(page, offset, Bytes(n.pageId, 8), text);
    text := text + Bytes(n.pageId, 8);
    offset := PutNext(page, offset, Bytes(n.nextLeaf, 8), text);
    text := text + Bytes(n.nextLeaf, 8);
    offset := PutNext(page, offset, Bytes(|n.keys|, 4), text);
    text := text + Bytes(|n.keys|, 4);
    offset := PutNext(page, offset, Bytes(|Payload(n)|, 4), text);
  }

  lemma EmptyPage(page: array<byte>)
    requires page.Length == PAGE_SIZE && forall i :: 0 <= i < PAGE_SIZE ==> page[i] == 0
    ensures Filled(page, [])
  {
    assert page[..] == Zeros(PAGE_SIZE);
    assert [] + Zeros(PAGE_SIZE) == Zeros(PAGE_SIZE);
  }

  lemma KeysNone(keys: seq<IndexKey>, kind: KeyKind)
    ensures KeysBytes(keys[..0], kind) == []
    ensures forall h: seq<byte> :: h + [] == h
  {
  }

  lemma NumbersNone(xs: seq<PageId>)
    ensures NumbersBytes(xs[..0]) == []
  {
  }

  /** There is room for the next key. */
  lemma KeysRoom(n: Node, i: nat, kind: KeyKind)
    requires Writable(n, kind) && ReckonedSize(n, kind) <= PAGE_SIZE && i < |n.keys|
    ensures INDEX_NODE_HEADER_SIZE + |KeysBytes(n.keys[..i], kind)| + |KeyBytes(n.keys[i], kind)| <= PAGE_SIZE
  {
    KeysLength(n.keys[..i], kind);
    hide KeysBytes;
    OneKeyMore(i, |n.keys|, FixedKeySize(kind));
  }

  lemma OneKeyMore(i: nat, n: nat, size: nat)
    requires i < n
    ensures i * size + size <= n * size
  {
    assert n * size == i * size + size + (n - i - 1) * size;
  }

  lemma FilledPage(page: array<byte>, n: Node, kind: KeyKind)
    requires Writable(n, kind) && ReckonedSize(n, kind) <= PAGE_SIZE && Filled(page, NodeBytes(n, kind))
    ensures page[..] == PageBytes(n, kind)
  {
  }

  lemma {:induction false} KeysBytesMore(keys: seq<IndexKey>, i: nat, kind: KeyKind)
    requires i < |keys| && KeysFit(keys, kind)
    ensures KeysBytes(keys[..i + 1], kind) == KeysBytes(keys[..i], kind) + KeyBytes(keys[i], kind)
    decreases i
  {
    assert KeyEncodable(keys[i], kind) && KeysFit(keys[..i + 1], kind) && KeysFit(keys[..i], kind);
    KeysBytesHead(keys[..i + 1], kind);
    if i == 0 {
      assert keys[..1][1..] == [] && keys[..0] == [];
    } else {
      var rest := keys[1..];
      KeysBytesHead(keys[..i], kind);
      assert keys[..i + 1][1..] == rest[..i] && keys[..i][1..] == rest[..i - 1];
      KeysBytesMore(rest, i - 1, kind);
      hide KeysBytes, KeyBytes, KeyEncodable;
      ConcatAssociative(KeyBytes(keys[0], kind), KeysBytes(rest[..i - 1], kind), KeyBytes(keys[i], kind));
    }
  }

  lemma KeysBytesHead(keys: seq<IndexKey>, kind: KeyKind)
    requires KeysFit(keys, kind) && keys != []
    ensures KeysBytes(keys, kind) == KeyBytes(keys[0], kind) + KeysBytes(keys[1..], kind)
  {
  }

  lemma {:induction false} NumbersBytesMore(xs: seq<PageId>, i: nat)
    requires i < |xs|
    ensures NumbersBytes(xs[..i + 1]) == NumbersBytes(xs[..i]) + Bytes(xs[i], 8)
    decreases i
  {
    NumbersBytesHead(xs[..i + 1]);
    if i == 0 {
      assert xs[..1][1..] == [] && xs[..0] == [];
    } else {
      var rest := xs[1..];
      NumbersBytesHead(xs[..i]);
      assert xs[..i + 1][1..] == rest[..i] && xs[..i][1..] == rest[..i - 1];
      NumbersBytesMore(rest, i - 1);
      hide NumbersBytes, Bytes;
      ConcatAssociative(Bytes(xs[0], 8), NumbersBytes(rest[..i - 1]), Bytes(xs[i], 8));
    }
  }

  lemma NumbersBytesHead(xs: seq<PageId>)
    requires xs != []
    ensures NumbersBytes(xs) == Bytes(xs[0], 8) + NumbersBytes(xs[1..])
  {
  }

  /** deserialize_node: the reads one after the other, each at the offset where the last one ended. */
  method DeserializeNode(data: seq<byte>, kind: KeyKind) returns (r: Decoded)
    ensures r == DecodeNode(data, kind)
  {
    hide Number, FixedKeySize;
    if |data| != PAGE_SIZE {
      return Corrupt;
    }
    var magic := Number(data[0..4]);
    if magic != INDEX_NODE_MAGIC {
      return Corrupt;
    }
    var version := Number(data[4..6]);
    if version != INDEX_NODE_VERSION {
      return Corrupt;
    }
    var nodeType := Number(data[6..7]);
    if nodeType != INTERNAL_NODE_TYPE && nodeType != LEAF_NODE_TYPE {
      return Corrupt;
    }
    var isLeaf := nodeType == LEAF_NODE_TYPE;
    var pageId, nextLeaf := Unsigned64(data[8..16]), Unsigned64(data[16..24]);
    var keyCount, payloadCount := Number(data[24..28]), Number(data[28..32]);
    if keyCount > |data| || payloadCount > |data| {
      return Corrupt;
    }
    var keys, offset := ReadAllKeys(data, INDEX_NODE_HEADER_SIZE, keyCount, kind);
    if keys.None? || payloadCount != (if isLeaf then keyCount else keyCount + 1) {
      return Corrupt;
    }
    var payload := ReadAllNumbers(data, offset, payloadCount);
    if payload.None? {
      return Corrupt;
    }
    if isLeaf {
      r := Good(Node(true, pageId, nextLeaf, keys.value, [], payload.value));
    } else {
      r := Good(Node(false, pageId, nextLeaf, keys.value, payload.value, []));
    }
  }

  method ReadAllKeys(data: seq<byte>, start: nat, count: nat, kind: KeyKind)
    returns (r: Option<seq<IndexKey>>, end: nat)
    ensures r == ReadKeys(data, start, count, kind)
    ensures r.Some? ==> end == start + count * FixedKeySize(kind)
  {
    hide Prepended;
    var offset, keys := start, [];
    var i := 0;
    PrependedParts([], IntKey(0), ReadKeys(data, start, count, kind));
    while i < count
      invariant i <= count && offset == start + i * FixedKeySize(kind)
      invariant Prepended(keys, ReadKeys(data, offset, count - i, kind)) == ReadKeys(data, start, count, kind)
    {
      var key := ReadKey(data, offset, kind);
      if key.None? {
        PrependedNothing(keys);
        return None, offset;
      }
      OneMoreKey(i + 1, kind);
      PrependedParts(keys, key.value, ReadKeys(data, offset + FixedKeySize(kind), count - i - 1, kind));
      keys := keys + [key.value];
      offset := offset + FixedKeySize(kind);
      i := i + 1;
    }
    PrependedParts(keys, IntKey(0), None);
    r, end := Some(keys), offset;
  }

  function Prepended<T>(front: seq<T>, rest: Option<seq<T>>): Option<seq<T>> {
    if rest.None? then None else Some(front + rest.value)
  }

  lemma PrependedNothing<T>(front: seq<T>)
    ensures Prepended(front, None) == None
  {
  }

  lemma PrependedParts<T>(front: seq<T>, x: T, rest: Option<seq<T>>)
    ensures Prepended([], rest) == rest && Prepended(front, Some([])) == Some(front)
    ensures Prepended(front, if rest.None? then None else Some([x] + rest.value)) == Prepended(front + [x], rest)
  {
    if rest.Some? {
      assert [] + rest.value == rest.value;
      assert front + ([x] + rest.value) == (front + [x]) + rest.value;
    }
    assert front + [] == front;
  }

  method ReadAllNumbers(data: seq<byte>, start: nat, count: nat) returns (r: Option<seq<PageId>>)
    ensures r == ReadNumbers(data, start, count)
  {
    hide Prepended;
    var offset := start;
    var xs: seq<PageId> := [];
    var i := 0;
    PrependedParts(xs, 0, ReadNumbers(data, start, count));
    while i < count
      invariant i <= count
      invariant Prepended(xs, ReadNumbers(data, offset, count - i)) == ReadNumbers(data, start, count)
    {
      var x := ReadNumber(data, offset);
      if x.None? {
        PrependedNothing(xs);
        return None;
      }
      PrependedParts(xs, x.value, ReadNumbers(data, offset + 8, count - i - 1));
      xs := xs + [x.value];
      offset := offset + 8;
      i := i + 1;
    }
    PrependedParts(xs, 0, None);
    r := Some(xs);
  }
}
