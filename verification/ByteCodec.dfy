/** Little-endian numbers in byte sequences. */
module ByteCodec {
  import opened IndexTypes

  function Power256(n: nat): nat {
    if n == 0 then 1 else 256 * Power256(n - 1)
  }

  const TWO_32: nat := 0x1_0000_0000

  const TWO_16: nat := 0x1_0000

  lemma PowersOf256()
    ensures Power256(1) == 256 && Power256(2) == TWO_16 && Power256(4) == TWO_32 && Power256(8) == TWO_64
  {
    assert Power256(3) == 256 * TWO_16;
    assert Power256(5) == 256 * TWO_32;
    assert Power256(6) == 256 * (256 * TWO_32);
    assert Power256(7) == 256 * (256 * (256 * TWO_32));
  }

  /** The low width bytes of a number, least significant first. */
  function Bytes(v: nat, width: nat): (b: seq<byte>)
    ensures |b| == width
  {
    if width == 0 then [] else [v % 256] + Bytes(v / 256, width - 1)
  }

  function Number(b: seq<byte>): nat {
    if b == [] then 0 else b[0] + 256 * Number(b[1..])
  }

  /** A number that fits its width comes back. */
  lemma {:induction false} NumberOfBytes(v: nat, width: nat)
    requires v < Power256(width)
    ensures Number(Bytes(v, width)) == v
  {
    if width > 0 {
      assert Bytes(v, width)[1..] == Bytes(v / 256, width - 1);
      NumberOfBytes(v / 256, width - 1);
    }
  }

  /** The least significant byte comes first: byte i is digit i to the base 256. */
  lemma {:induction false} LittleEndian(v: nat, width: nat, i: nat)
    requires i < width
    ensures Power256(i) > 0 && Bytes(v, width)[i] == v / Power256(i) % 256
  {
    if i > 0 {
      LittleEndian(v / 256, width - 1, i - 1);
      hide Bytes, Power256;
      BytesTail(v, width, i);
      DividedTwice(v, Power256(i - 1));
    }
  }

  lemma BytesTail(v: nat, width: nat, i: nat)
    requires 0 < i < width
    ensures Bytes(v, width)[i] == Bytes(v / 256, width - 1)[i - 1] && Power256(i) == 256 * Power256(i - 1)
  {
  }

  lemma DividedTwice(v: nat, p: nat)
    requires p > 0
    ensures v / 256 / p == v / (256 * p)
  {
    var q, r := v / (256 * p), v % (256 * p);
    assert v == 256 * (p * q) + r;
    assert v / 256 == p * q + r / 256;
    Quotient(v / 256, p, q, r / 256);
  }

  lemma Quotient(x: nat, p: nat, q: nat, r: nat)
    requires p > 0 && x == p * q + r && r < p
    ensures x / p == q
  {
    NoLarger(p, q, r, x / p, x % p);
    NoLarger(p, x / p, x % p, q, r);
  }

  lemma NoLarger(p: nat, q: nat, r: nat, q': nat, r': nat)
    requires p * q + r == p * q' + r' && r < p && r' < p
    ensures q <= q'
  {
    if q > q' {
      Monotone(p, q' + 1, q);
    }
  }

  lemma Monotone(p: nat, a: nat, b: nat)
    requires a <= b
    ensures p * a <= p * b
  {
  }

  function Zeros(n: nat): (b: seq<byte>)
    ensures |b| == n && forall i :: 0 <= i < n ==> b[i] == 0
  {
    seq(n, i => 0)
  }

  /** std::int64_t as an unsigned number, in two's complement. */
  function ToBits(i: int): nat
    requires -0x8000_0000_0000_0000 <= i < 0x8000_0000_0000_0000
  {
    if i < 0 then i + TWO_64 else i
  }

  function FromBits(n: nat): int {
    if n < 0x8000_0000_0000_0000 then n else n - TWO_64
  }

  lemma BitsBack(i: int)
    requires -0x8000_0000_0000_0000 <= i < 0x8000_0000_0000_0000
    ensures ToBits(i) < TWO_64 && FromBits(ToBits(i)) == i
  {
  }

  function AsInt64(bits: nat): int64 {
    FromBits(bits % TWO_64)
  }

  lemma AsInt64Back(i: int64)
    ensures ToBits(i) < TWO_64 && AsInt64(ToBits(i)) == i
  {
    BitsBack(i);
  }

  /** Eight bytes as an unsigned number. */
  function Unsigned64(b: seq<byte>): PageId {
    Number(b) % TWO_64
  }

  // ----- reading at an offset -----

  /** The bytes from offset on start with text. */
  ghost predicate At(data: seq<byte>, offset: nat, text: seq<byte>) {
    offset + |text| <= |data| && data[offset..offset + |text|] == text
  }

  lemma AtJoin(data: seq<byte>, offset: nat, a: seq<byte>, b: seq<byte>)
    ensures At(data, offset, a + b) <==> At(data, offset, a) && At(data, offset + |a|, b)
  {
    if offset + |a| + |b| <= |data| {
      var x, y := data[offset..offset + |a|], data[offset + |a|..offset + |a + b|];
      assert data[offset..offset + |a + b|] == x + y;
      assert (a + b)[..|a|] == a && (a + b)[|a|..] == b && (x + y)[..|a|] == x && (x + y)[|a|..] == y;
    }
  }

  lemma FieldBack(data: seq<byte>, offset: nat, v: nat, width: nat)
    requires At(data, offset, Bytes(v, width)) && v < Power256(width)
    ensures offset + width <= |data| && Number(data[offset..offset + width]) == v
  {
    NumberOfBytes(v, width);
  }

  // ----- reading one thing after another -----

  /** What was read and where the next thing starts; Truncated if the data ends too early. */
  datatype Parsed<T> = Parsed(value: T, next: nat) | Truncated

  function ReadUnsigned(data: seq<byte>, pos: nat, width: nat): Parsed<nat> {
    if pos + width > |data| then Truncated else Parsed(Number(data[pos..pos + width]), pos + width)
  }

  lemma UnsignedBack(data: seq<byte>, pos: nat, v: nat, width: nat)
    requires At(data, pos, Bytes(v, width)) && v < Power256(width)
    ensures ReadUnsigned(data, pos, width) == Parsed(v, pos + width)
  {
    FieldBack(data, pos, v, width);
  }

  function ReadMany<T>(read: nat -> Parsed<T>, pos: nat, count: nat): Parsed<seq<T>>
    decreases count
  {
    if count == 0 then Parsed([], pos)
    else
      match read(pos)
      case Truncated => Truncated
      case Parsed(x, next) => Prepend([x], ReadMany(read, next, count - 1))
  }

  function Prepend<T>(front: seq<T>, rest: Parsed<seq<T>>): Parsed<seq<T>> {
    if rest.Truncated? then Truncated else Parsed(front + rest.value, rest.next)
  }

  lemma PrependNothing<T>(rest: Parsed<seq<T>>)
    ensures Prepend([], rest) == rest
  {
    if rest.Parsed? {
      assert [] + rest.value == rest.value;
    }
  }

  lemma PrependOne<T>(front: seq<T>, x: T, rest: Parsed<seq<T>>)
    ensures Prepend(front, Prepend([x], rest)) == Prepend(front + [x], rest)
  {
    if rest.Parsed? {
      assert front + ([x] + rest.value) == (front + [x]) + rest.value;
    }
  }

  lemma PrependEnd<T>(front: seq<T>, pos: nat)
    ensures Prepend(front, Parsed([], pos)) == Parsed(front, pos)
  {
    assert front + [] == front;
  }

  function ManyBytes<T>(write: T -> seq<byte>, xs: seq<T>): seq<byte> {
    if xs == [] then [] else write(xs[0]) + ManyBytes(write, xs[1..])
  }

  lemma {:induction false} ManyBytesMore<T>(write: T -> seq<byte>, xs: seq<T>, x: T)
    ensures ManyBytes(write, xs + [x]) == ManyBytes(write, xs) + write(x)
  {
    if xs == [] {
      assert [x][1..] == [];
    } else {
      assert (xs + [x])[1..] == xs[1..] + [x];
      ManyBytesMore(write, xs[1..], x);
    }
  }

  /** Wherever x has been written, it is read. */
  ghost predicate ReadsBack<T(!new)>(data: seq<byte>, read: nat -> Parsed<T>, write: T -> seq<byte>, x: T) {
    forall p: nat :: At(data, p, write(x)) ==> read(p) == Parsed(x, p + |write(x)|)
  }

  /** If each thing is read back, so is a sequence of them. */
  lemma {:induction false} ManyBack<T(!new)>(data: seq<byte>, pos: nat, read: nat -> Parsed<T>, write: T -> seq<byte>,
                                             xs: seq<T>)
    requires At(data, pos, ManyBytes(write, xs))
    requires forall i :: 0 <= i < |xs| ==> ReadsBack(data, read, write, xs[i])
    ensures ReadMany(read, pos, |xs|) == Parsed(xs, pos + |ManyBytes(write, xs)|)
    decreases |xs|
  {
    hide At;
    if xs != [] {
      var x, rest := xs[0], xs[1..];
      assert ReadsBack(data, read, write, x);
      AtJoin(data, pos, write(x), ManyBytes(write, rest));
      assert read(pos) == Parsed(x, pos + |write(x)|);
      hide ReadsBack;
      ManyBack(data, pos + |write(x)|, read, write, rest);
      assert [x] + rest == xs;
    }
  }
}
