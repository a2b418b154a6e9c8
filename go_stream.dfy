/**
 * runtime/go/stream.go: a Stream is an append-only writer and a bounds-checked
 * cursor reader over one byte slice. Writes append to data; every read
 * advances pos by the width it asked for through a deferred assignment, so
 * the cursor moves whether or not the read succeeds. Multi-byte writes and
 * reads take their byte order as an argument.
 */
module GoStream {
  import opened Bytes
  import opened Streams
  import P = Primitive

  /** The unsigned type a signed writer converts to: `uint16(i)` for WriteI16, and so on. */
  function Unsigned(p: P.Prim): (u: P.Prim)
    requires P.Signed(p)
    ensures !P.Signed(u) && P.Width(u) == P.Width(p) && P.Modulus(u) == P.Modulus(p)
  {
    match p
    case I8 => P.U8
    case I16 => P.U16
    case I32 => P.U32
    case I64 => P.U64
  }

  /** A signed value and its unsigned bit pattern have the same bytes in either order. */
  lemma SameBitPattern(p: P.Prim, big: bool, v: int)
    requires P.Signed(p)
    ensures P.InRange(Unsigned(p), P.Bits(p, v))
    ensures P.ToBytes(Unsigned(p), big, P.Bits(p, v)) == P.ToBytes(p, big, v)
  {
    var w := P.Width(p);
    var b := P.Bits(p, v);
    P.ModulusIsPow256(p);
    assert b % Pow256(w) == v % Pow256(w) by {
      DivModUnique(b, Pow256(w), 0, b);
    }
    if big {
      FromBigEndianInverse(v, w);
      BigEndianOfCongruent(b, BigEndian(v, w));
    } else {
      FromLittleEndianInverse(v, w);
      LittleEndianOfCongruent(b, LittleEndian(v, w));
    }
  }

  /** A single byte decodes as itself. */
  lemma ByteValue(x: byte)
    ensures P.FromBytes(P.U8, false, [x]) == x
  {
    assert [x][1..] == [];
  }

  class Stream {
    var data: seq<byte>
    var size: uint64
    var pos: uint64

    /** NewStream(): an empty writer. */
    constructor New()
      ensures data == [] && size == 0 && pos == 0
    {
      data, size, pos := [], 0, 0;
    }

    /** NewStreamWithSize(n): an empty writer; n only sets the slice's capacity. */
    constructor WithSize(n: uint64)
      ensures data == [] && size == 0 && pos == 0
    {
      data, size, pos := [], 0, 0;
    }

    /** NewStreamWithSlice(b): a writer appending to b; its size stays 0. */
    constructor WithSlice(b: seq<byte>)
      ensures data == b && size == 0 && pos == 0
    {
      data, size, pos := b, 0, 0;
    }

    /** NewStreamReader(b): a reader over all of b. */
    constructor Reader(b: seq<byte>)
      requires |b| < U64Modulus
      ensures data == b && size == |b| && pos == 0
    {
      data, size, pos := b, |b|, 0;
    }

    /**
     * WriteU8, WriteU16, WriteU32 and WriteU64 (WriteF32 and WriteF64 on the
     * float's bit pattern): room for the value is appended, then filled by
     * PutUint16/32/64 in the given byte order.
     */
    method WriteNumber(p: P.Prim, v: int, order: ByteOrder)
      requires !P.Signed(p) && P.InRange(p, v)
      modifies this
      ensures data == old(data) + P.ToBytes(p, order == BigEndianOrder, v)
      ensures size == old(size) && pos == old(pos)
    {
      var at := |data|;
      data := data + Zeros(P.Width(p));
      data := data[..at] + P.ToBytes(p, order == BigEndianOrder, v);
    }

    /** WriteI8, WriteI16, WriteI32 and WriteI64: the unsigned writer on `uint16(i)` and the like. */
    method WriteSigned(p: P.Prim, v: int, order: ByteOrder)
      requires P.Signed(p) && P.InRange(p, v)
      modifies this
      ensures data == old(data) + P.ToBytes(p, order == BigEndianOrder, v)
      ensures size == old(size) && pos == old(pos)
    {
      SameBitPattern(p, order == BigEndianOrder, v);
      WriteNumber(Unsigned(p), P.Bits(p, v), order);
    }

    /** WriteString: the length as a u16, cut to its low 16 bits, then the bytes. */
    method WriteString(str: seq<byte>, order: ByteOrder)
      modifies this
      ensures data == old(data) + P.ToBytes(P.U16, order == BigEndianOrder, |str| % 0x1_0000) + str
      ensures size == old(size) && pos == old(pos)
    {
      WriteNumber(P.U16, |str| % 0x1_0000, order);
      data := data + str;
    }

    /** WriteString64: the length as a u64, then the bytes. */
    method WriteString64(str: seq<byte>, order: ByteOrder)
      requires |str| < U64Modulus
      modifies this
      ensures data == old(data) + P.ToBytes(P.U64, order == BigEndianOrder, |str|) + str
      ensures size == old(size) && pos == old(pos)
    {
      WriteNumber(P.U64, |str|, order);
      data := data + str;
    }

    /** WriteCString(str, n): exactly n bytes, str cut or zero-padded (`make` then `copy`). */
    method WriteCString(str: seq<byte>, n: uint64)
      modifies this
      ensures data == old(data) + CStringField(str, n)
      ensures size == old(size) && pos == old(pos)
    {
      var b := Zeros(n);
      var k := if n <= |str| then n else |str|;
      b := str[..k] + b[k..];
      assert b == CStringField(str, n);
      WriteBytes(b);
    }

    /** WriteCStringUnsized(str): the bytes, then a terminating 0. */
    method WriteCStringUnsized(str: seq<byte>)
      modifies this
      ensures data == old(data) + str + [0]
      ensures size == old(size) && pos == old(pos)
    {
      WriteBytes(str);
      data := data + [0];
    }

    /** WriteBytes(b): the bytes as they are. */
    method WriteBytes(b: seq<byte>)
      modifies this
      ensures data == old(data) + b
      ensures size == old(size) && pos == old(pos)
    {
      data := data + b;
    }

    /**
     * ReadU8 and ReadI8 as written: an error only when pos > size, otherwise
     * `data[pos:pos+1][0]`; the cursor moves by one either way.
     */
    method ReadByte(p: P.Prim) returns (r: Read<int>)
      requires p == P.U8 || p == P.I8
      modifies this
      ensures data == old(data) && size == old(size) && pos == Add64(old(pos), 1)
      ensures r == Decoded(p, false, ByteWindow(old(data), old(size), old(pos)))
      ensures p == P.U8 && r.Got? ==> old(pos) < |data| && r.value == data[old(pos)]
    {
      var end := Add64(pos, 1);
      if pos > size {
        r := OutOfBounds;
      } else {
        r := Decoded(p, false, SliceExpr(data, pos, end));
        if p == P.U8 && r.Got? {
          assert data[pos..end] == [data[pos]];
          ByteValue(data[pos]);
        }
      }
      pos := end;
    }

    /** ReadU8 and ReadI8 with the bound check of the wider reads, `pos + 1 > size`. */
    method ReadByteChecked(p: P.Prim) returns (r: Read<int>)
      requires p == P.U8 || p == P.I8
      modifies this
      ensures data == old(data) && size == old(size) && pos == Add64(old(pos), 1)
      ensures r == NumberAt(old(data), old(size), old(pos), p, false)
    {
      r := ReadNumber(p, LittleEndianOrder);
    }

    /**
     * ReadU16, ReadU32, ReadU64, their signed twins (ReadF32 and ReadF64 on
     * the bit pattern): an error when pos + width > size, otherwise the value
     * decoded from `data[pos:pos+width]`; the cursor moves by the width either way.
     */
    method ReadNumber(p: P.Prim, order: ByteOrder) returns (r: Read<int>)
      modifies this
      ensures data == old(data) && size == old(size) && pos == Add64(old(pos), P.Width(p))
      ensures r == NumberAt(old(data), old(size), old(pos), p, order == BigEndianOrder)
    {
      var end := Add64(pos, P.Width(p));
      if end > size {
        r := OutOfBounds;
      } else {
        r := Decoded(p, order == BigEndianOrder, SliceExpr(data, pos, end));
      }
      pos := end;
    }

    /** ReadBytes(n): `data[pos:pos+n]` unless that ends past size; the cursor moves by n either way. */
    method ReadBytes(n: uint64) returns (r: Read<seq<byte>>)
      modifies this
      ensures data == old(data) && size == old(size) && pos == Add64(old(pos), n)
      ensures r == ReadWindow(old(data), old(size), old(pos), n)
    {
      var end := Add64(pos, n);
      if end > size {
        r := OutOfBounds;
      } else {
        r := SliceExpr(data, pos, end);
      }
      pos := end;
    }

    /** ReadString: a u16 length, then that many bytes. */
    method ReadString(order: ByteOrder) returns (r: Read<seq<byte>>)
      modifies this
      ensures data == old(data) && size == old(size)
      ensures (r, pos) == PrefixedAt(old(data), old(size), old(pos), P.U16, order == BigEndianOrder)
    {
      var len := ReadNumber(P.U16, order);
      if !len.Got? {
        r := if len.OutOfBounds? then OutOfBounds else Panicked;
        return;
      }
      r := ReadBytes(len.value);
    }

    /** ReadString64: a u64 length, then that many bytes. */
    method ReadString64(order: ByteOrder) returns (r: Read<seq<byte>>)
      modifies this
      ensures data == old(data) && size == old(size)
      ensures (r, pos) == PrefixedAt(old(data), old(size), old(pos), P.U64, order == BigEndianOrder)
    {
      var len := ReadNumber(P.U64, order);
      if !len.Got? {
        r := if len.OutOfBounds? then OutOfBounds else Panicked;
        return;
      }
      r := ReadBytes(len.value);
    }

    /** ReadCString(n): n bytes, cut before the first zero byte (bytes.IndexByte). */
    method ReadCString(n: uint64) returns (r: Read<seq<byte>>)
      modifies this
      ensures data == old(data) && size == old(size) && pos == Add64(old(pos), n)
      ensures var w := ReadWindow(old(data), old(size), old(pos), n);
        && (r.Got? <==> w.Got?)
        && (r.Got? ==> r.value == BeforeZero(w.value))
        && (r.OutOfBounds? <==> w.OutOfBounds?)
    {
      var b := ReadBytes(n);
      match b
      case Got(bytes) => r := Got(BeforeZero(bytes));
      case OutOfBounds => r := OutOfBounds;
      case Panicked => r := Panicked;
    }

    /**
     * ReadCStringUnsized: ReadU8 until a zero byte, collecting the bytes
     * before it. It gives back the bytes up to the first zero byte the reads
     * reach, and it reaches every zero byte at or before size. When a read
     * fails first, the cursor is left one past the byte that could not be read,
     * after a run of nonzero bytes.
     */
    method ReadCStringUnsized() returns (r: Read<seq<byte>>)
      modifies this
      ensures data == old(data) && size == old(size)
      ensures r.Got? ==> (old(pos) + |r.value| < |data| && old(pos) + |r.value| <= size
        && data[old(pos)..old(pos) + |r.value|] == r.value && 0 !in r.value
        && data[old(pos) + |r.value|] == 0 && pos == old(pos) + |r.value| + 1)
      ensures |data| < U64Modulus ==>
        forall z :: Terminates(data, size, old(pos), z) ==> r == Got(data[old(pos)..z])
      ensures !r.Got? ==> exists end: uint64 :: NonzeroRun(data, old(pos), end) && pos == Add64(end, 1)
    {
      ghost var start, data0, size0 := pos, data, size;
      var b := ReadByte(P.U8);
      if !b.Got? {
        r := if b.OutOfBounds? then OutOfBounds else Panicked;
        assert NonzeroRun(data, start, start);
        return;
      }
      var bytes: seq<byte> := [];
      while b.value != 0
        invariant data == data0 && size == size0
        invariant b.Got? && start + |bytes| < |data| && start + |bytes| <= size
        invariant pos == start + |bytes| + 1
        invariant data[start..start + |bytes|] == bytes && 0 !in bytes
        invariant NonzeroRun(data, start, start + |bytes|)
        invariant b.value == data[start + |bytes|]
        invariant |data| < U64Modulus ==>
          forall z :: Terminates(data, size, start, z) ==> start + |bytes| <= z
        decreases |data| - pos
      {
        var at := pos - 1;
        UnsizedStep(data, size, start, bytes);
        bytes := bytes + [data[at]];
        b := ReadByte(P.U8);
        if !b.Got? {
          r := if b.OutOfBounds? then OutOfBounds else Panicked;
          return;
        }
      }
      r := Got(bytes);
    }
  }

  /** Every byte from start up to end exists and is nonzero. */
  predicate NonzeroRun(data: seq<byte>, start: int, end: int) {
    start <= end && forall i :: start <= i < end ==> 0 <= i < |data| && data[i] != 0
  }

  /** One more nonzero byte read by ReadCStringUnsized joins the string, and the terminator lies further on. */
  lemma UnsizedStep(data: seq<byte>, size: int, start: nat, bytes: seq<byte>)
    requires start + |bytes| < |data| && data[start..start + |bytes|] == bytes
    requires 0 !in bytes && data[start + |bytes|] != 0
    requires forall z :: Terminates(data, size, start, z) ==> start + |bytes| <= z
    ensures data[start..start + |bytes| + 1] == bytes + [data[start + |bytes|]]
    ensures 0 !in bytes + [data[start + |bytes|]]
    ensures forall z :: Terminates(data, size, start, z) ==> start + |bytes| + 1 <= z
    ensures NonzeroRun(data, start, start + |bytes|) ==> NonzeroRun(data, start, start + |bytes| + 1)
  {
    var at := start + |bytes|;
    assert data[start..at + 1] == data[start..at] + [data[at]];
  }

  /** A number written to a new stream reads back from a reader over its bytes, which it fills exactly. */
  method NumberWrittenRead(p: P.Prim, v: int, order: ByteOrder) returns (r: Read<int>, rest: Read<seq<byte>>)
    requires P.InRange(p, v)
    ensures r == Got(v) && rest == Got([])
  {
    var w := new Stream.New();
    if P.Signed(p) {
      w.WriteSigned(p, v, order);
    } else {
      w.WriteNumber(p, v, order);
    }
    ghost var b := P.ToBytes(p, order == BigEndianOrder, v);
    assert w.data == b;
    var s := new Stream.Reader(w.data);
    assert At(b, 0, b) by { assert b[0..|b|] == b; }
    NumberRoundTrip(b, |b|, 0, p, order == BigEndianOrder, v);
    r := s.ReadNumber(p, order);
    assert s.pos == |b|;
    rest := s.ReadBytes(0);
    assert b[|b|..|b|] == [];
  }

  /** A string shorter than 2^16 written with WriteString reads back with ReadString. */
  method StringWrittenRead(str: seq<byte>, order: ByteOrder) returns (r: Read<seq<byte>>)
    requires |str| < 0x1_0000
    ensures r == Got(str)
  {
    var w := new Stream.New();
    w.WriteString(str, order);
    ghost var b := P.ToBytes(P.U16, order == BigEndianOrder, |str|) + str;
    assert w.data == b;
    var s := new Stream.Reader(w.data);
    PrefixedRoundTrip(b, |b|, 0, P.U16, order == BigEndianOrder, str);
    r := s.ReadString(order);
  }

  /** Any string (shorter than 2^64 - 8) written with WriteString64 reads back with ReadString64. */
  method String64WrittenRead(str: seq<byte>, order: ByteOrder) returns (r: Read<seq<byte>>)
    requires |str| < U64Modulus - 8
    ensures r == Got(str)
  {
    var w := new Stream.New();
    w.WriteString64(str, order);
    ghost var b := P.ToBytes(P.U64, order == BigEndianOrder, |str|) + str;
    assert w.data == b;
    var s := new Stream.Reader(w.data);
    PrefixedRoundTrip(b, |b|, 0, P.U64, order == BigEndianOrder, str);
    r := s.ReadString64(order);
  }

  /** A C string without zero bytes written into a field at least as wide reads back with ReadCString. */
  method CStringWrittenRead(str: seq<byte>, n: uint64) returns (r: Read<seq<byte>>)
    requires 0 !in str && |str| <= n
    ensures r == Got(str)
  {
    var w := new Stream.New();
    w.WriteCString(str, n);
    ghost var b := CStringField(str, n);
    assert w.data == b;
    var s := new Stream.Reader(w.data);
    assert b[0..n] == b;
    CStringRoundTrip(str, n);
    r := s.ReadCString(n);
  }

  /** A C string without zero bytes written unsized reads back with ReadCStringUnsized. */
  method CStringUnsizedWrittenRead(str: seq<byte>) returns (r: Read<seq<byte>>)
    requires 0 !in str && |str| < U64Modulus - 1
    ensures r == Got(str)
  {
    var w := new Stream.New();
    w.WriteCStringUnsized(str);
    ghost var b := str + [0];
    assert w.data == b;
    var s := new Stream.Reader(w.data);
    assert b[..|str|] == str;
    assert Terminates(b, |b|, 0, |str|);
    r := s.ReadCStringUnsized();
  }

  /** Two numbers written one after the other read back in order: the cursor lands on the second. */
  method TwoNumbersWrittenRead(p: P.Prim, v: int, q: P.Prim, u: int, order: ByteOrder) returns (r1: Read<int>, r2: Read<int>)
    requires !P.Signed(p) && P.InRange(p, v) && !P.Signed(q) && P.InRange(q, u)
    ensures r1 == Got(v) && r2 == Got(u)
  {
    ghost var big := order == BigEndianOrder;
    ghost var b1, b2 := P.ToBytes(p, big, v), P.ToBytes(q, big, u);
    ghost var d := b1 + b2;
    var w := new Stream.New();
    w.WriteNumber(p, v, order);
    assert w.data == b1;
    w.WriteNumber(q, u, order);
    assert w.data == d;
    AtStart(b1, b2);
    AtEnd(b1, b2);
    NumberRoundTrip(d, |d|, 0, p, big, v);
    NumberRoundTrip(d, |d|, |b1|, q, big, u);
    var s := new Stream.Reader(w.data);
    r1 := s.ReadNumber(p, order);
    assert s.pos == |b1|;
    r2 := s.ReadNumber(q, order);
  }

  /** A writer has size 0, so the bound-checked readers fail on it whatever it holds. */
  method WriterReadFails(b: seq<byte>, p: P.Prim, order: ByteOrder) returns (r: Read<int>)
    ensures r == OutOfBounds
  {
    var s := new Stream.WithSlice(b);
    r := s.ReadNumber(p, order);
  }

  /** ReadU8 as written on a writer: it returns the first byte although the size is 0. */
  method ReadU8OnWriter(b: seq<byte>) returns (r: Read<int>, checked: Read<int>)
    requires 0 < |b| < U64Modulus
    ensures r == Got(b[0])
    ensures checked == OutOfBounds
  {
    var s := new Stream.WithSlice(b);
    r := s.ReadByte(P.U8);
    var t := new Stream.WithSlice(b);
    checked := t.ReadByteChecked(P.U8);
  }

  /** ReadU8 as written at the end of a reader panics; the checked read returns the error instead. */
  method ReadU8AtEnd(b: seq<byte>) returns (r: Read<int>, checked: Read<int>)
    requires |b| < U64Modulus - 1
    ensures r == Panicked
    ensures checked == OutOfBounds
  {
    var s := new Stream.Reader(b);
    var skipped := s.ReadBytes(|b|);
    r := s.ReadByte(P.U8);
    var t := new Stream.Reader(b);
    skipped := t.ReadBytes(|b|);
    checked := t.ReadByteChecked(P.U8);
  }

  /** WriteString keeps only the low 16 bits of a length: a longer string reads back cut short. */
  method StringTruncated(str: seq<byte>, order: ByteOrder) returns (r: Read<seq<byte>>)
    requires 0x1_0000 <= |str| < U64Modulus - 2
    ensures r == Got(str[..|str| % 0x1_0000])
  {
    var big := order == BigEndianOrder;
    var w := new Stream.New();
    w.WriteString(str, order);
    ghost var len := |str| % 0x1_0000;
    ghost var L := P.ToBytes(P.U16, big, len);
    assert w.data == L + str[..len] + str[len..];
    AtStart(L + str[..len], str[len..]);
    var s := new Stream.Reader(w.data);
    PrefixedRoundTrip(w.data, |w.data|, 0, P.U16, big, str[..len]);
    r := s.ReadString(order);
  }
}
