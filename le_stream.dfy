/**
 * runtime/stream.go: the earlier Stream. It carries its byte order in a
 * field that every constructor sets to little-endian; the readers decode
 * through that field, while the writers shift the value right by 8, 16, ...
 * bits and keep the low byte of each, which is little-endian whatever the
 * field says. The cursor rules are those of runtime/go/stream.go, but a C
 * string field reads back with its zero bytes trimmed from both ends.
 */
module LeStream {
  import opened Bytes
  import opened Streams
  import P = Primitive

  /** `byte(i), byte(i>>8), ..., byte(i>>(8*(w-1)))`: the low byte of v shifted right by 0, 8, 16, ... bits. */
  function ShiftedBytes(v: int, w: nat): (r: seq<byte>)
    ensures |r| == w
  {
    seq(w, k requires 0 <= k < w => (v / Pow256(k)) % 256)
  }

  /** Shifting right by a and then by b bits more is shifting by a + b bits, negative values included. */
  lemma ShiftTwice(n: int, a: nat, b: nat)
    requires a > 0 && b > 0
    ensures (n / a) / b == n / (a * b)
  {
    var q, r2 := (n / a) / b, (n / a) % b;
    assert n == a * (n / a) + n % a;
    assert n / a == b * q + r2;
    assert n == a * b * q + (a * r2 + n % a);
    assert 0 <= a * r2 + n % a < a * b by {
      MulMonotone(a, r2, b - 1);
    }
    DivModUnique(n, a * b, q, a * r2 + n % a);
  }

  /** The shifted bytes are the little-endian image: the writers agree with binary.LittleEndian. */
  lemma {:induction false} ShiftsAreLittleEndian(v: int, w: nat)
    ensures ShiftedBytes(v, w) == LittleEndian(v, w)
    decreases w
  {
    if w > 0 {
      ShiftsAreLittleEndian(v / 256, w - 1);
      var s, t := ShiftedBytes(v, w), ShiftedBytes(v / 256, w - 1);
      forall k | 1 <= k < w
        ensures s[k] == t[k - 1]
      {
        ShiftTwice(v, 256, Pow256(k - 1));
      }
      assert s == [v % 256] + t;
    }
  }

  class Stream {
    var data: seq<byte>
    var size: uint64
    var pos: uint64
    var byteOrder: ByteOrder

    /** NewStream(): an empty little-endian writer. */
    constructor New()
      ensures data == [] && size == 0 && pos == 0 && byteOrder == LittleEndianOrder
    {
      data, size, pos, byteOrder := [], 0, 0, LittleEndianOrder;
    }

    /** NewStreamWithSize(n): an empty little-endian writer; n only sets the slice's capacity. */
    constructor WithSize(n: uint64)
      ensures data == [] && size == 0 && pos == 0 && byteOrder == LittleEndianOrder
    {
      data, size, pos, byteOrder := [], 0, 0, LittleEndianOrder;
    }

    /** NewStreamWithSlice(b): a little-endian writer appending to b; its size stays 0. */
    constructor WithSlice(b: seq<byte>)
      ensures data == b && size == 0 && pos == 0 && byteOrder == LittleEndianOrder
    {
      data, size, pos, byteOrder := b, 0, 0, LittleEndianOrder;
    }

    /** NewStreamReader(b): a little-endian reader over all of b. */
    constructor Reader(b: seq<byte>)
      requires |b| < U64Modulus
      ensures data == b && size == |b| && pos == 0 && byteOrder == LittleEndianOrder
    {
      data, size, pos, byteOrder := b, |b|, 0, LittleEndianOrder;
    }

    /**
     * WriteU8 to WriteU64 and WriteI8 to WriteI64 (WriteF32 and WriteF64 on
     * the float's bit pattern): the shifted low bytes of the value, appended.
     */
    method WriteNumber(p: P.Prim, v: int)
      requires P.InRange(p, v)
      modifies this
      ensures data == old(data) + P.ToBytes(p, false, v)
      ensures size == old(size) && pos == old(pos) && byteOrder == old(byteOrder)
    {
      ShiftsAreLittleEndian(v, P.Width(p));
      data := data + ShiftedBytes(v, P.Width(p));
    }

    /** WriteString: the length as a u16, cut to its low 16 bits, then the bytes. */
    method WriteString(str: seq<byte>)
      modifies this
      ensures data == old(data) + P.ToBytes(P.U16, false, |str| % 0x1_0000) + str
      ensures size == old(size) && pos == old(pos) && byteOrder == old(byteOrder)
    {
      WriteNumber(P.U16, |str| % 0x1_0000);
      data := data + str;
    }

    /** WriteString64: the length as a u64, then the bytes. */
    method WriteString64(str: seq<byte>)
      requires |str| < U64Modulus
      modifies this
      ensures data == old(data) + P.ToBytes(P.U64, false, |str|) + str
      ensures size == old(size) && pos == old(pos) && byteOrder == old(byteOrder)
    {
      WriteNumber(P.U64, |str|);
      data := data + str;
    }

    /** WriteCString(str, n): exactly n bytes, str cut or zero-padded (`make` then `copy`). */
    method WriteCString(str: seq<byte>, n: uint64)
      modifies this
      ensures data == old(data) + CStringField(str, n)
      ensures size == old(size) && pos == old(pos) && byteOrder == old(byteOrder)
    {
      var b := Zeros(n);
      var k := if n <= |str| then n else |str|;
      b := str[..k] + b[k..];
      assert b == CStringField(str, n);
      WriteBytes(b);
    }

    /** WriteBytes(b): the bytes as they are. */
    method WriteBytes(b: seq<byte>)
      modifies this
      ensures data == old(data) + b
      ensures size == old(size) && pos == old(pos) && byteOrder == old(byteOrder)
    {
      data := data + b;
    }

    /** ReadU8 and ReadI8 as written: an error only when pos > size; the cursor moves by one either way. */
    method ReadByte(p: P.Prim) returns (r: Read<int>)
      requires p == P.U8 || p == P.I8
      modifies this
      ensures data == old(data) && size == old(size) && byteOrder == old(byteOrder)
      ensures pos == Add64(old(pos), 1)
      ensures r == Decoded(p, false, ByteWindow(old(data), old(size), old(pos)))
    {
      var end := Add64(pos, 1);
      if pos > size {
        r := OutOfBounds;
      } else {
        r := Decoded(p, false, SliceExpr(data, pos, end));
      }
      pos := end;
    }

    /** ReadU8 and ReadI8 with the bound check of the wider reads, `pos + 1 > size`. */
    method ReadByteChecked(p: P.Prim) returns (r: Read<int>)
      requires p == P.U8 || p == P.I8
      modifies this
      ensures data == old(data) && size == old(size) && byteOrder == old(byteOrder)
      ensures pos == Add64(old(pos), 1)
      ensures r == NumberAt(old(data), old(size), old(pos), p, false)
    {
      r := ReadNumber(p);
    }

    /**
     * ReadU16 to ReadU64, their signed twins (ReadF32 and ReadF64 on the bit
     * pattern): an error when pos + width > size, otherwise the value that
     * byteOrder decodes from `data[pos:pos+width]`; the cursor moves by the
     * width either way.
     */
    method ReadNumber(p: P.Prim) returns (r: Read<int>)
      modifies this
      ensures data == old(data) && size == old(size) && byteOrder == old(byteOrder)
      ensures pos == Add64(old(pos), P.Width(p))
      ensures r == NumberAt(old(data), old(size), old(pos), p, byteOrder == BigEndianOrder)
    {
      var end := Add64(pos, P.Width(p));
      if end > size {
        r := OutOfBounds;
      } else {
        r := Decoded(p, byteOrder == BigEndianOrder, SliceExpr(data, pos, end));
      }
      pos := end;
    }

    /** ReadBytes(n): `data[pos:pos+n]` unless that ends past size; the cursor moves by n either way. */
    method ReadBytes(n: uint64) returns (r: Read<seq<byte>>)
      modifies this
      ensures data == old(data) && size == old(size) && byteOrder == old(byteOrder)
      ensures pos == Add64(old(pos), n)
      ensures r == ReadWindow(old(data), old(size), old(pos), n)
    {
      var end := Add64(pos, n);
      if end > size {
        r := OutOfBounds;
      } else {
        r := SliceExpr(data, pos, end);
      }
      pos := end;
    }

    /** ReadString: a u16 length in byteOrder, then that many bytes. */
    method ReadString() returns (r: Read<seq<byte>>)
      modifies this
      ensures data == old(data) && size == old(size) && byteOrder == old(byteOrder)
      ensures (r, pos) == PrefixedAt(old(data), old(size), old(pos), P.U16, byteOrder == BigEndianOrder)
    {
      var len := ReadNumber(P.U16);
      if !len.Got? {
        r := if len.OutOfBounds? then OutOfBounds else Panicked;
        return;
      }
      r := ReadBytes(len.value);
    }

    /** ReadString64: a u64 length in byteOrder, then that many bytes. */
    method ReadString64() returns (r: Read<seq<byte>>)
      modifies this
      ensures data == old(data) && size == old(size) && byteOrder == old(byteOrder)
      ensures (r, pos) == PrefixedAt(old(data), old(size), old(pos), P.U64, byteOrder == BigEndianOrder)
    {
      var len := ReadNumber(P.U64);
      if !len.Got? {
        r := if len.OutOfBounds? then OutOfBounds else Panicked;
        return;
      }
      r := ReadBytes(len.value);
    }

    /** ReadCString(n): n bytes with the zero bytes at both ends trimmed (bytes.Trim). */
    method ReadCString(n: uint64) returns (r: Read<seq<byte>>)
      modifies this
      ensures data == old(data) && size == old(size) && byteOrder == old(byteOrder)
      ensures pos == Add64(old(pos), n)
      ensures var w := ReadWindow(old(data), old(size), old(pos), n);
        && (r.Got? <==> w.Got?)
        && (r.Got? ==> r.value == TrimZeros(w.value))
        && (r.OutOfBounds? <==> w.OutOfBounds?)
    {
      var b := ReadBytes(n);
      match b
      case Got(bytes) => r := Got(TrimZeros(bytes));
      case OutOfBounds => r := OutOfBounds;
      case Panicked => r := Panicked;
    }
  }

  /** A number written to a new stream reads back from a reader over its bytes, which it fills exactly. */
  method NumberWrittenRead(p: P.Prim, v: int) returns (r: Read<int>, rest: Read<seq<byte>>)
    requires P.InRange(p, v)
    ensures r == Got(v) && rest == Got([])
  {
    var w := new Stream.New();
    w.WriteNumber(p, v);
    ghost var b := P.ToBytes(p, false, v);
    assert w.data == b;
    var s := new Stream.Reader(w.data);
    assert At(b, 0, b) by { assert b[0..|b|] == b; }
    NumberRoundTrip(b, |b|, 0, p, false, v);
    r := s.ReadNumber(p);
    assert s.pos == |b|;
    rest := s.ReadBytes(0);
    assert b[|b|..|b|] == [];
  }

  /** A string shorter than 2^16 written with WriteString reads back with ReadString. */
  method StringWrittenRead(str: seq<byte>) returns (r: Read<seq<byte>>)
    requires |str| < 0x1_0000
    ensures r == Got(str)
  {
    var w := new Stream.New();
    w.WriteString(str);
    ghost var b := P.ToBytes(P.U16, false, |str|) + str;
    assert w.data == b;
    var s := new Stream.Reader(w.data);
    PrefixedRoundTrip(b, |b|, 0, P.U16, false, str);
    r := s.ReadString();
  }

  /** Any string shorter than 2^64 - 8 written with WriteString64 reads back with ReadString64. */
  method String64WrittenRead(str: seq<byte>) returns (r: Read<seq<byte>>)
    requires |str| < U64Modulus - 8
    ensures r == Got(str)
  {
    var w := new Stream.New();
    w.WriteString64(str);
    ghost var b := P.ToBytes(P.U64, false, |str|) + str;
    assert w.data == b;
    var s := new Stream.Reader(w.data);
    PrefixedRoundTrip(b, |b|, 0, P.U64, false, str);
    r := s.ReadString64();
  }

  /**
   * A C string no wider than its field, whose first and last bytes are not
   * zero, reads back with ReadCString, zero bytes inside it included.
   */
  method CStringWrittenRead(str: seq<byte>, n: uint64) returns (r: Read<seq<byte>>)
    requires |str| <= n && (str == [] || (str[0] != 0 && str[|str| - 1] != 0))
    ensures r == Got(str)
  {
    var w := new Stream.New();
    w.WriteCString(str, n);
    ghost var b := CStringField(str, n);
    assert w.data == b;
    var s := new Stream.Reader(w.data);
    assert b[0..n] == b;
    CStringTrimRoundTrip(str, n);
    r := s.ReadCString(n);
  }

  /** A writer has size 0, so the bound-checked readers fail on it whatever it holds. */
  method WriterReadFails(b: seq<byte>, p: P.Prim) returns (r: Read<int>)
    ensures r == OutOfBounds
  {
    var s := new Stream.WithSlice(b);
    r := s.ReadNumber(p);
  }

  /** ReadU8 as written on a writer: it returns the first byte although the size is 0. */
  method ReadU8OnWriter(b: seq<byte>) returns (r: Read<int>, checked: Read<int>)
    requires 0 < |b| < U64Modulus
    ensures r == Got(b[0])
    ensures checked == OutOfBounds
  {
    var s := new Stream.WithSlice(b);
    ByteWindowReadsPastSize(b);
    assert [b[0]][1..] == [];
    r := s.ReadByte(P.U8);
    var t := new Stream.WithSlice(b);
    checked := t.ReadByteChecked(P.U8);
  }

  /** ReadU8 as written at the end of a reader panics; the checked read returns the error instead. */
  method ReadU8AtEnd(b: seq<byte>) returns (r: Read<int>, checked: Read<int>)
    requires |b| < U64Modulus - 1
    ensures r == Panicked
    ensures checked == OutOfBounds
  {
    var s := new Stream.Reader(b);
    var skipped := s.ReadBytes(|b|);
    r := s.ReadByte(P.U8);
    var t := new Stream.Reader(b);
    skipped := t.ReadBytes(|b|);
    checked := t.ReadByteChecked(P.U8);
  }
}
