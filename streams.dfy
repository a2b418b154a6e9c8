/**
 * What the two Go runtimes (runtime/go/stream.go and runtime/stream.go) share:
 * Go's uint64 cursor arithmetic, the slice expression `data[lo:hi]`, the
 * outcome of a Read*, the bound checks the readers perform, and the
 * fixed-width C string layout with its two readings.
 *
 * A Go slice is modelled by its contents: its capacity is taken to be its
 * length, so `data[lo:hi]` panics exactly when hi > len(data) or lo > hi.
 */
module Streams {
  import opened Bytes
  import P = Primitive

  const U64Modulus: nat := 0x1_0000_0000_0000_0000

  /** Go's uint64: the type of Stream.size, Stream.pos and every length argument. */
  type uint64 = x: int | 0 <= x < 0x1_0000_0000_0000_0000

  /** binary.LittleEndian or binary.BigEndian. */
  datatype ByteOrder = LittleEndianOrder | BigEndianOrder

  /** `a + b` on uint64: it wraps around past 2^64 - 1, and then lands below a. */
  function Add64(a: uint64, b: uint64): (r: uint64)
    ensures a + b < U64Modulus ==> r == a + b
    ensures a + b >= U64Modulus ==> r < a && r == a + b - U64Modulus
  {
    (a + b) % U64Modulus
  }

  /** The result of a Read*: the value, the error it returns, or a runtime panic of a slice expression. */
  datatype Read<T> = Got(value: T) | OutOfBounds | Panicked

  /** The slice expression `data[lo:hi]`, which panics unless lo <= hi <= len(data). */
  function SliceExpr(data: seq<byte>, lo: uint64, hi: uint64): (r: Read<seq<byte>>)
    ensures r.Got? <==> lo <= hi <= |data|
    ensures r.Got? ==> r.value == data[lo..hi]
    ensures !r.Got? ==> r == Panicked
  {
    if lo <= hi <= |data| then Got(data[lo..hi]) else Panicked
  }

  /**
   * The n bytes every multi-byte read, ReadBytes and ReadString take at pos:
   * the read fails when its end `pos + n` lies past size, and otherwise slices
   * `data[pos:end]`. The caller's cursor moves to the end in either case.
   */
  function ReadWindow(data: seq<byte>, size: uint64, pos: uint64, n: uint64): (r: Read<seq<byte>>)
    ensures r.Got? ==> pos + n <= size && pos + n <= |data| && r.value == data[pos..pos + n]
    ensures pos + n < U64Modulus && pos + n > size ==> r == OutOfBounds
    ensures size <= |data| && pos + n <= size ==> r == Got(data[pos..pos + n])
  {
    var end := Add64(pos, n);
    if end > size then OutOfBounds else SliceExpr(data, pos, end)
  }

  /**
   * The byte ReadU8 and ReadI8 take at pos as written: the bound check is
   * `pos > size` rather than `pos + 1 > size`, so a read at pos == size passes
   * it and only the slice expression `data[pos:pos+1]` stands in the way.
   */
  function ByteWindow(data: seq<byte>, size: uint64, pos: uint64): (r: Read<seq<byte>>)
    ensures r.Got? ==> pos <= size && pos < |data| && r.value == data[pos..pos + 1]
    ensures pos > size ==> r == OutOfBounds
    ensures pos <= size && pos < |data| < U64Modulus ==> r == Got(data[pos..pos + 1])
  {
    if pos > size then OutOfBounds else SliceExpr(data, pos, Add64(pos, 1))
  }

  /** On a reader stream (size == len(data)) the as-written byte check lets a read at the end through to a panic. */
  lemma ByteWindowPanicsAtEnd(data: seq<byte>)
    requires |data| < U64Modulus
    ensures ByteWindow(data, |data|, |data|) == Panicked
  {
  }

  /** A writer stream has size 0, yet the as-written byte check lets ReadU8 return its first byte. */
  lemma ByteWindowReadsPastSize(data: seq<byte>)
    requires 0 < |data| < U64Modulus
    ensures ByteWindow(data, 0, 0) == Got([data[0]])
  {
    assert data[0..1] == [data[0]];
  }

  /**
   * The corrected byte check is the multi-byte one with n == 1: on a reader
   * stream a read never panics unless its cursor wraps around, and it succeeds
   * exactly when the bytes are there.
   */
  lemma ReaderNeverPanics(data: seq<byte>, pos: uint64, n: uint64)
    requires |data| < U64Modulus && pos + n < U64Modulus
    ensures ReadWindow(data, |data|, pos, n) != Panicked
    ensures ReadWindow(data, |data|, pos, n).Got? <==> pos + n <= |data|
  {
  }

  /** The number of type p that binary.ByteOrder (or the byte itself) makes of a window of Width(p) bytes. */
  function Decoded(p: P.Prim, big: bool, w: Read<seq<byte>>): (r: Read<int>)
    requires w.Got? ==> |w.value| == P.Width(p)
    ensures r.Got? <==> w.Got?
    ensures r.OutOfBounds? <==> w.OutOfBounds?
    ensures r.Got? ==> P.InRange(p, r.value) && P.ToBytes(p, big, r.value) == w.value
  {
    match w
    case Got(b) =>
      P.ToBytesFromBytes(p, big, b);
      Got(P.FromBytes(p, big, b))
    case OutOfBounds => OutOfBounds
    case Panicked => Panicked
  }

  /** A number of type p read at pos in byte order big by the multi-byte readers. */
  function NumberAt(data: seq<byte>, size: uint64, pos: uint64, p: P.Prim, big: bool): (r: Read<int>)
    ensures r.Got? ==> P.InRange(p, r.value) && pos + P.Width(p) <= size && At(data, pos, P.ToBytes(p, big, r.value))
  {
    Decoded(p, big, ReadWindow(data, size, pos, P.Width(p)))
  }

  /** Where the bytes of v lie before size, reading a p at their position gives v back. */
  lemma NumberRoundTrip(data: seq<byte>, size: uint64, pos: uint64, p: P.Prim, big: bool, v: int)
    requires P.InRange(p, v) && size <= |data| && pos + P.Width(p) <= size
    requires At(data, pos, P.ToBytes(p, big, v))
    ensures NumberAt(data, size, pos, p, big) == Got(v)
  {
    P.FromBytesToBytes(p, big, v);
  }

  /** A reader fails exactly when the number's bytes end past size, and never panics there. */
  lemma NumberFails(data: seq<byte>, pos: uint64, p: P.Prim, big: bool)
    requires |data| < U64Modulus && pos + P.Width(p) < U64Modulus
    ensures NumberAt(data, |data|, pos, p, big) == OutOfBounds <==> pos + P.Width(p) > |data|
    ensures NumberAt(data, |data|, pos, p, big) != Panicked
  {
  }

  /**
   * ReadString (p == U16) and ReadString64 (p == U64): a length of type p,
   * then that many bytes; the pair holds the result and the final cursor.
   */
  function PrefixedAt(data: seq<byte>, size: uint64, pos: uint64, p: P.Prim, big: bool): (r: (Read<seq<byte>>, uint64))
    requires p == P.U16 || p == P.U64
  {
    var after := Add64(pos, P.Width(p));
    match NumberAt(data, size, pos, p, big)
    case Got(len) => (ReadWindow(data, size, after, len), Add64(after, len))
    case OutOfBounds => (OutOfBounds, after)
    case Panicked => (Panicked, after)
  }

  /** Where a length of s and then s lie before size, the prefixed read gives s back and moves past both. */
  lemma PrefixedRoundTrip(data: seq<byte>, size: uint64, pos: uint64, p: P.Prim, big: bool, s: seq<byte>)
    requires p == P.U16 || p == P.U64
    requires |s| < P.Modulus(p) && size <= |data| && pos + P.Width(p) + |s| <= size
    requires At(data, pos, P.ToBytes(p, big, |s|) + s)
    ensures PrefixedAt(data, size, pos, p, big) == (Got(s), pos + P.Width(p) + |s|)
  {
    var w := P.Width(p);
    AtAppend(data, pos, P.ToBytes(p, big, |s|), s);
    NumberRoundTrip(data, size, pos, p, big, |s|);
    assert Add64(pos, w) == pos + w;
    var after: uint64 := pos + w;
    assert ReadWindow(data, size, after, |s|) == Got(s);
    assert Add64(after, |s|) == pos + w + |s|;
  }

  // ---------------------------------------------------------------------------
  // C strings
  // ---------------------------------------------------------------------------

  function Zeros(n: nat): (r: seq<byte>)
    ensures |r| == n && forall i :: 0 <= i < n ==> r[i] == 0
  {
    seq(n, _ => 0)
  }

  /** WriteCString's `b := make([]byte, n); copy(b, str)`: str cut or zero-padded to exactly n bytes. */
  function CStringField(str: seq<byte>, n: nat): (r: seq<byte>)
    ensures |r| == n
    ensures forall i :: 0 <= i < n ==> r[i] == if i < |str| then str[i] else 0
  {
    if n <= |str| then str[..n] else str + Zeros(n - |str|)
  }

  /** bytes.IndexByte(b, 0): the index of the first zero byte, or -1 when there is none. */
  function IndexZero(b: seq<byte>): (r: int)
    ensures -1 <= r < |b|
    ensures r == -1 <==> 0 !in b
    ensures r >= 0 ==> b[r] == 0 && 0 !in b[..r]
  {
    if b == [] then -1
    else if b[0] == 0 then 0
    else
      var k := IndexZero(b[1..]);
      assert b == [b[0]] + b[1..];
      if k == -1 then -1
      else
        assert b[..k + 1] == [b[0]] + b[1..][..k];
        k + 1
  }

  /** ReadCString of runtime/go/stream.go: the bytes before the first zero byte, or all of them. */
  function BeforeZero(b: seq<byte>): (r: seq<byte>)
    ensures 0 !in r && r <= b
    ensures |r| < |b| ==> b[|r|] == 0
  {
    var end := IndexZero(b);
    if end == -1 then b else b[..end]
  }

  /** The number of zero bytes b starts with. */
  function LeadingZeros(b: seq<byte>): (k: nat)
    ensures k <= |b| && (forall i :: 0 <= i < k ==> b[i] == 0) && (k < |b| ==> b[k] != 0)
  {
    if b == [] || b[0] != 0 then 0 else 1 + LeadingZeros(b[1..])
  }

  /** The number of zero bytes b ends with. */
  function TrailingZeros(b: seq<byte>): (k: nat)
    ensures k <= |b| && (forall i :: |b| - k <= i < |b| ==> b[i] == 0) && (k < |b| ==> b[|b| - k - 1] != 0)
  {
    if b == [] || b[|b| - 1] != 0 then 0 else 1 + TrailingZeros(b[..|b| - 1])
  }

  /**
   * ReadCString of runtime/stream.go, `bytes.Trim(b, "\x00")`: b without the
   * zero bytes at either end; what remains starts and ends with a non-zero byte.
   */
  function TrimZeros(b: seq<byte>): (r: seq<byte>)
    ensures LeadingZeros(b) + |r| <= |b|
    ensures b == Zeros(LeadingZeros(b)) + r + Zeros(|b| - LeadingZeros(b) - |r|)
    ensures r == [] || (r[0] != 0 && r[|r| - 1] != 0)
  {
    var lo := LeadingZeros(b);
    if lo == |b| then
      assert b == Zeros(lo);
      []
    else
      var hi := |b| - TrailingZeros(b);
      assert lo < hi;
      var r := b[lo..hi];
      assert b == Zeros(lo) + r + Zeros(|b| - lo - |r|);
      r
  }

  /** z is the position of a zero byte at or after start, and at or before size, with no zero byte between. */
  ghost predicate Terminates(data: seq<byte>, size: int, start: int, z: int) {
    0 <= start <= z < |data| && z <= size && data[z] == 0 && 0 !in data[start..z]
  }

  /** A C string without zero bytes and no longer than its field comes back from the Go reading. */
  lemma CStringRoundTrip(str: seq<byte>, n: nat)
    requires 0 !in str && |str| <= n
    ensures BeforeZero(CStringField(str, n)) == str
  {
    var f := CStringField(str, n);
    if |str| < n {
      assert f[..|str|] == str;
      assert f[|str|] == 0;
      assert 0 !in f[..|str|];
    } else {
      assert f == str;
    }
  }

  /** A longer string is cut to the field: the reader sees only its first n bytes. */
  lemma CStringTruncated(str: seq<byte>, n: nat)
    requires n <= |str| && 0 !in str
    ensures BeforeZero(CStringField(str, n)) == str[..n]
  {
    assert CStringField(str, n) == str[..n];
    assert 0 !in str[..n];
  }

  /**
   * The trimming reader gives back any string no longer than its field whose
   * first and last bytes are not zero, zero bytes inside it included.
   */
  lemma {:induction false} CStringTrimRoundTrip(str: seq<byte>, n: nat)
    requires |str| <= n && (str == [] || (str[0] != 0 && str[|str| - 1] != 0))
    ensures TrimZeros(CStringField(str, n)) == str
  {
    var f := CStringField(str, n);
    assert f == str + Zeros(n - |str|);
    var r := TrimZeros(f);
    var lo := LeadingZeros(f);
    if str != [] {
      assert lo == 0 by { assert f[0] != 0; }
      assert f == r + Zeros(|f| - |r|);
      assert r == f[..|r|] == str;
    } else {
      assert f == Zeros(n);
      assert r == [];
    }
  }

  /** The two readings differ: a field starting with a zero byte reads as empty in Go, as its middle when trimmed. */
  lemma CStringReadingsDiffer()
    ensures BeforeZero([0, 65, 0]) == []
    ensures TrimZeros([0, 65, 0]) == [65]
  {
    assert LeadingZeros([0, 65, 0]) == 1 by { assert [0, 65, 0][1..] == [65, 0]; }
    assert TrailingZeros([0, 65, 0]) == 1 by { assert [0, 65, 0][..2] == [0, 65]; }
  }
}
