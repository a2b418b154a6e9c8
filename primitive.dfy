/**
 * The runtime's primitive codec contract (runtime/rust/src/lib.rs): the
 * fixed-width numeric types, their encode_le/encode_be/decode_le/decode_be
 * into caller-supplied slices, and the element-wise impls for [T; N], Vec<T>
 * and &mut [T].
 *
 * A Rust slice `&mut buf[lo..hi]` is modelled as the array `buf` together with
 * the window `lo..hi`; a write through the slice may only touch that window.
 */
module Primitive {
  import opened Bytes

  /** The types the basic_primitive! macro is instantiated for. */
  datatype Prim = U8 | U16 | U32 | U64 | I8 | I16 | I32 | I64 | F32 | F64

  datatype PError = BufTooSmall | NotEnoughData

  /** Rust's Result<()>. */
  datatype Outcome = Success | Failure(error: PError)

  /** std::mem::size_of for each primitive. */
  function Width(p: Prim): (w: nat)
    ensures 1 <= w <= 8
  {
    match p
    case U8 | I8 => 1
    case U16 | I16 => 2
    case U32 | I32 | F32 => 4
    case U64 | I64 | F64 => 8
  }

  predicate Signed(p: Prim) {
    p.I8? || p.I16? || p.I32? || p.I64?
  }

  /** The number of bit patterns of p, 256 to the power Width(p). */
  function Modulus(p: Prim): nat {
    match p
    case U8 | I8 => 0x100
    case U16 | I16 => 0x1_0000
    case U32 | I32 | F32 => 0x1_0000_0000
    case U64 | I64 | F64 => 0x1_0000_0000_0000_0000
  }

  lemma ModulusIsPow256(p: Prim)
    ensures Modulus(p) == Pow256(Width(p))
  {
    assert Pow256(1) == 0x100;
    assert Pow256(2) == 0x1_0000;
    assert Pow256(4) == 0x1_0000_0000 by { assert Pow256(3) == 0x100_0000; }
    assert Pow256(8) == 0x1_0000_0000_0000_0000 by {
      assert Pow256(4) == 0x1_0000_0000 by { assert Pow256(3) == 0x100_0000; }
      assert Pow256(6) == 0x1_0000_0000_0000 by { assert Pow256(5) == 0x100_0000_0000; }
      assert Pow256(7) == 0x100_0000_0000_0000;
    }
  }

  /**
   * The values of p. A float is carried as its IEEE-754 bit pattern, which
   * to_le_bytes/from_le_bytes copy unchanged; floating-point arithmetic is not modelled.
   */
  predicate InRange(p: Prim, v: int) {
    var m: int := Modulus(p);
    if Signed(p) then -m <= 2 * v < m else 0 <= v < m
  }

  /** The two's complement bit pattern of v in Width(p) bytes. */
  function Bits(p: Prim, v: int): (b: nat)
    ensures b < Modulus(p)
  {
    v % Modulus(p)
  }

  /** The value of p whose bit pattern is b. */
  function FromBits(p: Prim, b: nat): (v: int)
    requires b < Modulus(p)
    ensures InRange(p, v)
    ensures Bits(p, v) == b
  {
    var P := Modulus(p);
    if Signed(p) && 2 * b >= P then
      assert (b - P) % P == b by { DivModUnique(b - P, P, -1, b); }
      b - P
    else
      assert b % P == b by { DivModUnique(b, P, 0, b); }
      b
  }

  /** Every value survives the trip through its bit pattern. */
  lemma FromBitsBits(p: Prim, v: int)
    requires InRange(p, v)
    ensures FromBits(p, Bits(p, v)) == v
  {
    var P := Modulus(p);
    if v < 0 {
      DivModUnique(v, P, -1, v + P);
    } else {
      DivModUnique(v, P, 0, v);
    }
  }

  /** to_le_bytes / to_be_bytes. */
  function ToBytes(p: Prim, big: bool, v: int): (r: seq<byte>)
    ensures |r| == Width(p)
  {
    if big then BigEndian(v, Width(p)) else LittleEndian(v, Width(p))
  }

  /** from_le_bytes / from_be_bytes. */
  function FromBytes(p: Prim, big: bool, s: seq<byte>): (v: int)
    requires |s| == Width(p)
    ensures InRange(p, v)
  {
    FromBits(p, if big then FromBigEndian(s) else FromLittleEndian(s))
  }

  /** Decoding the bytes of an in-range value gives the value back, in either byte order. */
  lemma FromBytesToBytes(p: Prim, big: bool, v: int)
    requires InRange(p, v)
    ensures FromBytes(p, big, ToBytes(p, big, v)) == v
  {
    ModulusIsPow256(p);
    if big { FromBigEndianInverse(v, Width(p)); } else { FromLittleEndianInverse(v, Width(p)); }
    FromBitsBits(p, v);
  }

  /** Encoding the value read from any Width(p) bytes gives those bytes back. */
  lemma ToBytesFromBytes(p: Prim, big: bool, s: seq<byte>)
    requires |s| == Width(p)
    ensures ToBytes(p, big, FromBytes(p, big, s)) == s
  {
    ModulusIsPow256(p);
    var v := FromBytes(p, big, s);
    if big {
      BigEndianOfCongruent(v, s);
    } else {
      LittleEndianOfCongruent(v, s);
    }
  }

  /**
   * encode_le (big == false) and encode_be (big == true) of one primitive into
   * the slice buf[lo..hi]: BufTooSmall and nothing written when the slice is
   * shorter than the type, otherwise exactly buf[lo..lo + Width(p)] is overwritten.
   */
  method Encode(p: Prim, big: bool, v: int, buf: array<byte>, lo: nat, hi: nat) returns (r: Outcome)
    requires InRange(p, v) && lo <= hi <= buf.Length
    modifies buf
    ensures r == (if hi - lo < Width(p) then Failure(BufTooSmall) else Success)
    ensures r.Failure? ==> buf[..] == old(buf[..])
    ensures r.Success? ==> Spliced(old(buf[..]), buf[..], lo, ToBytes(p, big, v))
  {
    var size := Width(p);
    if hi - lo < size {
      return Failure(BufTooSmall);
    }
    var bytes := ToBytes(p, big, v);
    forall k | lo <= k < lo + size {
      buf[k] := bytes[k - lo];
    }
    r := Success;
  }

  /**
   * decode_le (big == false) and decode_be (big == true): NotEnoughData and
   * `self` unchanged when the slice is shorter than the type, otherwise the
   * new value of `self` is read from the first Width(p) bytes only.
   */
  method Decode(p: Prim, big: bool, self: int, data: seq<byte>) returns (r: Outcome, v: int)
    ensures r == (if |data| < Width(p) then Failure(NotEnoughData) else Success)
    ensures r.Failure? ==> v == self
    ensures r.Success? ==> v == FromBytes(p, big, data[..Width(p)])
  {
    var size := Width(p);
    if |data| < size {
      return Failure(NotEnoughData), self;
    }
    r, v := Success, FromBytes(p, big, data[..size]);
  }

  /** The unit test of the runtime: a u64 encoded little-endian into an 8-byte buffer decodes to itself. */
  method EncodeDecodeU64(x: int) returns (y: int)
    requires InRange(U64, x)
    ensures y == x
  {
    var buf := new byte[8](_ => 0);
    ghost var before := buf[..];
    var r := Encode(U64, false, x, buf, 0, 8);
    SplicedWindow(before, buf[..], 0, ToBytes(U64, false, x));
    assert buf[..][..8] == ToBytes(U64, false, x);
    var r2;
    r2, y := Decode(U64, false, 0, buf[..]);
    FromBytesToBytes(U64, false, x);
  }

  // ---------------------------------------------------------------------------
  // The element-wise impls for [T; N], Vec<T> and &mut [T]. Their loops are
  // the same code: element idx is encoded into (decoded from) the slice that
  // starts at idx * size_of::<T>(), in order, and the first error stops the
  // loop. No length is written or read.
  // ---------------------------------------------------------------------------

  /** The images of the elements of es, one per element, in order. */
  function Parts(p: Prim, big: bool, es: seq<int>): (r: seq<seq<byte>>)
    ensures |r| == |es| && Uniform(r, Width(p))
  {
    seq(|es|, k requires 0 <= k < |es| => ToBytes(p, big, es[k]))
  }

  /** The images of the elements of es, back to back. */
  function Image(p: Prim, big: bool, es: seq<int>): (r: seq<byte>)
    ensures |r| == Span(|es|, Width(p))
  {
    ConcatLength(Parts(p, big, es), Width(p));
    Concat(Parts(p, big, es))
  }

  /** The first n elements stored back to back in s. */
  function Elements(p: Prim, big: bool, s: seq<byte>, n: nat): (r: seq<int>)
    requires Span(n, Width(p)) <= |s|
    ensures |r| == n
  {
    if n == 0 then []
    else Elements(p, big, s, n - 1) + [FromBytes(p, big, s[Span(n - 1, Width(p))..Span(n, Width(p))])]
  }

  /** How many of n elements fit, whole, in len bytes. */
  function Fits(p: Prim, n: nat, len: nat): (k: nat)
    ensures k <= n && Span(k, Width(p)) <= len
    ensures k == n <==> Span(n, Width(p)) <= len
  {
    if n == 0 || len < Width(p) then 0 else 1 + Fits(p, n - 1, len - Width(p))
  }

  /** When element idx is the first that does not fit, idx elements fit. */
  lemma {:induction false} FitsStop(p: Prim, n: nat, len: nat, idx: nat)
    requires idx < n && Span(idx, Width(p)) <= len < Span(idx, Width(p)) + Width(p)
    ensures Fits(p, n, len) == idx
  {
    if idx > 0 {
      FitsStop(p, n - 1, len - Width(p), idx - 1);
    }
  }

  /** Every element of es is a value of p. */
  predicate AllInRange(p: Prim, es: seq<int>) {
    forall k :: 0 <= k < |es| ==> InRange(p, es[k])
  }

  /** Encoding one more element appends its image. */
  lemma ImageSnoc(p: Prim, big: bool, es: seq<int>, idx: nat)
    requires idx < |es|
    ensures Image(p, big, es[..idx + 1]) == Image(p, big, es[..idx]) + ToBytes(p, big, es[idx])
  {
    var parts := Parts(p, big, es[..idx]);
    assert Parts(p, big, es[..idx + 1]) == parts + [ToBytes(p, big, es[idx])];
    ConcatSnoc(parts, ToBytes(p, big, es[idx]));
  }

  /** One iteration of the encoding loop keeps its invariant. */
  lemma EncodeStep(p: Prim, big: bool, es: seq<int>, idx: nat, lo: nat, orig: seq<byte>, before: seq<byte>, after: seq<byte>)
    requires idx < |es|
    requires Spliced(orig, before, lo, Image(p, big, es[..idx]))
    requires Spliced(before, after, lo + Span(idx, Width(p)), ToBytes(p, big, es[idx]))
    ensures Spliced(orig, after, lo, Image(p, big, es[..idx + 1]))
  {
    ImageSnoc(p, big, es, idx);
    assert |es[..idx]| == idx;
    SplicedTwice(orig, before, after, lo, Image(p, big, es[..idx]), lo + Span(idx, Width(p)), ToBytes(p, big, es[idx]), Image(p, big, es[..idx + 1]));
  }

  /** When element idx does not fit, what was written is the image of the elements that fit. */
  lemma EncodeStop(p: Prim, big: bool, es: seq<int>, idx: nat, lo: nat, len: nat, orig: seq<byte>, cur: seq<byte>)
    requires idx < |es| && Span(idx, Width(p)) <= len < Span(idx, Width(p)) + Width(p)
    requires Spliced(orig, cur, lo, Image(p, big, es[..idx]))
    ensures Span(|es|, Width(p)) > len
    ensures Spliced(orig, cur, lo, Image(p, big, es[..Fits(p, |es|, len)]))
  {
    FitsStop(p, |es|, len, idx);
  }

  /**
   * The loop shared by the containers' encode_le and encode_be: element idx is
   * encoded with the element codec `elemBig` at offset idx * Width(p) of the
   * slice. On BufTooSmall the elements that fitted whole are already written,
   * and nothing else in buf changes.
   */
  method EncodeElems(p: Prim, elemBig: bool, es: seq<int>, buf: array<byte>, lo: nat, hi: nat) returns (r: Outcome)
    requires AllInRange(p, es)
    requires lo <= hi <= buf.Length
    modifies buf
    ensures r == (if Span(|es|, Width(p)) <= hi - lo then Success else Failure(BufTooSmall))
    ensures Spliced(old(buf[..]), buf[..], lo, Image(p, elemBig, es[..Fits(p, |es|, hi - lo)]))
  {
    var size := Width(p);
    var idx, off := 0, lo;
    ghost var orig := buf[..];
    while idx < |es|
      invariant 0 <= idx <= |es|
      invariant off == lo + Span(idx, size) <= hi
      invariant Spliced(orig, buf[..], lo, Image(p, elemBig, es[..idx]))
    {
      ghost var before := buf[..];
      var e := Encode(p, elemBig, es[idx], buf, off, hi);
      if e.Failure? {
        EncodeStop(p, elemBig, es, idx, lo, hi - lo, orig, buf[..]);
        return e;
      }
      EncodeStep(p, elemBig, es, idx, lo, orig, before, buf[..]);
      idx, off := idx + 1, off + size;
    }
    assert Fits(p, |es|, hi - lo) == idx;
    r := Success;
  }

  /** One iteration of the decoding loop keeps its invariant. */
  lemma DecodeStep(p: Prim, big: bool, data: seq<byte>, idx: nat, orig: seq<int>, before: seq<int>, v: int)
    requires Span(idx, Width(p)) + Width(p) <= |data| && idx < |before|
    requires Spliced(orig, before, 0, Elements(p, big, data, idx))
    requires v == FromBytes(p, big, data[Span(idx, Width(p))..][..Width(p)])
    ensures Span(idx + 1, Width(p)) <= |data|
    ensures Spliced(orig, before[idx := v], 0, Elements(p, big, data, idx + 1))
  {
    var a := Span(idx, Width(p));
    assert data[a..][..Width(p)] == data[a..a + Width(p)];
    SplicedUpdate(before, idx, v);
    SplicedTwice(orig, before, before[idx := v], 0, Elements(p, big, data, idx), idx, [v], Elements(p, big, data, idx + 1));
  }

  /**
   * The loop shared by the containers' decode_le and decode_be: element idx of
   * `self` is decoded in place from the slice data[idx * Width(p)..]. On
   * NotEnoughData the elements that were read whole are already overwritten
   * and the others keep their old values.
   */
  method DecodeElems(p: Prim, big: bool, elems: array<int>, data: seq<byte>) returns (r: Outcome)
    modifies elems
    ensures r == (if Span(elems.Length, Width(p)) <= |data| then Success else Failure(NotEnoughData))
    ensures Spliced(old(elems[..]), elems[..], 0, Elements(p, big, data, Fits(p, elems.Length, |data|)))
  {
    var size := Width(p);
    var idx, off := 0, 0;
    ghost var orig := elems[..];
    while idx < elems.Length
      invariant 0 <= idx <= elems.Length
      invariant off == Span(idx, size) <= |data|
      invariant Spliced(orig, elems[..], 0, Elements(p, big, data, idx))
    {
      var e, v := Decode(p, big, elems[idx], data[off..]);
      if e.Failure? {
        FitsStop(p, elems.Length, |data|, idx);
        assert Fits(p, elems.Length, |data|) == idx;
        return e;
      }
      DecodeStep(p, big, data, idx, orig, elems[..], v);
      elems[idx] := v;
      idx, off := idx + 1, off + size;
    }
    assert Fits(p, elems.Length, |data|) == idx;
    r := Success;
  }

  /** encode_le of [T; N], Vec<T> and &mut [T]. */
  method ContainerEncodeLe(p: Prim, es: seq<int>, buf: array<byte>, lo: nat, hi: nat) returns (r: Outcome)
    requires AllInRange(p, es)
    requires lo <= hi <= buf.Length
    modifies buf
    ensures r == (if Span(|es|, Width(p)) <= hi - lo then Success else Failure(BufTooSmall))
    ensures Spliced(old(buf[..]), buf[..], lo, Image(p, false, es[..Fits(p, |es|, hi - lo)]))
  {
    r := EncodeElems(p, false, es, buf, lo, hi);
  }

  /**
   * encode_be of [T; N], Vec<T> and &mut [T] AS WRITTEN: every element goes
   * through encode_le, so the bytes are the little-endian image.
   */
  method ContainerEncodeBe(p: Prim, es: seq<int>, buf: array<byte>, lo: nat, hi: nat) returns (r: Outcome)
    requires AllInRange(p, es)
    requires lo <= hi <= buf.Length
    modifies buf
    ensures r == (if Span(|es|, Width(p)) <= hi - lo then Success else Failure(BufTooSmall))
    ensures Spliced(old(buf[..]), buf[..], lo, Image(p, false, es[..Fits(p, |es|, hi - lo)]))
  {
    r := EncodeElems(p, false, es, buf, lo, hi);
  }

  /** encode_be of the containers as evidently intended: each element big-endian. */
  method ContainerEncodeBeFixed(p: Prim, es: seq<int>, buf: array<byte>, lo: nat, hi: nat) returns (r: Outcome)
    requires AllInRange(p, es)
    requires lo <= hi <= buf.Length
    modifies buf
    ensures r == (if Span(|es|, Width(p)) <= hi - lo then Success else Failure(BufTooSmall))
    ensures Spliced(old(buf[..]), buf[..], lo, Image(p, true, es[..Fits(p, |es|, hi - lo)]))
  {
    r := EncodeElems(p, true, es, buf, lo, hi);
  }

  /** decode_le (big == false) and decode_be (big == true) of the containers. */
  method ContainerDecode(p: Prim, big: bool, elems: array<int>, data: seq<byte>) returns (r: Outcome)
    modifies elems
    ensures r == (if Span(elems.Length, Width(p)) <= |data| then Success else Failure(NotEnoughData))
    ensures Spliced(old(elems[..]), elems[..], 0, Elements(p, big, data, Fits(p, elems.Length, |data|)))
  {
    r := DecodeElems(p, big, elems, data);
  }

  /** Only the first n elements' bytes matter to Elements. */
  lemma {:induction false} ElementsPrefix(p: Prim, big: bool, s: seq<byte>, t: seq<byte>, n: nat)
    requires Span(n, Width(p)) <= |s|
    ensures Elements(p, big, s + t, n) == Elements(p, big, s, n)
  {
    if n > 0 {
      var w := Width(p);
      assert (s + t)[Span(n - 1, w)..Span(n, w)] == s[Span(n - 1, w)..Span(n, w)];
      ElementsPrefix(p, big, s, t, n - 1);
    }
  }

  /** Element i of es occupies bytes Span(i)..Span(i + 1) of the image. */
  lemma ImageSlice(p: Prim, big: bool, es: seq<int>, i: nat)
    requires i < |es|
    ensures Span(i, Width(p)) + Width(p) <= |Image(p, big, es)|
    ensures Image(p, big, es)[Span(i, Width(p))..Span(i, Width(p)) + Width(p)] == ToBytes(p, big, es[i])
  {
    ConcatSlice(Parts(p, big, es), Width(p), i);
  }

  /** Element i of Elements(s, n) is read from bytes Span(i)..Span(i + 1) of s. */
  lemma {:induction false} ElementsIndex(p: Prim, big: bool, s: seq<byte>, n: nat, i: nat)
    requires Span(n, Width(p)) <= |s| && i < n
    ensures Span(i, Width(p)) + Width(p) <= |s|
    ensures Elements(p, big, s, n)[i] == FromBytes(p, big, s[Span(i, Width(p))..Span(i, Width(p)) + Width(p)])
  {
    if i < n - 1 {
      ElementsIndex(p, big, s, n - 1, i);
    }
  }

  /** Decoding the elements in the byte order they were encoded in gives them back. */
  lemma ElementsImage(p: Prim, big: bool, es: seq<int>)
    requires AllInRange(p, es)
    ensures Elements(p, big, Image(p, big, es), |es|) == es
  {
    var img := Image(p, big, es);
    forall i | 0 <= i < |es|
      ensures Elements(p, big, img, |es|)[i] == es[i]
    {
      ElementsIndex(p, big, img, |es|, i);
      ImageSlice(p, big, es, i);
      FromBytesToBytes(p, big, es[i]);
    }
  }

  /**
   * The containers' encode_be followed by decode_be does not restore a
   * multi-byte element: the u16 value 0x0102 comes back as 0x0201.
   */
  lemma ContainerBigEndianMismatch()
    ensures Image(U16, false, [0x0102]) == [0x02, 0x01]
    ensures Elements(U16, true, Image(U16, false, [0x0102]), 1) == [0x0201]
  {
    assert [0x0102][..0] == [];
    assert LittleEndian(0x0102, 2) == [0x02, 0x01];
    var s := [0x02, 0x01];
    assert Span(1, 2) == 2;
    assert s[0..2] == s;
    assert FromLittleEndian([0x02]) == 2;
    assert FromBigEndian(s) == 0x0201;
  }
}
