/**
 * Byte arithmetic shared by the Rust runtime and both Go streams:
 * the little- and big-endian byte images of an integer (what Rust's
 * to_le_bytes/to_be_bytes and Go's binary.ByteOrder produce) and their inverses.
 */
module Bytes {

  type byte = x: int | 0 <= x < 256

  /** 256 to the power w: the number of distinct values of a w-byte integer. */
  function Pow256(w: nat): (r: nat)
    ensures r >= 1
  {
    if w == 0 then 1 else 256 * Pow256(w - 1)
  }

  /** The low w bytes of n (two's complement for negative n), least significant first. */
  function LittleEndian(n: int, w: nat): (r: seq<byte>)
    ensures |r| == w
    decreases w
  {
    if w == 0 then [] else [n % 256] + LittleEndian(n / 256, w - 1)
  }

  /** The unsigned integer whose little-endian image is s. */
  function FromLittleEndian(s: seq<byte>): (r: nat)
    ensures r < Pow256(|s|)
  {
    if s == [] then 0 else s[0] + 256 * FromLittleEndian(s[1..])
  }

  /** The low w bytes of n (two's complement for negative n), most significant first. */
  function BigEndian(n: int, w: nat): (r: seq<byte>)
    ensures |r| == w
    decreases w
  {
    if w == 0 then [] else BigEndian(n / 256, w - 1) + [n % 256]
  }

  /** The unsigned integer whose big-endian image is s. */
  function FromBigEndian(s: seq<byte>): (r: nat)
    ensures r < Pow256(|s|)
  {
    if s == [] then 0 else 256 * FromBigEndian(s[..|s| - 1]) + s[|s| - 1]
  }

  /** If n == d * q + r with 0 <= r < d, then q and r are n / d and n % d. */
  lemma DivModUnique(n: int, d: int, q: int, r: int)
    requires d > 0 && 0 <= r < d && n == d * q + r
    ensures n / d == q && n % d == r
  {
    var q', r' := n / d, n % d;
    assert n == d * q' + r';
    if q' > q {
      assert d * q' >= d * (q + 1) by { MulMonotone(d, q + 1, q'); }
      assert false;
    } else if q' < q {
      assert d * q >= d * (q' + 1) by { MulMonotone(d, q' + 1, q); }
      assert false;
    }
  }

  lemma MulMonotone(d: nat, a: int, b: int)
    requires a <= b
    ensures d * a <= d * b
  {
    assert d * b - d * a == d * (b - a);
  }

  /** Position i of after is part[i - off] inside the window starting at off, before[i] outside it. */
  ghost predicate SplicedAt<T>(before: seq<T>, after: seq<T>, off: nat, part: seq<T>, i: int) {
    0 <= i < |after| && i < |before|
    && after[i] == if off <= i < off + |part| then part[i - off] else before[i]
  }

  /**
   * after is before with the window starting at off overwritten by part and
   * every other position unchanged: what a write through a sub-slice does.
   */
  ghost predicate Spliced<T>(before: seq<T>, after: seq<T>, off: nat, part: seq<T>) {
    |after| == |before| && off + |part| <= |before|
    && forall i :: 0 <= i < |after| ==> SplicedAt(before, after, off, part, i)
  }

  /** The window of a splice holds the part written. */
  lemma SplicedWindow<T>(before: seq<T>, after: seq<T>, off: nat, part: seq<T>)
    requires Spliced(before, after, off, part)
    ensures after[off..off + |part|] == part
  {
    forall k | 0 <= k < |part|
      ensures after[off + k] == part[k]
    {
      assert SplicedAt(before, after, off, part, off + k);
    }
  }

  /** A slice inside the left operand of a concatenation. */
  lemma SliceAppendLeft<T>(a: seq<T>, b: seq<T>, lo: nat, hi: nat)
    requires lo <= hi <= |a|
    ensures (a + b)[lo..hi] == a[lo..hi]
  {
  }

  /** The right operand of a concatenation, sliced back out. */
  lemma SliceAppendRight<T>(a: seq<T>, b: seq<T>)
    ensures (a + b)[|a|..|a| + |b|] == b
  {
  }

  /**
   * The length of n parts of w elements each. It is n * w (SpanIsProduct);
   * stated as a sum it keeps the proofs that use it free of nonlinear arithmetic.
   */
  function Span(n: nat, w: nat): nat {
    if n == 0 then 0 else Span(n - 1, w) + w
  }

  lemma {:induction false} SpanIsProduct(n: nat, w: nat)
    ensures Span(n, w) == n * w
  {
    if n > 0 {
      SpanIsProduct(n - 1, w);
      MulSucc(n - 1, w);
    }
  }

  lemma {:induction false} SpanMonotone(k: nat, n: nat, w: nat)
    requires k <= n
    ensures Span(k, w) <= Span(n, w)
  {
    if k < n {
      SpanMonotone(k, n - 1, w);
    }
  }

  /** The parts, back to back. */
  function Concat<T>(parts: seq<seq<T>>): seq<T> {
    if parts == [] then [] else Concat(parts[..|parts| - 1]) + parts[|parts| - 1]
  }

  /** Every part is w long. */
  ghost predicate Uniform<T>(parts: seq<seq<T>>, w: nat) {
    forall k :: 0 <= k < |parts| ==> |parts[k]| == w
  }

  lemma {:induction false} ConcatLength<T>(parts: seq<seq<T>>, w: nat)
    requires Uniform(parts, w)
    ensures |Concat(parts)| == Span(|parts|, w)
  {
    if parts != [] {
      ConcatLength(parts[..|parts| - 1], w);
    }
  }

  lemma ConcatSnoc<T>(parts: seq<seq<T>>, last: seq<T>)
    ensures Concat(parts + [last]) == Concat(parts) + last
  {
    assert (parts + [last])[..|parts|] == parts;
  }

  /** Part i of a uniform concatenation sits at Span(i, w). */
  lemma {:induction false} ConcatSlice<T>(parts: seq<seq<T>>, w: nat, i: nat)
    requires Uniform(parts, w) && i < |parts|
    ensures Span(i, w) + w <= |Concat(parts)|
    ensures Concat(parts)[Span(i, w)..Span(i, w) + w] == parts[i]
  {
    var n := |parts|;
    var init := parts[..n - 1];
    ConcatLength(parts, w);
    ConcatLength(init, w);
    if i < n - 1 {
      ConcatSlice(init, w, i);
      SpanMonotone(i + 1, n - 1, w);
      SliceAppendLeft(Concat(init), parts[n - 1], Span(i, w), Span(i, w) + w);
    } else {
      SliceAppendRight(Concat(init), parts[n - 1]);
    }
  }

  /** Assigning one position is a write of one element there. */
  lemma SplicedUpdate<T>(before: seq<T>, idx: nat, v: T)
    requires idx < |before|
    ensures Spliced(before, before[idx := v], idx, [v])
  {
    var after, part := before[idx := v], [v];
    forall i | 0 <= i < |before|
      ensures SplicedAt(before, after, idx, part, i)
    {
    }
  }

  /** Writing nothing changes nothing. */
  lemma SplicedNothing<T>(s: seq<T>, off: nat)
    requires off <= |s|
    ensures Spliced(s, s, off, [])
  {
    forall i | 0 <= i < |s|
      ensures SplicedAt(s, s, off, [], i)
    {
    }
  }

  /** Two writes side by side are one write of both parts. */
  lemma SplicedTwice<T>(orig: seq<T>, mid: seq<T>, last: seq<T>, off: nat, a: seq<T>, offB: nat, b: seq<T>, ab: seq<T>)
    requires Spliced(orig, mid, off, a) && Spliced(mid, last, offB, b)
    requires offB == off + |a| && ab == a + b
    ensures Spliced(orig, last, off, ab)
  {
    forall i | 0 <= i < |last|
      ensures SplicedAt(orig, last, off, ab, i)
    {
      assert SplicedAt(orig, mid, off, a, i) && SplicedAt(mid, last, offB, b, i);
    }
  }

  /** After a splice that covers the whole sequence, the sequence is the part written. */
  lemma SplicedAll<T>(before: seq<T>, after: seq<T>, part: seq<T>)
    requires Spliced(before, after, 0, part) && |part| == |before|
    ensures after == part
  {
    forall i | 0 <= i < |after|
      ensures after[i] == part[i]
    {
      assert SplicedAt(before, after, 0, part, i);
    }
  }

  /** part occurs in s starting at position pos. */
  ghost predicate At<T>(s: seq<T>, pos: nat, part: seq<T>) {
    pos + |part| <= |s| && s[pos..pos + |part|] == part
  }

  /** A sequence occurs at the start of anything it is extended to. */
  lemma AtStart<T>(s: seq<T>, t: seq<T>)
    ensures At(s + t, 0, s)
  {
    assert (s + t)[..|s|] == s;
  }

  /** A part appended to s occurs right after s. */
  lemma AtEnd<T>(s: seq<T>, part: seq<T>)
    ensures At(s + part, |s|, part)
  {
    assert (s + part)[|s|..|s| + |part|] == part;
  }

  /** a + b occurs at pos exactly when a occurs there and b right after it. */
  lemma AtAppend<T>(s: seq<T>, pos: nat, a: seq<T>, b: seq<T>)
    ensures At(s, pos, a + b) <==> At(s, pos, a) && At(s, pos + |a|, b)
  {
    if pos + |a| + |b| <= |s| {
      var mid := pos + |a|;
      assert s[pos..mid + |b|] == s[pos..mid] + s[mid..mid + |b|];
      if At(s, pos, a + b) {
        assert s[pos..mid] == (a + b)[..|a|] == a;
        assert s[mid..mid + |b|] == (a + b)[|a|..] == b;
      }
    }
  }

  lemma MulSucc(a: int, b: int)
    ensures (a + 1) * b == a * b + b
  {
  }

  /** The low w bytes of n are its low byte followed by the low w - 1 bytes of n / 256. */
  lemma PlaceValue(n: int, w: nat)
    requires w > 0
    ensures n % Pow256(w) == n % 256 + 256 * ((n / 256) % Pow256(w - 1))
  {
    var P := Pow256(w - 1);
    var hi := (n / 256) % P;
    assert n == 256 * (n / 256) + n % 256;
    assert n / 256 == P * ((n / 256) / P) + hi;
    assert n == 256 * P * ((n / 256) / P) + (n % 256 + 256 * hi);
    assert 0 <= n % 256 + 256 * hi < 256 * P by {
      MulMonotone(256, hi, P - 1);
    }
    DivModUnique(n, 256 * P, (n / 256) / P, n % 256 + 256 * hi);
  }

  /** Reading back the little-endian image of n in w bytes gives n modulo 256^w. */
  lemma {:induction false} FromLittleEndianInverse(n: int, w: nat)
    ensures FromLittleEndian(LittleEndian(n, w)) == n % Pow256(w)
    decreases w
  {
    if w > 0 {
      assert LittleEndian(n, w)[1..] == LittleEndian(n / 256, w - 1);
      FromLittleEndianInverse(n / 256, w - 1);
      PlaceValue(n, w);
    }
  }

  /** Every byte string is the little-endian image of the number it denotes. */
  lemma {:induction false} LittleEndianInverse(s: seq<byte>)
    ensures LittleEndian(FromLittleEndian(s), |s|) == s
  {
    if s != [] {
      DivModUnique(FromLittleEndian(s), 256, FromLittleEndian(s[1..]), s[0]);
      LittleEndianInverse(s[1..]);
    }
  }

  /** Reading back the big-endian image of n in w bytes gives n modulo 256^w. */
  lemma {:induction false} FromBigEndianInverse(n: int, w: nat)
    ensures FromBigEndian(BigEndian(n, w)) == n % Pow256(w)
    decreases w
  {
    if w > 0 {
      var s := BigEndian(n, w);
      assert s[..w - 1] == BigEndian(n / 256, w - 1);
      FromBigEndianInverse(n / 256, w - 1);
      PlaceValue(n, w);
    }
  }

  /** Every byte string is the big-endian image of the number it denotes. */
  lemma {:induction false} BigEndianInverse(s: seq<byte>)
    ensures BigEndian(FromBigEndian(s), |s|) == s
  {
    if s != [] {
      var init := s[..|s| - 1];
      DivModUnique(FromBigEndian(s), 256, FromBigEndian(init), s[|s| - 1]);
      BigEndianInverse(init);
      assert s == init + [s[|s| - 1]];
    }
  }

  /** Any n congruent to the number s denotes, modulo 256^|s|, has little-endian image s. */
  lemma LittleEndianOfCongruent(n: int, s: seq<byte>)
    requires n % Pow256(|s|) == FromLittleEndian(s)
    ensures LittleEndian(n, |s|) == s
  {
    FromLittleEndianInverse(n, |s|);
    LittleEndianInverse(LittleEndian(n, |s|));
    LittleEndianInverse(s);
  }

  /** Any n congruent to the number s denotes, modulo 256^|s|, has big-endian image s. */
  lemma BigEndianOfCongruent(n: int, s: seq<byte>)
    requires n % Pow256(|s|) == FromBigEndian(s)
    ensures BigEndian(n, |s|) == s
  {
    FromBigEndianInverse(n, |s|);
    BigEndianInverse(BigEndian(n, |s|));
    BigEndianInverse(s);
  }
}
