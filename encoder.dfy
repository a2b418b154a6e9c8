/**
 * The encoder the Rust generator emits for each struct
 * (generator/rust/src/lib.rs, encode_item and encode_fn), written as methods
 * over a byte buffer and proved against the wire format of the Layout module.
 *
 * A `&mut [u8]` being consumed from the front is modelled as the array buf
 * with a cursor pos and an end hi; `buf = &mut buf[n..]` advances pos.
 * A panic (a slice out of bounds or a failed assert!) ends the method with
 * ok == false; the generated code never returns Err itself, because every
 * runtime call gets a slice of exactly its own size.
 */
module Encoder {
  import opened Wrappers
  import opened Bytes
  import opened Schema
  import opened Layout
  import P = Primitive

  // ---------------------------------------------------------------------------
  // encode_buf
  // ---------------------------------------------------------------------------

  /**
   * single_item of encode_item: one value of type t written at pos in the
   * item's byte order. It panics only when the slice it takes is past hi or a
   * nested struct's counts disagree.
   */
  method EncodeValue(structs: seq<Struct>, ghost rank: map<string, nat>, t: Type, big: bool, v: Value,
                     buf: array<byte>, pos: nat, hi: nat) returns (ok: bool, next: nat)
    requires Supported(structs, rank) && HasType(structs, t, v)
    requires pos <= hi <= buf.Length
    modifies buf
    ensures ok ==> CountsAgree(structs, t, v)
    ensures ok ==> next == pos + |Wire(structs, t, big, v)| <= hi
    ensures ok ==> Spliced(old(buf[..]), buf[..], pos, Wire(structs, t, big, v))
    ensures hi - pos >= SizeOf(structs, t, v) && CountsAgree(structs, t, v) ==> ok
    decreases v, 2
  {
    if IsFixedWidth(t) {
      // self.var.encode_le(&mut buf[..size])
      var size := TypeSize(t);
      if hi - pos < size {
        return false, pos;
      }
      var r := P.Encode(PrimOf(t), big, v.n, buf, pos, pos + size);
      return true, pos + size;
    } else if t.String? {
      // (self.var.len() as u16).encode_le(&mut buf[..2]); then the bytes
      if hi - pos < 2 {
        return false, pos;
      }
      ghost var orig := buf[..];
      var len := |v.bytes|;
      var prefix := P.ToBytes(P.U16, big, len % 0x1_0000);
      var r := P.Encode(P.U16, big, len % 0x1_0000, buf, pos, pos + 2);
      if hi - (pos + 2) < len {
        return false, pos;
      }
      ghost var mid := buf[..];
      forall k | pos + 2 <= k < pos + 2 + len {
        buf[k] := v.bytes[k - (pos + 2)];
      }
      ghost var last, off := buf[..], pos + 2;
      forall k | 0 <= k < |last|
        ensures SplicedAt(mid, last, off, v.bytes, k)
      {
      }
      SplicedTwice(orig, mid, last, pos, prefix, off, v.bytes, Wire(structs, t, big, v));
      return true, pos + 2 + len;
    } else {
      // self.var.encode_buf(&mut buf[..self.var.size()])
      var s := Lookup(structs, t.name).value;
      LookupSupported(structs, rank, t.name);
      var size := SizeFields(structs, s.items, v, |s.items|);
      if hi - pos < size {
        return false, pos;
      }
      ok := EncodeStruct(structs, rank, s, v, buf, pos, pos + size);
      if ok {
        FieldsWireLength(structs, s.items, v, |s.items|);
      }
      return ok, pos + size;
    }
  }

  /**
   * encode_item for items[i] of a struct whose value is rec: a scalar, or an
   * array, whose length `[f]` first checks against its count field.
   */
  method EncodeItem(structs: seq<Struct>, ghost rank: map<string, nat>, items: seq<Item>, rec: Value, i: nat,
                    buf: array<byte>, pos: nat, hi: nat) returns (ok: bool, next: nat)
    requires Supported(structs, rank) && rec.Rec? && i < |items| && i < |rec.fields|
    requires SupportedItem(structs, items, i) && ItemHasType(structs, items[i], rec.fields[i])
    requires pos <= hi <= buf.Length
    modifies buf
    ensures ok ==> ItemCountsAgree(structs, items[i], rec.fields[i], VarCount(items, rec, items[i]))
    ensures ok ==> next == pos + |ItemWire(structs, items[i], rec.fields[i])| <= hi
    ensures ok ==> Spliced(old(buf[..]), buf[..], pos, ItemWire(structs, items[i], rec.fields[i]))
    ensures (hi - pos >= ItemSize(structs, items[i], rec.fields[i], VarCount(items, rec, items[i]))
      && ItemCountsAgree(structs, items[i], rec.fields[i], VarCount(items, rec, items[i]))) ==> ok
    decreases rec.fields[i], 3
  {
    var item, v := items[i], rec.fields[i];
    if item.arrayKind.None? {
      ok, next := EncodeValue(structs, rank, item.kind, item.byteOrder == Big, v, buf, pos, hi);
      return;
    }
    var a := item.arrayKind.value;
    // assert!(self.var.len() == self.f as usize)
    if a.Variable? && |v.elems| != CountOf(items, rec, a.field) {
      return false, pos;
    }
    ItemSizeIsSum(structs, item, v, VarCount(items, rec, item));
    ok, next := EncodeArray(structs, rank, item, v, buf, pos, hi);
  }

  /** An array item after its count check: the prefix of `[]`, then the elements. */
  method EncodeArray(structs: seq<Struct>, ghost rank: map<string, nat>, item: Item, v: Value,
                     buf: array<byte>, pos: nat, hi: nat) returns (ok: bool, next: nat)
    requires Supported(structs, rank) && item.arrayKind.Some? && ItemHasType(structs, item, v)
    requires item.arrayKind.value.Unknown? ==> IsInteger(item.arrayKind.value.prefix)
    requires pos <= hi <= buf.Length
    modifies buf
    ensures ok ==> forall k :: 0 <= k < |v.elems| ==> CountsAgree(structs, item.kind, v.elems[k])
    ensures ok ==> next == pos + |ItemWire(structs, item, v)| <= hi
    ensures ok ==> Spliced(old(buf[..]), buf[..], pos, ItemWire(structs, item, v))
    ensures (hi - pos >= PrefixSize(item.arrayKind.value) + SizeSum(structs, item.kind, v, |v.elems|)
      && forall k :: 0 <= k < |v.elems| ==> CountsAgree(structs, item.kind, v.elems[k])) ==> ok
    decreases v, 2
  {
    var a, big := item.arrayKind.value, item.byteOrder == Big;
    ghost var elems := WireElems(structs, item.kind, big, v, |v.elems|);
    if a.Unknown? {
      // (self.var.len() as T).encode_le(&mut buf[..size_of T])
      var size := TypeSize(a.prefix);
      if hi - pos < size {
        return false, pos;
      }
      ghost var orig := buf[..];
      var r := P.Encode(PrimOf(a.prefix), big, Wrap(a.prefix, |v.elems|), buf, pos, pos + size);
      ghost var mid := buf[..];
      ok, next := EncodeElems(structs, rank, item.kind, big, v, buf, pos + size, hi);
      if ok {
        SplicedTwice(orig, mid, buf[..], pos, PrefixBytes(a, big, |v.elems|), pos + size, elems,
          ItemWire(structs, item, v));
      }
    } else {
      ok, next := EncodeElems(structs, rank, item.kind, big, v, buf, pos, hi);
      assert ItemWire(structs, item, v) == [] + elems == elems;
    }
  }

  /** The loop `for idx in 0..self.var.len()` of encode_item: each element in turn. */
  method EncodeElems(structs: seq<Struct>, ghost rank: map<string, nat>, t: Type, big: bool, arr: Value,
                     buf: array<byte>, pos: nat, hi: nat) returns (ok: bool, next: nat)
    requires Supported(structs, rank) && arr.Arr?
    requires forall k {:trigger HasType(structs, t, arr.elems[k])} :: 0 <= k < |arr.elems| ==> HasType(structs, t, arr.elems[k])
    requires pos <= hi <= buf.Length
    modifies buf
    ensures ok ==> forall k {:trigger CountsAgree(structs, t, arr.elems[k])} :: 0 <= k < |arr.elems| ==> CountsAgree(structs, t, arr.elems[k])
    ensures ok ==> next == pos + |WireElems(structs, t, big, arr, |arr.elems|)| <= hi
    ensures ok ==> Spliced(old(buf[..]), buf[..], pos, WireElems(structs, t, big, arr, |arr.elems|))
    ensures (hi - pos >= SizeSum(structs, t, arr, |arr.elems|)
      && forall k {:trigger CountsAgree(structs, t, arr.elems[k])} :: 0 <= k < |arr.elems| ==> CountsAgree(structs, t, arr.elems[k])) ==> ok
    decreases arr, 1
  {
    ghost var orig := buf[..];
    SplicedNothing(orig, pos);
    var n, p := |arr.elems|, pos;
    for k := 0 to n
      invariant p == pos + SizeSum(structs, t, arr, k) <= hi
      invariant |WireElems(structs, t, big, arr, k)| == SizeSum(structs, t, arr, k)
      invariant Spliced(orig, buf[..], pos, WireElems(structs, t, big, arr, k))
      invariant forall j {:trigger CountsAgree(structs, t, arr.elems[j])} :: 0 <= j < k ==> CountsAgree(structs, t, arr.elems[j])
    {
      var okElem, nextElem := EncodeElem(structs, rank, t, big, arr, k, buf, pos, p, hi, orig);
      if !okElem {
        return false, pos;
      }
      p := nextElem;
    }
    assert Spliced(orig, buf[..], pos, WireElems(structs, t, big, arr, |arr.elems|));
    return true, p;
  }

  /** One pass of the element loop: element k written right behind the ones before it. */
  method EncodeElem(structs: seq<Struct>, ghost rank: map<string, nat>, t: Type, big: bool, arr: Value, k: nat,
                    buf: array<byte>, pos: nat, p: nat, hi: nat, ghost orig: seq<byte>) returns (ok: bool, next: nat)
    requires Supported(structs, rank) && arr.Arr? && k < |arr.elems|
    requires forall j {:trigger HasType(structs, t, arr.elems[j])} :: 0 <= j < |arr.elems| ==> HasType(structs, t, arr.elems[j])
    requires p == pos + SizeSum(structs, t, arr, k) <= hi <= buf.Length
    requires |WireElems(structs, t, big, arr, k)| == SizeSum(structs, t, arr, k)
    requires Spliced(orig, buf[..], pos, WireElems(structs, t, big, arr, k))
    modifies buf
    ensures ok ==> CountsAgree(structs, t, arr.elems[k])
    ensures ok ==> next == pos + SizeSum(structs, t, arr, k + 1) <= hi
    ensures ok ==> |WireElems(structs, t, big, arr, k + 1)| == SizeSum(structs, t, arr, k + 1)
    ensures ok ==> Spliced(orig, buf[..], pos, WireElems(structs, t, big, arr, k + 1))
    ensures (hi - pos >= SizeSum(structs, t, arr, |arr.elems|)
      && forall j {:trigger CountsAgree(structs, t, arr.elems[j])} :: 0 <= j < |arr.elems| ==> CountsAgree(structs, t, arr.elems[j]))
      ==> ok
    decreases arr, 0
  {
    ghost var before := buf[..];
    ok, next := EncodeValue(structs, rank, t, big, arr.elems[k], buf, p, hi);
    if !ok {
      ElemsStop(structs, t, arr, k, hi - pos);
      return;
    }
    ElemsStep(structs, t, big, arr, k, orig, before, buf[..], pos, p);
  }

  /** An element that does not fit in what the earlier ones left, or whose counts disagree, rules out the whole array. */
  lemma ElemsStop(structs: seq<Struct>, t: Type, arr: Value, k: nat, room: int)
    requires arr.Arr? && k < |arr.elems|
    requires !(room - SizeSum(structs, t, arr, k) >= SizeOf(structs, t, arr.elems[k]) && CountsAgree(structs, t, arr.elems[k]))
    ensures !(room >= SizeSum(structs, t, arr, |arr.elems|)
      && forall j {:trigger CountsAgree(structs, t, arr.elems[j])} :: 0 <= j < |arr.elems| ==> CountsAgree(structs, t, arr.elems[j]))
  {
    SizeSumMonotone(structs, t, arr, k + 1, |arr.elems|);
  }

  /**
   * encode_buf: assert! that the buffer holds size() bytes, then every item in
   * declaration order. It completes exactly when the buffer is large enough
   * and every variable-sized array matches its count.
   */
  method EncodeStruct(structs: seq<Struct>, ghost rank: map<string, nat>, s: Struct, v: Value,
                      buf: array<byte>, lo: nat, hi: nat) returns (ok: bool)
    requires Supported(structs, rank) && v.Rec? && RecordHasType(structs, s.items, v)
    requires forall i :: 0 <= i < |s.items| ==> SupportedItem(structs, s.items, i)
    requires lo <= hi <= buf.Length
    modifies buf
    ensures ok <==> hi - lo >= SizeFields(structs, s.items, v, |s.items|) && RecordCountsAgree(structs, s.items, v)
    ensures ok ==> Spliced(old(buf[..]), buf[..], lo, WireFields(structs, s.items, v, |s.items|))
    decreases v, 1
  {
    var items := s.items;
    if hi - lo < SizeFields(structs, items, v, |items|) {
      return false;
    }
    ghost var orig := buf[..];
    SplicedNothing(orig, lo);
    var pos := lo;
    for i := 0 to |items|
      invariant pos == lo + SizeFields(structs, items, v, i) <= hi
      invariant forall j :: 0 <= j < i ==> FieldCountsAgree(structs, items, v, j)
      invariant |WireFields(structs, items, v, i)| == SizeFields(structs, items, v, i)
      invariant Spliced(orig, buf[..], lo, WireFields(structs, items, v, i))
    {
      var okField, next := EncodeField(structs, rank, items, v, i, buf, lo, pos, hi, orig);
      if !okField {
        return false;
      }
      pos := next;
    }
    assert Spliced(orig, buf[..], lo, WireFields(structs, s.items, v, |s.items|));
    return true;
  }

  /**
   * encode(): a zeroed vector of size() bytes, filled by encode_buf. It panics
   * exactly when a variable-sized array disagrees with its count field, and
   * otherwise returns the struct's wire bytes and nothing more.
   */
  method EncodeNew(structs: seq<Struct>, ghost rank: map<string, nat>, name: string, v: Value)
      returns (ok: bool, out: seq<byte>)
    requires Supported(structs, rank) && Lookup(structs, name).Some? && HasType(structs, User(name), v)
    ensures ok <==> CountsAgree(structs, User(name), v)
    ensures ok ==> out == Wire(structs, User(name), false, v)
  {
    var s := Lookup(structs, name).value;
    LookupSupported(structs, rank, name);
    var size := SizeOf(structs, User(name), v);
    var buf := new byte[size](_ => 0);
    ghost var zeroed := buf[..];
    ok := EncodeStruct(structs, rank, s, v, buf, 0, size);
    out := buf[..];
    if ok {
      FieldsWireLength(structs, s.items, v, |s.items|);
      SplicedAll(zeroed, buf[..], WireFields(structs, s.items, v, |s.items|));
    }
  }

  /**
   * One pass of the loop in the generated encode_buf: item i written at pos,
   * right behind the items before it.
   */
  method EncodeField(structs: seq<Struct>, ghost rank: map<string, nat>, items: seq<Item>, v: Value, i: nat,
                     buf: array<byte>, lo: nat, pos: nat, hi: nat, ghost orig: seq<byte>)
      returns (ok: bool, next: nat)
    requires Supported(structs, rank) && v.Rec? && RecordHasType(structs, items, v)
    requires forall j :: 0 <= j < |items| ==> SupportedItem(structs, items, j)
    requires i < |items| && hi <= buf.Length
    requires pos == lo + SizeFields(structs, items, v, i) <= hi
    requires |WireFields(structs, items, v, i)| == SizeFields(structs, items, v, i)
    requires Spliced(orig, buf[..], lo, WireFields(structs, items, v, i))
    modifies buf
    ensures ok ==> FieldCountsAgree(structs, items, v, i)
    ensures ok ==> next == lo + SizeFields(structs, items, v, i + 1) <= hi
    ensures ok ==> |WireFields(structs, items, v, i + 1)| == SizeFields(structs, items, v, i + 1)
    ensures ok ==> Spliced(orig, buf[..], lo, WireFields(structs, items, v, i + 1))
    ensures (hi - lo >= SizeFields(structs, items, v, |items|) && FieldCountsAgree(structs, items, v, i)) ==> ok
    decreases v, 0
  {
    if hi - lo >= SizeFields(structs, items, v, |items|) {
      FieldRoom(structs, items, v, i, hi - lo);
    }
    assert FieldHasType(structs, items, v, i);
    ghost var before := buf[..];
    ok, next := EncodeItem(structs, rank, items, v, i, buf, pos, hi);
    if ok {
      FieldsStep(structs, items, v, i, orig, before, buf[..], lo, pos);
    }
  }

  /** One more element written behind the ones before it extends the splice and its length. */
  lemma ElemsStep(structs: seq<Struct>, t: Type, big: bool, arr: Value, k: nat,
                  orig: seq<byte>, before: seq<byte>, after: seq<byte>, pos: nat, p: nat)
    requires arr.Arr? && k < |arr.elems|
    requires HasType(structs, t, arr.elems[k]) && CountsAgree(structs, t, arr.elems[k])
    requires Spliced(orig, before, pos, WireElems(structs, t, big, arr, k))
    requires p == pos + |WireElems(structs, t, big, arr, k)|
    requires Spliced(before, after, p, Wire(structs, t, big, arr.elems[k]))
    ensures Spliced(orig, after, pos, WireElems(structs, t, big, arr, k + 1))
    ensures |WireElems(structs, t, big, arr, k + 1)| == |WireElems(structs, t, big, arr, k)| + SizeOf(structs, t, arr.elems[k])
    ensures SizeSum(structs, t, arr, k + 1) == SizeSum(structs, t, arr, k) + SizeOf(structs, t, arr.elems[k])
  {
    SplicedTwice(orig, before, after, pos, WireElems(structs, t, big, arr, k), p,
      Wire(structs, t, big, arr.elems[k]), WireElems(structs, t, big, arr, k + 1));
    WireLength(structs, t, big, arr.elems[k]);
  }

  /** Room for all the items leaves room for item i after the ones before it. */
  lemma FieldRoom(structs: seq<Struct>, items: seq<Item>, rec: Value, i: nat, room: int)
    requires rec.Rec? && i < |items| <= |rec.fields|
    requires room >= SizeFields(structs, items, rec, |items|)
    ensures room - SizeFields(structs, items, rec, i) >= ItemSize(structs, items[i], rec.fields[i], VarCount(items, rec, items[i]))
  {
    SizeFieldsMonotone(structs, items, rec, i + 1, |items|);
  }

  /** One more item written behind the ones before it extends the splice and its length. */
  lemma FieldsStep(structs: seq<Struct>, items: seq<Item>, rec: Value, i: nat,
                   orig: seq<byte>, before: seq<byte>, after: seq<byte>, lo: nat, pos: nat)
    requires rec.Rec? && i < |items| <= |rec.fields|
    requires ItemHasType(structs, items[i], rec.fields[i])
    requires ItemCountsAgree(structs, items[i], rec.fields[i], VarCount(items, rec, items[i]))
    requires Spliced(orig, before, lo, WireFields(structs, items, rec, i))
    requires pos == lo + |WireFields(structs, items, rec, i)|
    requires Spliced(before, after, pos, ItemWire(structs, items[i], rec.fields[i]))
    ensures Spliced(orig, after, lo, WireFields(structs, items, rec, i + 1))
    ensures |WireFields(structs, items, rec, i + 1)| == |WireFields(structs, items, rec, i)|
      + ItemSize(structs, items[i], rec.fields[i], VarCount(items, rec, items[i]))
    ensures SizeFields(structs, items, rec, i + 1) == SizeFields(structs, items, rec, i)
      + ItemSize(structs, items[i], rec.fields[i], VarCount(items, rec, items[i]))
  {
    SplicedTwice(orig, before, after, lo, WireFields(structs, items, rec, i), pos,
      ItemWire(structs, items[i], rec.fields[i]), WireFields(structs, items, rec, i + 1));
    ItemWireLength(structs, items[i], rec.fields[i], VarCount(items, rec, items[i]));
  }
}
