/**
 * The decoder the Rust generator emits for each struct
 * (generator/rust/src/lib.rs, decode_item and decode_fn), written as methods
 * over the input bytes and proved to be the inverse of the Encoder: whatever
 * it accepts is a valid value followed by that value's wire bytes, and it
 * accepts the wire bytes of every valid value, giving that value back.
 *
 * The `&[u8]` consumed from the front is modelled as data with a cursor pos;
 * `data = &data[n..]` advances pos. A panic (a slice out of bounds, the entry
 * assert! of decode) ends the method with ok == false; the generated code
 * never returns Err itself. Every struct is decoded into its Default value,
 * as decode_new does and as every nested decode in the generated code does.
 *
 * The ghost parameter want names the value whose wire bytes the caller knows
 * to be at pos (None when it knows of none); it only states completeness.
 */
module Decoder {
  import opened Wrappers
  import opened Bytes
  import opened Schema
  import opened Layout
  import P = Primitive
  import Encoder

  /** The types single_item can read: CString is todo!() and a user type must exist. */
  predicate Readable(structs: seq<Struct>, t: Type) {
    !t.CString? && (t.User? ==> Lookup(structs, t.name).Some?)
  }

  /** The items decode_item compiles for: readable elements, and an integer `[]` prefix. */
  predicate ItemReadable(structs: seq<Struct>, item: Item) {
    Readable(structs, item.kind)
    && (item.arrayKind.Some? && item.arrayKind.value.Unknown? ==> IsInteger(item.arrayKind.value.prefix))
  }

  /**
   * Termination: every struct nested by value has a lower rank, and a Vec's
   * elements start past its `[]` prefix or past its count field `[f]`, which
   * comes earlier in the struct; Lead gives the `[f]` item credit for that field.
   */
  function Lead(item: Item): nat {
    if item.arrayKind.Some? && item.arrayKind.value.Variable? then 1 else 0
  }

  // ---------------------------------------------------------------------------
  // single_item
  // ---------------------------------------------------------------------------

  /** A number: decode_le/decode_be on `&data[..size]`, which panics when fewer than size bytes are left. */
  method DecodeNumber(t: Type, big: bool, data: seq<byte>, pos: nat, ghost want: Option<int>)
      returns (ok: bool, n: int, next: nat)
    requires IsFixedWidth(t) && pos <= |data|
    requires want.Some? ==> P.InRange(PrimOf(t), want.value) && At(data, pos, P.ToBytes(PrimOf(t), big, want.value))
    ensures ok <==> |data| - pos >= TypeSize(t)
    ensures ok ==> P.InRange(PrimOf(t), n) && next == pos + TypeSize(t)
    ensures ok ==> At(data, pos, P.ToBytes(PrimOf(t), big, n))
    ensures want.Some? ==> ok && n == want.value
  {
    var p, size := PrimOf(t), TypeSize(t);
    if |data| - pos < size {
      return false, 0, pos;
    }
    var _, m := P.Decode(p, big, 0, data[pos..pos + size]);
    assert data[pos..pos + size][..size] == data[pos..pos + size];
    P.ToBytesFromBytes(p, big, data[pos..pos + size]);
    if want.Some? {
      P.FromBytesToBytes(p, big, want.value);
    }
    return true, m, pos + size;
  }

  /**
   * A string: its u16 length from `&data[..2]`, then that many bytes from
   * `&data[..tmp_len]`; either slice panics when the data is too short.
   */
  method DecodeString(big: bool, data: seq<byte>, pos: nat, ghost want: Option<seq<byte>>)
      returns (ok: bool, bytes: seq<byte>, next: nat)
    requires pos <= |data|
    requires want.Some? ==> |want.value| < 0x1_0000 && At(data, pos, P.ToBytes(P.U16, big, |want.value|) + want.value)
    ensures ok ==> |bytes| < 0x1_0000 && next == pos + 2 + |bytes|
    ensures ok ==> At(data, pos, P.ToBytes(P.U16, big, |bytes|) + bytes)
    ensures want.Some? ==> ok && bytes == want.value
  {
    if want.Some? {
      AtAppend(data, pos, P.ToBytes(P.U16, big, |want.value|), want.value);
    }
    var okLen, len, start := DecodeNumber(U16, big, data, pos, if want.Some? then Some(|want.value|) else None);
    if !okLen || |data| - start < len {
      return false, [], pos;
    }
    bytes := data[start..start + len];
    AtAppend(data, pos, P.ToBytes(P.U16, big, len), bytes);
    return true, bytes, start + len;
  }

  /**
   * single_item of decode_item: one value of type t read at pos in the item's
   * byte order. A struct is decoded from all the rest of the data, and the
   * cursor then moves by the decoded struct's size().
   */
  method DecodeValue(structs: seq<Struct>, ghost rank: map<string, nat>, t: Type, big: bool,
                     data: seq<byte>, pos: nat, ghost want: Option<Value>) returns (ok: bool, v: Value, next: nat)
    requires Supported(structs, rank) && Readable(structs, t) && pos <= |data|
    requires want.Some? ==> Valid(structs, t, want.value) && At(data, pos, Wire(structs, t, big, want.value))
    ensures ok ==> Valid(structs, t, v) && next == pos + |Wire(structs, t, big, v)|
    ensures ok ==> At(data, pos, Wire(structs, t, big, v))
    ensures want.Some? ==> ok && v == want.value
    decreases |data| - pos, Height(rank, t), 4
  {
    if IsFixedWidth(t) {
      var n;
      ok, n, next := DecodeNumber(t, big, data, pos, if want.Some? then Some(want.value.n) else None);
      v := Num(n);
    } else if t.String? {
      if want.Some? {
        var b := want.value.bytes;
        assert |b| % 0x1_0000 == |b|;
      }
      var bytes;
      ok, bytes, next := DecodeString(big, data, pos, if want.Some? then Some(want.value.bytes) else None);
      v := Str(bytes);
      if ok {
        assert |bytes| % 0x1_0000 == |bytes|;
      }
    } else {
      if want.Some? {
        WireIgnoresOrder(structs, t.name, big, want.value);
      }
      ok, v := DecodeStruct(structs, rank, t.name, data, pos, want);
      next := pos;
      if ok {
        WireIgnoresOrder(structs, t.name, big, v);
        WireLength(structs, t, big, v);
        next := pos + SizeOf(structs, t, v);
      }
    }
  }

  // ---------------------------------------------------------------------------
  // decode
  // ---------------------------------------------------------------------------

  /**
   * decode on a Default receiver: assert! that the data holds the default's
   * size(), then every item in declaration order, each overwriting its field.
   */
  method DecodeStruct(structs: seq<Struct>, ghost rank: map<string, nat>, name: string,
                      data: seq<byte>, pos: nat, ghost want: Option<Value>) returns (ok: bool, v: Value)
    requires Supported(structs, rank) && Lookup(structs, name).Some? && pos <= |data|
    requires want.Some? ==> Valid(structs, User(name), want.value) && At(data, pos, Wire(structs, User(name), false, want.value))
    ensures ok ==> Valid(structs, User(name), v) && At(data, pos, Wire(structs, User(name), false, v))
    ensures want.Some? ==> ok && v == want.value
    decreases |data| - pos, Height(rank, User(name)), 3
  {
    var items := Lookup(structs, name).value.items;
    LookupSupported(structs, rank, name);
    var self := DefaultOf(structs, User(name), rank);
    if want.Some? {
      StructWanted(structs, rank, name, items, want.value, data, pos);
    }
    if |data| - pos < SizeOf(structs, User(name), self) {
      return false, self;
    }
    var fields;
    ok, fields := DecodeFields(structs, rank, items, Height(rank, User(name)), self.fields, data, pos, want);
    v := Rec(fields);
    if ok {
      StructDecoded(structs, name, items, v, data, pos);
    }
  }

  /** decode's item loop: every item in declaration order, each overwriting its field of the receiver. */
  method DecodeFields(structs: seq<Struct>, ghost rank: map<string, nat>, items: seq<Item>, ghost height: nat,
                      fields0: seq<Value>, data: seq<byte>, pos: nat, ghost want: Option<Value>)
      returns (ok: bool, fields: seq<Value>)
    requires Supported(structs, rank) && pos <= |data| && |fields0| == |items|
    requires forall j :: 0 <= j < |items| ==> SupportedItem(structs, items, j)
    requires forall j :: 0 <= j < |items| ==> ItemHeight(rank, items[j]) < height
    requires want.Some? ==> (want.value.Rec? && |want.value.fields| == |items|
      && FieldsValid(structs, items, want.value, |items|)
      && At(data, pos, WireFields(structs, items, want.value, |items|)))
    ensures ok ==> |fields| == |items| && FieldsValid(structs, items, Rec(fields), |items|)
    ensures ok ==> At(data, pos, WireFields(structs, items, Rec(fields), |items|))
    ensures want.Some? ==> ok && fields == want.value.fields
    decreases |data| - pos, height, 2
  {
    fields := fields0;
    var p := pos;
    for i := 0 to |items|
      invariant |fields| == |items|
      invariant FieldsValid(structs, items, Rec(fields), i)
      invariant p == pos + |WireFields(structs, items, Rec(fields), i)|
      invariant At(data, pos, WireFields(structs, items, Rec(fields), i))
      invariant want.Some? ==> forall j :: 0 <= j < i ==> fields[j] == want.value.fields[j]
    {
      var okField, x, next := DecodeField(structs, rank, items, height, fields, i, data, pos, p, want);
      if !okField {
        return false, fields;
      }
      fields := fields[i := x];
      p := next;
    }
    return true, fields;
  }

  /** One pass of decode's item loop: item i read at p, right behind the items before it. */
  method DecodeField(structs: seq<Struct>, ghost rank: map<string, nat>, items: seq<Item>, ghost height: nat,
                     fields: seq<Value>, i: nat, data: seq<byte>, pos: nat, p: nat, ghost want: Option<Value>)
      returns (ok: bool, x: Value, next: nat)
    requires Supported(structs, rank)
    requires forall j :: 0 <= j < |items| ==> SupportedItem(structs, items, j)
    requires forall j :: 0 <= j < |items| ==> ItemHeight(rank, items[j]) < height
    requires i < |items| == |fields|
    requires FieldsValid(structs, items, Rec(fields), i)
    requires p == pos + |WireFields(structs, items, Rec(fields), i)|
    requires At(data, pos, WireFields(structs, items, Rec(fields), i))
    requires want.Some? ==> (want.value.Rec? && |want.value.fields| == |items|
      && FieldsValid(structs, items, want.value, |items|)
      && At(data, pos, WireFields(structs, items, want.value, |items|))
      && forall j :: 0 <= j < i ==> fields[j] == want.value.fields[j])
    ensures ok ==> FieldsValid(structs, items, Rec(fields[i := x]), i + 1)
    ensures ok ==> next == pos + |WireFields(structs, items, Rec(fields[i := x]), i + 1)|
    ensures ok ==> At(data, pos, WireFields(structs, items, Rec(fields[i := x]), i + 1))
    ensures want.Some? ==> ok && x == want.value.fields[i]
    decreases |data| - pos, height, 1
  {
    var item := items[i];
    var count := VarCount(items, Rec(fields), item);
    ghost var wantItem: Option<Value> := None;
    assert SupportedItem(structs, items, i);
    assert ItemReadable(structs, item) && ItemHeight(rank, item) < height;
    if item.arrayKind.Some? && item.arrayKind.value.Variable? {
      CountFieldRead(structs, items, fields, i);
    }
    if want.Some? {
      FieldWantedValid(structs, items, fields, i, want.value);
      FieldWanted(structs, items, fields, i, want.value, data, pos);
      wantItem := Some(want.value.fields[i]);
    }
    ok, x, next := DecodeItem(structs, rank, item, count, data, p, wantItem);
    if ok {
      FieldsValidStep(structs, items, fields, i, x);
      FieldDecoded(structs, items, fields, i, x, data, pos, p);
    }
  }

  /** decode_item: a scalar item is one single_item; an array item is its count and its elements. */
  method DecodeItem(structs: seq<Struct>, ghost rank: map<string, nat>, item: Item, count: nat,
                    data: seq<byte>, p: nat, ghost want: Option<Value>) returns (ok: bool, x: Value, next: nat)
    requires Supported(structs, rank) && ItemReadable(structs, item) && p <= |data|
    requires want.Some? ==> ItemValid(structs, item, want.value, count) && At(data, p, ItemWire(structs, item, want.value))
    ensures ok ==> ItemValid(structs, item, x, count) && next == p + |ItemWire(structs, item, x)|
    ensures ok ==> At(data, p, ItemWire(structs, item, x))
    ensures want.Some? ==> ok && x == want.value
    decreases |data| - p + Lead(item), ItemHeight(rank, item), 8
  {
    if item.arrayKind.None? {
      ok, x, next := DecodeValue(structs, rank, item.kind, item.byteOrder == Big, data, p, want);
    } else {
      ok, x, next := DecodeArray(structs, rank, item, count, data, p, want);
    }
  }

  /** An array item: its element count (and `[]`'s prefix), then that many elements. */
  method DecodeArray(structs: seq<Struct>, ghost rank: map<string, nat>, item: Item, count: nat,
                     data: seq<byte>, p: nat, ghost want: Option<Value>) returns (ok: bool, x: Value, next: nat)
    requires Supported(structs, rank) && ItemReadable(structs, item) && item.arrayKind.Some? && p <= |data|
    requires want.Some? ==> ItemValid(structs, item, want.value, count) && At(data, p, ItemWire(structs, item, want.value))
    ensures ok ==> ItemValid(structs, item, x, count) && next == p + |ItemWire(structs, item, x)|
    ensures ok ==> At(data, p, ItemWire(structs, item, x))
    ensures want.Some? ==> ok && x == want.value
    decreases |data| - p + Lead(item), ItemHeight(rank, item), 7
  {
    var a, big := item.arrayKind.value, item.byteOrder == Big;
    ghost var wantCount: Option<nat> := None;
    ghost var wantElems: Option<seq<Value>> := None;
    if want.Some? {
      ArrayWanted(structs, item, a, big, count, want.value, data, p);
      wantCount, wantElems := Some(|want.value.elems|), Some(want.value.elems);
    }
    var okCount, n, q := DecodeCount(a, big, count, data, p, wantCount);
    if !okCount {
      return false, Arr([]), p;
    }
    assert wantElems.Some? ==> n == |wantElems.value| && q == p + |PrefixBytes(a, big, n)|;
    var elems;
    ok, elems, next := DecodeElems(structs, rank, item.kind, big, n, data, q, wantElems);
    x := Arr(elems);
    if ok {
      ArrayDecoded(structs, item, a, big, count, n, x, data, p, q);
    }
  }

  /**
   * n is an element count an array item accepts: the declared size for `[n]`,
   * the count field's value for `[f]`, and for `[]` a count that survives
   * the cast to the prefix type and back.
   */
  ghost predicate CountFits(a: Array, count: nat, n: nat) {
    && (a.Constant? ==> n == a.size)
    && (a.Variable? ==> n == count)
    && (a.Unknown? ==> IsFixedWidth(a.prefix) && Count(Wrap(a.prefix, n)) == n)
  }

  /**
   * The element count of an array item: n for `[n]`, the count field's value
   * for `[f]`, and for `[]` the prefix `tmp_len` read at p, as usize.
   */
  method DecodeCount(a: Array, big: bool, count: nat, data: seq<byte>, p: nat, ghost want: Option<nat>)
      returns (ok: bool, n: nat, q: nat)
    requires p <= |data| && (a.Unknown? ==> IsFixedWidth(a.prefix))
    requires want.Some? ==> At(data, p, PrefixBytes(a, big, want.value)) && CountFits(a, count, want.value)
    ensures ok ==> q == p + |PrefixBytes(a, big, n)| && At(data, p, PrefixBytes(a, big, n))
    ensures ok ==> CountFits(a, count, n)
    ensures want.Some? ==> ok && n == want.value
  {
    if a.Constant? {
      return true, a.size, p;
    } else if a.Variable? {
      return true, count, p;
    }
    var pr := PrimOf(a.prefix);
    var okLen, len, next := DecodeNumber(a.prefix, big, data, p, if want.Some? then Some(Wrap(a.prefix, want.value)) else None);
    if !okLen {
      return false, 0, p;
    }
    WrapCount(a.prefix, len);
    return true, Count(len), next;
  }

  /**
   * The element loop of an array item: n default elements (the `[d; n]`
   * default, or the defaults pushed onto the vector), each overwritten in turn.
   */
  method DecodeElems(structs: seq<Struct>, ghost rank: map<string, nat>, t: Type, big: bool, n: nat,
                     data: seq<byte>, pos: nat, ghost want: Option<seq<Value>>) returns (ok: bool, elems: seq<Value>, next: nat)
    requires Supported(structs, rank) && Readable(structs, t) && pos <= |data|
    requires want.Some? ==> (|want.value| == n && ElemsValid(structs, t, want.value, n)
      && At(data, pos, WireElems(structs, t, big, Arr(want.value), n)))
    ensures ok ==> |elems| == n && ElemsValid(structs, t, elems, n)
    ensures ok ==> next == pos + |WireElems(structs, t, big, Arr(elems), n)|
    ensures ok ==> At(data, pos, WireElems(structs, t, big, Arr(elems), n))
    ensures want.Some? ==> ok && elems == want.value
    decreases |data| - pos, Height(rank, t), 6
  {
    var d := DefaultOf(structs, t, rank);
    elems := seq(n, _ => d);
    var p := pos;
    for k := 0 to n
      invariant |elems| == n
      invariant ElemsValid(structs, t, elems, k)
      invariant p == pos + |WireElems(structs, t, big, Arr(elems), k)|
      invariant At(data, pos, WireElems(structs, t, big, Arr(elems), k))
      invariant want.Some? ==> forall j :: 0 <= j < k ==> elems[j] == want.value[j]
    {
      var okElem, x, nextElem := DecodeElem(structs, rank, t, big, elems, k, data, pos, p, want);
      if !okElem {
        return false, elems, pos;
      }
      elems := elems[k := x];
      p := nextElem;
    }
    return true, elems, p;
  }

  /** One pass of the element loop: element k read right behind the ones before it. */
  method DecodeElem(structs: seq<Struct>, ghost rank: map<string, nat>, t: Type, big: bool, elems: seq<Value>, k: nat,
                    data: seq<byte>, pos: nat, p: nat, ghost want: Option<seq<Value>>) returns (ok: bool, x: Value, next: nat)
    requires Supported(structs, rank) && Readable(structs, t) && k < |elems|
    requires ElemsValid(structs, t, elems, k)
    requires p == pos + |WireElems(structs, t, big, Arr(elems), k)|
    requires At(data, pos, WireElems(structs, t, big, Arr(elems), k))
    requires want.Some? ==> (|want.value| == |elems| && ElemsValid(structs, t, want.value, |elems|)
      && At(data, pos, WireElems(structs, t, big, Arr(want.value), |elems|))
      && forall j :: 0 <= j < k ==> elems[j] == want.value[j])
    ensures ok ==> ElemsValid(structs, t, elems[k := x], k + 1)
    ensures ok ==> next == pos + |WireElems(structs, t, big, Arr(elems[k := x]), k + 1)|
    ensures ok ==> At(data, pos, WireElems(structs, t, big, Arr(elems[k := x]), k + 1))
    ensures want.Some? ==> ok && x == want.value[k]
    decreases |data| - pos, Height(rank, t), 5
  {
    ghost var wantElem: Option<Value> := None;
    if want.Some? {
      assert Valid(structs, t, want.value[k]);
      ElemWanted(structs, t, big, elems, k, want.value, data, pos);
      wantElem := Some(want.value[k]);
    }
    ok, x, next := DecodeValue(structs, rank, t, big, data, p, wantElem);
    if ok {
      ElemsValidStep(structs, t, elems, k, x);
      ElemDecoded(structs, t, big, elems, k, x, data, pos, p);
    }
  }

  /** decode_new: Default::default(), then decode from the start of data. */
  method DecodeNew(structs: seq<Struct>, ghost rank: map<string, nat>, name: string, data: seq<byte>,
                   ghost want: Option<Value>) returns (ok: bool, v: Value)
    requires Supported(structs, rank) && Lookup(structs, name).Some?
    requires want.Some? ==> Valid(structs, User(name), want.value) && At(data, 0, Wire(structs, User(name), false, want.value))
    ensures ok ==> Valid(structs, User(name), v) && At(data, 0, Wire(structs, User(name), false, v))
    ensures want.Some? ==> ok && v == want.value
  {
    ok, v := DecodeStruct(structs, rank, name, data, 0, want);
  }

  /** decode_new(&encode()) gives back every valid value. */
  method RoundTrip(structs: seq<Struct>, ghost rank: map<string, nat>, name: string, v: Value) returns (w: Value)
    requires Supported(structs, rank) && Lookup(structs, name).Some? && Valid(structs, User(name), v)
    ensures w == v
  {
    var okEncode, bytes := Encoder.EncodeNew(structs, rank, name, v);
    assert bytes[0..|bytes|] == bytes;
    var okDecode;
    okDecode, w := DecodeNew(structs, rank, name, bytes, Some(v));
  }

  // ---------------------------------------------------------------------------
  // The steps of the decoder, proved once
  // ---------------------------------------------------------------------------

  /** The bytes of a valid struct value at pos: its fields' bytes, and room for the default's size(). */
  lemma StructWanted(structs: seq<Struct>, rank: map<string, nat>, name: string, items: seq<Item>,
                     w: Value, data: seq<byte>, pos: nat)
    requires Supported(structs, rank) && Lookup(structs, name).Some? && items == Lookup(structs, name).value.items
    requires Valid(structs, User(name), w) && At(data, pos, Wire(structs, User(name), false, w))
    ensures w.Rec? && |w.fields| == |items| && FieldsValid(structs, items, w, |items|)
    ensures At(data, pos, WireFields(structs, items, w, |items|))
    ensures SizeOf(structs, User(name), DefaultOf(structs, User(name), rank)) <= |data| - pos
  {
    assert RecordHasType(structs, items, w);
    RecordValid(structs, items, w);
    DefaultSmallest(structs, User(name), rank, w);
    WireLength(structs, User(name), false, w);
  }

  /** A record of valid fields whose bytes are at pos is a valid struct value whose bytes are at pos. */
  lemma StructDecoded(structs: seq<Struct>, name: string, items: seq<Item>, v: Value, data: seq<byte>, pos: nat)
    requires Lookup(structs, name).Some? && items == Lookup(structs, name).value.items
    requires v.Rec? && |v.fields| == |items| && FieldsValid(structs, items, v, |items|)
    requires At(data, pos, WireFields(structs, items, v, |items|))
    ensures Valid(structs, User(name), v) && At(data, pos, Wire(structs, User(name), false, v))
  {
    RecordValid(structs, items, v);
  }

  /** The count field of an `[f]` item comes before it, so the fields read before the item take at least a byte. */
  lemma CountFieldRead(structs: seq<Struct>, items: seq<Item>, fields: seq<Value>, i: nat)
    requires i < |items| == |fields| && SupportedItem(structs, items, i)
    requires items[i].arrayKind.Some? && items[i].arrayKind.value.Variable?
    requires FieldsValid(structs, items, Rec(fields), i)
    ensures |WireFields(structs, items, Rec(fields), i)| >= 1
  {
    var j := FieldIndex(items, items[i].arrayKind.value.field).value;
    assert FieldValid(structs, items, Rec(fields), j);
    assert HasType(structs, items[j].kind, fields[j]);
    assert |ItemWire(structs, items[j], fields[j])| == P.Width(PrimOf(items[j].kind));
    WireFieldsCover(structs, items, Rec(fields), j, i);
  }

  /** Item i of a valid record is valid under the count the fields read so far give it, when they agree with the record. */
  lemma FieldWantedValid(structs: seq<Struct>, items: seq<Item>, fields: seq<Value>, i: nat, w: Value)
    requires i < |items| == |fields| && SupportedItem(structs, items, i)
    requires w.Rec? && |w.fields| == |items| && FieldsValid(structs, items, w, |items|)
    requires forall j :: 0 <= j < i ==> fields[j] == w.fields[j]
    ensures ItemValid(structs, items[i], w.fields[i], VarCount(items, Rec(fields), items[i]))
  {
    assert FieldValid(structs, items, w, i);
    VarCountPrefix(structs, items, fields, w.fields, i);
  }

  /** Where a record's bytes are at pos, item i's bytes follow those of the first i fields read so far. */
  lemma FieldWanted(structs: seq<Struct>, items: seq<Item>, fields: seq<Value>, i: nat, w: Value, data: seq<byte>, pos: nat)
    requires i < |items| == |fields|
    requires w.Rec? && |w.fields| == |items|
    requires At(data, pos, WireFields(structs, items, w, |items|))
    requires forall j :: 0 <= j < i ==> fields[j] == w.fields[j]
    ensures At(data, pos + |WireFields(structs, items, Rec(fields), i)|, ItemWire(structs, items[i], w.fields[i]))
  {
    WireFieldsFrame(structs, items, fields, w.fields, i);
    FieldAt(structs, items, w, |items|, i, data, pos);
  }

  /** Writing item i's valid value into field i extends the valid prefix by one. */
  lemma FieldsValidStep(structs: seq<Struct>, items: seq<Item>, fields: seq<Value>, i: nat, x: Value)
    requires i < |items| == |fields|
    requires forall j :: 0 <= j < |items| ==> SupportedItem(structs, items, j)
    requires FieldsValid(structs, items, Rec(fields), i)
    requires ItemValid(structs, items[i], x, VarCount(items, Rec(fields), items[i]))
    ensures FieldsValid(structs, items, Rec(fields[i := x]), i + 1)
  {
    var after := fields[i := x];
    forall j | 0 <= j <= i
      ensures FieldValid(structs, items, Rec(after), j)
    {
      VarCountFrame(structs, items, fields, i, x, j);
      if j < i {
        assert FieldValid(structs, items, Rec(fields), j);
      }
    }
  }

  /** Writing field i extends the bytes of the fields read so far by that item's bytes. */
  lemma FieldDecoded(structs: seq<Struct>, items: seq<Item>, fields: seq<Value>, i: nat, x: Value,
                     data: seq<byte>, pos: nat, p: nat)
    requires i < |items| == |fields|
    requires p == pos + |WireFields(structs, items, Rec(fields), i)|
    requires At(data, pos, WireFields(structs, items, Rec(fields), i))
    requires At(data, p, ItemWire(structs, items[i], x))
    ensures At(data, pos, WireFields(structs, items, Rec(fields[i := x]), i + 1))
    ensures |WireFields(structs, items, Rec(fields[i := x]), i + 1)| == p - pos + |ItemWire(structs, items[i], x)|
  {
    var after := fields[i := x];
    var prefix := WireFields(structs, items, Rec(fields), i);
    WireFieldsFrame(structs, items, fields, after, i);
    assert WireFields(structs, items, Rec(after), i + 1) == prefix + ItemWire(structs, items[i], x);
    AtAppend(data, pos, prefix, ItemWire(structs, items[i], x));
  }

  /** The bytes of a valid array item at p: its prefix, then its elements, as many as its count says. */
  lemma ArrayWanted(structs: seq<Struct>, item: Item, a: Array, big: bool, count: nat, w: Value, data: seq<byte>, p: nat)
    requires item.arrayKind == Some(a) && big == (item.byteOrder == Big) && ItemReadable(structs, item)
    requires ItemValid(structs, item, w, count) && At(data, p, ItemWire(structs, item, w))
    ensures w.Arr? && ElemsValid(structs, item.kind, w.elems, |w.elems|)
    ensures At(data, p, PrefixBytes(a, big, |w.elems|))
    ensures At(data, p + |PrefixBytes(a, big, |w.elems|)|, WireElems(structs, item.kind, big, Arr(w.elems), |w.elems|))
    ensures CountFits(a, count, |w.elems|)
  {
    AtAppend(data, p, PrefixBytes(a, big, |w.elems|), WireElems(structs, item.kind, big, w, |w.elems|));
  }

  /** A count the item accepts, its prefix and that many valid elements make a valid array item. */
  lemma ArrayDecoded(structs: seq<Struct>, item: Item, a: Array, big: bool, count: nat, n: nat, x: Value,
                     data: seq<byte>, p: nat, q: nat)
    requires item.arrayKind == Some(a) && big == (item.byteOrder == Big)
    requires x.Arr? && |x.elems| == n && CountFits(a, count, n)
    requires ElemsValid(structs, item.kind, x.elems, n)
    requires q == p + |PrefixBytes(a, big, n)| && At(data, p, PrefixBytes(a, big, n))
    requires At(data, q, WireElems(structs, item.kind, big, x, n))
    ensures ItemValid(structs, item, x, count)
    ensures At(data, p, ItemWire(structs, item, x))
    ensures |ItemWire(structs, item, x)| == q - p + |WireElems(structs, item.kind, big, x, n)|
  {
    AtAppend(data, p, PrefixBytes(a, big, n), WireElems(structs, item.kind, big, x, n));
    forall k | 0 <= k < n
      ensures HasType(structs, item.kind, x.elems[k]) && CountsAgree(structs, item.kind, x.elems[k])
      ensures LengthsFit(structs, item.kind, x.elems[k])
    {
      assert Valid(structs, item.kind, x.elems[k]);
    }
  }

  /** Where an array's bytes are at pos, element k's bytes follow those of the first k elements read so far. */
  lemma ElemWanted(structs: seq<Struct>, t: Type, big: bool, elems: seq<Value>, k: nat, w: seq<Value>, data: seq<byte>, pos: nat)
    requires k < |elems| == |w|
    requires At(data, pos, WireElems(structs, t, big, Arr(w), |w|))
    requires forall j :: 0 <= j < k ==> elems[j] == w[j]
    ensures At(data, pos + |WireElems(structs, t, big, Arr(elems), k)|, Wire(structs, t, big, w[k]))
  {
    WireElemsFrame(structs, t, big, elems, w, k);
    ElemAt(structs, t, big, Arr(w), |w|, k, data, pos);
  }

  /** Writing element k extends the bytes of the elements read so far by that element's bytes. */
  lemma ElemDecoded(structs: seq<Struct>, t: Type, big: bool, elems: seq<Value>, k: nat, x: Value,
                    data: seq<byte>, pos: nat, p: nat)
    requires k < |elems|
    requires p == pos + |WireElems(structs, t, big, Arr(elems), k)|
    requires At(data, pos, WireElems(structs, t, big, Arr(elems), k))
    requires At(data, p, Wire(structs, t, big, x))
    ensures At(data, pos, WireElems(structs, t, big, Arr(elems[k := x]), k + 1))
    ensures |WireElems(structs, t, big, Arr(elems[k := x]), k + 1)| == p - pos + |Wire(structs, t, big, x)|
  {
    var after := elems[k := x];
    var prefix := WireElems(structs, t, big, Arr(elems), k);
    WireElemsFrame(structs, t, big, elems, after, k);
    assert WireElems(structs, t, big, Arr(after), k + 1) == prefix + Wire(structs, t, big, x);
    AtAppend(data, pos, prefix, Wire(structs, t, big, x));
  }

  /** Writing a valid element k extends the valid prefix by one. */
  lemma ElemsValidStep(structs: seq<Struct>, t: Type, elems: seq<Value>, k: nat, x: Value)
    requires k < |elems| && ElemsValid(structs, t, elems, k) && Valid(structs, t, x)
    ensures ElemsValid(structs, t, elems[k := x], k + 1)
  {
    var after := elems[k := x];
    forall j | 0 <= j < k + 1
      ensures Valid(structs, t, after[j])
    {
      if j < k {
        assert Valid(structs, t, elems[j]);
      }
    }
  }
}
