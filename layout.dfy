/**
 * The wire format of the Rust code the generator emits
 * (generator/rust/src/lib.rs): the value of a generated struct, the size its
 * size() method computes, the bytes its encoder writes, and the value
 * Default::default() gives it. The encoder and decoder themselves, which work
 * through a byte cursor, are in the Encoder and Decoder modules and are proved against these
 * definitions.
 */
module Layout {
  import opened Wrappers
  import opened Bytes
  import opened Schema
  import P = Primitive

  /**
   * The value of a field or of one array element: a number (a float is carried
   * as its bit pattern), the bytes of a string, a struct's fields in
   * declaration order, or an array's elements.
   */
  datatype Value =
    | Num(n: int)
    | Str(bytes: seq<byte>)
    | Rec(fields: seq<Value>)
    | Arr(elems: seq<Value>)

  /** The struct a user type names: the first of that name. */
  function Lookup(structs: seq<Struct>, name: string): (r: Option<Struct>)
    ensures r.Some? ==> r.value in structs && r.value.name == name
    ensures r.None? <==> forall k :: 0 <= k < |structs| ==> structs[k].name != name
  {
    if structs == [] then None
    else if structs[0].name == name then Some(structs[0])
    else
      var r := Lookup(structs[1..], name);
      assert forall k :: 0 <= k < |structs| - 1 ==> structs[1..][k] == structs[k + 1];
      r
  }

  /** The position of the first item with the given name: the field `self.name` refers to. */
  function FieldIndex(items: seq<Item>, name: string): (r: Option<nat>)
    ensures r.Some? ==> (r.value < |items| && items[r.value].name == name
      && forall k :: 0 <= k < r.value ==> items[k].name != name)
    ensures r.None? <==> forall k :: 0 <= k < |items| ==> items[k].name != name
  {
    if items == [] then None
    else if items[0].name == name then Some(0)
    else
      match FieldIndex(items[1..], name)
      case None =>
        assert forall k :: 0 <= k < |items| - 1 ==> items[1..][k] == items[k + 1];
        None
      case Some(j) =>
        assert forall k :: 0 <= k < |items| - 1 ==> items[1..][k] == items[k + 1];
        Some(j + 1)
  }

  /** The runtime primitive a fixed-width type is encoded as; a byte is a u8. */
  function PrimOf(t: Type): P.Prim
    requires IsFixedWidth(t)
  {
    match t
    case U8 | Byte => P.U8
    case U16 => P.U16
    case U32 => P.U32
    case U64 => P.U64
    case I8 => P.I8
    case I16 => P.I16
    case I32 => P.I32
    case I64 => P.I64
    case F32 => P.F32
    case F64 => P.F64
  }

  /** type_size for the fixed-width types: the runtime's size_of, so each field slice fits its primitive exactly. */
  function TypeSize(t: Type): (r: nat)
    requires IsFixedWidth(t)
    ensures r == P.Width(PrimOf(t))
  {
    match t
    case U8 | Byte | I8 => 1
    case U16 | I16 => 2
    case U32 | I32 | F32 => 4
    case U64 | I64 | F64 => 8
  }

  const UsizeModulus: nat := 0x1_0000_0000_0000_0000

  /** `n as usize` on a 64-bit target: the low 64 bits, so a negative count becomes huge. */
  function Count(n: int): nat {
    n % UsizeModulus
  }

  /** `len as T` for the prefix type T of an unsized array: the value with len's low bits. */
  function Wrap(t: Type, len: nat): int
    requires IsFixedWidth(t)
  {
    P.FromBits(PrimOf(t), len % P.Modulus(PrimOf(t)))
  }

  /** significand times 2 to the power shift, truncated toward zero when the shift is negative. */
  function Scale(significand: nat, shift: int): nat
    decreases if shift >= 0 then shift else -shift
  {
    if shift == 0 then significand
    else if shift > 0 then Scale(2 * significand, shift - 1)
    else Scale(significand / 2, shift + 1)
  }

  /**
   * `x as usize` for the float whose bit pattern is bits. The fraction field
   * takes `one` values (2 to the number of fraction bits), the exponent field
   * `top`, and a normal number is (one + fraction) * 2^(exponent - offset).
   * Rust truncates toward zero and saturates to 0 ..= usize::MAX; NaN gives 0.
   */
  function FloatAsUsize(bits: nat, one: nat, top: nat, offset: nat): nat
    requires one >= 1 && top >= 2
  {
    var fraction := bits % one;
    var biased := bits / one % top;
    var negative := bits / one / top % 2 == 1;
    if biased == top - 1 then
      // the infinities and the NaNs
      if fraction != 0 || negative then 0 else UsizeModulus - 1
    else if negative then 0
    else
      var significand := if biased == 0 then fraction else one + fraction;
      var whole := Scale(significand, (if biased == 0 then 1 else biased) - offset);
      if whole < UsizeModulus then whole else UsizeModulus - 1
  }

  /** `x as usize` for a value x of a fixed-width type t: an integer keeps its low 64 bits, a float truncates and saturates. */
  function AsUsize(t: Type, x: int): nat {
    match t
    // binary32: 23 fraction bits, exponent bias 127; binary64: 52 and 1023
    case F32 => FloatAsUsize(P.Bits(P.F32, x), 0x80_0000, 0x100, 127 + 23)
    case F64 => FloatAsUsize(P.Bits(P.F64, x), 0x10_0000_0000_0000, 0x800, 1023 + 52)
    case _ => Count(x)
  }

  /** `self.name as usize` inside the struct whose items and current value are given. */
  function CountOf(items: seq<Item>, rec: Value, name: string): nat {
    match FieldIndex(items, name)
    case None => 0
    case Some(j) => if rec.Rec? && j < |rec.fields| && rec.fields[j].Num? then AsUsize(items[j].kind, rec.fields[j].n) else 0
  }

  /** The element count a variable-sized array item takes from its struct; 0 for other items. */
  function VarCount(items: seq<Item>, rec: Value, item: Item): nat {
    if item.arrayKind.Some? && item.arrayKind.value.Variable? then CountOf(items, rec, item.arrayKind.value.field) else 0
  }

  function Height(rank: map<string, nat>, t: Type): nat {
    if t.User? && t.name in rank then rank[t.name] + 1 else 0
  }

  /** The item holds its elements by value (a scalar or `[T; n]`) rather than in a Vec. */
  predicate ByValue(item: Item) {
    item.arrayKind.None? || item.arrayKind.value.Constant?
  }

  /** The height of what an item holds by value; a Vec holds nothing by value. */
  function ItemHeight(rank: map<string, nat>, item: Item): nat {
    if ByValue(item) then Height(rank, item.kind) else 0
  }

  // ---------------------------------------------------------------------------
  // The schemas the generator produces compiling code for
  // ---------------------------------------------------------------------------

  /** What rustc demands of item i of a struct for the generated code to compile. */
  ghost predicate SupportedItem(structs: seq<Struct>, items: seq<Item>, i: nat)
    requires i < |items|
  {
    var item := items[i];
    !item.kind.CString?
    && (item.kind.User? ==> Lookup(structs, item.kind.name).Some?)
    && match item.arrayKind
       case None => true
       // `[d; n]` is spelled with n copies of d, so n == 0 gives a one-element literal.
       case Some(Constant(n)) => n >= 1
       // The prefix is an integer encoded by the item's own codec; user elements
       // would need that codec on the integer.
       case Some(Unknown(prefix)) => IsInteger(prefix) && !item.kind.User?
       // `self.f as usize` needs f to be a numeric scalar field (an integer or a
       // float); declaration order puts it first.
       case Some(Variable(f, _)) =>
         FieldIndex(items, f).Some? && FieldIndex(items, f).value < i
         && items[FieldIndex(items, f).value].arrayKind.None?
         && IsFixedWidth(items[FieldIndex(items, f).value].kind)
  }

  /**
   * A schema the generator compiles: every item supported, and a rank on struct
   * names that decreases along the user-typed items held by value (a scalar or
   * `[T; n]`), which rustc needs to give every struct a finite size. Items held
   * in a Vec (`[f]` and `[]`) may name any struct, the enclosing one included.
   */
  ghost predicate Supported(structs: seq<Struct>, rank: map<string, nat>) {
    forall k :: 0 <= k < |structs| ==>
      structs[k].name in rank
      && forall i :: 0 <= i < |structs[k].items| ==>
        SupportedItem(structs, structs[k].items, i) && RankedBelow(rank, structs[k], i)
  }

  /** A user-typed item of s held by value names a struct of lower rank. */
  ghost predicate RankedBelow(rank: map<string, nat>, s: Struct, i: nat)
    requires i < |s.items|
  {
    ByValue(s.items[i]) && s.items[i].kind.User? ==>
      s.items[i].kind.name in rank && s.name in rank && rank[s.items[i].kind.name] < rank[s.name]
  }

  /** The struct a supported user type resolves to, with its items supported and what they hold by value ranked below it. */
  lemma LookupSupported(structs: seq<Struct>, rank: map<string, nat>, name: string)
    requires Supported(structs, rank) && Lookup(structs, name).Some?
    ensures name in rank
    ensures forall i :: 0 <= i < |Lookup(structs, name).value.items| ==> SupportedItem(structs, Lookup(structs, name).value.items, i)
    ensures forall i :: 0 <= i < |Lookup(structs, name).value.items| ==>
      ItemHeight(rank, Lookup(structs, name).value.items[i]) <= rank[name]
  {
    var s := Lookup(structs, name).value;
    var k :| 0 <= k < |structs| && structs[k] == s;
    forall i | 0 <= i < |s.items|
      ensures ItemHeight(rank, s.items[i]) <= rank[name]
    {
      assert RankedBelow(rank, structs[k], i);
    }
  }

  /** `struct node { n u8; kids [n]node }`: a struct may hold itself in a Vec. */
  lemma TreeSupported()
    ensures Supported([Struct("node", [Item("n", U8, None, Little), Item("kids", User("node"), Some(Variable("n", U8)), Little)])],
      map["node" := 0])
  {
    var items := [Item("n", U8, None, Little), Item("kids", User("node"), Some(Variable("n", U8)), Little)];
    var structs := [Struct("node", items)];
    assert FieldIndex(items, "n") == Some(0);
    assert SupportedItem(structs, items, 0) && SupportedItem(structs, items, 1);
  }

  /** `struct samples { n f32; xs [n]u8 }`: a float count field is cast like an integer one. */
  lemma FloatCountSupported()
    ensures Supported([Struct("samples", [Item("n", F32, None, Little), Item("xs", U8, Some(Variable("n", F32)), Little)])],
      map["samples" := 0])
  {
    var items := [Item("n", F32, None, Little), Item("xs", U8, Some(Variable("n", F32)), Little)];
    assert FieldIndex(items, "n") == Some(0);
    assert SupportedItem([Struct("samples", items)], items, 1);
  }

  /** `struct node { kid node }` holds itself by value, which no rank allows. */
  lemma SelfByValueUnsupported(rank: map<string, nat>)
    ensures !Supported([Struct("node", [Item("kid", User("node"), None, Little)])], rank)
  {
    var structs := [Struct("node", [Item("kid", User("node"), None, Little)])];
    assert Supported(structs, rank) ==> RankedBelow(rank, structs[0], 0);
  }

  // ---------------------------------------------------------------------------
  // Values of the generated structs
  // ---------------------------------------------------------------------------

  /** v is a value of the Rust type generated for t. */
  predicate HasType(structs: seq<Struct>, t: Type, v: Value)
    decreases v, 2
  {
    if IsFixedWidth(t) then v.Num? && P.InRange(PrimOf(t), v.n)
    else if t.String? then v.Str?
    else if t.User? then v.Rec? && Lookup(structs, t.name).Some? && RecordHasType(structs, Lookup(structs, t.name).value.items, v)
    else false
  }

  predicate RecordHasType(structs: seq<Struct>, items: seq<Item>, rec: Value)
    requires rec.Rec?
    decreases rec, 1
  {
    |rec.fields| == |items| && forall i :: 0 <= i < |items| ==> FieldHasType(structs, items, rec, i)
  }

  /** Field i of a record holds a value of item i. */
  predicate FieldHasType(structs: seq<Struct>, items: seq<Item>, rec: Value, i: nat)
    requires rec.Rec?
    decreases rec, 0
  {
    i < |items| && i < |rec.fields| && ItemHasType(structs, items[i], rec.fields[i])
  }

  /** A scalar item holds a value of its type; an array item holds a vector (of n elements for `[n]`). */
  predicate ItemHasType(structs: seq<Struct>, item: Item, v: Value)
    decreases v, 3
  {
    match item.arrayKind
    case None => HasType(structs, item.kind, v)
    case Some(a) =>
      v.Arr? && (a.Constant? ==> |v.elems| == a.size)
      && forall k :: 0 <= k < |v.elems| ==> HasType(structs, item.kind, v.elems[k])
  }

  /** Every variable-sized array, at any depth, has as many elements as its count field says (encode's assert). */
  predicate CountsAgree(structs: seq<Struct>, t: Type, v: Value)
    decreases v, 2
  {
    if t.User? && v.Rec? && Lookup(structs, t.name).Some? then RecordCountsAgree(structs, Lookup(structs, t.name).value.items, v)
    else true
  }

  predicate RecordCountsAgree(structs: seq<Struct>, items: seq<Item>, rec: Value)
    requires rec.Rec?
    decreases rec, 1
  {
    forall i :: 0 <= i < |items| && i < |rec.fields| ==> FieldCountsAgree(structs, items, rec, i)
  }

  /** Field i of a record agrees with the count the record gives it. */
  predicate FieldCountsAgree(structs: seq<Struct>, items: seq<Item>, rec: Value, i: nat)
    requires rec.Rec?
    decreases rec, 0
  {
    i < |items| && i < |rec.fields| && ItemCountsAgree(structs, items[i], rec.fields[i], VarCount(items, rec, items[i]))
  }

  predicate ItemCountsAgree(structs: seq<Struct>, item: Item, v: Value, count: nat)
    decreases v, 3
  {
    match item.arrayKind
    case None => CountsAgree(structs, item.kind, v)
    case Some(a) =>
      v.Arr? && (a.Variable? ==> |v.elems| == count)
      && forall k :: 0 <= k < |v.elems| ==> CountsAgree(structs, item.kind, v.elems[k])
  }

  /**
   * Every length the encoder casts survives the cast: strings are shorter than
   * 2^16 bytes and an unsized array's length comes back from `len as T` as usize.
   */
  predicate LengthsFit(structs: seq<Struct>, t: Type, v: Value)
    decreases v, 2
  {
    if t.String? && v.Str? then |v.bytes| < 0x1_0000
    else if t.User? && v.Rec? && Lookup(structs, t.name).Some? then RecordLengthsFit(structs, Lookup(structs, t.name).value.items, v)
    else true
  }

  predicate RecordLengthsFit(structs: seq<Struct>, items: seq<Item>, rec: Value)
    requires rec.Rec?
    decreases rec, 1
  {
    forall i :: 0 <= i < |items| && i < |rec.fields| ==> FieldLengthsFit(structs, items, rec, i)
  }

  predicate FieldLengthsFit(structs: seq<Struct>, items: seq<Item>, rec: Value, i: nat)
    requires rec.Rec?
    decreases rec, 0
  {
    i < |items| && i < |rec.fields| && ItemLengthsFit(structs, items[i], rec.fields[i])
  }

  predicate ItemLengthsFit(structs: seq<Struct>, item: Item, v: Value)
    decreases v, 3
  {
    match item.arrayKind
    case None => LengthsFit(structs, item.kind, v)
    case Some(a) =>
      v.Arr? && (a.Unknown? && IsFixedWidth(a.prefix) ==> Count(Wrap(a.prefix, |v.elems|)) == |v.elems|)
      && forall k :: 0 <= k < |v.elems| ==> LengthsFit(structs, item.kind, v.elems[k])
  }

  // ---------------------------------------------------------------------------
  // size()
  // ---------------------------------------------------------------------------

  /** The size of one value of type t: type_size, plus the u16 prefix of a string. */
  function SizeOf(structs: seq<Struct>, t: Type, v: Value): nat
    decreases v, 2
  {
    if IsFixedWidth(t) then TypeSize(t)
    else if t.String? && v.Str? then |v.bytes| + 2
    else if t.User? && v.Rec? && Lookup(structs, t.name).Some? && |Lookup(structs, t.name).value.items| <= |v.fields| then
      SizeFields(structs, Lookup(structs, t.name).value.items, v, |Lookup(structs, t.name).value.items|)
    else 0
  }

  /** size(): the item sizes of the first n items, summed in declaration order. */
  function SizeFields(structs: seq<Struct>, items: seq<Item>, rec: Value, n: nat): nat
    requires rec.Rec? && n <= |items| && n <= |rec.fields|
    decreases rec, 1, n
  {
    if n == 0 then 0
    else SizeFields(structs, items, rec, n - 1) + ItemSize(structs, items[n - 1], rec.fields[n - 1], VarCount(items, rec, items[n - 1]))
  }

  /**
   * item_size. Arrays of strings and structs sum their elements' sizes; arrays
   * of fixed-width elements multiply: `[n]` by n, `[f]` by `self.f as usize`
   * (count), `[]` by the vector's length. Only `[]` adds its prefix.
   */
  function ItemSize(structs: seq<Struct>, item: Item, v: Value, count: nat): nat
    decreases v, 3
  {
    match item.arrayKind
    case None => SizeOf(structs, item.kind, v)
    case Some(a) =>
      var prefix := if a.Unknown? && IsFixedWidth(a.prefix) then TypeSize(a.prefix) else 0;
      if !IsFixedWidth(item.kind) then prefix + (if v.Arr? then SizeSum(structs, item.kind, v, |v.elems|) else 0)
      else
        match a
        case Constant(n) => n * TypeSize(item.kind)
        case Variable(_, _) => count * TypeSize(item.kind)
        case Unknown(_) => (if v.Arr? then |v.elems| else 0) * TypeSize(item.kind) + prefix
  }

  /** The sizes of the first n elements of an array, summed. */
  function SizeSum(structs: seq<Struct>, t: Type, arr: Value, n: nat): nat
    requires arr.Arr? && n <= |arr.elems|
    decreases arr, 1, n
  {
    if n == 0 then 0 else SizeSum(structs, t, arr, n - 1) + SizeOf(structs, t, arr.elems[n - 1])
  }

  // ---------------------------------------------------------------------------
  // The bytes the generated encoder writes
  // ---------------------------------------------------------------------------

  /**
   * One value of type t in the item's byte order (big): a number through
   * to_le_bytes/to_be_bytes, a string as `len as u16` then its bytes, a struct
   * as its items in declaration order (each in its own byte order).
   */
  function Wire(structs: seq<Struct>, t: Type, big: bool, v: Value): seq<byte>
    decreases v, 2
  {
    if IsFixedWidth(t) then (if v.Num? then P.ToBytes(PrimOf(t), big, v.n) else [])
    else if t.String? && v.Str? then P.ToBytes(P.U16, big, |v.bytes| % 0x1_0000) + v.bytes
    else if t.User? && v.Rec? && Lookup(structs, t.name).Some? && |Lookup(structs, t.name).value.items| <= |v.fields| then
      WireFields(structs, Lookup(structs, t.name).value.items, v, |Lookup(structs, t.name).value.items|)
    else []
  }

  /** The first n items of a struct, back to back. */
  function WireFields(structs: seq<Struct>, items: seq<Item>, rec: Value, n: nat): seq<byte>
    requires rec.Rec? && n <= |items| && n <= |rec.fields|
    decreases rec, 1, n
  {
    if n == 0 then [] else WireFields(structs, items, rec, n - 1) + ItemWire(structs, items[n - 1], rec.fields[n - 1])
  }

  /** One item: a scalar, or an array's elements, preceded by `len as T` for `[]`. */
  function ItemWire(structs: seq<Struct>, item: Item, v: Value): seq<byte>
    decreases v, 3
  {
    var big := item.byteOrder == Big;
    match item.arrayKind
    case None => Wire(structs, item.kind, big, v)
    case Some(a) =>
      if !v.Arr? then []
      else PrefixBytes(a, big, |v.elems|) + WireElems(structs, item.kind, big, v, |v.elems|)
  }

  /** The prefix of an array of len elements: `len as T` for `[]`, nothing otherwise. */
  function PrefixBytes(a: Array, big: bool, len: nat): seq<byte> {
    if a.Unknown? && IsFixedWidth(a.prefix) then P.ToBytes(PrimOf(a.prefix), big, Wrap(a.prefix, len)) else []
  }

  /** The first n elements of an array, back to back. */
  function WireElems(structs: seq<Struct>, t: Type, big: bool, arr: Value, n: nat): seq<byte>
    requires arr.Arr? && n <= |arr.elems|
    decreases arr, 1, n
  {
    if n == 0 then [] else WireElems(structs, t, big, arr, n - 1) + Wire(structs, t, big, arr.elems[n - 1])
  }

  // ---------------------------------------------------------------------------
  // Default::default()
  // ---------------------------------------------------------------------------

  /** The derived Default of the type generated for t: zero, the empty string, or a struct of defaults. */
  function DefaultOf(structs: seq<Struct>, t: Type, ghost rank: map<string, nat>): Value
    requires Supported(structs, rank)
    decreases Height(rank, t), 1
  {
    if IsFixedWidth(t) then Num(0)
    else if t.String? then Str([])
    else if t.User? && Lookup(structs, t.name).Some? then
      var items := Lookup(structs, t.name).value.items;
      LookupSupported(structs, rank, t.name);
      Rec(seq(|items|, i requires 0 <= i < |items| => ItemDefault(structs, items[i], rank)))
    else Num(0)
  }

  /** item_default: `[d, .., d]` with n copies for `[n]`, an empty vector for the other arrays. */
  function ItemDefault(structs: seq<Struct>, item: Item, ghost rank: map<string, nat>): Value
    requires Supported(structs, rank)
    decreases ItemHeight(rank, item), 2
  {
    match item.arrayKind
    case None => DefaultOf(structs, item.kind, rank)
    case Some(Constant(n)) => Arr(seq(n, _ => DefaultOf(structs, item.kind, rank)))
    case Some(_) => Arr([])
  }

  // ---------------------------------------------------------------------------
  // size() is the length of what the encoder writes
  // ---------------------------------------------------------------------------

  /** Whenever the counts agree, size() is exactly the number of bytes the encoder writes. */
  lemma {:induction false} WireLength(structs: seq<Struct>, t: Type, big: bool, v: Value)
    requires HasType(structs, t, v) && CountsAgree(structs, t, v)
    ensures |Wire(structs, t, big, v)| == SizeOf(structs, t, v)
    decreases v, 2
  {
    if IsFixedWidth(t) {
    } else if t.User? {
      var items := Lookup(structs, t.name).value.items;
      FieldsWireLength(structs, items, v, |items|);
    }
  }

  lemma {:induction false} FieldsWireLength(structs: seq<Struct>, items: seq<Item>, rec: Value, n: nat)
    requires rec.Rec? && RecordHasType(structs, items, rec) && n <= |items|
    requires forall j :: 0 <= j < n ==> FieldCountsAgree(structs, items, rec, j)
    ensures |WireFields(structs, items, rec, n)| == SizeFields(structs, items, rec, n)
    decreases rec, 1, n
  {
    if n > 0 {
      FieldsWireLength(structs, items, rec, n - 1);
      assert FieldHasType(structs, items, rec, n - 1) && FieldCountsAgree(structs, items, rec, n - 1);
      ItemWireLength(structs, items[n - 1], rec.fields[n - 1], VarCount(items, rec, items[n - 1]));
    }
  }

  lemma {:induction false} ItemWireLength(structs: seq<Struct>, item: Item, v: Value, count: nat)
    requires ItemHasType(structs, item, v) && ItemCountsAgree(structs, item, v, count)
    ensures |ItemWire(structs, item, v)| == ItemSize(structs, item, v, count)
    decreases v, 3
  {
    var big := item.byteOrder == Big;
    match item.arrayKind
    case None =>
      WireLength(structs, item.kind, big, v);
    case Some(a) =>
      if IsFixedWidth(item.kind) {
        ElemsWireFixed(structs, item.kind, big, v, |v.elems|);
        SpanIsProduct(|v.elems|, TypeSize(item.kind));
      } else {
        ElemsWireLength(structs, item.kind, big, v, |v.elems|);
      }
  }

  lemma {:induction false} ElemsWireLength(structs: seq<Struct>, t: Type, big: bool, arr: Value, n: nat)
    requires arr.Arr? && n <= |arr.elems|
    requires forall k :: 0 <= k < n ==> HasType(structs, t, arr.elems[k]) && CountsAgree(structs, t, arr.elems[k])
    ensures |WireElems(structs, t, big, arr, n)| == SizeSum(structs, t, arr, n)
    decreases arr, 1, n
  {
    if n > 0 {
      ElemsWireLength(structs, t, big, arr, n - 1);
      WireLength(structs, t, big, arr.elems[n - 1]);
    }
  }

  /** Fixed-width elements take TypeSize(t) bytes each. */
  lemma {:induction false} ElemsWireFixed(structs: seq<Struct>, t: Type, big: bool, arr: Value, n: nat)
    requires IsFixedWidth(t) && arr.Arr? && n <= |arr.elems|
    requires forall k :: 0 <= k < |arr.elems| ==> HasType(structs, t, arr.elems[k])
    ensures |WireElems(structs, t, big, arr, n)| == Span(n, TypeSize(t))
  {
    if n > 0 {
      ElemsWireFixed(structs, t, big, arr, n - 1);
    }
  }

  // ---------------------------------------------------------------------------
  // Default::default() is the smallest value of its type
  // ---------------------------------------------------------------------------

  /** The default value has its type, its variable arrays are empty like their zero counts, and its lengths fit. */
  lemma {:induction false} DefaultValid(structs: seq<Struct>, t: Type, rank: map<string, nat>)
    requires Supported(structs, rank) && !t.CString? && (t.User? ==> Lookup(structs, t.name).Some?)
    ensures HasType(structs, t, DefaultOf(structs, t, rank))
    ensures CountsAgree(structs, t, DefaultOf(structs, t, rank))
    ensures LengthsFit(structs, t, DefaultOf(structs, t, rank))
    decreases Height(rank, t), 1
  {
    if t.User? {
      var items := Lookup(structs, t.name).value.items;
      var d := DefaultOf(structs, t, rank);
      LookupSupported(structs, rank, t.name);
      forall i | 0 <= i < |items|
        ensures ItemHasType(structs, items[i], d.fields[i])
        ensures ItemCountsAgree(structs, items[i], d.fields[i], VarCount(items, d, items[i]))
        ensures ItemLengthsFit(structs, items[i], d.fields[i])
      {
        ItemDefaultValid(structs, items, i, rank);
        var a := items[i].arrayKind;
        if a.Some? && a.value.Variable? {
          assert SupportedItem(structs, items, i);
          var j := FieldIndex(items, a.value.field).value;
          assert items[j].arrayKind.None? && IsFixedWidth(items[j].kind);
          assert d.fields[j] == ItemDefault(structs, items[j], rank) == Num(0);
          AsUsizeZero(items[j].kind);
        }
      }
    }
  }

  lemma {:induction false} ItemDefaultValid(structs: seq<Struct>, items: seq<Item>, i: nat, rank: map<string, nat>)
    requires Supported(structs, rank) && i < |items| && SupportedItem(structs, items, i)
    ensures ItemHasType(structs, items[i], ItemDefault(structs, items[i], rank))
    ensures ItemCountsAgree(structs, items[i], ItemDefault(structs, items[i], rank), 0)
    ensures ItemLengthsFit(structs, items[i], ItemDefault(structs, items[i], rank))
    decreases ItemHeight(rank, items[i]), 2
  {
    if ByValue(items[i]) {
      DefaultValid(structs, items[i].kind, rank);
    }
    var a := items[i].arrayKind;
    if a.Some? && a.value.Unknown? {
      assert Wrap(a.value.prefix, 0) == 0;
    }
  }

  /**
   * No value of a type is smaller than its default, so decode's entry assertion
   * (checked against the default it starts from) holds whenever the data is long
   * enough for the value decoded.
   */
  lemma {:induction false} DefaultSmallest(structs: seq<Struct>, t: Type, rank: map<string, nat>, v: Value)
    requires Supported(structs, rank) && HasType(structs, t, v)
    ensures SizeOf(structs, t, DefaultOf(structs, t, rank)) <= SizeOf(structs, t, v)
    decreases v, 2
  {
    if t.User? {
      var items := Lookup(structs, t.name).value.items;
      var d := DefaultOf(structs, t, rank);
      DefaultValid(structs, t, rank);
      FieldsDefaultSmallest(structs, items, rank, d, v, |items|);
    }
  }

  lemma {:induction false} FieldsDefaultSmallest(structs: seq<Struct>, items: seq<Item>, rank: map<string, nat>, d: Value, rec: Value, n: nat)
    requires Supported(structs, rank) && rec.Rec? && RecordHasType(structs, items, rec) && n <= |items|
    requires d.Rec? && |d.fields| == |items|
    requires forall i :: 0 <= i < |items| ==> d.fields[i] == ItemDefault(structs, items[i], rank)
    requires RecordCountsAgree(structs, items, d)
    ensures SizeFields(structs, items, d, n) <= SizeFields(structs, items, rec, n)
    decreases rec, 1, n
  {
    if n > 0 {
      FieldsDefaultSmallest(structs, items, rank, d, rec, n - 1);
      assert FieldHasType(structs, items, rec, n - 1);
      var item := items[n - 1];
      if item.arrayKind.Some? && item.arrayKind.value.Variable? && IsFixedWidth(item.kind) {
        assert FieldCountsAgree(structs, items, d, n - 1);
      }
      ItemDefaultSmallest(structs, item, rank, rec.fields[n - 1], VarCount(items, d, item), VarCount(items, rec, item));
    }
  }

  lemma {:induction false} ItemDefaultSmallest(structs: seq<Struct>, item: Item, rank: map<string, nat>, v: Value, dcount: nat, vcount: nat)
    requires Supported(structs, rank) && ItemHasType(structs, item, v)
    requires item.arrayKind.Some? && item.arrayKind.value.Variable? && IsFixedWidth(item.kind) ==>
      ItemCountsAgree(structs, item, ItemDefault(structs, item, rank), dcount)
    ensures ItemSize(structs, item, ItemDefault(structs, item, rank), dcount) <= ItemSize(structs, item, v, vcount)
    decreases v, 3
  {
    match item.arrayKind
    case None =>
      DefaultSmallest(structs, item.kind, rank, v);
    case Some(a) =>
      if !IsFixedWidth(item.kind) && a.Constant? {
        SumDefaultSmallest(structs, item.kind, rank, ItemDefault(structs, item, rank), v, a.size);
      }
  }

  lemma {:induction false} SumDefaultSmallest(structs: seq<Struct>, t: Type, rank: map<string, nat>, darr: Value, arr: Value, n: nat)
    requires Supported(structs, rank) && darr.Arr? && arr.Arr? && n <= |darr.elems| && n <= |arr.elems|
    requires forall k :: 0 <= k < |darr.elems| ==> darr.elems[k] == DefaultOf(structs, t, rank)
    requires forall k :: 0 <= k < |arr.elems| ==> HasType(structs, t, arr.elems[k])
    ensures SizeSum(structs, t, darr, n) <= SizeSum(structs, t, arr, n)
    decreases arr, 1, n
  {
    if n > 0 {
      SumDefaultSmallest(structs, t, rank, darr, arr, n - 1);
      DefaultSmallest(structs, t, rank, arr.elems[n - 1]);
    }
  }

  // ---------------------------------------------------------------------------
  // Sums
  // ---------------------------------------------------------------------------

  /** The prefix an array item writes before its elements. */
  function PrefixSize(a: Array): nat {
    if a.Unknown? && IsFixedWidth(a.prefix) then TypeSize(a.prefix) else 0
  }

  /** Fixed-width elements take TypeSize(t) bytes each. */
  lemma {:induction false} SizeSumFixed(structs: seq<Struct>, t: Type, arr: Value, n: nat)
    requires IsFixedWidth(t) && arr.Arr? && n <= |arr.elems|
    ensures SizeSum(structs, t, arr, n) == Span(n, TypeSize(t))
  {
    if n > 0 {
      SizeSumFixed(structs, t, arr, n - 1);
    }
  }

  lemma {:induction false} SizeSumMonotone(structs: seq<Struct>, t: Type, arr: Value, k: nat, n: nat)
    requires arr.Arr? && k <= n <= |arr.elems|
    ensures SizeSum(structs, t, arr, k) <= SizeSum(structs, t, arr, n)
  {
    if k < n {
      SizeSumMonotone(structs, t, arr, k, n - 1);
    }
  }

  lemma {:induction false} SizeFieldsMonotone(structs: seq<Struct>, items: seq<Item>, rec: Value, k: nat, n: nat)
    requires rec.Rec? && k <= n <= |items| && n <= |rec.fields|
    ensures SizeFields(structs, items, rec, k) <= SizeFields(structs, items, rec, n)
  {
    if k < n {
      SizeFieldsMonotone(structs, items, rec, k, n - 1);
    }
  }

  /**
   * Once a variable array has as many elements as its count, every array item's
   * size is its prefix plus the sum of its elements' sizes.
   */
  lemma ItemSizeIsSum(structs: seq<Struct>, item: Item, v: Value, count: nat)
    requires item.arrayKind.Some? && ItemHasType(structs, item, v)
    requires item.arrayKind.value.Variable? ==> |v.elems| == count
    ensures ItemSize(structs, item, v, count) == PrefixSize(item.arrayKind.value) + SizeSum(structs, item.kind, v, |v.elems|)
  {
    if IsFixedWidth(item.kind) {
      SizeSumFixed(structs, item.kind, v, |v.elems|);
      SpanIsProduct(|v.elems|, TypeSize(item.kind));
    }
  }

  // ---------------------------------------------------------------------------
  // The values the decoder produces
  // ---------------------------------------------------------------------------

  /** A value the encoder writes and the decoder reads back: typed, counts agreeing, lengths surviving their casts. */
  ghost predicate Valid(structs: seq<Struct>, t: Type, v: Value) {
    HasType(structs, t, v) && CountsAgree(structs, t, v) && LengthsFit(structs, t, v)
  }

  ghost predicate ItemValid(structs: seq<Struct>, item: Item, v: Value, count: nat) {
    ItemHasType(structs, item, v) && ItemCountsAgree(structs, item, v, count) && ItemLengthsFit(structs, item, v)
  }

  /** Field i of a record is valid for item i, with the count the record gives it. */
  ghost predicate FieldValid(structs: seq<Struct>, items: seq<Item>, rec: Value, i: nat)
    requires rec.Rec?
  {
    i < |items| && i < |rec.fields| && ItemValid(structs, items[i], rec.fields[i], VarCount(items, rec, items[i]))
  }

  /** The first n fields of a record are valid. */
  ghost predicate FieldsValid(structs: seq<Struct>, items: seq<Item>, rec: Value, n: nat)
    requires rec.Rec?
  {
    forall i :: 0 <= i < n ==> FieldValid(structs, items, rec, i)
  }

  /** A struct's bytes are its items' bytes, each in its own byte order, whatever order the struct is asked for. */
  lemma WireIgnoresOrder(structs: seq<Struct>, name: string, big: bool, v: Value)
    ensures Wire(structs, User(name), big, v) == Wire(structs, User(name), false, v)
  {
  }

  /** The first n elements of a sequence are valid values of type t. */
  ghost predicate ElemsValid(structs: seq<Struct>, t: Type, elems: seq<Value>, n: nat) {
    forall k :: 0 <= k < n && k < |elems| ==> Valid(structs, t, elems[k])
  }

  /** A record is valid for its items exactly when each of its fields is. */
  lemma RecordValid(structs: seq<Struct>, items: seq<Item>, rec: Value)
    requires rec.Rec? && |rec.fields| == |items|
    ensures (RecordHasType(structs, items, rec) && RecordCountsAgree(structs, items, rec) && RecordLengthsFit(structs, items, rec))
      <==> FieldsValid(structs, items, rec, |items|)
  {
    if FieldsValid(structs, items, rec, |items|) {
      forall i | 0 <= i < |items|
        ensures FieldHasType(structs, items, rec, i) && FieldCountsAgree(structs, items, rec, i) && FieldLengthsFit(structs, items, rec, i)
      {
        assert FieldValid(structs, items, rec, i);
      }
      assert RecordHasType(structs, items, rec);
      assert RecordCountsAgree(structs, items, rec);
      assert RecordLengthsFit(structs, items, rec);
    }
    if RecordHasType(structs, items, rec) && RecordCountsAgree(structs, items, rec) && RecordLengthsFit(structs, items, rec) {
      forall i | 0 <= i < |items|
        ensures FieldValid(structs, items, rec, i)
      {
        assert FieldHasType(structs, items, rec, i) && FieldCountsAgree(structs, items, rec, i) && FieldLengthsFit(structs, items, rec, i);
      }
      assert FieldsValid(structs, items, rec, |items|);
    }
  }

  /**
   * Decoding field k does not change the count of an item at or before k: its
   * count field comes earlier still.
   */
  lemma VarCountFrame(structs: seq<Struct>, items: seq<Item>, fields: seq<Value>, k: nat, x: Value, j: nat)
    requires j <= k < |fields| && j < |items| && SupportedItem(structs, items, j)
    ensures VarCount(items, Rec(fields[k := x]), items[j]) == VarCount(items, Rec(fields), items[j])
  {
  }

  /** Two records that agree on their first i fields give item i the same count. */
  lemma VarCountPrefix(structs: seq<Struct>, items: seq<Item>, fields: seq<Value>, other: seq<Value>, i: nat)
    requires i < |items| && i <= |fields| && i <= |other| && SupportedItem(structs, items, i)
    requires forall j :: 0 <= j < i ==> fields[j] == other[j]
    ensures VarCount(items, Rec(fields), items[i]) == VarCount(items, Rec(other), items[i])
  {
  }

  /** The bytes of the first n items depend on the first n fields only. */
  lemma {:induction false} WireFieldsFrame(structs: seq<Struct>, items: seq<Item>, fields: seq<Value>, other: seq<Value>, n: nat)
    requires n <= |items| && n <= |fields| && n <= |other|
    requires forall j :: 0 <= j < n ==> fields[j] == other[j]
    ensures WireFields(structs, items, Rec(fields), n) == WireFields(structs, items, Rec(other), n)
  {
    if n > 0 {
      WireFieldsFrame(structs, items, fields, other, n - 1);
    }
  }

  /** The bytes of the first n elements depend on those elements only. */
  lemma {:induction false} WireElemsFrame(structs: seq<Struct>, t: Type, big: bool, elems: seq<Value>, other: seq<Value>, n: nat)
    requires n <= |elems| && n <= |other|
    requires forall j :: 0 <= j < n ==> elems[j] == other[j]
    ensures WireElems(structs, t, big, Arr(elems), n) == WireElems(structs, t, big, Arr(other), n)
  {
    if n > 0 {
      WireElemsFrame(structs, t, big, elems, other, n - 1);
    }
  }

  /** The bytes of the first n items hold those of every item before n. */
  lemma {:induction false} WireFieldsCover(structs: seq<Struct>, items: seq<Item>, rec: Value, j: nat, n: nat)
    requires rec.Rec? && j < n <= |items| && n <= |rec.fields|
    ensures |WireFields(structs, items, rec, n)| >= |ItemWire(structs, items[j], rec.fields[j])|
    decreases n
  {
    if n > j + 1 {
      WireFieldsCover(structs, items, rec, j, n - 1);
    }
  }

  /** Where a record's bytes occur, item i's bytes occur right after the first i items'. */
  lemma {:induction false} FieldAt(structs: seq<Struct>, items: seq<Item>, rec: Value, n: nat, i: nat, data: seq<byte>, pos: nat)
    requires rec.Rec? && i < n <= |items| && n <= |rec.fields|
    requires At(data, pos, WireFields(structs, items, rec, n))
    ensures At(data, pos + |WireFields(structs, items, rec, i)|, ItemWire(structs, items[i], rec.fields[i]))
    decreases n
  {
    if n == i + 1 {
      AtAppend(data, pos, WireFields(structs, items, rec, i), ItemWire(structs, items[i], rec.fields[i]));
    } else {
      AtAppend(data, pos, WireFields(structs, items, rec, n - 1), ItemWire(structs, items[n - 1], rec.fields[n - 1]));
      FieldAt(structs, items, rec, n - 1, i, data, pos);
    }
  }

  /** Where an array's elements occur, element k occurs right after the first k. */
  lemma {:induction false} ElemAt(structs: seq<Struct>, t: Type, big: bool, arr: Value, n: nat, k: nat, data: seq<byte>, pos: nat)
    requires arr.Arr? && k < n <= |arr.elems|
    requires At(data, pos, WireElems(structs, t, big, arr, n))
    ensures At(data, pos + |WireElems(structs, t, big, arr, k)|, Wire(structs, t, big, arr.elems[k]))
    decreases n
  {
    if n == k + 1 {
      AtAppend(data, pos, WireElems(structs, t, big, arr, k), Wire(structs, t, big, arr.elems[k]));
    } else {
      AtAppend(data, pos, WireElems(structs, t, big, arr, n - 1), Wire(structs, t, big, arr.elems[n - 1]));
      ElemAt(structs, t, big, arr, n - 1, k, data, pos);
    }
  }

  /** 2 to the power k. */
  function Pow2(k: nat): (r: nat)
    ensures r >= 1
  {
    if k == 0 then 1 else 2 * Pow2(k - 1)
  }

  /** A shift of k doubles k times: it multiplies by 2^k. */
  lemma {:induction false} ScaleUp(significand: nat, k: nat)
    ensures Scale(significand, k) == significand * Pow2(k)
    decreases k
  {
    if k > 0 {
      ScaleUp(2 * significand, k - 1);
      assert 2 * significand * Pow2(k - 1) == significand * (2 * Pow2(k - 1));
    }
  }

  /** A shift of -k halves k times, dropping each remainder: it divides by 2^k, rounding down. */
  lemma {:induction false} ScaleDown(significand: nat, k: nat)
    ensures Scale(significand, -(k as int)) == significand / Pow2(k)
    decreases k
  {
    if k > 0 {
      ScaleDown(significand / 2, k - 1);
      var m := Pow2(k - 1);
      var q, r1, r2 := significand / 2 / m, significand % 2, significand / 2 % m;
      assert significand == (2 * m) * q + (2 * r2 + r1);
      DivModUnique(significand, 2 * m, q, 2 * r2 + r1);
    }
  }

  lemma {:induction false} Pow2Add(a: nat, b: nat)
    ensures Pow2(a + b) == Pow2(a) * Pow2(b)
    decreases b
  {
    if b > 0 {
      Pow2Add(a, b - 1);
    }
  }

  /** The powers of two the example shifts use. */
  lemma Pow2Table()
    ensures Pow2(22) == 0x40_0000 && Pow2(23) == 0x80_0000
    ensures Pow2(41) == 0x200_0000_0000 && Pow2(49) == 0x2_0000_0000_0000
  {
    assert Pow2(8) == 0x100;
    assert Pow2(16) == 0x1_0000 by { Pow2Add(8, 8); }
    assert Pow2(22) == 0x40_0000 by { Pow2Add(16, 6); }
    assert Pow2(23) == 0x80_0000;
    assert Pow2(41) == 0x200_0000_0000 by { Pow2Add(23, 18); Pow2Add(16, 2); }
    assert Pow2(49) == 0x2_0000_0000_0000 by { Pow2Add(41, 8); }
  }

  /** Scaling zero gives zero. */
  lemma {:induction false} ScaleZero(shift: int)
    ensures Scale(0, shift) == 0
    decreases if shift >= 0 then shift else -shift
  {
    if shift > 0 {
      ScaleZero(shift - 1);
    } else if shift < 0 {
      ScaleZero(shift + 1);
    }
  }

  /** The float whose bit pattern is all zeros, +0.0, casts to 0. */
  lemma FloatZero(one: nat, top: nat, offset: nat)
    requires one >= 1 && top >= 2
    ensures FloatAsUsize(0, one, top, offset) == 0
  {
    ScaleZero(1 - offset);
  }

  /** Every zero, integer or floating, casts to the count 0: a default count field gives an empty array. */
  lemma AsUsizeZero(t: Type)
    ensures AsUsize(t, 0) == 0
  {
    if t.F32? {
      FloatZero(0x80_0000, 0x100, 127 + 23);
    } else if t.F64? {
      FloatZero(0x10_0000_0000_0000, 0x800, 1023 + 52);
    }
  }

  /** The scalings the examples below need. */
  lemma FloatScales()
    ensures Scale(0xC0_0000, -23) == 1 && Scale(0xC0_0000, -22) == 3
    ensures Scale(0x14_0000_0000_0000, -49) == 10 && Scale(0x80_0000, 41) == UsizeModulus
  {
    Pow2Table();
    ScaleDown(0xC0_0000, 23);
    ScaleDown(0xC0_0000, 22);
    ScaleDown(0x14_0000_0000_0000, 49);
    ScaleUp(0x80_0000, 41);
  }

  /** `as usize` truncates toward zero: 1.5, 3.0 and -2.0 as f32. */
  lemma FloatAsUsizeTruncates()
    ensures AsUsize(F32, 0x3FC0_0000) == 1
    ensures AsUsize(F32, 0x4040_0000) == 3
    ensures AsUsize(F32, 0xC000_0000) == 0
  {
    FloatScales();
    assert 0x3FC0_0000 % 0x80_0000 == 0x40_0000 && 0x3FC0_0000 / 0x80_0000 == 127;
    assert 0x4040_0000 % 0x80_0000 == 0x40_0000 && 0x4040_0000 / 0x80_0000 == 128;
    assert 0xC000_0000 / 0x80_0000 == 0x180;
  }

  /** The same truncation for f64: 10.0 gives 10. */
  lemma DoubleAsUsize()
    ensures AsUsize(F64, 0x4024_0000_0000_0000) == 10
  {
    FloatScales();
    assert 0x4024_0000_0000_0000 % 0x10_0000_0000_0000 == 0x4_0000_0000_0000;
    assert 0x4024_0000_0000_0000 / 0x10_0000_0000_0000 == 1026;
  }

  /** `as usize` saturates: a NaN gives 0, +infinity and 2^64 (as f32) give usize::MAX. */
  lemma FloatAsUsizeSaturates()
    ensures AsUsize(F32, 0x7FC0_0000) == 0
    ensures AsUsize(F32, 0x7F80_0000) == UsizeModulus - 1
    ensures AsUsize(F32, 0x5F80_0000) == UsizeModulus - 1
  {
    FloatScales();
    assert 0x7FC0_0000 % 0x80_0000 == 0x40_0000 && 0x7FC0_0000 / 0x80_0000 == 255;
    assert 0x7F80_0000 % 0x80_0000 == 0 && 0x7F80_0000 / 0x80_0000 == 255;
    assert 0x5F80_0000 % 0x80_0000 == 0 && 0x5F80_0000 / 0x80_0000 == 191;
  }

  /** `x as usize as T` for an x of type T: the usize keeps x's low bits, so the cast back gives x. */
  lemma WrapCount(t: Type, x: int)
    requires IsFixedWidth(t) && P.InRange(PrimOf(t), x)
    ensures Wrap(t, Count(x)) == x
  {
    var p := PrimOf(t);
    var m := P.Modulus(p);
    var k := UsizeModulus / m;
    assert m * k == UsizeModulus;
    var q, r := x / UsizeModulus, x % UsizeModulus;
    assert x == m * (k * q + r / m) + r % m;
    DivModUnique(x, m, k * q + r / m, r % m);
    P.FromBitsBits(p, x);
  }
}
