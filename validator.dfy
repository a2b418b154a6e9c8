/**
 * The semantic layer of the schema compiler (backend/src/parser.rs) over an
 * already tokenised file: a sequence of top-level elements, each an options
 * list or a struct definition whose items carry their name, their bracket, their
 * type name and their inline options. Lexing and the grammar are not modelled.
 */
module Validator {
  import opened Wrappers
  import opened Schema

  /** The errors parse_file reports, one constructor per message. */
  datatype Error =
    | UnknownEndianness(value: string)
    | UnknownOption(key: string)
    | ArraySizeTypeNotInteger
    | SizeTypeWithKnownSize
    | UndeclaredIdentifier(identifier: string)
    | UndefinedType(inStruct: string, typeName: string)
    | UndefinedVariable(inStruct: string, variable: string)

  /** What stands before the type name of an item: nothing, `[]`, or `[text]`. */
  datatype Bracket = NoBracket | EmptyBracket | Text(text: string)

  type Pair = (string, string)

  datatype RawItem = RawItem(name: string, bracket: Bracket, typeName: string, options: seq<Pair>)

  /** A top-level element of the file: an options list, or a struct definition. */
  datatype RawElement =
    | Options(pairs: seq<Pair>)
    | Definition(name: string, items: seq<RawItem>)

  datatype FileOptions = FileOptions(scopeName: string, endian: Endian)

  datatype ItemOptions = ItemOptions(arraySizeType: Option<Type>, endian: Endian)

  // ---------------------------------------------------------------------------
  // Type names
  // ---------------------------------------------------------------------------

  /** The type names the grammar reserves for built-in types. */
  const PrimitiveNames: set<string> :=
    {"u8", "u16", "u32", "u64", "i8", "i16", "i32", "i64", "f32", "f64", "byte", "string", "cstring"}

  /** parse_item_type: a reserved name gives its built-in type, any other name a user struct. */
  function ParseItemType(typeName: string): (t: Type)
    ensures t.User? <==> typeName !in PrimitiveNames
    ensures t.User? ==> t.name == typeName
  {
    match typeName
    case "u8" => U8
    case "u16" => U16
    case "u32" => U32
    case "u64" => U64
    case "i8" => I8
    case "i16" => I16
    case "i32" => I32
    case "i64" => I64
    case "f32" => F32
    case "f64" => F64
    case "byte" => Byte
    case "string" => String
    case "cstring" => CString
    case _ => User(typeName)
  }

  /** The name a type is written with in a schema. */
  function TypeName(t: Type): (s: string)
    ensures !t.User? ==> s in PrimitiveNames
  {
    match t
    case U8 => "u8"
    case U16 => "u16"
    case U32 => "u32"
    case U64 => "u64"
    case I8 => "i8"
    case I16 => "i16"
    case I32 => "i32"
    case I64 => "i64"
    case F32 => "f32"
    case F64 => "f64"
    case Byte => "byte"
    case String => "string"
    case CString => "cstring"
    case User(name) => name
  }

  /** Every name is parsed to a type written with that same name. */
  lemma TypeNameParseItemType(typeName: string)
    ensures TypeName(ParseItemType(typeName)) == typeName
  {
  }

  /** Every type whose name is not shadowed by a keyword is parsed back from its name. */
  lemma ParseItemTypeName(t: Type)
    requires t.User? ==> t.name !in PrimitiveNames
    ensures ParseItemType(TypeName(t)) == t
  {
  }

  // ---------------------------------------------------------------------------
  // Options
  // ---------------------------------------------------------------------------

  function DefaultFileOptions(): (o: FileOptions)
    ensures o.scopeName == "main" && o.endian == Little
  {
    FileOptions("main", Little)
  }

  /** Items start with no array_size_type and the endianness in force for the file. */
  function DefaultItemOptions(file: FileOptions): (o: ItemOptions)
    ensures o.arraySizeType == None && o.endian == file.endian
  {
    ItemOptions(None, file.endian)
  }

  function ParseEndian(value: string): (r: Result<Endian, Error>)
    ensures r.Ok? <==> value == "big" || value == "little"
    ensures r.Ok? ==> (r.value == Big <==> value == "big")
    ensures r.Err? ==> r.error == UnknownEndianness(value)
  {
    if value == "big" then Ok(Big)
    else if value == "little" then Ok(Little)
    else Err(UnknownEndianness(value))
  }

  /** The value of the last pair with the given key, if there is one. */
  function LastOf(pairs: seq<Pair>, key: string): Option<string> {
    if pairs == [] then None
    else if pairs[|pairs| - 1].0 == key then Some(pairs[|pairs| - 1].1)
    else LastOf(pairs[..|pairs| - 1], key)
  }

  /** A pair in front is overridden by any later pair with the same key. */
  lemma {:induction false} LastOfCons(p: Pair, rest: seq<Pair>, key: string)
    ensures LastOf([p] + rest, key) == if LastOf(rest, key).Some? then LastOf(rest, key) else LastOf([p], key)
  {
    if rest != [] {
      assert ([p] + rest)[..|[p] + rest| - 1] == [p] + rest[..|rest| - 1];
      LastOfCons(p, rest[..|rest| - 1], key);
    } else {
      assert [p] + rest == [p];
    }
  }

  /** The pairs, with the first one split off. */
  lemma Uncons(pairs: seq<Pair>)
    requires pairs != []
    ensures pairs == [pairs[0]] + pairs[1..]
    ensures forall k :: 0 <= k < |pairs| - 1 ==> pairs[1..][k] == pairs[k + 1]
  {
  }

  function EndianName(e: Endian): string {
    if e == Big then "big" else "little"
  }

  /** One `key value` pair applied to the file options, or the error it raises. */
  function FileOptionStep(res: FileOptions, pair: Pair): Result<FileOptions, Error> {
    var (key, value) := pair;
    if key == "scope" then Ok(res.(scopeName := value))
    else if key == "endian" then
      match ParseEndian(value)
      case Ok(e) => Ok(res.(endian := e))
      case Err(err) => Err(err)
    else Err(UnknownOption(key))
  }

  /** parse_file_options as a left fold: the pairs applied in order, stopping at the first error. */
  function FileOptionsFold(pairs: seq<Pair>, res: FileOptions): Result<FileOptions, Error> {
    if pairs == [] then Ok(res)
    else
      match FileOptionStep(res, pairs[0])
      case Err(e) => Err(e)
      case Ok(res') => FileOptionsFold(pairs[1..], res')
  }

  /** parse_file_options: each option overwrites the field it names. */
  method ParseFileOptions(pairs: seq<Pair>, defaults: FileOptions) returns (r: Result<FileOptions, Error>)
    ensures r == FileOptionsFold(pairs, defaults)
  {
    var res := defaults;
    for i := 0 to |pairs|
      invariant FileOptionsFold(pairs, defaults) == FileOptionsFold(pairs[i..], res)
    {
      assert pairs[i..][1..] == pairs[i + 1..];
      var (key, value) := pairs[i];
      if key == "scope" {
        res := res.(scopeName := value);
      } else if key == "endian" {
        var e := ParseEndian(value);
        if e.Err? {
          return Err(e.error);
        }
        res := res.(endian := e.value);
      } else {
        return Err(UnknownOption(key));
      }
    }
    r := Ok(res);
  }

  /** The error a single file option raises, if any. */
  function FileOptionError(pair: Pair): Option<Error> {
    var (key, value) := pair;
    if key == "scope" then None
    else if key == "endian" then (if value == "big" || value == "little" then None else Some(UnknownEndianness(value)))
    else Some(UnknownOption(key))
  }

  /**
   * The file options fold succeeds exactly when every pair is a known key with a
   * valid value; then each field holds the LAST value given for it (later keys
   * override earlier ones), or the value it started with.
   */
  lemma {:induction false} FileOptionsFoldValid(pairs: seq<Pair>, start: FileOptions)
    ensures FileOptionsFold(pairs, start).Ok? <==> forall k :: 0 <= k < |pairs| ==> FileOptionError(pairs[k]) == None
    ensures FileOptionsFold(pairs, start).Ok? ==>
      FileOptionsFold(pairs, start).value.scopeName
        == (if LastOf(pairs, "scope").Some? then LastOf(pairs, "scope").value else start.scopeName)
      && EndianName(FileOptionsFold(pairs, start).value.endian)
        == (if LastOf(pairs, "endian").Some? then LastOf(pairs, "endian").value else EndianName(start.endian))
  {
    if pairs != [] {
      Uncons(pairs);
      var step := FileOptionStep(start, pairs[0]);
      if step.Ok? {
        FileOptionsFoldValid(pairs[1..], step.value);
        LastOfCons(pairs[0], pairs[1..], "scope");
        LastOfCons(pairs[0], pairs[1..], "endian");
        assert [pairs[0]][..0] == [];
      }
    }
  }

  /** The fold reports the error of the first pair that has one. */
  lemma {:induction false} FileOptionsFoldFirstError(pairs: seq<Pair>, start: FileOptions, k: nat)
    requires k < |pairs| && FileOptionError(pairs[k]).Some?
    requires forall j :: 0 <= j < k ==> FileOptionError(pairs[j]) == None
    ensures FileOptionsFold(pairs, start) == Err(FileOptionError(pairs[k]).value)
  {
    Uncons(pairs);
    if k > 0 {
      FileOptionsFoldFirstError(pairs[1..], FileOptionStep(start, pairs[0]).value, k - 1);
    }
  }

  /** The type array_size_type may name: anything but byte, string and a user struct. */
  predicate SizeTypeAllowed(t: Type) {
    !(t.Byte? || t.String? || t.User?)
  }

  function ItemOptionStep(res: ItemOptions, pair: Pair): Result<ItemOptions, Error> {
    var (key, value) := pair;
    if key == "array_size_type" then
      var kind := ParseItemType(value);
      if SizeTypeAllowed(kind) then Ok(res.(arraySizeType := Some(kind))) else Err(ArraySizeTypeNotInteger)
    else if key == "endian" then
      match ParseEndian(value)
      case Ok(e) => Ok(res.(endian := e))
      case Err(err) => Err(err)
    else Err(UnknownOption(key))
  }

  /** parse_item_options as a left fold. */
  function ItemOptionsFold(pairs: seq<Pair>, res: ItemOptions): Result<ItemOptions, Error> {
    if pairs == [] then Ok(res)
    else
      match ItemOptionStep(res, pairs[0])
      case Err(e) => Err(e)
      case Ok(res') => ItemOptionsFold(pairs[1..], res')
  }

  /** parse_item_options, starting from the item defaults of the file. */
  method ParseItemOptions(pairs: seq<Pair>, file: FileOptions) returns (r: Result<ItemOptions, Error>)
    ensures r == ItemOptionsFold(pairs, DefaultItemOptions(file))
  {
    var res := DefaultItemOptions(file);
    for i := 0 to |pairs|
      invariant ItemOptionsFold(pairs, DefaultItemOptions(file)) == ItemOptionsFold(pairs[i..], res)
    {
      assert pairs[i..][1..] == pairs[i + 1..];
      var (key, value) := pairs[i];
      if key == "array_size_type" {
        var kind := ParseItemType(value);
        if kind.Byte? || kind.String? || kind.User? {
          return Err(ArraySizeTypeNotInteger);
        }
        res := res.(arraySizeType := Some(kind));
      } else if key == "endian" {
        var e := ParseEndian(value);
        if e.Err? {
          return Err(e.error);
        }
        res := res.(endian := e.value);
      } else {
        return Err(UnknownOption(key));
      }
    }
    r := Ok(res);
  }

  function ItemOptionError(pair: Pair): Option<Error> {
    var (key, value) := pair;
    if key == "array_size_type" then (if SizeTypeAllowed(ParseItemType(value)) then None else Some(ArraySizeTypeNotInteger))
    else if key == "endian" then (if value == "big" || value == "little" then None else Some(UnknownEndianness(value)))
    else Some(UnknownOption(key))
  }

  /**
   * The item options fold succeeds exactly when every pair is valid; then
   * array_size_type is the type named last (or what it started with) and the
   * endianness the one given last (or what it started with).
   */
  lemma {:induction false} ItemOptionsFoldValid(pairs: seq<Pair>, start: ItemOptions)
    ensures ItemOptionsFold(pairs, start).Ok? <==> forall k :: 0 <= k < |pairs| ==> ItemOptionError(pairs[k]) == None
    ensures ItemOptionsFold(pairs, start).Ok? ==>
      ItemOptionsFold(pairs, start).value.arraySizeType
        == (if LastOf(pairs, "array_size_type").Some? then Some(ParseItemType(LastOf(pairs, "array_size_type").value)) else start.arraySizeType)
      && EndianName(ItemOptionsFold(pairs, start).value.endian)
        == (if LastOf(pairs, "endian").Some? then LastOf(pairs, "endian").value else EndianName(start.endian))
  {
    if pairs != [] {
      Uncons(pairs);
      var step := ItemOptionStep(start, pairs[0]);
      if step.Ok? {
        ItemOptionsFoldValid(pairs[1..], step.value);
        LastOfCons(pairs[0], pairs[1..], "array_size_type");
        LastOfCons(pairs[0], pairs[1..], "endian");
        assert [pairs[0]][..0] == [];
      }
    }
  }

  /** The item options fold reports the error of the first pair that has one. */
  lemma {:induction false} ItemOptionsFoldFirstError(pairs: seq<Pair>, start: ItemOptions, k: nat)
    requires k < |pairs| && ItemOptionError(pairs[k]).Some?
    requires forall j :: 0 <= j < k ==> ItemOptionError(pairs[j]) == None
    ensures ItemOptionsFold(pairs, start) == Err(ItemOptionError(pairs[k]).value)
  {
    Uncons(pairs);
    if k > 0 {
      ItemOptionsFoldFirstError(pairs[1..], ItemOptionStep(start, pairs[0]).value, k - 1);
    }
  }

  /** array_size_type accepts every type but byte, string and user structs: cstring and the floats pass. */
  lemma SizeTypeAccepted(value: string, file: FileOptions)
    ensures ItemOptionsFold([("array_size_type", value)], DefaultItemOptions(file))
      == (if value in {"byte", "string"} || value !in PrimitiveNames then Err(ArraySizeTypeNotInteger)
          else Ok(ItemOptions(Some(ParseItemType(value)), file.endian)))
  {
    var pairs := [("array_size_type", value)];
    assert pairs[1..] == [];
  }

  // ---------------------------------------------------------------------------
  // Array counts: Rust's str::parse::<usize> on a 64-bit target
  // ---------------------------------------------------------------------------

  const UsizeLimit: nat := 0x1_0000_0000_0000_0000

  predicate IsDigit(c: char) {
    '0' <= c <= '9'
  }

  /** The number a string of decimal digits denotes. */
  function DigitsValue(s: string): nat
    requires forall k :: 0 <= k < |s| ==> IsDigit(s[k])
  {
    if s == [] then 0
    else
      assert IsDigit(s[|s| - 1]);
      10 * DigitsValue(s[..|s| - 1]) + (s[|s| - 1] as int - '0' as int)
  }

  /** The digits after an optional leading '+'. */
  function UsizeDigits(s: string): string {
    if |s| > 0 && s[0] == '+' then s[1..] else s
  }

  /** usize::from_str: an optional '+', then at least one decimal digit, with a value below 2^64. */
  function ParseUsize(s: string): (r: Option<nat>)
    ensures r.Some? ==> r.value < UsizeLimit
  {
    var digits := UsizeDigits(s);
    if digits == [] || exists k :: 0 <= k < |digits| && !IsDigit(digits[k]) then None
    else if DigitsValue(digits) < UsizeLimit then Some(DigitsValue(digits))
    else None
  }

  /** The decimal digits of n, most significant first, without leading zeros. */
  function Decimal(n: nat): (s: string)
    ensures |s| > 0 && forall k :: 0 <= k < |s| ==> IsDigit(s[k])
  {
    if n < 10 then [('0' as int + n) as char]
    else Decimal(n / 10) + [('0' as int + n % 10) as char]
  }

  lemma {:induction false} DecimalValue(n: nat)
    ensures DigitsValue(Decimal(n)) == n
  {
    if n >= 10 {
      var s := Decimal(n);
      assert s[..|s| - 1] == Decimal(n / 10);
      DecimalValue(n / 10);
    }
  }

  /** Every usize written in decimal is parsed back to itself. */
  lemma ParseUsizeDecimal(n: nat)
    requires n < UsizeLimit
    ensures ParseUsize(Decimal(n)) == Some(n)
  {
    DecimalValue(n);
  }

  // ---------------------------------------------------------------------------
  // Items and definitions
  // ---------------------------------------------------------------------------

  /** environment.iter().find(|i| i.name == name): the first item with that name. */
  function FindItem(env: seq<Item>, name: string): (r: Option<Item>)
    ensures r.Some? ==>
      exists k :: (0 <= k < |env| && env[k] == r.value && r.value.name == name
                   && forall j :: 0 <= j < k ==> env[j].name != name)
    ensures r.None? <==> forall k :: 0 <= k < |env| ==> env[k].name != name
  {
    if env == [] then None
    else if env[0].name == name then Some(env[0])
    else
      var r := FindItem(env[1..], name);
      assert forall k :: 0 <= k < |env| - 1 ==> env[1..][k] == env[k + 1];
      r
  }

  /**
   * parse_item: the options are resolved first; then the bracket decides the
   * array form. A text that parses as a usize is a constant count (any
   * array_size_type is then ignored); any other text must name an earlier item
   * of the same struct, and may not be combined with array_size_type.
   */
  function ParseItem(raw: RawItem, env: seq<Item>, file: FileOptions): (r: Result<Item, Error>)
    // bad options are reported before anything else
    ensures ItemOptionsFold(raw.options, DefaultItemOptions(file)).Err? ==>
      r == Err(ItemOptionsFold(raw.options, DefaultItemOptions(file)).error)
    // an item keeps its name and its type, and takes the byte order of its options
    ensures r.Ok? ==>
      (r.value.name == raw.name && r.value.kind == ParseItemType(raw.typeName)
       && r.value.byteOrder == ItemOptionsFold(raw.options, DefaultItemOptions(file)).value.endian)
    // without a name in the brackets the item cannot fail once its options are good
    ensures ItemOptionsFold(raw.options, DefaultItemOptions(file)).Ok? && !raw.bracket.Text? ==> r.Ok?
    ensures r.Ok? ==> (r.value.arrayKind.None? <==> raw.bracket.NoBracket?)
    // `[]` is counted by a prefix of array_size_type, i32 when none is given
    ensures r.Ok? && raw.bracket.EmptyBracket? ==>
      r.value.arrayKind == Some(Unknown(
        var size := ItemOptionsFold(raw.options, DefaultItemOptions(file)).value.arraySizeType;
        if size.Some? then size.value else I32))
    // `[n]` for a usize n is a constant count, whatever array_size_type says
    ensures (ItemOptionsFold(raw.options, DefaultItemOptions(file)).Ok? && raw.bracket.Text?
             && ParseUsize(raw.bracket.text).Some?) ==>
      r.Ok? && r.value.arrayKind == Some(Constant(ParseUsize(raw.bracket.text).value))
  {
    match ItemOptionsFold(raw.options, DefaultItemOptions(file))
    case Err(e) => Err(e)
    case Ok(opts) =>
      var kind := ParseItemType(raw.typeName);
      match raw.bracket
      case NoBracket => Ok(Item(raw.name, kind, None, opts.endian))
      case EmptyBracket =>
        var prefix := if opts.arraySizeType.Some? then opts.arraySizeType.value else I32;
        Ok(Item(raw.name, kind, Some(Unknown(prefix)), opts.endian))
      case Text(text) =>
        match ParseUsize(text)
        case Some(n) => Ok(Item(raw.name, kind, Some(Constant(n)), opts.endian))
        case None =>
          if opts.arraySizeType.Some? then Err(SizeTypeWithKnownSize)
          else
            match FindItem(env, text)
            case None => Err(UndeclaredIdentifier(text))
            case Some(other) => Ok(Item(raw.name, kind, Some(Variable(text, other.kind)), opts.endian))
  }

  /**
   * `[name]` for a name that is not a usize: it is counted by the first item of
   * that name before it in the struct, whose type becomes the count type; no
   * such item is an undeclared identifier, and array_size_type is refused.
   */
  lemma ParseItemNamedCount(raw: RawItem, env: seq<Item>, file: FileOptions)
    requires raw.bracket.Text? && ParseUsize(raw.bracket.text).None?
    requires ItemOptionsFold(raw.options, DefaultItemOptions(file)).Ok?
    ensures ParseItem(raw, env, file).Ok? <==>
      ItemOptionsFold(raw.options, DefaultItemOptions(file)).value.arraySizeType.None?
      && exists k :: 0 <= k < |env| && env[k].name == raw.bracket.text
    ensures ParseItem(raw, env, file).Ok? ==>
      exists k :: (0 <= k < |env| && env[k].name == raw.bracket.text
                   && (forall j :: 0 <= j < k ==> env[j].name != raw.bracket.text)
                   && ParseItem(raw, env, file).value.arrayKind == Some(Variable(raw.bracket.text, env[k].kind)))
    ensures ParseItem(raw, env, file).Err? ==>
      ParseItem(raw, env, file).error
        == if ItemOptionsFold(raw.options, DefaultItemOptions(file)).value.arraySizeType.Some?
           then SizeTypeWithKnownSize else UndeclaredIdentifier(raw.bracket.text)
  {
  }

  /** The items of a definition after env, each resolved against all the items before it. */
  function ParseItemsFrom(raws: seq<RawItem>, env: seq<Item>, file: FileOptions): (r: Result<seq<Item>, Error>)
    ensures r.Ok? ==> |r.value| == |env| + |raws| && r.value[..|env|] == env
  {
    if raws == [] then Ok(env)
    else
      match ParseItem(raws[0], env, file)
      case Err(e) => Err(e)
      case Ok(item) =>
        var r := ParseItemsFrom(raws[1..], env + [item], file);
        assert r.Ok? ==> r.value[..|env|] == r.value[..|env| + 1][..|env|];
        r
  }

  /** parse_definition: the items vector is also the environment of the next item. */
  method ParseDefinition(name: string, raws: seq<RawItem>, file: FileOptions) returns (r: Result<Struct, Error>)
    ensures r.Ok? <==> ParseItemsFrom(raws, [], file).Ok?
    ensures r.Ok? ==> r.value == Struct(name, ParseItemsFrom(raws, [], file).value)
    ensures r.Err? ==> r.error == ParseItemsFrom(raws, [], file).error
  {
    var items: seq<Item> := [];
    for i := 0 to |raws|
      invariant ParseItemsFrom(raws, [], file) == ParseItemsFrom(raws[i..], items, file)
    {
      assert raws[i..][1..] == raws[i + 1..];
      var next := ParseItem(raws[i], items, file);
      if next.Err? {
        return Err(next.error);
      }
      items := items + [next.value];
    }
    r := Ok(Struct(name, items));
  }

  /**
   * Declaration order: item i of a parsed definition is raws[i] resolved against
   * exactly the items before it, so it carries raws[i]'s name.
   */
  lemma {:induction false} ParseItemsEnvironment(raws: seq<RawItem>, env: seq<Item>, file: FileOptions, i: nat)
    requires ParseItemsFrom(raws, env, file).Ok? && i < |raws|
    ensures var items := ParseItemsFrom(raws, env, file).value;
      ParseItem(raws[i], items[..|env| + i], file) == Ok(items[|env| + i])
  {
    var item := ParseItem(raws[0], env, file).value;
    var items := ParseItemsFrom(raws, env, file).value;
    assert items == ParseItemsFrom(raws[1..], env + [item], file).value;
    if i == 0 {
      assert items[..|env| + 1] == env + [item];
      assert items[..|env|] == env;
    } else {
      ParseItemsEnvironment(raws[1..], env + [item], file, i - 1);
    }
  }

  /** Every variable-sized array of the struct names an item before it and carries that item's type. */
  ghost predicate VariablesBackward(items: seq<Item>) {
    forall i :: 0 <= i < |items| && items[i].arrayKind.Some? && items[i].arrayKind.value.Variable? ==>
      exists j :: (0 <= j < i && items[j].name == items[i].arrayKind.value.field
        && items[j].kind == items[i].arrayKind.value.fieldType)
  }

  /** A variable-sized array refers to an earlier item of the same definition, never a later one. */
  lemma VariableRefersBackward(raws: seq<RawItem>, file: FileOptions)
    requires ParseItemsFrom(raws, [], file).Ok?
    ensures VariablesBackward(ParseItemsFrom(raws, [], file).value)
  {
    var items := ParseItemsFrom(raws, [], file).value;
    forall i | 0 <= i < |items| && items[i].arrayKind.Some? && items[i].arrayKind.value.Variable?
      ensures exists j :: (0 <= j < i && items[j].name == items[i].arrayKind.value.field
        && items[j].kind == items[i].arrayKind.value.fieldType)
    {
      ParseItemsEnvironment(raws, [], file, i);
      var found := FindItem(items[..i], items[i].arrayKind.value.field);
      var j :| 0 <= j < i && items[..i][j] == found.value;
    }
  }

  // ---------------------------------------------------------------------------
  // The file
  // ---------------------------------------------------------------------------

  function StructNames(defs: seq<Struct>): set<string> {
    set k | 0 <= k < |defs| :: defs[k].name
  }

  function VarNames(defs: seq<Struct>): set<string> {
    set k, j | 0 <= k < |defs| && 0 <= j < |defs[k].items| :: defs[k].items[j].name
  }

  lemma NamesSnoc(defs: seq<Struct>, s: Struct)
    ensures StructNames(defs + [s]) == StructNames(defs) + {s.name}
    ensures VarNames(defs + [s]) == VarNames(defs) + set k | 0 <= k < |s.items| :: s.items[k].name
  {
    var all := defs + [s];
    assert forall k :: 0 <= k < |defs| ==> all[k] == defs[k];
    assert all[|defs|] == s;
  }

  /**
   * The first pass from some point on: options lists update the options in force,
   * a definition is parsed under them and kept when it has items.
   */
  function FirstPass(elements: seq<RawElement>, opts: FileOptions, defs: seq<Struct>): Result<(FileOptions, seq<Struct>), Error> {
    if elements == [] then Ok((opts, defs))
    else
      match elements[0]
      case Options(pairs) =>
        (match FileOptionsFold(pairs, opts)
         case Err(e) => Err(e)
         case Ok(opts') => FirstPass(elements[1..], opts', defs))
      case Definition(name, raws) =>
        match ParseItemsFrom(raws, [], opts)
        case Err(e) => Err(e)
        case Ok(items) => FirstPass(elements[1..], opts, if items == [] then defs else defs + [Struct(name, items)])
  }

  /** The error the second pass reports for one item, if any. */
  function ItemRefError(structName: string, item: Item, structNames: set<string>, varNames: set<string>): Option<Error> {
    if item.kind.User? && item.kind.name !in structNames then Some(UndefinedType(structName, item.kind.name))
    else if item.arrayKind.Some? && item.arrayKind.value.Variable? && item.arrayKind.value.field !in varNames then
      Some(UndefinedVariable(structName, item.arrayKind.value.field))
    else None
  }

  /** The first error among the items of one struct. */
  function ItemsRefError(structName: string, items: seq<Item>, structNames: set<string>, varNames: set<string>): Option<Error> {
    if items == [] then None
    else
      var e := ItemRefError(structName, items[0], structNames, varNames);
      if e.Some? then e else ItemsRefError(structName, items[1..], structNames, varNames)
  }

  /** The first error of the second pass, scanning structs and their items in order. */
  function RefError(defs: seq<Struct>, structNames: set<string>, varNames: set<string>): Option<Error> {
    if defs == [] then None
    else
      var e := ItemsRefError(defs[0].name, defs[0].items, structNames, varNames);
      if e.Some? then e else RefError(defs[1..], structNames, varNames)
  }

  /** parse_file, from the token tree on. */
  function Validate(elements: seq<RawElement>): Result<File, Error> {
    match FirstPass(elements, DefaultFileOptions(), [])
    case Err(e) => Err(e)
    case Ok((opts, defs)) =>
      match RefError(defs, StructNames(defs), VarNames(defs))
      case Some(e) => Err(e)
      case None => Ok(File(opts.scopeName, defs))
  }

  /** The inner loop of the second pass. */
  method CheckItems(structName: string, items: seq<Item>, structNames: set<string>, varNames: set<string>) returns (r: Option<Error>)
    ensures r == ItemsRefError(structName, items, structNames, varNames)
  {
    for j := 0 to |items|
      invariant ItemsRefError(structName, items, structNames, varNames) == ItemsRefError(structName, items[j..], structNames, varNames)
    {
      assert items[j..][1..] == items[j + 1..];
      var item := items[j];
      if item.kind.User? && item.kind.name !in structNames {
        return Some(UndefinedType(structName, item.kind.name));
      }
      if item.arrayKind.Some? && item.arrayKind.value.Variable? && item.arrayKind.value.field !in varNames {
        return Some(UndefinedVariable(structName, item.arrayKind.value.field));
      }
    }
    r := None;
  }

  /** The loop that gathers the item names of a kept struct into the file-wide set. */
  method AddItemNames(names: set<string>, items: seq<Item>) returns (r: set<string>)
    ensures r == names + set k | 0 <= k < |items| :: items[k].name
  {
    r := names;
    for j := 0 to |items|
      invariant r == names + set k | 0 <= k < j :: items[k].name
    {
      r := r + {items[j].name};
    }
  }

  /** The outer loop of the second pass: the first error among the structs, in order. */
  method CheckStructs(defs: seq<Struct>, structNames: set<string>, varNames: set<string>) returns (r: Option<Error>)
    ensures r == RefError(defs, structNames, varNames)
  {
    for i := 0 to |defs|
      invariant RefError(defs, structNames, varNames) == RefError(defs[i..], structNames, varNames)
    {
      assert defs[i..][1..] == defs[i + 1..];
      r := CheckItems(defs[i].name, defs[i].items, structNames, varNames);
      if r.Some? {
        return;
      }
    }
    r := None;
  }

  /**
   * parse_file: the definitions are collected in order under the options in
   * force at their position, empty ones are skipped, and the names of kept
   * structs and of their items are gathered; the second pass then checks every
   * user type and every variable-size name against those file-wide sets.
   */
  method ParseFile(elements: seq<RawElement>) returns (r: Result<File, Error>)
    ensures r == Validate(elements)
  {
    var definitions: seq<Struct> := [];
    var definedStructs: set<string> := {};
    var definedVars: set<string> := {};
    var fileOptions := DefaultFileOptions();
    for i := 0 to |elements|
      invariant FirstPass(elements, DefaultFileOptions(), []) == FirstPass(elements[i..], fileOptions, definitions)
      invariant definedStructs == StructNames(definitions)
      invariant definedVars == VarNames(definitions)
    {
      assert elements[i..][1..] == elements[i + 1..];
      match elements[i]
      case Options(pairs) =>
        var o := ParseFileOptions(pairs, fileOptions);
        if o.Err? {
          return Err(o.error);
        }
        fileOptions := o.value;
      case Definition(name, raws) =>
        var def := ParseDefinition(name, raws, fileOptions);
        if def.Err? {
          return Err(def.error);
        }
        var items := def.value.items;
        if items != [] {
          definedVars := AddItemNames(definedVars, items);
          NamesSnoc(definitions, def.value);
          definedStructs := definedStructs + {name};
          definitions := definitions + [def.value];
        }
    }
    var e := CheckStructs(definitions, definedStructs, definedVars);
    if e.Some? {
      return Err(e.value);
    }
    r := Ok(File(fileOptions.scopeName, definitions));
  }

  // ---------------------------------------------------------------------------
  // What a successful validation guarantees
  // ---------------------------------------------------------------------------

  /** Kept structs are non-empty and their variable-size arrays count by earlier items. */
  ghost predicate WellFormedDefs(defs: seq<Struct>) {
    forall k :: 0 <= k < |defs| ==> defs[k].items != [] && VariablesBackward(defs[k].items)
  }

  /** Every user type of every item names a struct of the file. */
  ghost predicate UserTypesResolve(defs: seq<Struct>) {
    forall k, j :: 0 <= k < |defs| && 0 <= j < |defs[k].items| && defs[k].items[j].kind.User? ==>
      defs[k].items[j].kind.name in StructNames(defs)
  }

  /** The first pass only appends well-formed structs to those it started with. */
  lemma {:induction false} FirstPassWellFormed(elements: seq<RawElement>, opts: FileOptions, defs: seq<Struct>)
    requires WellFormedDefs(defs) && FirstPass(elements, opts, defs).Ok?
    ensures WellFormedDefs(FirstPass(elements, opts, defs).value.1)
    ensures defs <= FirstPass(elements, opts, defs).value.1
  {
    if elements != [] {
      match elements[0]
      case Options(pairs) =>
        FirstPassWellFormed(elements[1..], FileOptionsFold(pairs, opts).value, defs);
      case Definition(name, raws) =>
        var items := ParseItemsFrom(raws, [], opts).value;
        if items == [] {
          FirstPassWellFormed(elements[1..], opts, defs);
        } else {
          VariableRefersBackward(raws, opts);
          var defs' := defs + [Struct(name, items)];
          assert forall k :: 0 <= k < |defs| ==> defs'[k] == defs[k];
          FirstPassWellFormed(elements[1..], opts, defs');
        }
    }
  }

  /** The options and definitions of a concatenation: the second part continues where the first stops. */
  lemma {:induction false} FirstPassAppend(a: seq<RawElement>, b: seq<RawElement>, opts: FileOptions, defs: seq<Struct>)
    ensures FirstPass(a + b, opts, defs) ==
      match FirstPass(a, opts, defs)
      case Err(e) => Err(e)
      case Ok((opts', defs')) => FirstPass(b, opts', defs')
  {
    if a == [] {
      assert a + b == b;
    } else {
      assert (a + b)[0] == a[0] && (a + b)[1..] == a[1..] + b;
      match a[0]
      case Options(pairs) =>
        if FileOptionsFold(pairs, opts).Ok? {
          FirstPassAppend(a[1..], b, FileOptionsFold(pairs, opts).value, defs);
        }
      case Definition(name, raws) =>
        if ParseItemsFrom(raws, [], opts).Ok? {
          var items := ParseItemsFrom(raws, [], opts).value;
          FirstPassAppend(a[1..], b, opts, if items == [] then defs else defs + [Struct(name, items)]);
        }
    }
  }

  /** A struct with no items is skipped: the file validates exactly as if it were absent. */
  lemma EmptyDefinitionDropped(a: seq<RawElement>, name: string, b: seq<RawElement>)
    ensures Validate(a + [Definition(name, [])] + b) == Validate(a + b)
  {
    FirstPassAppend(a, [Definition(name, [])] + b, DefaultFileOptions(), []);
    assert a + [Definition(name, [])] + b == a + ([Definition(name, [])] + b);
    FirstPassAppend(a, b, DefaultFileOptions(), []);
    var rest := [Definition(name, [])] + b;
    assert rest[0] == Definition(name, []) && rest[1..] == b;
  }

  lemma {:induction false} ItemsRefErrorNone(structName: string, items: seq<Item>, structNames: set<string>, varNames: set<string>)
    ensures ItemsRefError(structName, items, structNames, varNames) == None
      <==> forall j :: 0 <= j < |items| ==> ItemRefError(structName, items[j], structNames, varNames) == None
    ensures ItemsRefError(structName, items, structNames, varNames).Some? ==>
      exists j :: 0 <= j < |items| && ItemsRefError(structName, items, structNames, varNames) == ItemRefError(structName, items[j], structNames, varNames)
  {
    if items != [] {
      ItemsRefErrorNone(structName, items[1..], structNames, varNames);
      assert forall j :: 0 <= j < |items| - 1 ==> items[1..][j] == items[j + 1];
    }
  }

  /** The second pass finds nothing exactly when every item of every struct passes both checks. */
  lemma {:induction false} RefErrorNone(defs: seq<Struct>, structNames: set<string>, varNames: set<string>)
    ensures RefError(defs, structNames, varNames) == None
      <==> forall k, j :: 0 <= k < |defs| && 0 <= j < |defs[k].items| ==>
        ItemRefError(defs[k].name, defs[k].items[j], structNames, varNames) == None
    ensures RefError(defs, structNames, varNames).Some? ==>
      exists k, j :: 0 <= k < |defs| && 0 <= j < |defs[k].items|
        && RefError(defs, structNames, varNames) == ItemRefError(defs[k].name, defs[k].items[j], structNames, varNames)
  {
    if defs != [] {
      ItemsRefErrorNone(defs[0].name, defs[0].items, structNames, varNames);
      RefErrorNone(defs[1..], structNames, varNames);
      assert forall k :: 0 <= k < |defs| - 1 ==> defs[1..][k] == defs[k + 1];
    }
  }

  /** In well-formed structs every variable-size name is an item name of the file. */
  lemma VariablesDefined(defs: seq<Struct>, k: nat, j: nat)
    requires WellFormedDefs(defs) && k < |defs| && j < |defs[k].items|
    requires defs[k].items[j].arrayKind.Some? && defs[k].items[j].arrayKind.value.Variable?
    ensures defs[k].items[j].arrayKind.value.field in VarNames(defs)
  {
    var items := defs[k].items;
    var i :| 0 <= i < j && items[i].name == items[j].arrayKind.value.field && items[i].kind == items[j].arrayKind.value.fieldType;
    assert defs[k].items[i].name in VarNames(defs);
  }

  /**
   * A schema validates exactly when the first pass succeeds and every user type
   * names a kept struct somewhere in the file (before or after its use); the
   * structs it yields are non-empty and count variable-size arrays by earlier items.
   */
  lemma ValidateOk(elements: seq<RawElement>)
    ensures Validate(elements).Ok? <==>
      FirstPass(elements, DefaultFileOptions(), []).Ok? && UserTypesResolve(FirstPass(elements, DefaultFileOptions(), []).value.1)
    ensures Validate(elements).Ok? ==>
      Validate(elements).value.scope == FirstPass(elements, DefaultFileOptions(), []).value.0.scopeName
      && Validate(elements).value.structs == FirstPass(elements, DefaultFileOptions(), []).value.1
      && WellFormedDefs(Validate(elements).value.structs)
  {
    var first := FirstPass(elements, DefaultFileOptions(), []);
    if first.Ok? {
      var defs := first.value.1;
      FirstPassWellFormed(elements, DefaultFileOptions(), []);
      RefErrorNone(defs, StructNames(defs), VarNames(defs));
      forall k, j | 0 <= k < |defs| && 0 <= j < |defs[k].items| && defs[k].items[j].arrayKind.Some? && defs[k].items[j].arrayKind.value.Variable?
        ensures defs[k].items[j].arrayKind.value.field in VarNames(defs)
      {
        VariablesDefined(defs, k, j);
      }
    }
  }

  /** The errors that parsing itself raises, before any file-wide check. */
  predicate LocalError(e: Error) {
    !(e.UndefinedType? || e.UndefinedVariable?)
  }

  lemma {:induction false} FileOptionsFoldLocal(pairs: seq<Pair>, res: FileOptions)
    ensures FileOptionsFold(pairs, res).Err? ==> LocalError(FileOptionsFold(pairs, res).error)
  {
    if pairs != [] && FileOptionStep(res, pairs[0]).Ok? {
      FileOptionsFoldLocal(pairs[1..], FileOptionStep(res, pairs[0]).value);
    }
  }

  lemma {:induction false} ItemOptionsFoldLocal(pairs: seq<Pair>, res: ItemOptions)
    ensures ItemOptionsFold(pairs, res).Err? ==> LocalError(ItemOptionsFold(pairs, res).error)
  {
    if pairs != [] && ItemOptionStep(res, pairs[0]).Ok? {
      ItemOptionsFoldLocal(pairs[1..], ItemOptionStep(res, pairs[0]).value);
    }
  }

  lemma {:induction false} ParseItemsFromLocal(raws: seq<RawItem>, env: seq<Item>, file: FileOptions)
    ensures ParseItemsFrom(raws, env, file).Err? ==> LocalError(ParseItemsFrom(raws, env, file).error)
  {
    if raws != [] {
      ItemOptionsFoldLocal(raws[0].options, DefaultItemOptions(file));
      if ParseItem(raws[0], env, file).Ok? {
        ParseItemsFromLocal(raws[1..], env + [ParseItem(raws[0], env, file).value], file);
      }
    }
  }

  /** The first pass only ever reports local errors. */
  lemma {:induction false} FirstPassLocal(elements: seq<RawElement>, opts: FileOptions, defs: seq<Struct>)
    ensures FirstPass(elements, opts, defs).Err? ==> LocalError(FirstPass(elements, opts, defs).error)
  {
    if elements != [] {
      match elements[0]
      case Options(pairs) =>
        FileOptionsFoldLocal(pairs, opts);
        if FileOptionsFold(pairs, opts).Ok? {
          FirstPassLocal(elements[1..], FileOptionsFold(pairs, opts).value, defs);
        }
      case Definition(name, raws) =>
        ParseItemsFromLocal(raws, [], opts);
        if ParseItemsFrom(raws, [], opts).Ok? {
          var items := ParseItemsFrom(raws, [], opts).value;
          FirstPassLocal(elements[1..], opts, if items == [] then defs else defs + [Struct(name, items)]);
        }
    }
  }

  /**
   * The second pass's variable check never fires: a variable count already had
   * to name an earlier item of its own (kept) struct.
   */
  lemma NeverUndefinedVariable(elements: seq<RawElement>)
    ensures !(Validate(elements).Err? && Validate(elements).error.UndefinedVariable?)
  {
    var first := FirstPass(elements, DefaultFileOptions(), []);
    FirstPassLocal(elements, DefaultFileOptions(), []);
    if first.Ok? {
      var defs := first.value.1;
      FirstPassWellFormed(elements, DefaultFileOptions(), []);
      RefErrorNone(defs, StructNames(defs), VarNames(defs));
      var e := RefError(defs, StructNames(defs), VarNames(defs));
      if e.Some? {
        var k, j :| 0 <= k < |defs| && 0 <= j < |defs[k].items| && e == ItemRefError(defs[k].name, defs[k].items[j], StructNames(defs), VarNames(defs));
        var item := defs[k].items[j];
        if item.arrayKind.Some? && item.arrayKind.value.Variable? {
          VariablesDefined(defs, k, j);
        }
        assert e.value.UndefinedType?;
      }
    }
  }

  // ---------------------------------------------------------------------------
  // The source's own test schemas
  // ---------------------------------------------------------------------------

  /** A count declared after the array that uses it is an undeclared identifier. */
  lemma CountAfterArrayRejected()
    ensures Validate([Definition("player", [
        RawItem("hpCount", NoBracket, "u64", []),
        RawItem("hp", Text("hpCount"), "u8", []),
        RawItem("sp", Text("spCount"), "u16", []),
        RawItem("spCount", NoBracket, "i32", [])])])
      == Err(UndeclaredIdentifier("spCount"))
  {
    var raws := [
        RawItem("hpCount", NoBracket, "u64", []),
        RawItem("hp", Text("hpCount"), "u8", []),
        RawItem("sp", Text("spCount"), "u16", []),
        RawItem("spCount", NoBracket, "i32", [])];
    var opts := DefaultFileOptions();
    var hpCount := Item("hpCount", U64, None, Little);
    var hp := Item("hp", U8, Some(Variable("hpCount", U64)), Little);
    assert !IsDigit("hpCount"[0]) && !IsDigit("spCount"[0]);
    assert ParseItemsFrom(raws, [], opts) == ParseItemsFrom(raws[1..], [hpCount], opts);
    assert ParseItemsFrom(raws[1..], [hpCount], opts) == ParseItemsFrom(raws[2..], [hpCount, hp], opts);
    assert ParseItemsFrom(raws[2..], [hpCount, hp], opts) == Err(UndeclaredIdentifier("spCount"));
  }

  /** A variable count together with array_size_type is rejected. */
  lemma SizeTypeWithVariableRejected()
    ensures Validate([Definition("player", [
        RawItem("hpCount", NoBracket, "u64", []),
        RawItem("hp", Text("hpCount"), "u8", [("array_size_type", "u8")]),
        RawItem("sp", EmptyBracket, "u16", [])])])
      == Err(SizeTypeWithKnownSize)
  {
    var raws := [
        RawItem("hpCount", NoBracket, "u64", []),
        RawItem("hp", Text("hpCount"), "u8", [("array_size_type", "u8")]),
        RawItem("sp", EmptyBracket, "u16", [])];
    var opts := DefaultFileOptions();
    var sizeType := [("array_size_type", "u8")];
    assert sizeType[1..] == [];
    assert ItemOptionsFold(sizeType, DefaultItemOptions(opts)) == Ok(ItemOptions(Some(U8), Little));
    assert !IsDigit("hpCount"[0]);
    assert ParseItemsFrom(raws, [], opts) == ParseItemsFrom(raws[1..], [Item("hpCount", U64, None, Little)], opts);
    assert ParseItemsFrom(raws[1..], [Item("hpCount", U64, None, Little)], opts) == Err(SizeTypeWithKnownSize);
  }

  /** A constant count together with array_size_type is accepted and the size type dropped. */
  lemma SizeTypeWithConstantIgnored()
    ensures ParseItem(RawItem("ang", Text("3"), "u8", [("array_size_type", "u16")]), [], DefaultFileOptions())
      == Ok(Item("ang", U8, Some(Constant(3)), Little))
  {
    assert DigitsValue("3") == 3;
  }

  /** The items of the first struct of the undefined-type test schema. */
  lemma UndefinedTypePlayerItems()
    ensures ParseItemsFrom([RawItem("hp", EmptyBracket, "u8", []), RawItem("sp", EmptyBracket, "adf", [])], [], DefaultFileOptions())
      == Ok([Item("hp", U8, Some(Unknown(I32)), Little), Item("sp", User("adf"), Some(Unknown(I32)), Little)])
  {
    var opts := DefaultFileOptions();
    var player := [RawItem("hp", EmptyBracket, "u8", []), RawItem("sp", EmptyBracket, "adf", [])];
    var hp := Item("hp", U8, Some(Unknown(I32)), Little);
    var sp := Item("sp", User("adf"), Some(Unknown(I32)), Little);
    assert ParseItemType("u8") == U8;
    assert ParseItemType("adf") == User("adf");
    assert ItemOptionsFold([], DefaultItemOptions(opts)) == Ok(ItemOptions(None, Little));
    assert ParseItem(player[0], [], opts) == Ok(hp);
    assert [] + [hp] == [hp] && [hp] + [sp] == [hp, sp];
    assert ParseItemsFrom(player, [], opts) == ParseItemsFrom(player[1..], [hp], opts);
  }

  /** The items of the second struct of the undefined-type test schema. */
  lemma UndefinedTypeShipItems()
    ensures ParseItemsFrom([RawItem("ang", Text("3"), "u8", []), RawItem("spd", NoBracket, "string", [])], [], DefaultFileOptions())
      == Ok([Item("ang", U8, Some(Constant(3)), Little), Item("spd", String, None, Little)])
  {
    var opts := DefaultFileOptions();
    var ship := [RawItem("ang", Text("3"), "u8", []), RawItem("spd", NoBracket, "string", [])];
    var ang := Item("ang", U8, Some(Constant(3)), Little);
    var spd := Item("spd", String, None, Little);
    assert DigitsValue("3") == 3;
    assert ParseItemType("u8") == U8;
    assert ItemOptionsFold([], DefaultItemOptions(opts)) == Ok(ItemOptions(None, Little));
    assert [] + [ang] == [ang] && [ang] + [spd] == [ang, spd];
    assert ParseItemsFrom(ship, [], opts) == ParseItemsFrom(ship[1..], [ang], opts);
  }

  /** The first pass over the undefined-type test schema keeps both structs. */
  lemma UndefinedTypeFirstPass()
    ensures FirstPass([
        Definition("player", [RawItem("hp", EmptyBracket, "u8", []), RawItem("sp", EmptyBracket, "adf", [])]),
        Definition("ship", [RawItem("ang", Text("3"), "u8", []), RawItem("spd", NoBracket, "string", [])])],
        DefaultFileOptions(), [])
      == Ok((DefaultFileOptions(), [
        Struct("player", [Item("hp", U8, Some(Unknown(I32)), Little), Item("sp", User("adf"), Some(Unknown(I32)), Little)]),
        Struct("ship", [Item("ang", U8, Some(Constant(3)), Little), Item("spd", String, None, Little)])]))
  {
    var opts := DefaultFileOptions();
    UndefinedTypePlayerItems();
    UndefinedTypeShipItems();
    var defs := [
        Struct("player", [Item("hp", U8, Some(Unknown(I32)), Little), Item("sp", User("adf"), Some(Unknown(I32)), Little)]),
        Struct("ship", [Item("ang", U8, Some(Constant(3)), Little), Item("spd", String, None, Little)])];
    var elements := [
        Definition("player", [RawItem("hp", EmptyBracket, "u8", []), RawItem("sp", EmptyBracket, "adf", [])]),
        Definition("ship", [RawItem("ang", Text("3"), "u8", []), RawItem("spd", NoBracket, "string", [])])];
    assert [] + [defs[0]] == [defs[0]] && [defs[0]] + [defs[1]] == defs;
    assert elements[1..][0] == elements[1] && elements[1..][1..] == [];
    assert FirstPass(elements, opts, []) == FirstPass(elements[1..], opts, [defs[0]]);
  }

  /** A type that no struct defines is reported with the struct that uses it. */
  lemma UndefinedTypeRejected()
    ensures Validate([
        Definition("player", [RawItem("hp", EmptyBracket, "u8", []), RawItem("sp", EmptyBracket, "adf", [])]),
        Definition("ship", [RawItem("ang", Text("3"), "u8", []), RawItem("spd", NoBracket, "string", [])])])
      == Err(UndefinedType("player", "adf"))
  {
    var hp := Item("hp", U8, Some(Unknown(I32)), Little);
    var sp := Item("sp", User("adf"), Some(Unknown(I32)), Little);
    var defs := [Struct("player", [hp, sp]), Struct("ship", [Item("ang", U8, Some(Constant(3)), Little), Item("spd", String, None, Little)])];
    UndefinedTypeFirstPass();
    assert "adf" !in StructNames(defs);
    assert ItemsRefError("player", [hp, sp], StructNames(defs), VarNames(defs)) == Some(UndefinedType("player", "adf"));
  }

  /** A struct may use a struct defined after it, and the last inline endian wins. */
  lemma ForwardReferenceAccepted()
    ensures Validate([
        Definition("player", [RawItem("hp", NoBracket, "u8", [("endian", "big"), ("endian", "little")]), RawItem("pos", NoBracket, "vec", [])]),
        Definition("vec", [RawItem("x", NoBracket, "i32", [])])])
      == Ok(File("main", [
        Struct("player", [Item("hp", U8, None, Little), Item("pos", User("vec"), None, Little)]),
        Struct("vec", [Item("x", I32, None, Little)])]))
  {
    var opts := DefaultFileOptions();
    var endians := [("endian", "big"), ("endian", "little")];
    assert endians[1..][1..] == [];
    assert ItemOptionsFold(endians, DefaultItemOptions(opts)) == Ok(ItemOptions(None, Little));
    var player := [RawItem("hp", NoBracket, "u8", endians), RawItem("pos", NoBracket, "vec", [])];
    var vec := [RawItem("x", NoBracket, "i32", [])];
    var hp := Item("hp", U8, None, Little);
    var pos := Item("pos", User("vec"), None, Little);
    var x := Item("x", I32, None, Little);
    assert ParseItemType("vec") == User("vec");
    assert [] + [hp] == [hp] && [hp] + [pos] == [hp, pos] && [] + [x] == [x];
    assert ParseItem(player[0], [], opts) == Ok(hp);
    assert ParseItemsFrom(player, [], opts) == ParseItemsFrom(player[1..], [hp], opts);
    assert ParseItemsFrom(player[1..], [hp], opts) == Ok([hp, pos]);
    assert ParseItemsFrom(vec, [], opts) == Ok([x]);
    var defs := [Struct("player", [hp, pos]), Struct("vec", [x])];
    var elements := [Definition("player", player), Definition("vec", vec)];
    assert [] + [hp] == [hp] && [hp] + [pos] == [hp, pos] && [] + [x] == [x];
    assert [] + [defs[0]] == [defs[0]] && [defs[0]] + [defs[1]] == defs;
    assert elements[1..][0] == elements[1] && elements[1..][1..] == [];
    assert FirstPass(elements, opts, []) == FirstPass(elements[1..], opts, [defs[0]]);
    assert FirstPass(elements[1..], opts, [defs[0]]) == Ok((opts, defs));
    assert "vec" in StructNames(defs) by { assert defs[1].name == "vec"; }
    assert [hp, pos][1..] == [pos] && [pos][1..] == [] && [x][1..] == [] && defs[1..] == [defs[1]] && defs[1..][1..] == [];
    assert ItemRefError("player", pos, StructNames(defs), VarNames(defs)) == None;
    assert ItemsRefError("player", [pos], StructNames(defs), VarNames(defs)) == None;
    assert ItemsRefError("player", [hp, pos], StructNames(defs), VarNames(defs)) == None;
    assert ItemsRefError("vec", [x], StructNames(defs), VarNames(defs)) == None;
    assert RefError(defs[1..], StructNames(defs), VarNames(defs)) == None;
    assert RefError(defs, StructNames(defs), VarNames(defs)) == None;
  }
}
