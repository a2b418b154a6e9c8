# pstruct: a verified model of the schema compiler, the generated codec and the runtimes

pstruct reads a schema of packed binary structs and generates encoders and decoders for them. A schema is a list of `struct` definitions. Each item of a struct is a scalar, a fixed array `[3]`, an array counted by an earlier field `[count]`, or a length-prefixed array `[]`. Each item has a primitive, `string`, `cstring` or user-defined type, and a byte order. This project models four parts of pstruct and proves properties about them.

- **Validator** (`validator.dfy`) models the semantic pass of the compiler, over a schema that has already been tokenised. It covers:
  - file options and item options;
  - the `array_size_type` rules;
  - the resolution of `[name]` against earlier items;
  - the two-pass check of user types and count variables.
- **Schema, Layout, Encoder, Decoder** (`schema.dfy`, `layout.dfy`, `encoder.dfy`, `decoder.dfy`) model what the Rust generator emits for each struct:
  - `size()`, `Default`, `encode_buf`/`encode`, `decode`/`decode_new`.
  - The wire format is a function of the value (`Layout.Wire`).
  - A `[name]` array may be counted by any numeric field; its length is `self.name as usize`, which for an f32 or f64 count drops the fraction and saturates, NaN and negatives giving 0 (`Layout.AsUsize`).
  - The encoder writes exactly those bytes.
  - The decoder accepts exactly the wire bytes of valid values and returns the value.
- **Primitive** (`primitive.dfy`) models the Rust runtime:
  - `encode_le`/`encode_be`/`decode_le`/`decode_be` for each primitive;
  - the loops over `[T; N]`, `Vec<T>` and `&mut [T]`.
- **Streams, GoStream, LeStream** (`streams.dfy`, `go_stream.dfy`, `le_stream.dfy`) model the two Go runtimes:
  - the `Stream` that takes an explicit byte order;
  - the little-endian `Stream`.

  Each is a class with `data`, `size` and `pos` fields, and the reads are specified as pure functions of the old state. Unsigned 64-bit arithmetic wraps around (`Streams.Add64`), and a Go slice-expression panic is a result of its own (`Panicked`).

`bytes.dfy` holds the little- and big-endian digit encodings and the sequence lemmas. `wrappers.dfy` holds `Option` and `Result`.

## Model

| member | source | states |
|---|---|---|
| Validator.ParseItemType | backend/src/parser.rs:53-61 | a type name denotes a user struct exactly when it is not one of the thirteen reserved names, and the struct keeps that name |
| Validator.TypeNameParseItemType | backend/src/parser.rs:53-61 | parse_item_type loses nothing: printing the parsed type gives back the name |
| Validator.ParseItemTypeName | backend/src/parser.rs:53-61 | every type whose user name is not reserved is what its printed name parses to |
| Validator.DefaultFileOptions | backend/src/parser.rs:30-32 | the file scope defaults to "main" and the byte order to little-endian |
| Validator.DefaultItemOptions | backend/src/parser.rs:34-36 | an item has no array_size_type by default and inherits the file's byte order |
| Validator.ParseEndian | backend/src/parser.rs:84-91 | only "big" and "little" are accepted, as Big and Little; any other value is an unknown-endianness error naming it |
| Validator.ParseFileOptions | backend/src/parser.rs:71-97 | the loop over the options returns the left fold of the option steps from the options in force |
| Validator.FileOptionsFoldValid | backend/src/parser.rs:71-97 | FileOptionsFold, the specification of the option loop: file options succeed iff no pair is erroneous; then scope and endian are the last values given for them, or the ones in force |
| Validator.FileOptionsFoldFirstError | backend/src/parser.rs:77-95 | the error reported is that of the first bad pair |
| Validator.ParseItemOptions | backend/src/parser.rs:99-134 | the loop returns the fold of the item-option steps from the item defaults of the file |
| Validator.ItemOptionsFoldValid | backend/src/parser.rs:99-134 | ItemOptionsFold, the specification of the item-option loop: item options succeed iff no pair is erroneous; then array_size_type and endian are the last values given, or the defaults |
| Validator.ItemOptionsFoldFirstError | backend/src/parser.rs:102-130 | the error reported is that of the first bad pair |
| Validator.SizeTypeAccepted | backend/src/parser.rs:110-119 | array_size_type rejects byte, string and user names and accepts every other built-in type, floats and cstring included |
| Validator.ParseUsizeDecimal | backend/src/parser.rs:158-159 | every usize written in decimal is read as a constant array count equal to itself |
| Validator.ParseItem | backend/src/parser.rs:136-187 | an item keeps its name, its parsed type and the byte order of its options; an option error is reported as is; it has an array kind iff it has brackets; `[]` counts with array_size_type or i32; a decimal `[n]` is the constant n; an item without `[name]` never fails once its options pass |
| Validator.ParseItemNamedCount | backend/src/parser.rs:154-172 | `[name]` succeeds iff no array_size_type is given and an earlier item has the name; the count then has the first such item's type; otherwise the error is SizeTypeWithKnownSize or UndeclaredIdentifier(name) |
| Validator.FindItem | backend/src/parser.rs:165 | the item found carries the name looked for and is the first such in the environment; None iff no item has the name |
| Validator.ParseDefinition | backend/src/parser.rs:39-51 | the loop parses each item against the items before it and stops at the first error, as the recursive definition does |
| Validator.ParseItemsEnvironment | backend/src/parser.rs:46-49 | item i of a parsed definition is raw item i resolved against exactly the items before it |
| Validator.VariableRefersBackward | backend/src/parser.rs:156-172 | every `[name]` array of a parsed definition refers to an earlier item and carries that item's type as count type |
| Validator.ParseItemsFrom | backend/src/parser.rs:46-49 | a parsed definition extends its environment by one item per raw item |
| Validator.CheckItems | backend/src/parser.rs:221-236 | the inner loop of the second pass reports the first undefined type or undefined variable among the items, type first |
| Validator.AddItemNames | backend/src/parser.rs:213-215 | the file-wide name set grows by exactly the names of the kept struct's items |
| Validator.CheckStructs | backend/src/parser.rs:219-237 | the outer loop of the second pass reports the first error of the first struct that has one, as RefError specifies |
| Validator.ParseFile | backend/src/parser.rs:190-242 | the imperative two-pass validation equals the functional specification Validate |
| Validator.FirstPassWellFormed | backend/src/parser.rs:199-219 | FirstPass, the specification of the first loop: the first pass only appends, and every struct it keeps is non-empty with backward count references |
| Validator.FirstPassAppend | backend/src/parser.rs:199-219 | the first pass over a + b is the first pass over b from the state the first pass over a leaves |
| Validator.EmptyDefinitionDropped | backend/src/parser.rs:209-212 | an empty struct definition has no effect on the result of validation |
| Validator.ItemsRefErrorNone | backend/src/parser.rs:221-236 | a struct passes the second pass iff each of its items does |
| Validator.RefErrorNone | backend/src/parser.rs:220-237 | the second pass succeeds iff every item of every struct passes |
| Validator.VariablesDefined | backend/src/parser.rs:214-216 | the name of every variable-size count is among the item names collected |
| Validator.ValidateOk | backend/src/parser.rs:190-242 | Validate, the specification of parse_file: validation succeeds iff the first pass succeeds and every user type names a kept struct; the result holds the scope in force at the end and the kept structs in order |
| Validator.FileOptionsFoldLocal | backend/src/parser.rs:71-97 | file options only ever fail with an error local to one option |
| Validator.ItemOptionsFoldLocal | backend/src/parser.rs:99-134 | item options only ever fail with an error local to one option |
| Validator.ParseItemsFromLocal | backend/src/parser.rs:136-187 | parsing items never reports an undefined type or variable |
| Validator.FirstPassLocal | backend/src/parser.rs:199-219 | the first pass never reports an undefined type or variable |
| Validator.NeverUndefinedVariable | backend/src/parser.rs:229-235 | the undefined-variable error of the second pass can never be reported: the first pass already rejects unknown counts |
| Validator.CountAfterArrayRejected | backend/src/parser.rs:479-490 | a count declared after its array is an undeclared identifier |
| Validator.SizeTypeWithVariableRejected | backend/src/parser.rs:492-502 | array_size_type on a `[name]` array is rejected |
| Validator.SizeTypeWithConstantIgnored | backend/src/parser.rs:158-159 | array_size_type on a constant-size array is silently ignored |
| Validator.UndefinedTypeRejected | backend/src/parser.rs:365-378 | an unknown type name is reported with its struct |
| Validator.ForwardReferenceAccepted | backend/src/parser.rs:220-228 | a struct may use a struct defined after it, and the last endian option of an item wins (526-535) |
| Layout.Lookup | generator/rust/src/lib.rs:157-166 | the struct a user type names carries that name and comes from the schema; None iff no struct has it |
| Layout.FieldIndex | generator/rust/src/lib.rs:219-221 | `self.name` is the first item with that name; None iff there is none |
| Layout.TypeSize | generator/rust/src/lib.rs:350-398 | type_size of every fixed-width type is the runtime's width of the primitive it is encoded as |
| Layout.LookupSupported | generator/rust/src/lib.rs:82-103 | a struct a supported schema names has supported items, and those it holds by value have lower rank, so its size is finite |
| Layout.TreeSupported | generator/rust/src/lib.rs:532-545 | a struct may hold a `[n]` Vec of itself, as rustc accepts |
| Layout.FloatCountSupported | generator/rust/src/lib.rs:219-221 | a `[name]` array may be counted by an f32 field, which `as usize` converts |
| Layout.SelfByValueUnsupported | generator/rust/src/lib.rs:532-545 | a struct holding itself by value is not supported under any rank, as rustc rejects its infinite size |
| Layout.FloatAsUsizeTruncates | generator/rust/src/lib.rs:187-189 | `self.n as usize` on an f32 count drops the fraction (1.5 gives 1, 3.0 gives 3) and takes negative values to 0 |
| Layout.DoubleAsUsize | generator/rust/src/lib.rs:187-189 | an f64 count of 10.0 gives 10 elements |
| Layout.FloatAsUsizeSaturates | generator/rust/src/lib.rs:187-189 | a NaN count gives 0; +infinity and 2^64 saturate at usize::MAX |
| Layout.AsUsizeZero | generator/rust/src/lib.rs:467-485 | the default count 0, integer or float, gives 0 elements |
| Layout.WireFieldsCover | generator/rust/src/lib.rs:341-346 | the bytes of the first n items are at least as long as any one of them |
| Layout.WireLength | generator/rust/src/lib.rs:458-465 | SizeOf (size()) against Wire (the bytes encode writes): size() is exactly the number of bytes encode writes, for every value whose counts agree |
| Layout.FieldsWireLength | generator/rust/src/lib.rs:458-465 | SizeFields against WireFields: the same for the first n items of a struct |
| Layout.ItemWireLength | generator/rust/src/lib.rs:400-456 | ItemSize against ItemWire: item_size is the number of bytes encode_item writes |
| Layout.ElemsWireLength | generator/rust/src/lib.rs:400-456 | SizeSum against the element bytes: an array's element bytes are as long as the sum of its element sizes |
| Layout.ElemsWireFixed | generator/rust/src/lib.rs:350-398 | fixed-width elements take type_size bytes each |
| Layout.DefaultValid | generator/rust/src/lib.rs:467-485 | DefaultOf, the derived Default, has its type, empty variable arrays agreeing with zero counts, and lengths within the casts |
| Layout.ItemDefaultValid | generator/rust/src/lib.rs:467-485 | ItemDefault, the default of one item, yields a valid value of the item with a count of zero |
| Layout.DefaultSmallest | generator/rust/src/lib.rs:244-245 | no value is smaller than the default, so decode's entry assertion is implied by enough data for the value read |
| Layout.FieldsDefaultSmallest | generator/rust/src/lib.rs:458-465 | the same, item by item, for a struct |
| Layout.ItemDefaultSmallest | generator/rust/src/lib.rs:400-456 | the same for one item |
| Layout.SumDefaultSmallest | generator/rust/src/lib.rs:400-456 | the same for the elements of an array |
| Layout.SizeSumFixed | generator/rust/src/lib.rs:400-456 | an array of fixed-width elements has size count times type_size |
| Layout.SizeSumMonotone | generator/rust/src/lib.rs:400-456 | element sizes summed over a prefix never exceed the whole |
| Layout.SizeFieldsMonotone | generator/rust/src/lib.rs:458-465 | item sizes summed over a prefix never exceed the whole |
| Layout.ItemSizeIsSum | generator/rust/src/lib.rs:400-456 | every array item's size is its prefix plus its elements' sizes, whether item_size multiplies or sums |
| Layout.WireIgnoresOrder | generator/rust/src/lib.rs:273-274 | a nested struct is written by encode_buf in its own items' byte orders, whatever order its field declares |
| Layout.RecordValid | generator/rust/src/lib.rs:82-103 | a record is valid iff each of its fields is valid for its item |
| Layout.VarCountFrame | generator/rust/src/lib.rs:182-193 | decoding a later field does not change the count an earlier `[name]` array reads |
| Layout.VarCountPrefix | generator/rust/src/lib.rs:219-221 | an item's count depends only on the fields before it |
| Layout.WireFieldsFrame | generator/rust/src/lib.rs:341-346 | the bytes of the first n items depend only on the first n fields |
| Layout.WireElemsFrame | generator/rust/src/lib.rs:323-328 | the bytes of the first n elements depend only on those elements |
| Layout.FieldAt | generator/rust/src/lib.rs:341-346 | item i's bytes follow the first i items' bytes |
| Layout.ElemAt | generator/rust/src/lib.rs:323-328 | element k's bytes follow the first k elements' bytes |
| Layout.WrapCount | generator/rust/src/lib.rs:198-205 | `x as usize` read back as the count's own type gives x |
| Encoder.EncodeValue | generator/rust/src/lib.rs:276-295 | a single item writes exactly its wire bytes at the cursor and nothing else; it succeeds whenever room and counts allow |
| Encoder.EncodeItem | generator/rust/src/lib.rs:253-330 | an item writes exactly its item wire bytes; a variable array's length must equal its count |
| Encoder.EncodeArray | generator/rust/src/lib.rs:296-329 | an array writes its `len as T` prefix for `[]` and then its elements in order, asserting `[name]` lengths |
| Encoder.EncodeElems | generator/rust/src/lib.rs:323-328 | the element loop writes the elements' wire bytes back to back |
| Encoder.EncodeStruct | generator/rust/src/lib.rs:341-346 | encode_buf succeeds iff the buffer holds size() bytes and all counts agree, and then writes exactly the struct's wire bytes |
| Encoder.EncodeNew | generator/rust/src/lib.rs:335-339 | encode succeeds iff the counts agree and returns exactly the struct's wire bytes |
| Decoder.DecodeNumber | generator/rust/src/lib.rs:167-173 | a number is read iff type_size bytes remain; it is the value whose bytes are there, and the value written there is read back |
| Decoder.DecodeString | generator/rust/src/lib.rs:143-153 | a string is its u16 length prefix then that many bytes; the string written there is read back |
| Decoder.DecodeValue | generator/rust/src/lib.rs:142-174 | whatever is read is a valid value whose wire bytes lie at the cursor; the value written there is read back |
| Decoder.DecodeStruct | generator/rust/src/lib.rs:244-249 | decode of a nested struct reads a valid struct whose bytes lie at the cursor, and reads back the struct written there |
| Decoder.DecodeFields | generator/rust/src/lib.rs:246-248 | the item loop reads valid fields whose bytes lie at the cursor, and the written fields are read back |
| Decoder.DecodeField | generator/rust/src/lib.rs:119-234 | one item extends the valid prefix of the record by one field |
| Decoder.DecodeItem | generator/rust/src/lib.rs:119-234 | an item is read valid with its wire bytes at the cursor; a written item is read back |
| Decoder.CountFieldRead | generator/rust/src/lib.rs:219-221 | the count field a `[name]` array reads was decoded from at least one byte, so every array item starts after data was consumed |
| Decoder.DecodeArray | generator/rust/src/lib.rs:175-233 | an array reads its count (constant, earlier field or prefix) and then its elements |
| Decoder.DecodeCount | generator/rust/src/lib.rs:178-226 | the element count is the constant, the earlier field's value or the `[]` prefix, and the prefix is read back as written |
| Decoder.DecodeElems | generator/rust/src/lib.rs:227-232 | the element loop reads n valid elements whose bytes lie at the cursor |
| Decoder.DecodeNew | generator/rust/src/lib.rs:239-243 | decode_new from the default reads a valid value whose bytes start the data, and accepts every encoded value |
| Decoder.RoundTrip | generator/rust/src/lib.rs:332-348 | decode_new of encode gives back every valid value of a supported schema, recursion through Vec fields and float counts included |
| Decoder.StructWanted | generator/rust/src/lib.rs:244-245 | the bytes of a valid struct satisfy decode's entry assertion |
| Decoder.ArrayWanted | generator/rust/src/lib.rs:175-233 | the bytes of a valid array item are its prefix followed by its elements' bytes |
| Primitive.Width | runtime/rust/src/lib.rs:174-212 | every primitive takes between one and eight bytes |
| Primitive.ToBytes | runtime/rust/src/lib.rs:179-194 | to_le_bytes/to_be_bytes give exactly size_of::<T>() bytes |
| Primitive.FromBytes | runtime/rust/src/lib.rs:195-212 | from_le_bytes/from_be_bytes give a value of the type |
| Primitive.FromBits | runtime/rust/src/lib.rs:195-212 | every bit pattern is the pattern of an in-range value |
| Primitive.FromBitsBits | runtime/rust/src/lib.rs:179-212 | every in-range value survives the trip through its bit pattern |
| Primitive.FromBytesToBytes | runtime/rust/src/lib.rs:179-212 | from_le_bytes(to_le_bytes(v)) == v and from_be_bytes(to_be_bytes(v)) == v |
| Primitive.ToBytesFromBytes | runtime/rust/src/lib.rs:179-212 | every Width-byte slice is the image of the value read from it |
| Primitive.Encode | runtime/rust/src/lib.rs:179-194 | BufTooSmall with the buffer untouched when the slice is short; otherwise exactly the first Width bytes of the slice become the value's bytes |
| Primitive.Decode | runtime/rust/src/lib.rs:195-212 | NotEnoughData with self unchanged when the slice is short; otherwise self is read from the first Width bytes |
| Primitive.EncodeDecodeU64 | runtime/rust/src/lib.rs:232-240 | the runtime's unit test holds for every u64 |
| Primitive.Fits | runtime/rust/src/lib.rs:27-57 | the number of elements that fit is the largest that fit whole, and all fit iff the whole image does |
| Primitive.EncodeElems | runtime/rust/src/lib.rs:29-42 | on success the elements' images are written back to back; on BufTooSmall only the elements that fitted are written |
| Primitive.DecodeElems | runtime/rust/src/lib.rs:43-56 | on success every element is read from its slot; on NotEnoughData those read are overwritten and the rest keep their values |
| Primitive.ContainerEncodeLe | runtime/rust/src/lib.rs:29-35 | encode_le of the containers writes each element little-endian, as far as they fit |
| Primitive.ContainerEncodeBe | runtime/rust/src/lib.rs:36-42 | encode_be of the containers as written: the little-endian image |
| Primitive.ContainerEncodeBeFixed | runtime/rust/src/lib.rs:36-42 | encode_be of the containers as intended: the big-endian image |
| Primitive.ContainerDecode | runtime/rust/src/lib.rs:43-56 | decode_le/decode_be of the containers read each element in that order, as far as the data reaches |
| Primitive.ElementsImage | runtime/rust/src/lib.rs:27-125 | decoding the elements in the order they were encoded in gives them back |
| Primitive.ContainerBigEndianMismatch | runtime/rust/src/lib.rs:36-56 | container encode_be then decode_be turns the u16 0x0102 into 0x0201 |
| Streams.Add64 | runtime/go/stream.go:107-115 | `pos += n` on uint64: the sum below 2^64, otherwise wrapped around |
| Streams.SliceExpr | runtime/go/stream.go:266-275 | `data[lo:hi]` yields the slice iff lo <= hi <= len(data), and panics otherwise |
| Streams.ReadWindow | runtime/go/stream.go:117-125 | a read of n bytes fails iff pos + n passes size, and otherwise yields exactly those bytes of data |
| Streams.ByteWindow | runtime/go/stream.go:107-115 | ReadU8/ReadI8 as written only fail when pos > size |
| Streams.ByteWindowPanicsAtEnd | runtime/go/stream.go:107-115 | a reader positioned at its end panics in ReadU8 instead of returning an error |
| Streams.ByteWindowReadsPastSize | runtime/go/stream.go:107-115 | ReadU8 on a stream of size 0 reads the first byte of its data |
| Streams.ReaderNeverPanics | runtime/go/stream.go:117-125 | a size check of pos + n > size never panics on a reader and fails exactly past the end |
| Streams.Decoded | runtime/go/stream.go:117-185 | a decoded number is in range and its bytes are the bytes read |
| Streams.NumberAt | runtime/go/stream.go:117-185 | a number is read only from within size, as the value whose bytes lie at pos |
| Streams.NumberRoundTrip | runtime/go/stream.go:117-185 | the number whose bytes lie within size at pos is read back |
| Streams.NumberFails | runtime/go/stream.go:117-185 | on a reader a number read fails exactly when it would pass the end, and never panics |
| Streams.PrefixedRoundTrip | runtime/go/stream.go:205-236 | a length-prefixed string written in some order is read back in that order, and the cursor ends after it |
| Streams.CStringField | runtime/go/stream.go:83-92 | a fixed cstring field is the string truncated or zero-padded to n bytes |
| Streams.IndexZero | runtime/go/stream.go:238-248 | bytes.IndexByte(b, 0): the first zero, or -1 iff there is none |
| Streams.BeforeZero | runtime/go/stream.go:238-248 | the zero-free prefix up to the first zero |
| Streams.TrimZeros | runtime/stream.go:228-235 | bytes.Trim(b, "\x00"): leading zeros, the result, trailing zeros make up b; the result neither starts nor ends with a zero |
| Streams.CStringRoundTrip | runtime/go/stream.go:83-92 | a zero-free string no longer than the field is read back from its field |
| Streams.CStringTruncated | runtime/go/stream.go:83-92 | a longer string comes back cut to the field length |
| Streams.CStringTrimRoundTrip | runtime/stream.go:78-82 | the little-endian runtime's trimming reader gives back a string that starts and ends with a nonzero byte |
| Streams.CStringReadingsDiffer | runtime/stream.go:228-235 | the two runtimes read the same field differently: cut at the first zero versus trimmed |
| GoStream.SameBitPattern | runtime/go/stream.go:49-64 | writing a signed value as its unsigned bit pattern gives the signed value's bytes |
| GoStream.Stream.New | runtime/go/stream.go:281-283 | an empty writer |
| GoStream.Stream.WithSize | runtime/go/stream.go:285-287 | the capacity hint leaves the writer empty |
| GoStream.Stream.WithSlice | runtime/go/stream.go:289-291 | a writer over existing bytes, with size 0 |
| GoStream.Stream.Reader | runtime/go/stream.go:293-295 | a reader whose size is the data's length |
| GoStream.Stream.WriteNumber | runtime/go/stream.go:27-47 | appends the value's bytes in the chosen order and changes nothing else |
| GoStream.Stream.WriteSigned | runtime/go/stream.go:49-64 | appends the signed value's two's complement bytes in the chosen order |
| GoStream.Stream.WriteString | runtime/go/stream.go:73-77 | appends `uint16(len)`, wrapped, and the string |
| GoStream.Stream.WriteString64 | runtime/go/stream.go:78-82 | appends the u64 length and the string |
| GoStream.Stream.WriteCString | runtime/go/stream.go:83-88 | appends the string cut or zero-padded to n bytes |
| GoStream.Stream.WriteCStringUnsized | runtime/go/stream.go:89-92 | appends the string and a zero terminator |
| GoStream.Stream.WriteBytes | runtime/go/stream.go:94-96 | appends the bytes |
| GoStream.Stream.ReadByte | runtime/go/stream.go:107-115 | ReadU8/ReadI8 as written: the cursor always advances, and only pos > size is an error |
| GoStream.Stream.ReadByteChecked | runtime/go/stream.go:107-115 | the corrected byte read checks pos + 1 > size like the other reads |
| GoStream.Stream.ReadNumber | runtime/go/stream.go:117-185 | reads the number at the cursor within size in the chosen order, the cursor advancing even on failure |
| GoStream.Stream.ReadBytes | runtime/go/stream.go:266-275 | reads n bytes at the cursor within size |
| GoStream.Stream.ReadString | runtime/go/stream.go:205-221 | reads a u16 length and that many bytes |
| GoStream.Stream.ReadString64 | runtime/go/stream.go:222-236 | reads a u64 length and that many bytes |
| GoStream.Stream.ReadCString | runtime/go/stream.go:238-248 | reads an n-byte field and keeps what precedes its first zero |
| GoStream.Stream.ReadCStringUnsized | runtime/go/stream.go:250-264 | reads up to the first zero within size and returns the bytes before it, the cursor just past the zero; on a failed read the cursor is one past the byte that failed, after a run of nonzero bytes |
| GoStream.NumberWrittenRead | runtime/go/stream.go:27-185 | a number written is read back by a reader over the bytes, with nothing left over |
| GoStream.StringWrittenRead | runtime/go/stream.go:73-77 | a string shorter than 2^16 written is read back |
| GoStream.String64WrittenRead | runtime/go/stream.go:78-82 | a string written with a u64 length is read back |
| GoStream.CStringWrittenRead | runtime/go/stream.go:83-92 | a zero-free string written into a large enough field is read back |
| GoStream.CStringUnsizedWrittenRead | runtime/go/stream.go:89-92 | a zero-free string written with its terminator is read back |
| GoStream.TwoNumbersWrittenRead | runtime/go/stream.go:27-185 | two numbers written one after the other are read back in order |
| GoStream.WriterReadFails | runtime/go/stream.go:289-291 | a multi-byte read on a writer, whose size is 0, fails |
| GoStream.ReadU8OnWriter | runtime/go/stream.go:107-115 | the as-written byte read succeeds on a writer of size 0; the checked one fails |
| GoStream.ReadU8AtEnd | runtime/go/stream.go:107-115 | the as-written byte read at the end of a reader panics; the checked one fails |
| GoStream.StringTruncated | runtime/go/stream.go:73-77 | a string of 2^16 bytes or more comes back cut to its length modulo 2^16 |
| LeStream.ShiftsAreLittleEndian | runtime/stream.go:32-58 | the hand-written shifts produce the little-endian bytes |
| LeStream.Stream.New | runtime/stream.go:252-254 | an empty little-endian writer |
| LeStream.Stream.WithSize | runtime/stream.go:256-258 | the capacity hint leaves the writer empty |
| LeStream.Stream.WithSlice | runtime/stream.go:260-262 | a little-endian writer over existing bytes, with size 0 |
| LeStream.Stream.Reader | runtime/stream.go:264-266 | a little-endian reader whose size is the data's length |
| LeStream.Stream.WriteNumber | runtime/stream.go:28-58 | appends the value's little-endian bytes |
| LeStream.Stream.WriteString | runtime/stream.go:68-72 | appends `uint16(len)` little-endian, wrapped, and the string |
| LeStream.Stream.WriteString64 | runtime/stream.go:73-77 | appends the u64 length and the string |
| LeStream.Stream.WriteCString | runtime/stream.go:78-82 | appends the string cut or zero-padded to n bytes |
| LeStream.Stream.WriteBytes | runtime/stream.go:84-86 | appends the bytes |
| LeStream.Stream.ReadByte | runtime/stream.go:97-105 | ReadU8/ReadI8 as written: only pos > size is an error |
| LeStream.Stream.ReadByteChecked | runtime/stream.go:97-105 | the corrected byte read checks pos + 1 > size |
| LeStream.Stream.ReadNumber | runtime/stream.go:107-175 | reads the number at the cursor within size in the stream's byte order |
| LeStream.Stream.ReadBytes | runtime/stream.go:237-246 | reads n bytes at the cursor within size |
| LeStream.Stream.ReadString | runtime/stream.go:195-210 | reads a u16 length and that many bytes |
| LeStream.Stream.ReadString64 | runtime/stream.go:212-226 | reads a u64 length and that many bytes |
| LeStream.Stream.ReadCString | runtime/stream.go:228-235 | reads an n-byte field and trims its zeros at both ends |
| LeStream.NumberWrittenRead | runtime/stream.go:28-175 | a number written is read back, with nothing left over |
| LeStream.StringWrittenRead | runtime/stream.go:68-72 | a string shorter than 2^16 written is read back |
| LeStream.String64WrittenRead | runtime/stream.go:73-77 | a string written with a u64 length is read back |
| LeStream.CStringWrittenRead | runtime/stream.go:78-82 | a string that neither starts nor ends with a zero, written into a large enough field, is read back |
| LeStream.WriterReadFails | runtime/stream.go:260-262 | a multi-byte read on a writer fails |
| LeStream.ReadU8OnWriter | runtime/stream.go:97-105 | the as-written byte read succeeds on a writer of size 0; the checked one fails |
| LeStream.ReadU8AtEnd | runtime/stream.go:97-105 | the as-written byte read at the end of a reader panics; the checked one fails |

## Left out

- Lexing and the grammar. The validator starts from a token tree: the top-level elements and each item's name, bracket, type name and options.
- Diagnostics. The `eprintln!`/`println!` messages and the error spans are not modelled; errors are compared by kind and payload.
- The code generator's output as Rust source, `item_declaration`, `quote_type` and the proc macro entry are not modelled. The model gives the semantics of the emitted `size`, `encode`, `decode` and `Default`.
- `cstring` fields in the generated Rust code. They are `todo!()` there, so `Decoder.Readable` excludes them and `Layout.Supported` rejects them.
- Strings in the generated decoder. They are byte sequences: the UTF-8 check of `String::from_utf8(..).unwrap()` is not modelled.
- Arrays and nested structs: a `Vec<T>` field and a by-value field are both modelled as values in `Layout`; allocation is not modelled. The distinction matters only for which schemas rustc accepts: `Layout.Supported` lets a struct reach itself through a Vec (`[f]` and `[]`) but not by value (a scalar or `[T; n]`).
- Decoder.DecodeStruct: nested structs are always decoded into their Default value, as `decode_new` and every nested decode does. A `decode` on a receiver that already holds data is not modelled.
- Encoder.EncodeValue: a slice out of bounds, an `assert!` or `unwrap` that fails in the generated code is modelled as `ok == false`. A panic is not distinguished from an `Err`, since the generated code never returns `Err` itself.
- Layout.Count: usize is 64 bits wide; 32-bit targets are not modelled.
- Floating-point values are carried as their IEEE-754 bit patterns. This is what `to_le_bytes`, `math.Float32bits` and the like copy; float arithmetic is not modelled.
- Go slices. A slice's capacity is taken to be its length, and `append`'s reallocation and aliasing are not modelled. `GetData` is the `data` field itself. `WriteHex` is left out: it decodes hex text, which is outside the wire format.
- Go lengths: `len` of a slice or string is taken to be below 2^64. The readers (`Reader` constructors) require the data to be shorter than 2^64 bytes.
- GoStream.Stream.WriteNumber: only unsigned primitives. The signed writes go through `WriteSigned`, which states the Go conversion `uint16(i)` and the like (GoStream.SameBitPattern).
- LeStream.Stream: the zero value of the struct, whose `byteOrder` is nil and whose reads would panic, is not modelled; every constructor sets little-endian.
- Write-then-read round trips through one stream are proved for one value of each kind and for two numbers in a row. A record of several fields of different kinds is not proved through a stream; the generated Rust codec proves that in Decoder.RoundTrip.
- The Go Stream interface (`Encode`, `EncodeStream`, `Decode`, `DecodeStream`) has no implementation in the runtimes; its generated Go implementations are not part of this model.
- Two behaviours of the code that a user might not expect, modelled as the code has them:
  - a constant-size array ignores `array_size_type` instead of rejecting it (Validator.SizeTypeWithConstantIgnored);
  - the generated decoder panics on short data instead of returning `NotEnoughData`.

## Findings

| source | as written | input that shows it | evidently intended | confidence | as-written member | corrected member |
|---|---|---|---|---|---|---|
| runtime/rust/src/lib.rs:36-42 (and 70-76, 104-110) | `encode_be` of `[T; N]`, `Vec<T>` and `&mut [T]` encodes each element with `encode_le` | a `[u16; 1]` holding 0x0102 encoded with `encode_be` gives bytes 02 01, and `decode_be` reads 0x0201 | each element encoded with `encode_be`, so that `decode_be` restores the container | high; not executed | Primitive.ContainerEncodeBe, Primitive.ContainerBigEndianMismatch | Primitive.ContainerEncodeBeFixed, Primitive.ElementsImage |
| runtime/go/stream.go:107-115 and 147-155; runtime/stream.go:97-105 and 137-145 | ReadU8 and ReadI8 return an error only when `pos > size`, then index `data[pos]` | a reader at its end (pos == size == len(data)) slices `data[pos:pos+1]`: when the slice has no spare capacity this panics with slice bounds out of range instead of returning an error, and with spare capacity it returns a stale byte past the data (the model takes capacity to be length, so it shows the panic); a writer (size 0) with data reads data[0] | the check `pos + 1 > size` that every other read makes, so that a read past the end is an error | high; not executed | Streams.ByteWindow, Streams.ByteWindowPanicsAtEnd, Streams.ByteWindowReadsPastSize, GoStream.Stream.ReadByte, GoStream.ReadU8AtEnd, LeStream.Stream.ReadByte | GoStream.Stream.ReadByteChecked, LeStream.Stream.ReadByteChecked, Streams.ReaderNeverPanics |
