/**
 * The intermediate representation of a schema file (backend/src/types.rs; the
 * generator's copy in pstruct/src/types.rs has the same shape plus two fields,
 * type_alias and raw_imports, that nothing here reads).
 */
module Schema {
  import opened Wrappers

  /** The type of a field: a fixed-width number, a byte, a string or a user struct. */
  datatype Type =
    | U8 | U16 | U32 | U64
    | I8 | I16 | I32 | I64
    | F32 | F64
    | Byte
    | String
    | CString
    | User(name: string)

  /** How many elements an array field has and where that count comes from. */
  datatype Array =
    | Constant(size: nat)
    | Unknown(prefix: Type)
    | Variable(field: string, fieldType: Type)

  datatype Endian = Little | Big

  datatype Item = Item(name: string, kind: Type, arrayKind: Option<Array>, byteOrder: Endian)

  datatype Struct = Struct(name: string, items: seq<Item>)

  datatype File = File(scope: string, structs: seq<Struct>)

  /** The types whose values are whole numbers (what array_size_type accepts). */
  predicate IsFixedWidth(t: Type) {
    !(t.String? || t.CString? || t.User?)
  }

  /** Integer-valued fixed-width types: no floats. */
  predicate IsInteger(t: Type) {
    IsFixedWidth(t) && !t.F32? && !t.F64?
  }
}
