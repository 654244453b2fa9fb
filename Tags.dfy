/**
 * The two private string enumerations of Command.swift: the keys of the
 * keyed archive (`EncodingKeys`) and the tag strings (`TypeNames`).
 */
module Tags {

  /** `EncodingKeys.TypeName`: the key under which the tag is archived. */
  const TypeNameKey: string := "typeName"

  /** `EncodingKeys.Data`: the key under which a payload is archived. */
  const DataKey: string := "data"

  /** `TypeNames`, one case per command variant. */
  datatype TypeNames = Undefined | Doc | Update | Version | GetDoc | GetVersion | Name | Cursor

  /** The `rawValue` of a `TypeNames` case: its own name, a single non-empty word. */
  function RawValue(t: TypeNames): (r: string)
    ensures |r| > 0 && ' ' !in r
  {
    match t
    case Undefined => "Undefined"
    case Doc => "Doc"
    case Update => "Update"
    case Version => "Version"
    case GetDoc => "GetDoc"
    case GetVersion => "GetVersion"
    case Name => "Name"
    case Cursor => "Cursor"
  }

  /** Distinct cases have distinct raw values, and no raw value holds a space. */
  lemma RawValueInjective(t1: TypeNames, t2: TypeNames)
    ensures RawValue(t1) == RawValue(t2) <==> t1 == t2
    ensures |RawValue(t1)| > 0 && ' ' !in RawValue(t1)
  {
  }

}
