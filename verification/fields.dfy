/**
 The static description of a destination struct, which Go recovers by
 reflection: one `FieldDecl` per field, in declaration order, carrying the
 field's name, its type and its struct tags; and the typed values a field
 can hold.
 */
module Fields {
  import opened Errors
  import opened GoStrings
  import StrConv

  /** The field types the conversion rules distinguish. `OtherType` is every
      other type: those `parseStringToType` has no rule for (for instance
      `uint8` or a nested slice), and those whose rule the model does not
      follow and refuses instead (`int32`, `int64`, `uint32`, `uint64`,
      `float32`, and named types such as `type Level int`). */
  datatype ScalarType =
    | BoolType
    | IntType
    | UintType
    | Float64Type
    | StringType
    | DurationType
    | TimeType
    | OtherType(typeName: string)

  /** A field is a scalar, a slice of scalars or a map from strings to scalars. */
  datatype FieldType = Plain(scalar: ScalarType) | SliceOf(elem: ScalarType) | MapOf(elem: ScalarType)

  /** A `time.Time`, as produced by the time parser; its fields are not interpreted. */
  datatype Instant = Instant(unixSeconds: int, nanos: int, offsetSeconds: int)

  /** A scalar value. Floats are kept as their IEEE-754 bit pattern and
      durations as a count of nanoseconds. `OpaqueZero` is the zero value of
      a type the model does not interpret. */
  datatype Scalar =
    | BoolV(b: bool)
    | IntV(i: int)
    | UintV(u: nat)
    | FloatV(bits: bv64)
    | StringV(s: string)
    | DurationV(ns: int)
    | TimeV(t: Instant)
    | OpaqueZero(typeName: string)

  /** The value held by a field. A freshly zeroed slice or map is empty; one
      assigned by the loader always has at least one element. */
  datatype Value = ScalarValue(scalar: Scalar) | SliceValue(elems: seq<Scalar>) | MapValue(entries: map<string, Scalar>)

  /** `v` is a value of Go type `t`; integers stay within 64 bits. */
  predicate ScalarHasType(v: Scalar, t: ScalarType) {
    match t
    case BoolType => v.BoolV?
    case IntType => v.IntV? && StrConv.MinInt64 <= v.i <= StrConv.MaxInt64
    case UintType => v.UintV? && v.u <= StrConv.MaxUint64
    case Float64Type => v.FloatV?
    case StringType => v.StringV?
    case DurationType => v.DurationV?
    case TimeType => v.TimeV?
    case OtherType(name) => v == OpaqueZero(name)
  }

  /** `v` is a value of a field of type `t`. */
  predicate HasType(v: Value, t: FieldType) {
    match t
    case Plain(s) => v.ScalarValue? && ScalarHasType(v.scalar, s)
    case SliceOf(e) => v.SliceValue? && forall i :: 0 <= i < |v.elems| ==> ScalarHasType(v.elems[i], e)
    case MapOf(e) => v.MapValue? && forall k :: k in v.entries ==> ScalarHasType(v.entries[k], e)
  }

  /** Names of the struct tags the loader reads. */
  const TagArg: string := "arg"
  const TagEnv: string := "env"
  const TagFile: string := "file"
  const TagDefault: string := "default"
  const TagDesc: string := "desc"
  const TagDepends: string := "depends"
  const TagRequired: string := "required"

  /** One struct field: its Go name, its type and its struct tags (already
      split into key and value). */
  datatype FieldDecl = FieldDecl(name: string, typ: FieldType, tags: map<string, string>)

  /** `reflect.StructTag.Get`: the tag's value, or "" when the tag is absent. */
  function Tag(f: FieldDecl, key: string): string {
    if key in f.tags then f.tags[key] else ""
  }

  /** `getTagOrDefault`: a non-empty tag value as it is, otherwise the field
      name with its ASCII letters in lower case. */
  function TagOrDefault(f: FieldDecl, key: string): (r: string)
    ensures Tag(f, key) != "" ==> r == Tag(f, key)
    ensures Tag(f, key) == "" ==> |r| == |f.name|
    ensures Tag(f, key) == "" ==> forall i :: 0 <= i < |r| ==> !('A' <= r[i] <= 'Z') && r[i] == LowerAscii(f.name[i])
  {
    var value := Tag(f, key);
    if value == "" then ToLower(f.name) else value
  }

  /** `field.Type.Kind() == reflect.Bool`, for the unnamed `bool` type (a
      named bool type is `OtherType`). */
  predicate IsBoolField(f: FieldDecl) {
    f.typ == Plain(BoolType)
  }

  /** Go rejects two fields of one struct with the same name. */
  predicate UniqueNames(decls: seq<FieldDecl>) {
    forall i, j :: 0 <= i < j < |decls| ==> decls[i].name != decls[j].name
  }

  /** The parsers this model leaves uninterpreted: `strconv.ParseFloat(s, 64)`
      (returning the float's bit pattern), `time.ParseDuration` (returning
      nanoseconds) and `time.Parse(time.RFC3339, s)`. */
  datatype ExternalParsers = ExternalParsers(
    parseFloat: string -> Result<bv64>,
    parseDuration: string -> Result<int>,
    parseTime: string -> Result<Instant>)
}
