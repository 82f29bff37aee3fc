/** Kafka message schemas and the versioned record fields the generator makes of
    them. */
module SchemaTypes {
  import opened Wrappers

  /** A parsed version range; no minimum means the range is empty. */
  datatype Range = Range(min: Option<nat>, max: Option<nat>)

  /** `in_version_range`. */
  predicate InRange(v: nat, r: Range) {
    r.min.Some? && r.min.value <= v && (r.max.None? || v <= r.max.value)
  }

  datatype FieldType =
    | Scalar(name: string)
    | ScalarArray(elem: string)
    | StructArray(typeName: string, subs: seq<Field>)

  /** A field of a message schema. */
  datatype Field = Field(
    name: string,
    ty: FieldType,
    versions: Range,
    tagged: Range,
    nullable: Range,
    default: Option<string>,
    about: Option<string>)

  /** Why `parse_field` raises. */
  datatype Failure = NoVersions | OnlyTagged | NotFlexible | UnknownType

  /** The version-suffixed type name in a field's versioned Haskell type. */
  datatype Ref = Ref(name: string, version: nat)

  /** The Haskell types of fields; an array's element type is kept apart. */
  datatype HsType =
    | Int8 | Int16 | Int32 | Int64 | Double | Bool | ErrorCode | ApiKey
    | Text | NullableString | CompactString | CompactNullableString
    | ByteString | NullableBytes | CompactBytes | CompactNullableBytes
    | RecordBytes | KaArray | CompactKaArray | TaggedFields

  /** `HsDataField`. The unversioned type is the wrapper applied to arrOf, the
      versioned one the wrapper applied to ref. */
  datatype HsField = HsField(
    name: string,
    wrapper: HsType,
    kaType: string,
    arrOf: Option<string>,
    ref: Option<Ref>,
    nullable: bool,
    doc: Option<string>,
    isTagged: bool,
    default: Option<string>)

  /** The Haskell type around a Kafka type, from TYPE_MAPS and its overrides for
      nullable and flexible versions. */
  function Wrapper(kind: string, flexible: bool, nullable: bool): Option<HsType> {
    match kind
    case "int8" => Some(Int8)
    case "int16" => Some(Int16)
    case "int32" => Some(Int32)
    case "int64" => Some(Int64)
    case "float64" => Some(Double)
    case "bool" => Some(Bool)
    case "errorCode" => Some(ErrorCode)
    case "apiKey" => Some(ApiKey)
    case "string" => Some(StringType(flexible, nullable))
    case "bytes" =>
      Some(if flexible then (if nullable then CompactNullableBytes else CompactBytes)
           else (if nullable then NullableBytes else ByteString))
    case "records" => if nullable && !flexible then Some(RecordBytes) else None
    case "array" => Some(if flexible then CompactKaArray else KaArray)
    case _ => None
  }

  function StringType(flexible: bool, nullable: bool): HsType {
    if flexible then (if nullable then CompactNullableString else CompactString)
    else (if nullable then NullableString else Text)
  }

  /** The keys of TYPE_MAPS. */
  predicate IsTypeKey(name: string) {
    name in {"int8", "int16", "int32", "int64", "float64", "string", "bool", "bytes", "records", "array",
             "errorCode", "apiKey"}
  }

  /** The converters' test for array elements that need no conversion. */
  predicate IsPlainElem(name: string) {
    IsTypeKey(name) || name == "TaggedFields"
  }

  function RenameField(name: string): string {
    if name == "Records" then "RecordBytes" else name
  }

  /** `ka_type`. */
  function KaType(f: Field): string {
    match f.ty
    case Scalar(name) =>
      if name == "int16" && f.name == "ErrorCode" then "errorCode"
      else if name == "int16" && f.name == "ApiKey" then "apiKey"
      else name
    case _ => "array"
  }

  function ArrayOf(ty: FieldType): Option<string> {
    match ty
    case Scalar(_) => None
    case ScalarArray(elem) => Some(elem)
    case StructArray(typeName, _) => Some(typeName)
  }

  function LowerFirst(s: string): string {
    if s == "" then s else [if 'A' <= s[0] <= 'Z' then s[0] - 'A' + 'a' else s[0]] + s[1..]
  }

  /** `parse_field` apart from its sub-fields: the field as it appears in version v,
      still without a type reference, if it appears there. */
  function Attribute(f: Field, v: nat, flexible: bool): Result<Option<HsField>, Failure> {
    var inApi, inTagged, inNull := InRange(v, f.versions), InRange(v, f.tagged), InRange(v, f.nullable);
    if f.versions.min.None? && f.tagged.min.None? then Err(NoVersions)
    else if !inApi && !inTagged then Ok(None)
    else if !inApi then Err(OnlyTagged)
    else if f.tagged.min.Some? && !flexible then Err(NotFlexible)
    else
      var kind := KaType(f);
      match Wrapper(kind, flexible, inNull)
      case None => Err(UnknownType)
      case Some(w) =>
        var default := if f.ty == Scalar("string") && inNull && f.default.None? then Some("null") else f.default;
        Ok(Some(HsField(LowerFirst(RenameField(f.name)), w, kind, ArrayOf(f.ty), None,
                        kind == "array" || inNull, f.about, inTagged, default)))
  }

  /** `HsData`: either its own untagged fields, or the version whose type it reuses. */
  datatype Body = Own(fields: seq<HsField>) | Alias(version: nat)

  datatype HsData = HsData(name: string, body: Body, version: nat, flexible: bool)
}
