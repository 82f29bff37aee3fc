/** Which fields the record of a generated version has, in terms of the version
    numbers in the schema alone. */
module SchemaVersions {
  import opened Wrappers
  import opened SchemaTypes
  import opened SchemaSharing
  import opened SchemaTrees
  import opened SchemaParse
  import opened SchemaDefaults
  import opened SchemaConverters
  import opened GeneratedDefaults

  /** A version range holds the versions from its minimum to its maximum, both
      included; without a maximum it is open. */
  lemma RangeHolds(v: nat, r: Range)
    ensures InRange(v, r) <==>
            r.min.Some? && r.min.value <= v && (r.max.Some? ==> v <= r.max.value)
  {
  }

  /** The own type that version v of m resolves to. */
  ghost function RecordOf(out: Output, m: Message, v: nat): seq<HsField> {
    match OwnIndex(out.tops.datas, m.name, v)
    case Some(j) => Formatted(out.tops.datas[j])
    case None => []
  }

  lemma RecordIs(out: Output, m: Message, v: nat)
    requires Made(out, m) && m.min <= v <= m.max
    ensures RecordOf(out, m, v) == FieldsAt(out, m, v) + if InRange(v, m.flex) then [TAGGED_FIELDS] else []
  {
    assert Generated(out, m, v);
    var i, j := ResolvedAt(out.tops, m.name, v);
    FindEntry(out.tops.datas, j);
    assert OwnIndex(out.tops.datas, m.name, v) == Some(j);
  }

  /** Parsing looks at every field of the message. */
  lemma {:induction false} EveryFieldParses(fs: seq<Field>, v: nat, flexible: bool, j: nat)
    requires TreeOfFields(fs, v, flexible).Ok? && j < |fs|
    ensures Attribute(fs[j], v, flexible).Ok?
  {
    var n := |fs| - 1;
    if j < n {
      EveryFieldParses(fs[..n], v, flexible, j);
    }
  }

  lemma FieldParses(out: Output, m: Message, f: Field, v: nat)
    requires Made(out, m) && f in m.fields && m.min <= v <= m.max
    ensures Attribute(f, v, InRange(v, m.flex)).Ok?
  {
    var ts := VersionStands(out, m, v);
    var j :| 0 <= j < |m.fields| && m.fields[j] == f;
    EveryFieldParses(m.fields, v, InRange(v, m.flex), j);
  }

  lemma UntaggedOnly(out: Output, m: Message, v: nat, j: nat)
    requires Made(out, m) && m.min <= v <= m.max && j < |FieldsAt(out, m, v)|
    ensures !FieldsAt(out, m, v)[j].isTagged
  {
    var ts := VersionStands(out, m, v);
    assert Stands(out.subs.datas, FieldsAt(out, m, v)[j], UntaggedTree(ts)[j]);
    var a := FieldsAt(out, m, v)[j].(ref := None);
    assert HasAttr(UntaggedTree(ts), a);
    TreeAttrs(m.fields, v, InRange(v, m.flex), a);
  }

  lemma FieldInMade(out: Output, m: Message, f: Field, v: nat)
    requires Made(out, m) && OnlyField(m, f) && m.min <= v <= m.max
    ensures FieldNamed(RecordOf(out, m, v), Rendered(f)).Some? <==> InRange(v, f.versions) && !InRange(v, f.tagged)
  {
    NamedInVersion(out, m, f, v);
    RecordIs(out, m, v);
    FieldParses(out, m, f, v);
    var fs := FieldsAt(out, m, v);
    if InRange(v, m.flex) {
      FieldNamedAppend(fs, TAGGED_FIELDS, Rendered(f));
    } else {
      assert fs + [] == fs;
    }
  }

  /** For every message, field and generated version: the version's record has the
      field if and only if the version is within the field's versions and not within
      its tagged versions. */
  lemma FieldInVersionIff(ms: seq<Message>, decls: Decls, i: nat, f: Field, v: nat)
    requires DistinctNames(ms) && AllDeclared(decls, ms) && ParseMessages(ms).Ok? && i < |ms|
    requires OnlyField(ms[i], f) && ms[i].min <= v <= ms[i].max
    ensures FieldNamed(RecordOf(ParseMessages(ms).value, ms[i], v), Rendered(f)).Some? <==>
            && f.versions.min.Some? && f.versions.min.value <= v && (f.versions.max.Some? ==> v <= f.versions.max.value)
            && !(f.tagged.min.Some? && f.tagged.min.value <= v && (f.tagged.max.Some? ==> v <= f.tagged.max.value))
  {
    MessageMade(ms, decls, i);
    FieldInMade(ParseMessages(ms).value, ms[i], f, v);
  }

  /** The record ends in the tagged fields if and only if the version is flexible, and
      has them nowhere else. */
  lemma TaggedFieldsIff(ms: seq<Message>, decls: Decls, i: nat, v: nat)
    requires DistinctNames(ms) && AllDeclared(decls, ms) && ParseMessages(ms).Ok? && i < |ms|
    requires ms[i].min <= v <= ms[i].max
    ensures var r, flex := RecordOf(ParseMessages(ms).value, ms[i], v), ms[i].flex;
            && (TAGGED_FIELDS in r <==>
                  flex.min.Some? && flex.min.value <= v && (flex.max.Some? ==> v <= flex.max.value))
            && forall j :: 0 <= j < |r| && r[j] == TAGGED_FIELDS ==> j == |r| - 1
  {
    var out, m := ParseMessages(ms).value, ms[i];
    MessageMade(ms, decls, i);
    RecordIs(out, m, v);
    var fs := FieldsAt(out, m, v);
    forall j | 0 <= j < |fs|
      ensures fs[j] != TAGGED_FIELDS
    {
      UntaggedOnly(out, m, v, j);
    }
    if InRange(v, m.flex) {
      assert (fs + [TAGGED_FIELDS])[|fs|] == TAGGED_FIELDS;
    }
  }

  predicate IsCompact(ty: HsType) {
    ty.CompactString? || ty.CompactNullableString? || ty.CompactBytes? || ty.CompactNullableBytes? || ty.CompactKaArray?
  }

  /** The Haskell type of a field: compact strings, bytes and arrays exactly in flexible
      versions, nullable strings and bytes exactly in nullable ones. */
  lemma WrapperMeans(kind: string, flexible: bool, nullable: bool)
    requires Wrapper(kind, flexible, nullable).Some?
    ensures var ty := Wrapper(kind, flexible, nullable).value;
            && TypedAs(kind, ty)
            && (IsText(ty) || IsBytes(ty) || IsArray(ty) ==> (IsCompact(ty) <==> flexible))
            && (IsText(ty) || IsBytes(ty) ==> (IsNullable(ty) <==> nullable))
  {
    WrapperIsTyped(kind, flexible, nullable);
  }

  /** A string or bytes field of a generated version is nullable, and a string, bytes or
      array field compact, exactly in the versions its schema says. */
  lemma FieldTypeInVersion(ms: seq<Message>, decls: Decls, i: nat, f: Field, v: nat)
    requires DistinctNames(ms) && AllDeclared(decls, ms) && ParseMessages(ms).Ok? && i < |ms|
    requires OnlyField(ms[i], f) && ms[i].min <= v <= ms[i].max
    requires FieldNamed(RecordOf(ParseMessages(ms).value, ms[i], v), Rendered(f)).Some?
    ensures var ty := FieldNamed(RecordOf(ParseMessages(ms).value, ms[i], v), Rendered(f)).value.wrapper;
            var flex, nulls := ms[i].flex, f.nullable;
            && TypedAs(KaType(f), ty)
            && (IsText(ty) || IsBytes(ty) || IsArray(ty) ==>
                  (IsCompact(ty) <==>
                     flex.min.Some? && flex.min.value <= v && (flex.max.Some? ==> v <= flex.max.value)))
            && (IsText(ty) || IsBytes(ty) ==>
                  (IsNullable(ty) <==>
                     nulls.min.Some? && nulls.min.value <= v && (nulls.max.Some? ==> v <= nulls.max.value)))
  {
    var out, m := ParseMessages(ms).value, ms[i];
    MessageMade(ms, decls, i);
    NamedInVersion(out, m, f, v);
    RecordIs(out, m, v);
    var fs := FieldsAt(out, m, v);
    if InRange(v, m.flex) {
      FieldNamedAppend(fs, TAGGED_FIELDS, Rendered(f));
    } else {
      assert fs + [] == fs;
    }
    AttributeOf(f, v, InRange(v, m.flex));
    WrapperMeans(KaType(f), InRange(v, m.flex), InRange(v, f.nullable));
  }

  // ------------------------------------------------ the rest of a record field

  /** A record field is called what the schema field is, with a small first letter. */
  lemma RecordName(f: Field)
    ensures f.name == "Records" ==> Rendered(f) == "recordBytes"
    ensures f.name != "Records" ==> |Rendered(f)| == |f.name|
    ensures f.name != "Records" && f.name != "" ==>
              && Rendered(f)[1..] == f.name[1..]
              && Rendered(f)[0] as int == f.name[0] as int + if 'A' <= f.name[0] <= 'Z' then 32 else 0
  {
    assert "recordBytes" == ['r'] + "RecordBytes"[1..];
  }

  /** Arrays are arrays, error codes and API keys are told by their names, and every
      other field has the type the schema gives. */
  lemma KaTypeIs(f: Field)
    ensures !f.ty.Scalar? ==> KaType(f) == "array"
    ensures f.ty == Scalar("int16") && f.name == "ErrorCode" ==> KaType(f) == "errorCode"
    ensures f.ty == Scalar("int16") && f.name == "ApiKey" ==> KaType(f) == "apiKey"
    ensures f.ty.Scalar? && (f.ty.name != "int16" || (f.name != "ErrorCode" && f.name != "ApiKey")) ==>
              KaType(f) == f.ty.name
  {
    assert "ErrorCode" != "ApiKey" by { assert "ErrorCode"[0] != "ApiKey"[0]; }
  }

  /** A field is rejected if it has no versions at all, is tagged where it is absent,
      has tagged versions in a version that is not flexible, or is of no known type. */
  lemma RejectedIff(f: Field, v: nat, flexible: bool)
    ensures var present := f.versions.min.Some? && f.versions.min.value <= v && (f.versions.max.Some? ==> v <= f.versions.max.value);
            var tagged := f.tagged.min.Some? && f.tagged.min.value <= v && (f.tagged.max.Some? ==> v <= f.tagged.max.value);
            var nullable := f.nullable.min.Some? && f.nullable.min.value <= v && (f.nullable.max.Some? ==> v <= f.nullable.max.value);
            Attribute(f, v, flexible).Err? <==>
              || (f.versions.min.None? && f.tagged.min.None?)
              || (tagged && !present)
              || (present && f.tagged.min.Some? && !flexible)
              || (present && Wrapper(KaType(f), flexible, nullable).None?)
  {
  }

  /** The known types; records exist only where they are nullable and not flexible. */
  lemma KnownTypes(kind: string, flexible: bool, nullable: bool)
    ensures Wrapper(kind, flexible, nullable).Some? <==>
            kind in {"int8", "int16", "int32", "int64", "float64", "bool", "errorCode", "apiKey", "string", "bytes", "array"} ||
            (kind == "records" && nullable && !flexible)
  {
  }

  /** Nullability, default and documentation of a record field. */
  lemma FieldInfoInVersion(ms: seq<Message>, decls: Decls, i: nat, f: Field, v: nat)
    requires DistinctNames(ms) && AllDeclared(decls, ms) && ParseMessages(ms).Ok? && i < |ms|
    requires OnlyField(ms[i], f) && ms[i].min <= v <= ms[i].max
    requires FieldNamed(RecordOf(ParseMessages(ms).value, ms[i], v), Rendered(f)).Some?
    ensures var h := FieldNamed(RecordOf(ParseMessages(ms).value, ms[i], v), Rendered(f)).value;
            var nullable := f.nullable.min.Some? && f.nullable.min.value <= v && (f.nullable.max.Some? ==> v <= f.nullable.max.value);
            && h.kaType == KaType(f) && h.doc == f.about && !h.isTagged
            && (h.nullable <==> !f.ty.Scalar? || f.ty.name == "array" || nullable)
            && h.default == (if f.ty == Scalar("string") && nullable && f.default.None? then Some("null") else f.default)
            && (f.ty.Scalar? ==> h.arrOf == None) && (f.ty.ScalarArray? ==> h.arrOf == Some(f.ty.elem))
            && (f.ty.StructArray? ==> h.arrOf == Some(f.ty.typeName))
  {
    var out, m := ParseMessages(ms).value, ms[i];
    MessageMade(ms, decls, i);
    NamedInVersion(out, m, f, v);
    RecordIs(out, m, v);
    var fs := FieldsAt(out, m, v);
    if InRange(v, m.flex) {
      FieldNamedAppend(fs, TAGGED_FIELDS, Rendered(f));
    } else {
      assert fs + [] == fs;
    }
    var h := FieldNamed(RecordOf(out, m, v), Rendered(f)).value;
    assert At(m, f, v) == Some(h.(ref := None));
    AttributeInfo(f, v, InRange(v, m.flex));
  }

  lemma AttributeInfo(f: Field, v: nat, flexible: bool)
    requires Attribute(f, v, flexible).Ok? && Attribute(f, v, flexible).value.Some?
    ensures var h := Attribute(f, v, flexible).value.value;
            && h.kaType == KaType(f) && h.doc == f.about
            && (h.nullable <==> !f.ty.Scalar? || f.ty.name == "array" || InRange(v, f.nullable))
            && h.default == (if f.ty == Scalar("string") && InRange(v, f.nullable) && f.default.None? then Some("null") else f.default)
            && (f.ty.Scalar? ==> h.arrOf == None) && (f.ty.ScalarArray? ==> h.arrOf == Some(f.ty.elem))
            && (f.ty.StructArray? ==> h.arrOf == Some(f.ty.typeName))
  {
    KaTypeIs(f);
    assert "errorCode"[0] != "array"[0] && "apiKey"[1] != "array"[1];
    assert "int16"[0] != "array"[0];
  }
}
