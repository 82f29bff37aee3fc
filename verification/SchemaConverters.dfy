/** The generated converters between a message's versions and its total type. */
module SchemaConverters {
  import opened Wrappers
  import opened SchemaTypes
  import opened SchemaSharing
  import opened SchemaTrees
  import opened SchemaParse
  import opened SchemaDefaults

  const TAGGED_FIELDS := HsField("taggedFields", TaggedFields, "TaggedFields", None, None, false, None, true, None)

  /** The fields of an own type after `HsData.format`: flexible types end in the
      tagged fields. */
  function Formatted(d: HsData): seq<HsField>
    requires d.body.Own?
  {
    d.body.fields + if d.flexible then [TAGGED_FIELDS] else []
  }

  /** The first field of that name. */
  function FieldNamed(fs: seq<HsField>, n: string): (r: Option<HsField>)
    ensures r.Some? ==> r.value in fs && r.value.name == n
    ensures r.None? ==> forall f :: f in fs ==> f.name != n
  {
    if fs == [] then None
    else if fs[0].name == n then Some(fs[0])
    else FieldNamed(fs[1..], n)
  }

  function Names(fs: seq<HsField>): (ns: set<string>)
    ensures forall n :: n in ns <==> FieldNamed(fs, n).Some?
  {
    set f | f in fs :: f.name
  }

  // ------------------------------------------------ the total type

  function AddMissing(fs: seq<HsField>, gs: seq<HsField>): seq<HsField> {
    if gs == [] then fs
    else
      var g := gs[|gs| - 1];
      var r := AddMissing(fs, gs[..|gs| - 1]);
      if FieldNamed(r, g.name).Some? then r else r + [g]
  }

  /** The total type's fields: each name once, from the first version that has it. */
  function TotalFields(datas: seq<HsData>, name: string): seq<HsField> {
    if datas == [] then []
    else
      var d := datas[|datas| - 1];
      var fs := TotalFields(datas[..|datas| - 1], name);
      if d.name == name && d.body.Own? then AddMissing(fs, Formatted(d)) else fs
  }

  /** The loops of `format_total_data_types` that collect a group's fields. */
  method CollectTotalFields(datas: seq<HsData>, name: string) returns (fs: seq<HsField>)
    ensures fs == TotalFields(datas, name)
  {
    fs := [];
    for k := 0 to |datas|
      invariant fs == TotalFields(datas[..k], name)
    {
      var d := datas[k];
      assert datas[..k + 1][..k] == datas[..k];
      if d.name != name || d.body.Alias? {
        continue;
      }
      var gs := Formatted(d);
      ghost var before := fs;
      for j := 0 to |gs|
        invariant fs == AddMissing(before, gs[..j])
      {
        assert gs[..j + 1][..j] == gs[..j];
        if FieldNamed(fs, gs[j].name).None? {
          fs := fs + [gs[j]];
        }
      }
      assert gs[..|gs|] == gs;
    }
    assert datas[..|datas|] == datas;
  }

  lemma FieldNamedAppend(fs: seq<HsField>, g: HsField, n: string)
    ensures FieldNamed(fs + [g], n) ==
            if FieldNamed(fs, n).Some? then FieldNamed(fs, n) else if g.name == n then Some(g) else None
  {
    if fs == [] {
      assert fs + [g] == [g];
    } else {
      assert (fs + [g])[1..] == fs[1..] + [g];
      FieldNamedAppend(fs[1..], g, n);
    }
  }

  /** Collecting keeps the first field of every name and adds the new names. */
  lemma {:induction false} AddMissingNamed(fs: seq<HsField>, gs: seq<HsField>, n: string)
    ensures FieldNamed(AddMissing(fs, gs), n) ==
            if FieldNamed(fs, n).Some? then FieldNamed(fs, n) else FieldNamed(gs, n)
  {
    if gs != [] {
      var k := |gs| - 1;
      AddMissingNamed(fs, gs[..k], n);
      assert gs == gs[..k] + [gs[k]];
      FieldNamedAppend(gs[..k], gs[k], n);
      FieldNamedAppend(AddMissing(fs, gs[..k]), gs[k], n);
    }
  }

  /** A total field is the one of the first version that has the name. */
  lemma {:induction false} TotalFieldIsFirst(datas: seq<HsData>, name: string, n: string)
    ensures FieldNamed(TotalFields(datas, name), n) == FirstOccurrence(datas, name, n)
  {
    if datas != [] {
      var k := |datas| - 1;
      TotalFieldIsFirst(datas[..k], name, n);
      if datas[k].name == name && datas[k].body.Own? {
        AddMissingNamed(TotalFields(datas[..k], name), Formatted(datas[k]), n);
      }
    }
  }

  // ------------------------------------------------ the order of the total fields

  ghost predicate Before(a: (nat, nat), b: (nat, nat)) {
    a.0 < b.0 || (a.0 == b.0 && a.1 < b.1)
  }

  /** Field p of fs is field at[p].1 of own type at[p].0 of the list; the places ascend. */
  ghost predicate Placed(datas: seq<HsData>, name: string, fs: seq<HsField>, at: seq<(nat, nat)>) {
    && |at| == |fs|
    && (forall p :: 0 <= p < |fs| ==> PlacedAt(datas, name, fs[p], at[p]))
    && forall p, q :: 0 <= p < q < |at| ==> Before(at[p], at[q])
  }

  ghost predicate PlacedAt(datas: seq<HsData>, name: string, f: HsField, at: (nat, nat)) {
    && at.0 < |datas| && datas[at.0].name == name && datas[at.0].body.Own?
    && at.1 < |Formatted(datas[at.0])| && Formatted(datas[at.0])[at.1] == f
  }

  lemma PlacedNext(datas: seq<HsData>, name: string, fs: seq<HsField>, at: seq<(nat, nat)>, k: nat, j: nat)
    requires Placed(datas, name, fs, at) && k < |datas| && datas[k].name == name && datas[k].body.Own?
    requires j < |Formatted(datas[k])| && forall p :: 0 <= p < |at| ==> Before(at[p], (k, j))
    ensures Placed(datas, name, fs + [Formatted(datas[k])[j]], at + [(k, j)])
  {
  }

  lemma {:induction false} AddedInOrder(
      datas: seq<HsData>, name: string, fs: seq<HsField>, at: seq<(nat, nat)>, k: nat, j: nat) returns (more: seq<(nat, nat)>)
    requires Placed(datas, name, fs, at) && k < |datas| && datas[k].name == name && datas[k].body.Own?
    requires j <= |Formatted(datas[k])| && forall p :: 0 <= p < |at| ==> at[p].0 < k
    ensures Placed(datas, name, AddMissing(fs, Formatted(datas[k])[..j]), more)
    ensures forall p :: 0 <= p < |more| ==> Before(more[p], (k, j))
  {
    var gs := Formatted(datas[k]);
    if j == 0 {
      more := at;
    } else {
      more := AddedInOrder(datas, name, fs, at, k, j - 1);
      assert gs[..j][..j - 1] == gs[..j - 1];
      var r := AddMissing(fs, gs[..j - 1]);
      if FieldNamed(r, gs[j - 1].name).None? {
        PlacedNext(datas, name, r, more, k, j - 1);
        more := more + [(k, j - 1)];
      }
    }
  }

  lemma PlacedLater(datas: seq<HsData>, d: HsData, name: string, fs: seq<HsField>, at: seq<(nat, nat)>)
    requires Placed(datas, name, fs, at)
    ensures Placed(datas + [d], name, fs, at)
  {
    forall p | 0 <= p < |fs|
      ensures PlacedAt(datas + [d], name, fs[p], at[p])
    {
      assert PlacedAt(datas, name, fs[p], at[p]);
    }
  }

  /** The total type lists its fields in the order in which the versions introduce them,
      each taken from its place in the version. */
  lemma {:induction false} TotalFieldsInOrder(datas: seq<HsData>, name: string) returns (at: seq<(nat, nat)>)
    ensures Placed(datas, name, TotalFields(datas, name), at)
  {
    if datas == [] {
      at := [];
    } else {
      var k := |datas| - 1;
      var front, d := datas[..k], datas[k];
      assert datas == front + [d];
      at := TotalFieldsInOrder(front, name);
      PlacesBelow(front, name, TotalFields(front, name), at);
      PlacedLater(front, d, name, TotalFields(front, name), at);
      if d.name == name && d.body.Own? {
        at := AddedInOrder(datas, name, TotalFields(front, name), at, k, |Formatted(d)|);
        assert Formatted(d)[..|Formatted(d)|] == Formatted(d);
      }
    }
  }

  lemma PlacesBelow(datas: seq<HsData>, name: string, fs: seq<HsField>, at: seq<(nat, nat)>)
    requires Placed(datas, name, fs, at)
    ensures forall p :: 0 <= p < |at| ==> at[p].0 < |datas|
  {
    forall p | 0 <= p < |at|
      ensures at[p].0 < |datas|
    {
      assert PlacedAt(datas, name, fs[p], at[p]);
    }
  }

  function FirstOccurrence(datas: seq<HsData>, name: string, n: string): Option<HsField> {
    if datas == [] then None
    else
      var k := |datas| - 1;
      var earlier := FirstOccurrence(datas[..k], name, n);
      if earlier.Some? then earlier
      else if datas[k].name == name && datas[k].body.Own? then FieldNamed(Formatted(datas[k]), n)
      else None
  }

  lemma {:induction false} OwnFieldsAreTotal(datas: seq<HsData>, i: nat, n: string)
    requires i < |datas| && datas[i].body.Own? && FieldNamed(Formatted(datas[i]), n).Some?
    ensures FieldNamed(TotalFields(datas, datas[i].name), n).Some?
  {
    TotalFieldIsFirst(datas, datas[i].name, n);
    OccursAtLatest(datas, i, n);
  }

  lemma {:induction false} OccursAtLatest(datas: seq<HsData>, i: nat, n: string)
    requires i < |datas| && datas[i].body.Own? && FieldNamed(Formatted(datas[i]), n).Some?
    ensures FirstOccurrence(datas, datas[i].name, n).Some?
  {
    if i < |datas| - 1 {
      OccursAtLatest(datas[..|datas| - 1], i, n);
    }
  }

  // ------------------------------------------------ the total type's own types

  ghost predicate SomeFlexible(list: seq<HsData>, name: string) {
    exists i :: 0 <= i < |list| && list[i].name == name && list[i].body.Own? && list[i].flexible
  }

  ghost predicate HasNullable(fs: seq<HsField>, n: string) {
    exists j :: 0 <= j < |fs| && fs[j].name == n && fs[j].nullable
  }

  ghost predicate SomeNullable(list: seq<HsData>, name: string, n: string) {
    exists i :: 0 <= i < |list| && list[i].name == name && list[i].body.Own? && HasNullable(list[i].body.fields, n)
  }

  /** `convert_field_type`: a string is nullable or compact in the total type if it is
      so in any version; any other field has the type of its first version. */
  ghost function TotalType(list: seq<HsData>, name: string, dest: HsField): HsType {
    var flexible, nullable := SomeFlexible(list, name), SomeNullable(list, name, dest.name);
    if dest.kaType == "string" && (flexible || nullable) then StringType(flexible, nullable) else dest.wrapper
  }

  ghost function DefaultOf(list: seq<HsData>, name: string, dest: HsField): Value {
    if dest.kaType == "TaggedFields" then EmptyTaggedFields
    else DefaultValue(TotalType(list, name, dest), dest.kaType, dest.default)
  }

  lemma TotalTypeIsTyped(list: seq<HsData>, name: string, h: HsField)
    requires TypedAs(h.kaType, h.wrapper)
    ensures TypedAs(h.kaType, TotalType(list, name, h))
  {
  }

  lemma NotTagged(ty: HsType)
    requires !ty.TaggedFields?
    ensures KaName(ty) != "TaggedFields"
  {
    assert KaName(ty)[0] != "TaggedFields"[0];
  }

  // ------------------------------------------------ the converters

  /** The own type behind a name and version, aliases followed once. */
  function OwnIndex(datas: seq<HsData>, name: string, v: nat): (r: Option<nat>)
    ensures r.Some? ==> r.value < |datas| && datas[r.value].name == name && datas[r.value].body.Own?
  {
    match Find(datas, name, v)
    case None => None
    case Some(i) =>
      if datas[i].body.Own? then Some(i)
      else
        match Find(datas, name, datas[i].body.version)
        case None => None
        case Some(j) => if datas[j].body.Own? then Some(j) else None
  }

  predicate NeedsConverter(f: HsField) {
    f.kaType == "array" && f.arrOf.Some? && !IsPlainElem(f.arrOf.value)
  }

  /** The generated `<name>ToV<v>`: from the total type to version v. */
  ghost function To(list: seq<HsData>, subs: seq<HsData>, name: string, v: nat, x: Value): Value
    decreases x, 1
  {
    match OwnIndex(list, name, v)
    case None => Undefined
    case Some(i) =>
      if !x.Record? then Undefined
      else
        var fs := Formatted(list[i]);
        Record(map n | n in Names(fs) ::
          if n in x.fields then ConvertTo(subs, FieldNamed(fs, n).value, list[i].version, x.fields[n]) else Undefined)
  }

  /** `convert_field_to`: an array of structs maps the struct's own converter. */
  ghost function ConvertTo(subs: seq<HsData>, f: HsField, ver: nat, y: Value): Value
    decreases y, 0
  {
    if !NeedsConverter(f) then y
    else
      match y
      case Nothing => Nothing
      case Array(items) =>
        Array(seq(|items|, i requires 0 <= i < |items| => To(subs, subs, f.arrOf.value, ver, items[i])))
      case _ => Undefined
  }

  /** The generated `<name>FromV<v>`: from version v to the total type. */
  ghost function From(list: seq<HsData>, subs: seq<HsData>, name: string, v: nat, x: Value): Value
    decreases x, 1
  {
    match OwnIndex(list, name, v)
    case None => Undefined
    case Some(i) =>
      if !x.Record? then Undefined
      else
        var fs, total := Formatted(list[i]), TotalFields(list, name);
        Record(map n | n in Names(total) ::
          match FieldNamed(fs, n)
          case Some(src) => if n in x.fields then ConvertFrom(subs, src, list[i].version, x.fields[n]) else Undefined
          case None => DefaultOf(list, name, FieldNamed(total, n).value))
  }

  ghost function ConvertFrom(subs: seq<HsData>, f: HsField, ver: nat, y: Value): Value
    decreases y, 0
  {
    if !NeedsConverter(f) then y
    else
      match y
      case Nothing => Nothing
      case Array(items) =>
        Array(seq(|items|, i requires 0 <= i < |items| => From(subs, subs, f.arrOf.value, ver, items[i])))
      case _ => Undefined
  }

  // ------------------------------------------------ typing and the round trip

  /** x is a value of the generated type `<name>V<v>`: a field's elements have the
      type its reference names. */
  ghost predicate HasType(list: seq<HsData>, subs: seq<HsData>, name: string, v: nat, x: Value)
    decreases x, 1
  {
    var i := OwnIndex(list, name, v);
    && i.Some? && x.Record?
    && x.fields.Keys == Names(Formatted(list[i.value]))
    && forall n :: n in x.fields ==> FieldHasType(subs, FieldNamed(Formatted(list[i.value]), n).value, x.fields[n])
  }

  ghost predicate FieldHasType(subs: seq<HsData>, f: HsField, y: Value)
    decreases y, 0
  {
    if f.ref.None? then true
    else
      match y
      case Nothing => true
      case Array(items) =>
        forall k :: 0 <= k < |items| ==> HasType(subs, subs, f.ref.value.name, f.ref.value.version, items[k])
      case _ => false
  }

  /** Being typed at a version and at the version it aliases are the same. */
  lemma SameOwnType(st: Types, name: string, v: nat)
    requires Inv(st) && Find(st.datas, name, v).Some?
    ensures OwnIndex(st.datas, name, v).Some?
    ensures OwnIndex(st.datas, name, Canonical(st.datas, name, v)) == OwnIndex(st.datas, name, v)
  {
    var i, j := ResolvedAt(st, name, v);
    FindEntry(st.datas, j);
  }

  lemma FormattedLinked(list: seq<HsData>, subs: seq<HsData>, i: nat, f: HsField)
    requires LinksInv(list, subs) && i < |list| && list[i].body.Own? && f in Formatted(list[i])
    ensures f == TAGGED_FIELDS || Linked(subs, list[i].version, f)
    ensures f.ref.Some? <==> NeedsConverter(f)
  {
    if f in list[i].body.fields {
      var j :| 0 <= j < |list[i].body.fields| && list[i].body.fields[j] == f;
      assert Linked(subs, list[i].version, f);
    }
  }

  /** Every converter a generated converter calls is generated too. */
  lemma ConvertersAreEmitted(list: seq<HsData>, subs: Types, i: nat, f: HsField)
    requires Inv(subs) && LinksInv(list, subs.datas) && i < |list| && list[i].body.Own?
    requires f in Formatted(list[i]) && NeedsConverter(f)
    ensures Find(subs.datas, f.arrOf.value, list[i].version).Some?
    ensures OwnIndex(subs.datas, f.arrOf.value, list[i].version).Some?
    ensures OwnIndex(subs.datas, f.ref.value.name, f.ref.value.version) ==
            OwnIndex(subs.datas, f.arrOf.value, list[i].version)
  {
    FormattedLinked(list, subs.datas, i, f);
    SameOwnType(subs, f.arrOf.value, list[i].version);
  }

  /** Converting a version-v value to the total type and back is the identity, at
      any depth of nesting and for aliased versions alike. */
  lemma {:induction false} RoundTrip(list: seq<HsData>, subs: Types, name: string, v: nat, x: Value)
    requires Inv(subs) && LinksInv(subs.datas, subs.datas) && LinksInv(list, subs.datas)
    requires HasType(list, subs.datas, name, v, x)
    ensures To(list, subs.datas, name, v, From(list, subs.datas, name, v, x)) == x
    decreases x, 1
  {
    var i := OwnIndex(list, name, v).value;
    var fs, y := Formatted(list[i]), From(list, subs.datas, name, v, x);
    forall n | n in Names(fs)
      ensures n in y.fields
      ensures ConvertTo(subs.datas, FieldNamed(fs, n).value, list[i].version, y.fields[n]) == x.fields[n]
    {
      FromField(list, subs.datas, name, v, x, n);
      FieldRoundTrip(list, subs, i, FieldNamed(fs, n).value, x.fields[n]);
    }
    ToRecord(list, subs.datas, name, v, y, x);
  }

  /** The fields version v has are converted one by one. */
  lemma FromField(list: seq<HsData>, subs: seq<HsData>, name: string, v: nat, x: Value, n: string)
    requires OwnIndex(list, name, v).Some? && x.Record?
    requires n in x.fields && n in Names(Formatted(list[OwnIndex(list, name, v).value]))
    ensures var i, y := OwnIndex(list, name, v).value, From(list, subs, name, v, x);
            && y.Record? && n in y.fields
            && y.fields[n] == ConvertFrom(subs, FieldNamed(Formatted(list[i]), n).value, list[i].version, x.fields[n])
  {
    OwnFieldsAreTotal(list, OwnIndex(list, name, v).value, n);
  }

  lemma ToRecord(list: seq<HsData>, subs: seq<HsData>, name: string, v: nat, y: Value, x: Value)
    requires OwnIndex(list, name, v).Some? && y.Record? && x.Record?
    requires var fs := Formatted(list[OwnIndex(list, name, v).value]);
             && x.fields.Keys == Names(fs)
             && forall n :: n in Names(fs) ==>
                  n in y.fields &&
                  ConvertTo(subs, FieldNamed(fs, n).value, list[OwnIndex(list, name, v).value].version, y.fields[n]) == x.fields[n]
    ensures To(list, subs, name, v, y) == x
  {
    var r := To(list, subs, name, v, y);
    assert r.fields.Keys == x.fields.Keys;
    assert r.fields == x.fields;
  }

  lemma {:induction false} FieldRoundTrip(list: seq<HsData>, subs: Types, i: nat, f: HsField, y: Value)
    requires Inv(subs) && LinksInv(subs.datas, subs.datas) && LinksInv(list, subs.datas)
    requires i < |list| && list[i].body.Own? && f in Formatted(list[i])
    requires FieldHasType(subs.datas, f, y)
    ensures var ver := list[i].version;
            ConvertTo(subs.datas, f, ver, ConvertFrom(subs.datas, f, ver, y)) == y
    decreases y, 0
  {
    FormattedLinked(list, subs.datas, i, f);
    if NeedsConverter(f) && y.Array? {
      var ver := list[i].version;
      ConvertersAreEmitted(list, subs, i, f);
      forall k | 0 <= k < |y.items|
        ensures To(subs.datas, subs.datas, f.arrOf.value, ver,
                   From(subs.datas, subs.datas, f.arrOf.value, ver, y.items[k])) == y.items[k]
      {
        assert HasType(subs.datas, subs.datas, f.ref.value.name, f.ref.value.version, y.items[k]);
        TypedAlike(subs.datas, f.ref.value, Ref(f.arrOf.value, ver), y.items[k]);
        RoundTrip(subs.datas, subs, f.arrOf.value, ver, y.items[k]);
      }
    }
  }

  lemma TypedAlike(subs: seq<HsData>, a: Ref, b: Ref, x: Value)
    requires OwnIndex(subs, a.name, a.version) == OwnIndex(subs, b.name, b.version)
    ensures HasType(subs, subs, a.name, a.version, x) == HasType(subs, subs, b.name, b.version, x)
  {
  }

  /** The fields a version has are carried over: a scalar or an array of scalars as it is,
      an array of structs element by element, each element by the converter of the
      struct's own version. */
  lemma PresentFieldsAreConverted(list: seq<HsData>, subs: Types, name: string, v: nat, x: Value, n: string)
    requires Inv(subs) && LinksInv(list, subs.datas) && HasType(list, subs.datas, name, v, x) && n in x.fields
    ensures var i, y := OwnIndex(list, name, v).value, From(list, subs.datas, name, v, x);
            var f := FieldNamed(Formatted(list[i]), n).value;
            && y.Record? && n in y.fields
            && (f.ref.None? ==> y.fields[n] == x.fields[n])
            && (f.ref.Some? && x.fields[n] == Nothing ==> y.fields[n] == Nothing)
            && (f.ref.Some? && x.fields[n].Array? ==>
                  && y.fields[n].Array? && |y.fields[n].items| == |x.fields[n].items|
                  && forall k :: 0 <= k < |x.fields[n].items| ==>
                       y.fields[n].items[k] ==
                       From(subs.datas, subs.datas, f.ref.value.name, list[i].version, x.fields[n].items[k]))
  {
    var i := OwnIndex(list, name, v).value;
    var f := FieldNamed(Formatted(list[i]), n).value;
    FormattedLinked(list, subs.datas, i, f);
    FromField(list, subs.datas, name, v, x, n);
  }

  /** And back: every field of the version is taken from the total value's field of the
      same name, arrays of structs element by element. */
  lemma TotalFieldsAreConverted(list: seq<HsData>, subs: Types, name: string, v: nat, y: Value, n: string)
    requires Inv(subs) && LinksInv(list, subs.datas) && OwnIndex(list, name, v).Some? && y.Record? && n in y.fields
    requires n in Names(Formatted(list[OwnIndex(list, name, v).value]))
    ensures var i, x := OwnIndex(list, name, v).value, To(list, subs.datas, name, v, y);
            var f := FieldNamed(Formatted(list[i]), n).value;
            && x.Record? && x.fields.Keys == Names(Formatted(list[i]))
            && (f.ref.None? ==> x.fields[n] == y.fields[n])
            && (f.ref.Some? && y.fields[n] == Nothing ==> x.fields[n] == Nothing)
            && (f.ref.Some? && y.fields[n].Array? ==>
                  && x.fields[n].Array? && |x.fields[n].items| == |y.fields[n].items|
                  && forall k :: 0 <= k < |y.fields[n].items| ==>
                       x.fields[n].items[k] ==
                       To(subs.datas, subs.datas, f.ref.value.name, list[i].version, y.fields[n].items[k]))
  {
    var i := OwnIndex(list, name, v).value;
    FormattedLinked(list, subs.datas, i, FieldNamed(Formatted(list[i]), n).value);
  }

  /** A field that version v lacks gets, in the total value, the default of the first
      version that has it. That is what its schema means, at the field's total type,
      if and only if the default survives. */
  lemma AbsentFieldsGetDefaults(list: seq<HsData>, subs: seq<HsData>, name: string, v: nat, x: Value, n: string)
    requires HasType(list, subs, name, v, x) && FirstOccurrence(list, name, n).Some?
    requires FieldNamed(Formatted(list[OwnIndex(list, name, v).value]), n).None?
    ensures var y, h := From(list, subs, name, v, x), FirstOccurrence(list, name, n).value;
            var ty := TotalType(list, name, h);
            && y.Record? && n in y.fields && y.fields[n] == DefaultOf(list, name, h)
            && (TypedAs(h.kaType, h.wrapper) && SchemaDefault(ty, h.default).Some? ==>
                  && (y.fields[n] == SchemaDefault(ty, h.default).value <==> Survives(ty, h.default))
                  && (y.fields[n] == Undefined <==> !Survives(ty, h.default) && !Misread(ty, h.default)))
  {
    TotalFieldIsFirst(list, name, n);
    var h := FirstOccurrence(list, name, n).value;
    if TypedAs(h.kaType, h.wrapper) && SchemaDefault(TotalType(list, name, h), h.default).Some? {
      TotalTypeIsTyped(list, name, h);
      DefaultHoldsIff(TotalType(list, name, h), h.kaType, h.default);
      assert h.kaType != "TaggedFields" by { assert TypedAs(h.kaType, h.wrapper); NotTagged(h.wrapper); }
    }
  }

  /** A version that is not flexible gets empty tagged fields in a total type that has
      them. */
  lemma MissingTaggedFields(list: seq<HsData>, subs: seq<HsData>, name: string, v: nat, x: Value)
    requires HasType(list, subs, name, v, x) && FirstOccurrence(list, name, "taggedFields") == Some(TAGGED_FIELDS)
    requires FieldNamed(Formatted(list[OwnIndex(list, name, v).value]), "taggedFields").None?
    ensures var y := From(list, subs, name, v, x);
            y.Record? && "taggedFields" in y.fields && y.fields["taggedFields"] == EmptyTaggedFields
  {
    AbsentFieldsGetDefaults(list, subs, name, v, x, "taggedFields");
  }

  /** The whole generator: every value of every generated version of every message
      survives the trip through the message's total type. */
  lemma GeneratedRoundTrip(ms: seq<Message>, decls: Decls, i: nat, v: nat, x: Value)
    requires DistinctNames(ms) && AllDeclared(decls, ms) && ParseMessages(ms).Ok?
    requires i < |ms| && ms[i].min <= v <= ms[i].max
    ensures var out := ParseMessages(ms).value;
            && OwnIndex(out.tops.datas, ms[i].name, v).Some?
            && (HasType(out.tops.datas, out.subs.datas, ms[i].name, v, x) ==>
                  To(out.tops.datas, out.subs.datas, ms[i].name, v,
                     From(out.tops.datas, out.subs.datas, ms[i].name, v, x)) == x)
  {
    GeneratorSound(ms, decls);
    var out := ParseMessages(ms).value;
    assert Generated(out, ms[i], v);
    SameOwnType(out.tops, ms[i].name, v);
    if HasType(out.tops.datas, out.subs.datas, ms[i].name, v, x) {
      RoundTrip(out.tops.datas, out.subs, ms[i].name, v, x);
    }
  }
}
