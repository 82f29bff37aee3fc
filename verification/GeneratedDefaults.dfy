/** Absent fields at the level of the whole generator: what the total value of a
    generated message holds for a schema field that its version lacks. */
module GeneratedDefaults {
  import opened Wrappers
  import opened SchemaTypes
  import opened SchemaSharing
  import opened SchemaTrees
  import opened SchemaParse
  import opened SchemaDefaults
  import opened SchemaConverters

  // ------------------------------------------------ fields and versions

  /** The record field name of a schema field. */
  function Rendered(f: Field): string {
    LowerFirst(RenameField(f.name))
  }

  /** The record field that f becomes in version v, if it is an untagged field there. */
  function At(m: Message, f: Field, v: nat): Option<HsField> {
    var a := Attribute(f, v, InRange(v, m.flex));
    if a.Ok? && a.value.Some? && !a.value.value.isTagged then a.value else None
  }

  predicate InVersion(m: Message, f: Field, v: nat) {
    m.min <= v <= m.max && At(m, f, v).Some?
  }

  ghost predicate IsFirst(m: Message, f: Field, w: nat) {
    InVersion(m, f, w) && forall u :: 0 <= u < w ==> !InVersion(m, f, u)
  }

  /** No other field of the message goes by the name of f. */
  ghost predicate OnlyField(m: Message, f: Field) {
    && f in m.fields && Rendered(f) != TAGGED_FIELDS.name
    && forall g :: g in m.fields && Rendered(g) == Rendered(f) ==> g == f
  }

  lemma AttributeOf(f: Field, v: nat, flexible: bool)
    requires Attribute(f, v, flexible).Ok? && Attribute(f, v, flexible).value.Some?
    ensures var h := Attribute(f, v, flexible).value.value;
            && h.name == Rendered(f) && h.kaType == KaType(f) && h.ref == None
            && Wrapper(h.kaType, flexible, InRange(v, f.nullable)) == Some(h.wrapper)
  {
  }

  // ------------------------------------------------ the fields of a generated version

  ghost predicate HasAttr(ts: seq<TreeField>, a: HsField) {
    exists j :: 0 <= j < |ts| && ts[j].attr == a
  }

  ghost predicate Sourced(fs: seq<Field>, v: nat, flexible: bool, a: HsField) {
    !a.isTagged && exists j :: 0 <= j < |fs| && Attribute(fs[j], v, flexible) == Ok(Some(a))
  }

  lemma HasAttrAppend(ts: seq<TreeField>, more: seq<TreeField>, a: HsField)
    ensures HasAttr(ts + more, a) <==> HasAttr(ts, a) || HasAttr(more, a)
  {
    var all := ts + more;
    if HasAttr(ts, a) {
      var j :| 0 <= j < |ts| && ts[j].attr == a;
      assert all[j].attr == a;
    }
    if HasAttr(more, a) {
      var j :| 0 <= j < |more| && more[j].attr == a;
      assert all[|ts| + j].attr == a;
    }
  }

  lemma SourcedAppend(fs: seq<Field>, f: Field, v: nat, flexible: bool, a: HsField)
    ensures Sourced(fs + [f], v, flexible, a) <==>
            Sourced(fs, v, flexible, a) || (!a.isTagged && Attribute(f, v, flexible) == Ok(Some(a)))
  {
    var all := fs + [f];
    if Sourced(fs, v, flexible, a) {
      var j :| 0 <= j < |fs| && Attribute(fs[j], v, flexible) == Ok(Some(a));
      assert all[j] == fs[j];
    }
    assert all[|fs|] == f;
  }

  /** What one field adds to the untagged fields. */
  function Kept(f: Field, v: nat, flexible: bool): seq<TreeField>
    requires TreeOfField(f, v, flexible).Ok?
  {
    var t := TreeOfField(f, v, flexible).value;
    if t.None? || t.value.attr.isTagged then [] else [t.value]
  }

  lemma KeptAttr(f: Field, v: nat, flexible: bool, a: HsField)
    requires TreeOfField(f, v, flexible).Ok?
    ensures HasAttr(Kept(f, v, flexible), a) <==> !a.isTagged && Attribute(f, v, flexible) == Ok(Some(a))
  {
    var t := TreeOfField(f, v, flexible).value;
    assert Attribute(f, v, flexible) == Ok(if t.None? then None else Some(t.value.attr));
    if t.Some? && !t.value.attr.isTagged {
      assert Kept(f, v, flexible)[0] == t.value;
    }
  }

  lemma TreeStep(fs: seq<Field>, f: Field, v: nat, flexible: bool)
    requires TreeOfFields(fs + [f], v, flexible).Ok?
    ensures TreeOfFields(fs, v, flexible).Ok? && TreeOfField(f, v, flexible).Ok?
    ensures UntaggedTree(TreeOfFields(fs + [f], v, flexible).value) ==
            UntaggedTree(TreeOfFields(fs, v, flexible).value) + Kept(f, v, flexible)
  {
    assert (fs + [f])[..|fs|] == fs;
    var ts, t := TreeOfFields(fs, v, flexible).value, TreeOfField(f, v, flexible).value;
    if t.Some? {
      assert (ts + [t.value])[..|ts|] == ts;
    } else {
      assert ts + [] == ts;
    }
  }

  /** The untagged fields of the unshared reading are those of the schema's fields. */
  lemma {:induction false} TreeAttrs(fs: seq<Field>, v: nat, flexible: bool, a: HsField)
    requires TreeOfFields(fs, v, flexible).Ok?
    ensures HasAttr(UntaggedTree(TreeOfFields(fs, v, flexible).value), a) <==> Sourced(fs, v, flexible, a)
  {
    if fs != [] {
      var front, f := fs[..|fs| - 1], fs[|fs| - 1];
      assert fs == front + [f];
      TreeAttrs(front, v, flexible, a);
      TreeStep(front, f, v, flexible);
      HasAttrAppend(UntaggedTree(TreeOfFields(front, v, flexible).value), Kept(f, v, flexible), a);
      SourcedAppend(front, f, v, flexible, a);
      KeptAttr(f, v, flexible, a);
    }
  }

  /** The tables hold exactly the versions of m, each as its unshared type, earlier
      versions first. */
  ghost predicate Made(out: Output, m: Message) {
    && Inv(out.tops)
    && (forall v: nat :: Find(out.tops.datas, m.name, v).Some? <==> m.min <= v <= m.max)
    && (forall v: nat :: m.min <= v <= m.max ==> Generated(out, m, v))
    && Ascending(out.tops.datas, m.name)
  }

  ghost predicate Ascending(datas: seq<HsData>, name: string) {
    forall p, q :: 0 <= p < q < |datas| && datas[p].name == name && datas[q].name == name ==>
      datas[p].version < datas[q].version
  }

  /** The fields that version v of m resolves to. */
  function FieldsAt(out: Output, m: Message, v: nat): seq<HsField> {
    match Resolve(out.tops.datas, m.name, v)
    case Some(r) => r.0
    case None => []
  }

  ghost predicate StandsAt(out: Output, m: Message, v: nat, ts: seq<TreeField>) {
    && TreeOfFields(m.fields, v, InRange(v, m.flex)) == Ok(ts)
    && StandFor(out.subs.datas, FieldsAt(out, m, v), UntaggedTree(ts))
  }

  lemma VersionStands(out: Output, m: Message, v: nat) returns (ts: seq<TreeField>)
    requires Made(out, m) && m.min <= v <= m.max
    ensures StandsAt(out, m, v, ts)
  {
    assert Generated(out, m, v);
    ts := TreeOfFields(m.fields, v, InRange(v, m.flex)).value;
  }

  /** Every field of a version that goes by the name of f is what f becomes there. */
  lemma VersionField(out: Output, m: Message, f: Field, v: nat, j: nat)
    requires Made(out, m) && OnlyField(m, f) && m.min <= v <= m.max
    requires j < |FieldsAt(out, m, v)| && FieldsAt(out, m, v)[j].name == Rendered(f)
    ensures At(m, f, v) == Some(FieldsAt(out, m, v)[j].(ref := None))
  {
    var flexible := InRange(v, m.flex);
    var ts := VersionStands(out, m, v);
    var fs := FieldsAt(out, m, v);
    assert Stands(out.subs.datas, fs[j], UntaggedTree(ts)[j]);
    var a := fs[j].(ref := None);
    assert HasAttr(UntaggedTree(ts), a);
    TreeAttrs(m.fields, v, flexible, a);
    var k :| 0 <= k < |m.fields| && Attribute(m.fields[k], v, flexible) == Ok(Some(a));
    AttributeOf(m.fields[k], v, flexible);
    assert m.fields[k] in m.fields;
  }

  lemma VersionHas(out: Output, m: Message, f: Field, v: nat) returns (j: nat)
    requires Made(out, m) && f in m.fields && InVersion(m, f, v)
    ensures j < |FieldsAt(out, m, v)| && FieldsAt(out, m, v)[j].(ref := None) == At(m, f, v).value
  {
    var flexible := InRange(v, m.flex);
    var ts := VersionStands(out, m, v);
    var a := At(m, f, v).value;
    var k :| 0 <= k < |m.fields| && m.fields[k] == f;
    assert Attribute(m.fields[k], v, flexible) == Ok(Some(a));
    TreeAttrs(m.fields, v, flexible, a);
    j :| 0 <= j < |UntaggedTree(ts)| && UntaggedTree(ts)[j].attr == a;
    assert Stands(out.subs.datas, FieldsAt(out, m, v)[j], UntaggedTree(ts)[j]);
  }

  /** A version's record has a field of f's name exactly when f is in the version. */
  lemma NamedInVersion(out: Output, m: Message, f: Field, v: nat)
    requires Made(out, m) && OnlyField(m, f) && m.min <= v <= m.max
    ensures var r := FieldNamed(FieldsAt(out, m, v), Rendered(f));
            At(m, f, v) == if r.Some? then Some(r.value.(ref := None)) else None
  {
    var fs := FieldsAt(out, m, v);
    var r := FieldNamed(fs, Rendered(f));
    if InVersion(m, f, v) {
      var j := VersionHas(out, m, f, v);
      AttributeOf(f, v, InRange(v, m.flex));
      assert fs[j] in fs && fs[j].name == Rendered(f);
    }
    if r.Some? {
      var j :| 0 <= j < |fs| && fs[j] == r.value;
      VersionField(out, m, f, v, j);
    }
  }

  // ------------------------------------------------ own entries

  /** An own entry of m is the type of its version. */
  lemma OwnEntry(out: Output, m: Message, k: nat)
    requires Made(out, m) && k < |out.tops.datas|
    requires out.tops.datas[k].name == m.name && out.tops.datas[k].body.Own?
    ensures var d := out.tops.datas[k];
            && m.min <= d.version <= m.max && d.flexible == InRange(d.version, m.flex)
            && Resolve(out.tops.datas, m.name, d.version) == Some((d.body.fields, d.flexible))
  {
    FindEntry(out.tops.datas, k);
    assert Generated(out, m, out.tops.datas[k].version);
  }

  lemma FormattedNamed(d: HsData, n: string)
    requires d.body.Own? && n != TAGGED_FIELDS.name
    ensures FieldNamed(Formatted(d), n) == FieldNamed(d.body.fields, n)
  {
    if d.flexible {
      FieldNamedAppend(d.body.fields, TAGGED_FIELDS, n);
    } else {
      assert Formatted(d) == d.body.fields;
    }
  }

  lemma OwnEntryField(out: Output, m: Message, f: Field, k: nat)
    requires Made(out, m) && OnlyField(m, f) && k < |out.tops.datas|
    requires out.tops.datas[k].name == m.name && out.tops.datas[k].body.Own?
    ensures var d := out.tops.datas[k];
            var r := FieldNamed(Formatted(d), Rendered(f));
            At(m, f, d.version) == if r.Some? then Some(r.value.(ref := None)) else None
  {
    OwnEntry(out, m, k);
    NamedInVersion(out, m, f, out.tops.datas[k].version);
    FormattedNamed(out.tops.datas[k], Rendered(f));
  }

  /** The first version with f has a type of its own: what it could alias is an
      earlier version, which would have f too. */
  lemma FirstVersionIsOwn(out: Output, m: Message, f: Field, w: nat) returns (k: nat)
    requires Made(out, m) && OnlyField(m, f) && IsFirst(m, f, w)
    ensures OwnAt(out.tops.datas, k, m.name, w)
  {
    var i, j := ResolvedAt(out.tops, m.name, w);
    k := j;
    OwnEntry(out, m, j);
    NamedInVersion(out, m, f, w);
    NamedInVersion(out, m, f, out.tops.datas[j].version);
    assert InVersion(m, f, out.tops.datas[j].version);
    assert out.tops.datas[j].version <= w;
  }

  lemma {:induction false} FirstOccurrenceAt(list: seq<HsData>, name: string, n: string, k: nat)
    requires k < |list| && list[k].name == name && list[k].body.Own? && FieldNamed(Formatted(list[k]), n).Some?
    requires forall p :: 0 <= p < k && list[p].name == name && list[p].body.Own? ==>
               FieldNamed(Formatted(list[p]), n).None?
    ensures FirstOccurrence(list, name, n) == FieldNamed(Formatted(list[k]), n)
  {
    var e := |list| - 1;
    if k < e {
      FirstOccurrenceAt(list[..e], name, n, k);
    } else {
      NoOccurrence(list[..e], name, n);
    }
  }

  lemma {:induction false} NoOccurrence(list: seq<HsData>, name: string, n: string)
    requires forall p :: 0 <= p < |list| && list[p].name == name && list[p].body.Own? ==>
               FieldNamed(Formatted(list[p]), n).None?
    ensures FirstOccurrence(list, name, n) == None
  {
    if list != [] {
      NoOccurrence(list[..|list| - 1], name, n);
    }
  }

  /** The total field of f's name is what f becomes in its first version. */
  lemma TotalFieldOf(out: Output, m: Message, f: Field, w: nat)
    requires Made(out, m) && OnlyField(m, f) && IsFirst(m, f, w)
    ensures var r := FirstOccurrence(out.tops.datas, m.name, Rendered(f));
            r.Some? && r.value.(ref := None) == At(m, f, w).value
  {
    var list, n := out.tops.datas, Rendered(f);
    var k := FirstVersionIsOwn(out, m, f, w);
    OwnEntryField(out, m, f, k);
    forall p | 0 <= p < k && list[p].name == m.name && list[p].body.Own?
      ensures FieldNamed(Formatted(list[p]), n).None?
    {
      OwnEntry(out, m, p);
      OwnEntryField(out, m, f, p);
      assert list[p].version < w && !InVersion(m, f, list[p].version);
    }
    FirstOccurrenceAt(list, m.name, n, k);
  }

  // ------------------------------------------------ the total type of a field

  ghost predicate EverFlexible(m: Message) {
    exists v: nat :: m.min <= v <= m.max && InRange(v, m.flex)
  }

  ghost predicate EverNullable(m: Message, f: Field) {
    exists v: nat :: InVersion(m, f, v) && At(m, f, v).value.nullable
  }

  /** The type of field f, first in version w, in the message's total type. */
  ghost function TotalTypeOf(m: Message, f: Field, w: nat): HsType
    requires InVersion(m, f, w)
  {
    var flexible, nullable := EverFlexible(m), EverNullable(m, f);
    if KaType(f) == "string" && (flexible || nullable) then StringType(flexible, nullable) else At(m, f, w).value.wrapper
  }

  lemma FlexibleMatches(out: Output, m: Message)
    requires Made(out, m)
    ensures SomeFlexible(out.tops.datas, m.name) <==> EverFlexible(m)
  {
    var list := out.tops.datas;
    if SomeFlexible(list, m.name) {
      var k :| 0 <= k < |list| && list[k].name == m.name && list[k].body.Own? && list[k].flexible;
      OwnEntry(out, m, k);
    }
    if EverFlexible(m) {
      var v: nat :| m.min <= v <= m.max && InRange(v, m.flex);
      var i, j := ResolvedAt(out.tops, m.name, v);
      assert Generated(out, m, v);
    }
  }

  lemma NullableMatches(out: Output, m: Message, f: Field)
    requires Made(out, m) && OnlyField(m, f)
    ensures SomeNullable(out.tops.datas, m.name, Rendered(f)) <==> EverNullable(m, f)
  {
    var list, n := out.tops.datas, Rendered(f);
    if SomeNullable(list, m.name, n) {
      var k :| 0 <= k < |list| && list[k].name == m.name && list[k].body.Own? && HasNullable(list[k].body.fields, n);
      var j :| 0 <= j < |list[k].body.fields| && list[k].body.fields[j].name == n && list[k].body.fields[j].nullable;
      OwnEntry(out, m, k);
      VersionField(out, m, f, list[k].version, j);
      assert InVersion(m, f, list[k].version);
    }
    if EverNullable(m, f) {
      var v: nat :| InVersion(m, f, v) && At(m, f, v).value.nullable;
      var i, k := ResolvedAt(out.tops, m.name, v);
      var j := VersionHas(out, m, f, v);
      AttributeOf(f, v, InRange(v, m.flex));
      assert list[k].body.fields[j].name == n && list[k].body.fields[j].nullable;
      assert HasNullable(list[k].body.fields, n);
    }
  }

  lemma TotalTypeMatches(out: Output, m: Message, f: Field, w: nat)
    requires Made(out, m) && OnlyField(m, f) && IsFirst(m, f, w)
    requires FirstOccurrence(out.tops.datas, m.name, Rendered(f)).Some?
    requires FirstOccurrence(out.tops.datas, m.name, Rendered(f)).value.(ref := None) == At(m, f, w).value
    ensures TotalType(out.tops.datas, m.name, FirstOccurrence(out.tops.datas, m.name, Rendered(f)).value) ==
            TotalTypeOf(m, f, w)
  {
    AttributeOf(f, w, InRange(w, m.flex));
    FlexibleMatches(out, m);
    NullableMatches(out, m, f);
  }

  // ------------------------------------------------ what the default comes to

  /** The default of f as its schema means it in the total type. */
  ghost function MeantDefault(m: Message, f: Field, w: nat): Option<Value>
    requires InVersion(m, f, w)
  {
    SchemaDefault(TotalTypeOf(m, f, w), f.default)
  }

  /** What makes the generated code supply it: the type f has in the total type, and
      the default it has in its first version. */
  ghost predicate DefaultSurvives(m: Message, f: Field, w: nat)
    requires InVersion(m, f, w)
  {
    Survives(TotalTypeOf(m, f, w), At(m, f, w).value.default)
  }

  /** The null that the generator adds for a nullable string is what the schema means. */
  lemma AddedNullIsMeant(m: Message, f: Field, w: nat)
    requires InVersion(m, f, w)
    ensures SchemaDefault(TotalTypeOf(m, f, w), At(m, f, w).value.default) == MeantDefault(m, f, w)
  {
    var h := At(m, f, w).value;
    if h.default != f.default {
      AttributeOf(f, w, InRange(w, m.flex));
      assert h.nullable && EverNullable(m, f);
      assert KaType(f) == "string";
    }
  }

  lemma TotalTypeOfIsTyped(m: Message, f: Field, w: nat)
    requires InVersion(m, f, w)
    ensures TypedAs(KaType(f), TotalTypeOf(m, f, w)) && TypedAs(KaType(f), At(m, f, w).value.wrapper)
  {
    var flexible := InRange(w, m.flex);
    AttributeOf(f, w, flexible);
    WrapperIsTyped(KaType(f), flexible, InRange(w, f.nullable));
  }

  lemma AbsentInMade(out: Output, m: Message, v: nat, x: Value, f: Field, w: nat)
    requires Made(out, m) && OnlyField(m, f) && IsFirst(m, f, w) && m.min <= v <= m.max && !InVersion(m, f, v)
    requires HasType(out.tops.datas, out.subs.datas, m.name, v, x)
    ensures var y, n := From(out.tops.datas, out.subs.datas, m.name, v, x), Rendered(f);
            && y.Record? && n in y.fields
            && y.fields[n] == DefaultValue(TotalTypeOf(m, f, w), KaType(f), At(m, f, w).value.default)
  {
    var list, n := out.tops.datas, Rendered(f);
    TotalFieldOf(out, m, f, w);
    TotalTypeMatches(out, m, f, w);
    AttributeOf(f, w, InRange(w, m.flex));
    TotalTypeOfIsTyped(m, f, w);
    NotTagged(TotalTypeOf(m, f, w));
    NamedInVersion(out, m, f, v);
    var i, j := ResolvedAt(out.tops, m.name, v);
    FindEntry(list, j);
    assert OwnIndex(list, m.name, v) == Some(j);
    FormattedNamed(list[j], n);
    AbsentFieldsGetDefaults(list, out.subs.datas, m.name, v, x, n);
  }

  // ------------------------------------------------ earlier versions come first

  /** All entries behind the first k are versions of m below hi, in order. */
  ghost predicate AppendedVersions(datas: seq<HsData>, k: nat, m: Message, hi: nat) {
    && k <= |datas|
    && (forall p :: k <= p < |datas| ==> datas[p].name == m.name && datas[p].version < hi)
    && (forall p, q :: k <= p < q < |datas| ==> datas[p].version < datas[q].version)
  }

  ghost predicate Ascends(out: Output, r: Output, m: Message, hi: nat) {
    out.tops.datas <= r.tops.datas && AppendedVersions(r.tops.datas, |out.tops.datas|, m, hi)
  }

  lemma {:induction false} VersionsAscend(out: Output, m: Message, hi: nat, r: Output)
    requires m.min <= hi && ParseVersions(out, m, hi) == Ok(r)
    ensures Ascends(out, r, m, hi)
    decreases hi
  {
    if m.min < hi {
      var before := LastVersion(out, m, hi, r);
      VersionsAscend(out, m, hi - 1, before);
      VersionAppends(before, m, hi - 1, r);
      AscendsNext(out, before, m, hi - 1, r);
    }
  }

  /** b is a's table of messages, or that with version v of m at its end. */
  ghost predicate AddsVersion(a: seq<HsData>, b: seq<HsData>, m: Message, v: nat) {
    b == a || (|b| == |a| + 1 && a <= b && b[|a|].name == m.name && b[|a|].version == v)
  }

  lemma VersionAppends(out: Output, m: Message, v: nat, r: Output)
    requires ParseVersion(out, m, v) == Ok(r)
    ensures AddsVersion(out.tops.datas, r.tops.datas, m, v)
  {
  }

  lemma AscendsNext(out: Output, before: Output, m: Message, v: nat, r: Output)
    requires Ascends(out, before, m, v) && AddsVersion(before.tops.datas, r.tops.datas, m, v)
    ensures Ascends(out, r, m, v + 1)
  {
    var a, b := before.tops.datas, r.tops.datas;
    assert forall p :: 0 <= p < |a| ==> b[p] == a[p];
  }

  lemma MadeOrder(datas: seq<HsData>, all: seq<HsData>, m: Message, hi: nat)
    requires datas <= all && AppendedVersions(all, |datas|, m, hi)
    requires forall v: nat :: Find(datas, m.name, v).None?
    ensures Ascending(all, m.name)
  {
    forall p | 0 <= p < |datas|
      ensures all[p].name != m.name
    {
      assert Find(datas, m.name, datas[p].version).None?;
    }
  }

  lemma KeptOrder(datas: seq<HsData>, all: seq<HsData>, m: Message, hi: nat, name: string)
    requires datas <= all && AppendedVersions(all, |datas|, m, hi)
    requires name != m.name && Ascending(datas, name)
    ensures Ascending(all, name)
  {
  }

  /** The versions of every message stand in the table in ascending order. */
  lemma {:induction false} MessagesAscend(ms: seq<Message>, decls: Decls, i: nat)
    requires DistinctNames(ms) && AllDeclared(decls, ms) && ParseMessages(ms).Ok? && i < |ms|
    ensures Ascending(ParseMessages(ms).value.tops.datas, ms[i].name)
  {
    FrontOfMessages(decls, ms);
    var front, m := ms[..|ms| - 1], ms[|ms| - 1];
    GeneratorSound(front, decls);
    var out := ParseMessages(front).value;
    NotYetGenerated(out, front, m);
    if i < |front| {
      MessagesAscend(front, decls, i);
    }
    if m.min <= m.max {
      VersionsAscend(out, m, m.max + 1, ParseMessages(ms).value);
      var all := ParseMessages(ms).value.tops.datas;
      if i < |front| {
        KeptOrder(out.tops.datas, all, m, m.max + 1, ms[i].name);
      } else {
        MadeOrder(out.tops.datas, all, m, m.max + 1);
      }
    } else if i == |front| {
      MadeOrder(out.tops.datas, out.tops.datas, m, m.min);
    }
  }

  lemma AskedOnce(ms: seq<Message>, i: nat, v: nat)
    requires DistinctNames(ms) && i < |ms|
    ensures Asked(ms, ms[i].name, v) <==> ms[i].min <= v <= ms[i].max
  {
    if Asked(ms, ms[i].name, v) {
      var j :| 0 <= j < |ms| && ms[j].name == ms[i].name && ms[j].min <= v <= ms[j].max;
      assert j == i;
    }
  }

  lemma MessageMade(ms: seq<Message>, decls: Decls, i: nat)
    requires DistinctNames(ms) && AllDeclared(decls, ms) && ParseMessages(ms).Ok? && i < |ms|
    ensures Made(ParseMessages(ms).value, ms[i])
  {
    GeneratorSound(ms, decls);
    MessagesAscend(ms, decls, i);
    forall v: nat
      ensures Find(ParseMessages(ms).value.tops.datas, ms[i].name, v).Some? <==> ms[i].min <= v <= ms[i].max
    {
      AskedOnce(ms, i, v);
    }
  }

  // ------------------------------------------------ the result

  /** For every message, version and value, a schema field that the version lacks and
      some generated version has holds in the total value what its schema means by
      its default if and only if the default survives. Where it does not, there is
      no value, or another one if the text is misread. */
  lemma GeneratedDefault(ms: seq<Message>, decls: Decls, i: nat, v: nat, x: Value, f: Field, w: nat)
    requires DistinctNames(ms) && AllDeclared(decls, ms) && ParseMessages(ms).Ok? && i < |ms|
    requires OnlyField(ms[i], f) && IsFirst(ms[i], f, w)
    requires ms[i].min <= v <= ms[i].max && !InVersion(ms[i], f, v)
    requires var out := ParseMessages(ms).value;
             HasType(out.tops.datas, out.subs.datas, ms[i].name, v, x)
    requires MeantDefault(ms[i], f, w).Some?
    ensures var out := ParseMessages(ms).value;
            var y, n := From(out.tops.datas, out.subs.datas, ms[i].name, v, x), Rendered(f);
            && y.Record? && n in y.fields
            && (y.fields[n] == MeantDefault(ms[i], f, w).value <==> DefaultSurvives(ms[i], f, w))
            && (y.fields[n] == Undefined <==>
                  !DefaultSurvives(ms[i], f, w) &&
                  !Misread(TotalTypeOf(ms[i], f, w), At(ms[i], f, w).value.default))
  {
    var m := ms[i];
    MessageMade(ms, decls, i);
    AbsentInMade(ParseMessages(ms).value, m, v, x, f, w);
    AddedNullIsMeant(m, f, w);
    TotalTypeOfIsTyped(m, f, w);
    DefaultHoldsIff(TotalTypeOf(m, f, w), KaType(f), At(m, f, w).value.default);
  }

  // ------------------------------------------------ structs, at any depth

  /** g is a field of the struct called name, which fs declare at some depth. */
  ghost predicate SubField(fs: seq<Field>, name: string, g: Field)
    decreases fs
  {
    exists j :: 0 <= j < |fs| && SubFieldOf(fs[j], name, g)
  }

  ghost predicate SubFieldOf(f: Field, name: string, g: Field)
    decreases f
  {
    f.ty.StructArray? && ((f.ty.typeName == name && g in f.ty.subs) || SubField(f.ty.subs, name, g))
  }

  /** A property of a struct's name, version and flexibility and of one of its fields. */
  type Property = (string, nat, bool, HsField) -> bool

  ghost predicate AllHave(p: Property, name: string, v: nat, flexible: bool, fs: seq<HsField>) {
    forall j :: 0 <= j < |fs| ==> p(name, v, flexible, fs[j].(ref := None))
  }

  /** Every field of every own type has property p. */
  ghost predicate TableHas(p: Property, datas: seq<HsData>) {
    forall i :: 0 <= i < |datas| && datas[i].body.Own? ==>
      AllHave(p, datas[i].name, datas[i].version, datas[i].flexible, datas[i].body.fields)
  }

  /** p holds of what the sub-fields of f become in version v. */
  ghost predicate Permits(p: Property, f: Field, v: nat, flexible: bool) {
    forall name, g :: SubFieldOf(f, name, g) ==> PermitsField(p, name, g, v, flexible)
  }

  ghost predicate PermitsField(p: Property, name: string, g: Field, v: nat, flexible: bool) {
    var a := Attribute(g, v, flexible);
    a.Ok? && a.value.Some? ==> p(name, v, flexible, a.value.value)
  }

  ghost predicate PermitsAll(p: Property, fs: seq<Field>, v: nat, flexible: bool) {
    forall j :: 0 <= j < |fs| ==> Permits(p, fs[j], v, flexible)
  }

  lemma PermitsSubs(p: Property, f: Field, v: nat, flexible: bool)
    requires Permits(p, f, v, flexible) && f.ty.StructArray?
    ensures PermitsAll(p, f.ty.subs, v, flexible)
  {
    forall j, name, g | 0 <= j < |f.ty.subs| && SubFieldOf(f.ty.subs[j], name, g)
      ensures PermitsField(p, name, g, v, flexible)
    {
      assert SubField(f.ty.subs, name, g);
      assert SubFieldOf(f, name, g);
    }
  }

  /** Apart from its reference a parsed field is the schema field's attribute. */
  lemma ParsedIsAttribute(st: Types, f: Field, v: nat, flexible: bool)
    requires ParseField(st, f, v, flexible).Ok? && ParseField(st, f, v, flexible).value.1.Some?
    ensures Attribute(f, v, flexible) == Ok(Some(ParseField(st, f, v, flexible).value.1.value.(ref := None)))
  {
    AttributeOf(f, v, flexible);
    var h := Attribute(f, v, flexible).value.value;
    assert h.(ref := None) == h;
  }

  /** Whatever the fields of a struct are permitted, its parsed fields have. */
  lemma {:induction false} ParsedSubsHave(
      p: Property, name: string, st: Types, subs: seq<Field>, v: nat, flexible: bool)
    requires ParseFields(st, subs, v, flexible).Ok?
    requires forall g :: g in subs ==> PermitsField(p, name, g, v, flexible)
    ensures AllHave(p, name, v, flexible, ParseFields(st, subs, v, flexible).value.1)
  {
    if subs != [] {
      var n := |subs| - 1;
      ParsedSubsHave(p, name, st, subs[..n], v, flexible);
      var (st1, hs) := ParseFields(st, subs[..n], v, flexible).value;
      assert PermitsField(p, name, subs[n], v, flexible);
      if ParseField(st1, subs[n], v, flexible).value.1.Some? {
        ParsedIsAttribute(st1, subs[n], v, flexible);
      }
    }
  }

  lemma {:induction false} UntaggedHave(p: Property, name: string, v: nat, flexible: bool, fs: seq<HsField>)
    requires AllHave(p, name, v, flexible, fs)
    ensures AllHave(p, name, v, flexible, Untagged(fs))
  {
    if fs != [] {
      UntaggedHave(p, name, v, flexible, fs[..|fs| - 1]);
    }
  }

  lemma AppendHas(p: Property, st: Types, name: string, fs: seq<HsField>, v: nat, flexible: bool)
    requires TableHas(p, st.datas) && AllHave(p, name, v, flexible, fs)
    ensures TableHas(p, Append(st, name, fs, v, flexible).datas)
  {
  }

  lemma StructHas(p: Property, st: Types, f: Field, v: nat, flexible: bool)
    requires f.ty.StructArray? && Permits(p, f, v, flexible) && ParseFields(st, f.ty.subs, v, flexible).Ok?
    ensures AllHave(p, f.ty.typeName, v, flexible, Untagged(ParseFields(st, f.ty.subs, v, flexible).value.1))
  {
    forall g | g in f.ty.subs
      ensures PermitsField(p, f.ty.typeName, g, v, flexible)
    {
      assert SubFieldOf(f, f.ty.typeName, g);
    }
    ParsedSubsHave(p, f.ty.typeName, st, f.ty.subs, v, flexible);
    UntaggedHave(p, f.ty.typeName, v, flexible, ParseFields(st, f.ty.subs, v, flexible).value.1);
  }

  lemma {:induction false} ParseFieldHas(p: Property, st: Types, f: Field, v: nat, flexible: bool)
    requires Permits(p, f, v, flexible) && TableHas(p, st.datas) && ParseField(st, f, v, flexible).Ok?
    ensures TableHas(p, ParseField(st, f, v, flexible).value.0.datas)
    decreases f
  {
    if Attribute(f, v, flexible).value.Some? && f.ty.StructArray? {
      PermitsSubs(p, f, v, flexible);
      ParseFieldsHave(p, st, f.ty.subs, v, flexible);
      StructHas(p, st, f, v, flexible);
      var (st1, fs) := ParseFields(st, f.ty.subs, v, flexible).value;
      AppendHas(p, st1, f.ty.typeName, Untagged(fs), v, flexible);
    }
  }

  lemma {:induction false} ParseFieldsHave(p: Property, st: Types, fs: seq<Field>, v: nat, flexible: bool)
    requires PermitsAll(p, fs, v, flexible) && TableHas(p, st.datas) && ParseFields(st, fs, v, flexible).Ok?
    ensures TableHas(p, ParseFields(st, fs, v, flexible).value.0.datas)
    decreases fs
  {
    if fs != [] {
      var n := |fs| - 1;
      ParseFieldsHave(p, st, fs[..n], v, flexible);
      ParseFieldHas(p, ParseFields(st, fs[..n], v, flexible).value.0, fs[n], v, flexible);
    }
  }

  lemma VersionHasAll(p: Property, out: Output, m: Message, v: nat, r: Output)
    requires PermitsAll(p, m.fields, v, InRange(v, m.flex))
    requires ParseVersion(out, m, v) == Ok(r) && TableHas(p, out.subs.datas)
    ensures TableHas(p, r.subs.datas)
  {
    ParseFieldsHave(p, out.subs, m.fields, v, InRange(v, m.flex));
  }

  lemma LastVersion(out: Output, m: Message, hi: nat, r: Output) returns (before: Output)
    requires m.min < hi && ParseVersions(out, m, hi) == Ok(r)
    ensures ParseVersions(out, m, hi - 1) == Ok(before) && ParseVersion(before, m, hi - 1) == Ok(r)
  {
    before := ParseVersions(out, m, hi - 1).value;
  }

  /** Every version of m keeps the property. */
  ghost predicate Keeps(keep: Output -> bool, m: Message) {
    forall a, v: nat, b :: m.min <= v <= m.max && keep(a) && ParseVersion(a, m, v) == Ok(b) ==> keep(b)
  }

  /** What a version keeps, all versions keep. */
  lemma {:induction false} VersionsKeep(keep: Output -> bool, out: Output, m: Message, hi: nat, r: Output)
    requires m.min <= hi <= m.max + 1 && ParseVersions(out, m, hi) == Ok(r) && keep(out) && Keeps(keep, m)
    ensures keep(r)
    decreases hi
  {
    if m.min < hi {
      var before := LastVersion(out, m, hi, r);
      VersionsKeep(keep, out, m, hi - 1, before);
    }
  }

  ghost predicate PermitsMessage(p: Property, m: Message) {
    forall v: nat :: m.min <= v <= m.max ==> PermitsAll(p, m.fields, v, InRange(v, m.flex))
  }

  ghost function SubsHave(p: Property): Output -> bool {
    (o: Output) => TableHas(p, o.subs.datas)
  }

  lemma VersionKeeps(p: Property, m: Message, a: Output, v: nat, b: Output)
    requires PermitsMessage(p, m) && m.min <= v <= m.max && ParseVersion(a, m, v) == Ok(b) && SubsHave(p)(a)
    ensures SubsHave(p)(b)
  {
    VersionHasAll(p, a, m, v, b);
  }

  lemma VersionsHaveAll(p: Property, out: Output, m: Message, r: Output)
    requires m.min <= m.max && ParseVersions(out, m, m.max + 1) == Ok(r)
    requires PermitsMessage(p, m) && SubsHave(p)(out)
    ensures SubsHave(p)(r)
  {
    SubsAreKept(p, m);
    VersionsKeep(SubsHave(p), out, m, m.max + 1, r);
  }

  lemma SubsAreKept(p: Property, m: Message)
    requires PermitsMessage(p, m)
    ensures Keeps(SubsHave(p), m)
  {
    forall a, v: nat, b | m.min <= v <= m.max && SubsHave(p)(a) && ParseVersion(a, m, v) == Ok(b)
      ensures SubsHave(p)(b)
    {
      VersionKeeps(p, m, a, v, b);
    }
  }

  lemma MessageHasAll(p: Property, out: Output, m: Message, r: Output)
    requires PermitsMessage(p, m) && ParseMessage(out, m) == Ok(r) && TableHas(p, out.subs.datas)
    ensures TableHas(p, r.subs.datas)
  {
    if m.min <= m.max {
      VersionsHaveAll(p, out, m, r);
    }
  }

  /** What holds of every sub-field in every version of its message holds of every
      field of every generated struct type. */
  lemma {:induction false} MessagesHave(p: Property, ms: seq<Message>)
    requires ParseMessages(ms).Ok? && forall i :: 0 <= i < |ms| ==> PermitsMessage(p, ms[i])
    ensures TableHas(p, ParseMessages(ms).value.subs.datas)
  {
    if ms != [] {
      var n := |ms| - 1;
      MessagesHave(p, ms[..n]);
      MessageHasAll(p, ParseMessages(ms[..n]).value, ms[n], ParseMessages(ms).value);
    }
  }

  /** In version v, message i declares a struct called name with the field g. */
  ghost predicate Declares(ms: seq<Message>, i: nat, name: string, v: nat, g: Field) {
    i < |ms| && ms[i].min <= v <= ms[i].max && SubField(ms[i].fields, name, g)
  }

  /** a is what a sub-field that some message declares becomes. */
  ghost predicate Declared(ms: seq<Message>, name: string, v: nat, a: HsField) {
    exists i: nat, g :: Declares(ms, i, name, v, g) && Attribute(g, v, InRange(v, ms[i].flex)) == Ok(Some(a))
  }

  ghost function DeclaredIn(ms: seq<Message>): Property {
    (name: string, v: nat, flexible: bool, a: HsField) => Declared(ms, name, v, a)
  }

  lemma SubFieldsAreDeclared(ms: seq<Message>, i: nat)
    requires i < |ms|
    ensures PermitsMessage(DeclaredIn(ms), ms[i])
  {
    forall v: nat, j, name, g |
        ms[i].min <= v <= ms[i].max && 0 <= j < |ms[i].fields| && SubFieldOf(ms[i].fields[j], name, g)
      ensures PermitsField(DeclaredIn(ms), name, g, v, InRange(v, ms[i].flex))
    {
      assert Declares(ms, i, name, v, g);
    }
  }

  /** The entry the first occurrence of a name comes from. */
  lemma {:induction false} FirstOccurrenceEntry(list: seq<HsData>, name: string, n: string) returns (k: nat, j: nat)
    requires FirstOccurrence(list, name, n).Some? && n != TAGGED_FIELDS.name
    ensures k < |list| && list[k].name == name && list[k].body.Own? && j < |list[k].body.fields|
    ensures FirstOccurrence(list, name, n) == Some(list[k].body.fields[j]) && list[k].body.fields[j].name == n
  {
    var e := |list| - 1;
    if FirstOccurrence(list[..e], name, n).Some? {
      k, j := FirstOccurrenceEntry(list[..e], name, n);
    } else {
      FormattedNamed(list[e], n);
      var h := FieldNamed(list[e].body.fields, n).value;
      k := e;
      j := IndexIn(list[e].body.fields, h);
    }
  }

  lemma IndexIn(fs: seq<HsField>, h: HsField) returns (j: nat)
    requires h in fs
    ensures j < |fs| && fs[j] == h
  {
    j :| 0 <= j < |fs| && fs[j] == h;
  }

  /** The total field of a struct is what some declared sub-field becomes. */
  lemma StructFieldOf(ms: seq<Message>, name: string, n: string) returns (i: nat, g: Field, w: nat)
    requires ParseMessages(ms).Ok? && n != TAGGED_FIELDS.name
    requires FirstOccurrence(ParseMessages(ms).value.subs.datas, name, n).Some?
    ensures var subs := ParseMessages(ms).value.subs.datas;
            var h := FirstOccurrence(subs, name, n).value;
            && Declares(ms, i, name, w, g) && Rendered(g) == n
            && Attribute(g, w, InRange(w, ms[i].flex)) == Ok(Some(h.(ref := None)))
            && (h.nullable ==> SomeNullable(subs, name, n))
  {
    var subs := ParseMessages(ms).value.subs.datas;
    forall m | 0 <= m < |ms|
      ensures PermitsMessage(DeclaredIn(ms), ms[m])
    {
      SubFieldsAreDeclared(ms, m);
    }
    MessagesHave(DeclaredIn(ms), ms);
    var k, j := FirstOccurrenceEntry(subs, name, n);
    w := subs[k].version;
    var a := subs[k].body.fields[j].(ref := None);
    assert AllHave(DeclaredIn(ms), name, w, subs[k].flexible, subs[k].body.fields);
    assert Declared(ms, name, w, a);
    i, g :| Declares(ms, i, name, w, g) && Attribute(g, w, InRange(w, ms[i].flex)) == Ok(Some(a));
    AttributeOf(g, w, InRange(w, ms[i].flex));
    assert subs[k].body.fields[j].nullable ==> HasNullable(subs[k].body.fields, n);
  }

  /** The default a field has in version v: a nullable string without one gets null. */
  function EffectiveDefault(g: Field, v: nat): Option<string> {
    if g.ty == Scalar("string") && InRange(v, g.nullable) && g.default.None? then Some("null") else g.default
  }

  lemma EffectiveIsMeant(ty: HsType, g: Field, v: nat)
    requires EffectiveDefault(g, v) != g.default ==> IsNullableString(ty)
    ensures SchemaDefault(ty, EffectiveDefault(g, v)) == SchemaDefault(ty, g.default)
  {
  }

  lemma NullableStringType(list: seq<HsData>, name: string, h: HsField)
    requires h.kaType == "string" && SomeNullable(list, name, h.name)
    ensures IsNullableString(TotalType(list, name, h))
  {
  }

  /** What a declared sub-field becomes, and the type it has in the total type. */
  lemma DeclaredFieldIsTyped(list: seq<HsData>, name: string, h: HsField, g: Field, w: nat, flexible: bool)
    requires Attribute(g, w, flexible) == Ok(Some(h.(ref := None)))
    requires h.nullable ==> SomeNullable(list, name, h.name)
    ensures TypedAs(h.kaType, h.wrapper) && h.default == EffectiveDefault(g, w)
    ensures SchemaDefault(TotalType(list, name, h), h.default) == SchemaDefault(TotalType(list, name, h), g.default)
  {
    AttributeOf(g, w, flexible);
    WrapperIsTyped(KaType(g), flexible, InRange(w, g.nullable));
    if h.default != g.default {
      StringsStayStrings(g);
      NullableStringType(list, name, h);
    }
    EffectiveIsMeant(TotalType(list, name, h), g, w);
  }

  lemma StringsStayStrings(g: Field)
    requires g.ty == Scalar("string")
    ensures KaType(g) == "string"
  {
    assert "string"[0] != "int16"[0];
  }

  /** Inside messages, at any depth: a field that a struct's version lacks is, in the
      struct's total type, what a sub-field g that message i declares becomes in
      version w. The total value holds what the schema means by the default of g if
      and only if the default survives; otherwise it holds no value, or another one if
      the text is misread. */
  lemma GeneratedStructDefault(ms: seq<Message>, name: string, v: nat, x: Value, n: string)
      returns (i: nat, g: Field, w: nat)
    requires ParseMessages(ms).Ok? && n != TAGGED_FIELDS.name
    requires var subs := ParseMessages(ms).value.subs.datas;
             && HasType(subs, subs, name, v, x) && FirstOccurrence(subs, name, n).Some?
             && FieldNamed(Formatted(subs[OwnIndex(subs, name, v).value]), n).None?
    ensures Declares(ms, i, name, w, g) && Rendered(g) == n
    ensures var subs := ParseMessages(ms).value.subs.datas;
            var y, h := From(subs, subs, name, v, x), FirstOccurrence(subs, name, n).value;
            var ty := TotalType(subs, name, h);
            && Attribute(g, w, InRange(w, ms[i].flex)) == Ok(Some(h.(ref := None)))
            && y.Record? && n in y.fields
            && (SchemaDefault(ty, g.default).Some? ==>
                  && (y.fields[n] == SchemaDefault(ty, g.default).value <==> Survives(ty, EffectiveDefault(g, w)))
                  && (y.fields[n] == Undefined <==>
                        !Survives(ty, EffectiveDefault(g, w)) && !Misread(ty, EffectiveDefault(g, w))))
  {
    i, g, w := StructFieldOf(ms, name, n);
    var subs := ParseMessages(ms).value.subs.datas;
    var h := FirstOccurrence(subs, name, n).value;
    AttributeOf(g, w, InRange(w, ms[i].flex));
    DeclaredFieldIsTyped(subs, name, h, g, w, InRange(w, ms[i].flex));
    AbsentFieldsGetDefaults(subs, subs, name, v, x, n);
  }

  // ------------------------------------------------ a default that is lost

  const NO_VERSIONS := Range(None, None)

  /** A string with the empty string as its explicit default, new in version 11. */
  const RACK_ID :=
    Field("RackId", Scalar("string"), Range(Some(11), None), NO_VERSIONS, NO_VERSIONS, Some(""), None)

  const FETCH := Message("FetchRequest", [RACK_ID], 10, 11, Range(Some(12), None))

  lemma RackIdAttribute(v: nat)
    ensures Attribute(RACK_ID, v, false) ==
            Ok(if v < 11 then None
               else Some(HsField(Rendered(RACK_ID), Text, "string", None, None, false, None, false, Some(""))))
    ensures KaType(RACK_ID) == "string"
  {
    assert "string" != "int16" by { assert "string"[0] != "int16"[0]; }
  }

  lemma RackIdName()
    ensures Rendered(RACK_ID) == "rackId" && "rackId" != TAGGED_FIELDS.name
  {
    assert "RackId" != "Records" by { assert "RackId"[1] != "Records"[1]; }
    assert "rackId"[0] != "taggedFields"[0];
  }

  lemma FetchDeclared(decls: Decls)
    ensures AllDeclared(decls, [FETCH])
  {
    assert "string" != "array" by { assert "string"[0] != "array"[0]; }
    forall v: nat
      ensures FieldsDeclared(decls, FETCH.fields, v, InRange(v, FETCH.flex))
    {
      assert FieldDeclared(decls, RACK_ID, v, InRange(v, FETCH.flex));
    }
    assert MessageDeclared(decls, FETCH);
  }

  lemma FetchVersionParses(out: Output, v: nat)
    requires 10 <= v <= 11
    ensures ParseVersion(out, FETCH, v).Ok?
  {
    RackIdAttribute(v);
    assert FETCH.fields[..0] == [];
    assert ParseFields(out.subs, [], v, false) == Ok((out.subs, []));
    assert ParseField(out.subs, RACK_ID, v, false).Ok?;
  }

  lemma FetchParses()
    ensures ParseMessages([FETCH]).Ok?
  {
    var out := Output(EMPTY, EMPTY);
    assert [FETCH][..0] == [] && ParseMessages([]) == Ok(out);
    assert ParseVersions(out, FETCH, 10) == Ok(out);
    FetchVersionParses(out, 10);
    OneMoreVersion(out, FETCH, 10, out);
    var out1 := ParseVersions(out, FETCH, 11).value;
    FetchVersionParses(out1, 11);
    OneMoreVersion(out, FETCH, 11, out1);
  }

  lemma FetchTenIsEmpty(out: Output, x: Value)
    requires Made(out, FETCH) && x == Record(map[])
    ensures HasType(out.tops.datas, out.subs.datas, FETCH.name, 10, x)
  {
    var list := out.tops.datas;
    RackIdAttribute(10);
    assert Generated(out, FETCH, 10);
    assert FETCH.fields[..0] == [] && TreeOfFields([], 10, false) == Ok([]);
    assert TreeOfFields(FETCH.fields, 10, false) == Ok([]);
    var i, j := ResolvedAt(out.tops, FETCH.name, 10);
    FindEntry(list, j);
    assert OwnIndex(list, FETCH.name, 10) == Some(j);
    assert list[j].body.fields == [] && !list[j].flexible;
    assert Formatted(list[j]) == [];
    assert x.fields.Keys == Names(Formatted(list[j]));
  }

  lemma RackIdIsLost()
    ensures OnlyField(FETCH, RACK_ID) && IsFirst(FETCH, RACK_ID, 11) && !InVersion(FETCH, RACK_ID, 10)
    ensures TotalTypeOf(FETCH, RACK_ID, 11) == Text && At(FETCH, RACK_ID, 11).value.default == Some("")
    ensures MeantDefault(FETCH, RACK_ID, 11) == Some(StrValue(""))
  {
    RackIdName();
    forall v: nat | v <= 11
      ensures InVersion(FETCH, RACK_ID, v) <==> v == 11
      ensures v == 11 ==> !At(FETCH, RACK_ID, v).value.nullable
    {
      RackIdAttribute(v);
    }
    RackIdAttribute(11);
    assert "" != "null";
  }

  lemma LostInMade(out: Output, x: Value)
    requires Made(out, FETCH) && HasType(out.tops.datas, out.subs.datas, FETCH.name, 10, x)
    ensures var y := From(out.tops.datas, out.subs.datas, FETCH.name, 10, x);
            y.Record? && "rackId" in y.fields && y.fields["rackId"] == Undefined
  {
    RackIdName();
    RackIdIsLost();
    AbsentInMade(out, FETCH, 10, x, RACK_ID, 11);
    TotalTypeOfIsTyped(FETCH, RACK_ID, 11);
    DefaultHoldsIff(Text, KaType(RACK_ID), Some(""));
  }

  /** Where the text of a string default is emitted unquoted the converter has no value
      for it: a message, a version and a value of it for which this happens. */
  lemma DefaultIsLost() returns (x: Value)
    ensures ParseMessages([FETCH]).Ok?
    ensures IsFirst(FETCH, RACK_ID, 11) && MeantDefault(FETCH, RACK_ID, 11) == Some(StrValue(""))
    ensures var out := ParseMessages([FETCH]).value;
            && HasType(out.tops.datas, out.subs.datas, FETCH.name, 10, x)
            && var y := From(out.tops.datas, out.subs.datas, FETCH.name, 10, x);
               y.Record? && "rackId" in y.fields && y.fields["rackId"] == Undefined
  {
    RackIdIsLost();
    FetchMade();
    x := Record(map[]);
    FetchTenIsEmpty(ParseMessages([FETCH]).value, x);
    LostInMade(ParseMessages([FETCH]).value, x);
  }

  lemma FetchMade()
    ensures ParseMessages([FETCH]).Ok? && Made(ParseMessages([FETCH]).value, FETCH)
  {
    FetchParses();
    FetchDeclared(map[]);
    MessageMade([FETCH], map[], 0);
  }
}
