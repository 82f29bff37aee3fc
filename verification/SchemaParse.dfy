/** Parsing versioned schemas into shared record types: `parse_field` and `parse`. */
module SchemaParse {
  import opened Wrappers
  import opened SchemaTypes
  import opened SchemaSharing
  import opened SchemaTrees

  /** `_init_fields` keeps tagged fields apart. */
  function Untagged(fs: seq<HsField>): seq<HsField> {
    if fs == [] then []
    else Untagged(fs[..|fs| - 1]) + if fs[|fs| - 1].isTagged then [] else [fs[|fs| - 1]]
  }

  /** The version suffix `parse_field` puts on a struct's name. */
  function RenamedVersion(st: Types, name: string, v: nat): nat {
    if (name, v) in st.renames then st.renames[(name, v)] else v
  }

  /** `parse_field`: the field as it appears in version v, with the struct types it
      needs appended to the table. */
  ghost function ParseField(st: Types, f: Field, v: nat, flexible: bool): Result<(Types, Option<HsField>), Failure>
    decreases f
  {
    var attr :- Attribute(f, v, flexible);
    if attr.None? then Ok((st, None))
    else
      match f.ty
      case StructArray(typeName, subs) =>
        var (st1, fs) :- ParseFields(st, subs, v, flexible);
        var st2 := if subs == [] then st1 else Append(st1, typeName, Untagged(fs), v, flexible);
        Ok((st2, Some(attr.value.(ref := Some(Ref(typeName, RenamedVersion(st2, typeName, v)))))))
      case _ => Ok((st, attr))
  }

  ghost function ParseFields(st: Types, fs: seq<Field>, v: nat, flexible: bool): Result<(Types, seq<HsField>), Failure>
    decreases fs
  {
    if fs == [] then Ok((st, []))
    else
      var n := |fs| - 1;
      var (st1, hs) :- ParseFields(st, fs[..n], v, flexible);
      var (st2, h) :- ParseField(st1, fs[n], v, flexible);
      Ok((st2, hs + if h.None? then [] else [h.value]))
  }

  // ------------------------------------------------ the unshared reading

  function UntaggedTree(fs: seq<TreeField>): seq<TreeField> {
    if fs == [] then []
    else UntaggedTree(fs[..|fs| - 1]) + if fs[|fs| - 1].attr.isTagged then [] else [fs[|fs| - 1]]
  }

  /** The field in version v with its struct type written out in full. */
  function TreeOfField(f: Field, v: nat, flexible: bool): Result<Option<TreeField>, Failure>
    decreases f
  {
    var attr :- Attribute(f, v, flexible);
    if attr.None? then Ok(None)
    else
      match f.ty
      case StructArray(_, subs) =>
        var fs :- TreeOfFields(subs, v, flexible);
        Ok(Some(TreeField(attr.value, Some(Tree(UntaggedTree(fs), flexible)))))
      case _ => Ok(Some(TreeField(attr.value, None)))
  }

  function TreeOfFields(fs: seq<Field>, v: nat, flexible: bool): Result<seq<TreeField>, Failure>
    decreases fs
  {
    if fs == [] then Ok([])
    else
      var n := |fs| - 1;
      var ts :- TreeOfFields(fs[..n], v, flexible);
      var t :- TreeOfField(fs[n], v, flexible);
      Ok(ts + if t.None? then [] else [t.value])
  }

  /** What each struct name is declared to be at each version. */
  type Decls = map<(string, nat), Tree>

  /** Array elements are what their type names say, every struct array lists its
      sub-fields, and a struct's name and version determine its type. */
  ghost predicate FieldDeclared(decls: Decls, f: Field, v: nat, flexible: bool)
    decreases f
  {
    match f.ty
    case StructArray(typeName, subs) =>
      var ts := TreeOfFields(subs, v, flexible);
      && !IsPlainElem(typeName) && subs != [] && FieldsDeclared(decls, subs, v, flexible)
      && (Attribute(f, v, flexible).Ok? && Attribute(f, v, flexible).value.Some? && ts.Ok? ==>
            (typeName, v) in decls && decls[(typeName, v)] == Tree(UntaggedTree(ts.value), flexible))
    case ScalarArray(elem) => IsPlainElem(elem)
    case Scalar(name) => name != "array"
  }

  ghost predicate FieldsDeclared(decls: Decls, fs: seq<Field>, v: nat, flexible: bool)
    decreases fs
  {
    forall i :: 0 <= i < |fs| ==> FieldDeclared(decls, fs[i], v, flexible)
  }

  /** Every entry of the table expands to its declared type. */
  ghost predicate Agrees(datas: seq<HsData>, decls: Decls) {
    forall n, v: nat :: Find(datas, n, v).Some? ==> (n, v) in decls && ExpandRef(datas, Ref(n, v)) == decls[(n, v)]
  }

  ghost predicate TableInv(st: Types, decls: Decls) {
    Inv(st) && RefsInv(st.datas) && Agrees(st.datas, decls) && LinksInv(st.datas, st.datas)
  }

  // ------------------------------------------------ appending a parsed struct

  /** A declaration of an existing name repeats its field list, because equal trees
      have equal field lists. */
  lemma DeclaredIsConsistent(st: Types, decls: Decls, name: string, fs: seq<HsField>, v: nat, flexible: bool)
    requires TableInv(st, decls) && FieldsBelow(st.datas, |st.datas|, fs)
    requires (name, v) in decls && decls[(name, v)] == Tree(ExpandFields(st.datas, fs), flexible)
    ensures Consistent(st.datas, name, fs, v, flexible)
  {
    if Find(st.datas, name, v).Some? {
      ExpandCanonical(st, name, v);
      var i, j := ResolvedAt(st, name, v);
      var gs := st.datas[j].body.fields;
      forall k | 0 <= k < |gs|
        ensures FieldBelow(st.datas, |st.datas|, gs[k])
      {
        FieldBelowPrefix(st.datas, st.datas, j, |st.datas|, gs[k]);
      }
      ExpandInjective(st.datas, |st.datas|, fs, gs);
    }
  }

  lemma AppendRefsInv(st: Types, decls: Decls, name: string, fs: seq<HsField>, v: nat, flexible: bool)
    requires TableInv(st, decls) && FieldsBelow(st.datas, |st.datas|, fs)
    requires Consistent(st.datas, name, fs, v, flexible)
    ensures RefsInv(Append(st, name, fs, v, flexible).datas)
  {
    AppendSound(st, name, fs, v, flexible);
    var all := Append(st, name, fs, v, flexible).datas;
    forall i | 0 <= i < |all| && all[i].body.Own?
      ensures FieldsBelow(all, i, all[i].body.fields)
    {
      var gs := all[i].body.fields;
      forall k | 0 <= k < |gs|
        ensures FieldBelow(all, i, gs[k])
      {
        if i < |st.datas| {
          assert FieldsBelow(st.datas, i, gs);
        }
        FieldBelowPrefix(st.datas, all, i, i, gs[k]);
      }
    }
  }

  lemma AppendExpands(st: Types, decls: Decls, name: string, fs: seq<HsField>, v: nat, flexible: bool)
    requires TableInv(st, decls) && FieldsBelow(st.datas, |st.datas|, fs)
    requires Consistent(st.datas, name, fs, v, flexible)
    ensures var st' := Append(st, name, fs, v, flexible);
            ExpandRef(st'.datas, Ref(name, v)) == Tree(ExpandFields(st.datas, fs), flexible)
  {
    AppendSound(st, name, fs, v, flexible);
    AppendRefsInv(st, decls, name, fs, v, flexible);
    var st' := Append(st, name, fs, v, flexible);
    ExpandCanonical(st', name, v);
    ExpandFieldsStable(st.datas, st'.datas, fs);
  }

  lemma ExpandFieldsStable(datas: seq<HsData>, all: seq<HsData>, fs: seq<HsField>)
    requires Unique(all) && datas <= all && FieldsBelow(datas, |datas|, fs)
    ensures ExpandFields(all, fs) == ExpandFields(datas, fs)
  {
    assert all[..|datas|] == datas;
    forall k | 0 <= k < |fs|
      ensures ExpandField(all, fs[k]) == ExpandField(datas, fs[k])
    {
      FieldBelowPrefix(datas, all, |datas|, |datas|, fs[k]);
      ExpandBelow(all, |datas|, fs[k]);
    }
  }

  /** Appending a declared struct keeps the table in agreement with the declarations. */
  lemma AppendDeclared(st: Types, decls: Decls, name: string, fs: seq<HsField>, v: nat, flexible: bool)
    requires TableInv(st, decls) && FieldsBelow(st.datas, |st.datas|, fs)
    requires (name, v) in decls && decls[(name, v)] == Tree(ExpandFields(st.datas, fs), flexible)
    requires AllLinked(st.datas, v, fs)
    ensures var st' := Append(st, name, fs, v, flexible);
            && TableInv(st', decls) && st.datas <= st'.datas && Find(st'.datas, name, v).Some?
            && ExpandRef(st'.datas, Ref(name, v)) == decls[(name, v)]
  {
    DeclaredIsConsistent(st, decls, name, fs, v, flexible);
    AppendSound(st, name, fs, v, flexible);
    AppendRefsInv(st, decls, name, fs, v, flexible);
    AppendExpands(st, decls, name, fs, v, flexible);
    var st' := Append(st, name, fs, v, flexible);
    AppendLinks(st, st.datas, name, fs, v, flexible);
    LinksInvLater(st'.datas, st.datas, st'.datas);
    forall n, w: nat | Find(st'.datas, n, w).Some?
      ensures (n, w) in decls && ExpandRef(st'.datas, Ref(n, w)) == decls[(n, w)]
    {
      if Find(st.datas, n, w).Some? {
        ExpandRefPrefix(st.datas, st'.datas, Ref(n, w));
      } else {
        OnlyNewEntry(st, name, fs, v, flexible, n, w);
      }
    }
  }

  lemma OnlyNewEntry(st: Types, name: string, fs: seq<HsField>, v: nat, flexible: bool, n: string, w: nat)
    requires Find(st.datas, n, w).None? && Find(Append(st, name, fs, v, flexible).datas, n, w).Some?
    ensures n == name && w == v
  {
    FindAppend(st.datas, HsData(name, NewBody(st.datas, name, fs, flexible), v, flexible), n, w);
  }

  // ------------------------------------------------ parsing is sound

  /** h is a well-formed field of the table, standing for t. */
  ghost predicate Stands(datas: seq<HsData>, h: HsField, t: TreeField) {
    FieldBelow(datas, |datas|, h) && ExpandField(datas, h) == t
  }

  lemma StandsLater(datas: seq<HsData>, all: seq<HsData>, h: HsField, t: TreeField)
    requires Unique(all) && datas <= all && Stands(datas, h, t)
    ensures Stands(all, h, t)
  {
    FieldBelowPrefix(datas, all, |datas|, |datas|, h);
    ExpandBelow(all, |datas|, h);
    assert all[..|datas|] == datas;
    FieldBelowPrefix(datas, all, |datas|, |all|, h);
  }

  ghost predicate StandFor(datas: seq<HsData>, hs: seq<HsField>, ts: seq<TreeField>) {
    |hs| == |ts| && forall i :: 0 <= i < |hs| ==> Stands(datas, hs[i], ts[i])
  }

  lemma {:induction false} UntaggedStandFor(datas: seq<HsData>, hs: seq<HsField>, ts: seq<TreeField>)
    requires StandFor(datas, hs, ts)
    ensures StandFor(datas, Untagged(hs), UntaggedTree(ts))
  {
    if hs != [] {
      var n := |hs| - 1;
      UntaggedStandFor(datas, hs[..n], ts[..n]);
      assert Stands(datas, hs[n], ts[n]);
    }
  }

  lemma StandForExpands(datas: seq<HsData>, hs: seq<HsField>, ts: seq<TreeField>)
    requires StandFor(datas, hs, ts)
    ensures FieldsBelow(datas, |datas|, hs) && ExpandFields(datas, hs) == ts
  {
    forall i | 0 <= i < |hs|
      ensures FieldBelow(datas, |datas|, hs[i]) && ExpandField(datas, hs[i]) == ts[i]
    {
      assert Stands(datas, hs[i], ts[i]);
    }
  }

  lemma {:induction false} UntaggedLinked(datas: seq<HsData>, v: nat, hs: seq<HsField>)
    requires AllLinked(datas, v, hs)
    ensures AllLinked(datas, v, Untagged(hs))
  {
    if hs != [] {
      UntaggedLinked(datas, v, hs[..|hs| - 1]);
      assert Linked(datas, v, hs[|hs| - 1]);
    }
  }

  /** The struct's reference, renamed to its canonical version, stands for its tree. */
  lemma StructStands(st: Types, decls: Decls, attr: HsField, name: string, v: nat)
    requires TableInv(st, decls) && Find(st.datas, name, v).Some?
    requires attr.arrOf == Some(name) && attr.ref == None
    ensures Stands(st.datas, attr.(ref := Some(Ref(name, RenamedVersion(st, name, v)))),
                   TreeField(attr, Some(decls[(name, v)])))
  {
    var i, j := ResolvedAt(st, name, v);
    ExpandCanonical(st, name, v);
    assert RenamedVersion(st, name, v) == Canonical(st.datas, name, v);
    assert OwnAt(st.datas, j, name, RenamedVersion(st, name, v));
    var h := attr.(ref := Some(Ref(name, RenamedVersion(st, name, v))));
    assert h.(ref := None) == attr;
  }

  /** A struct array without sub-fields declares nothing, so what its converters call
      exists if and only if the struct already has an entry for this version. */
  lemma BareReferenceResolvesIff(st: Types, f: Field, v: nat, flexible: bool)
    requires Inv(st) && f.ty.StructArray? && f.ty.subs == [] && !IsPlainElem(f.ty.typeName)
    requires Attribute(f, v, flexible).Ok? && Attribute(f, v, flexible).value.Some?
    ensures var r := ParseField(st, f, v, flexible);
            && r.Ok? && r.value.0 == st && r.value.1.Some?
            && (Linked(st.datas, v, r.value.1.value) <==> Find(st.datas, f.ty.typeName, v).Some?)
  {
    if Find(st.datas, f.ty.typeName, v).Some? {
      var i, j := ResolvedAt(st, f.ty.typeName, v);
    }
  }

  /** Parsing a field fails exactly when the unshared reading fails, and otherwise
      the shared type expands to the unshared one. */
  lemma {:induction false} ParseFieldSound(st: Types, decls: Decls, f: Field, v: nat, flexible: bool)
    requires TableInv(st, decls) && FieldDeclared(decls, f, v, flexible)
    ensures var r, t := ParseField(st, f, v, flexible), TreeOfField(f, v, flexible);
            && (r.Ok? <==> t.Ok?)
            && (r.Ok? ==>
                  && TableInv(r.value.0, decls) && st.datas <= r.value.0.datas
                  && (r.value.1.Some? <==> t.value.Some?)
                  && (t.value.Some? ==>
                        && Stands(r.value.0.datas, r.value.1.value, t.value.value)
                        && Linked(r.value.0.datas, v, r.value.1.value)))
    decreases f
  {
    var attr := Attribute(f, v, flexible);
    if attr.Ok? && attr.value.Some? && f.ty.StructArray? {
      var subs, name := f.ty.subs, f.ty.typeName;
      ParseFieldsSound(st, decls, subs, v, flexible);
      var r, ts := ParseFields(st, subs, v, flexible), TreeOfFields(subs, v, flexible);
      if r.Ok? {
        var (st1, hs) := r.value;
        UntaggedStandFor(st1.datas, hs, ts.value);
        StandForExpands(st1.datas, Untagged(hs), UntaggedTree(ts.value));
        UntaggedLinked(st1.datas, v, hs);
        AppendDeclared(st1, decls, name, Untagged(hs), v, flexible);
        StructStands(Append(st1, name, Untagged(hs), v, flexible), decls, attr.value.value, name, v);
      }
    }
  }

  lemma {:induction false} ParseFieldsSound(st: Types, decls: Decls, fs: seq<Field>, v: nat, flexible: bool)
    requires TableInv(st, decls) && FieldsDeclared(decls, fs, v, flexible)
    ensures var r, t := ParseFields(st, fs, v, flexible), TreeOfFields(fs, v, flexible);
            && (r.Ok? <==> t.Ok?)
            && (r.Ok? ==>
                  && TableInv(r.value.0, decls) && st.datas <= r.value.0.datas
                  && StandFor(r.value.0.datas, r.value.1, t.value)
                  && AllLinked(r.value.0.datas, v, r.value.1))
    decreases fs
  {
    if fs != [] {
      var n := |fs| - 1;
      ParseFieldsSound(st, decls, fs[..n], v, flexible);
      var r := ParseFields(st, fs[..n], v, flexible);
      if r.Ok? {
        var (st1, hs) := r.value;
        assert FieldDeclared(decls, fs[n], v, flexible);
        ParseFieldSound(st1, decls, fs[n], v, flexible);
        var r1 := ParseField(st1, fs[n], v, flexible);
        if r1.Ok? {
          var ts := TreeOfFields(fs[..n], v, flexible).value;
          forall i | 0 <= i < |hs|
            ensures Stands(r1.value.0.datas, hs[i], ts[i])
          {
            StandsLater(st1.datas, r1.value.0.datas, hs[i], ts[i]);
          }
          AllLinkedLater(st1.datas, r1.value.0.datas, v, hs);
        }
      }
    }
  }

  // ------------------------------------------------ the parser itself

  /** `parse_field`, mutating the table of struct types. */
  method ParseFieldInto(table: TypeTable, f: Field, v: nat, flexible: bool) returns (r: Result<Option<HsField>, Failure>)
    modifies table
    ensures var spec := ParseField(old(table.Abs()), f, v, flexible);
            && (r.Ok? <==> spec.Ok?)
            && (r.Ok? ==> r.value == spec.value.1 && table.Abs() == spec.value.0)
            && (r.Err? ==> r.error == spec.error)
    decreases f
  {
    var attr := Attribute(f, v, flexible);
    if attr.Err? {
      return Err(attr.error);
    }
    if attr.value.None? {
      return Ok(None);
    }
    match f.ty {
      case StructArray(typeName, subs) =>
        var fs := ParseFieldsInto(table, subs, v, flexible);
        if fs.Err? {
          return Err(fs.error);
        }
        if subs != [] {
          table.AppendHsDatas(typeName, Untagged(fs.value), v, flexible);
        }
        var version := if (typeName, v) in table.renames then table.renames[(typeName, v)] else v;
        return Ok(Some(attr.value.value.(ref := Some(Ref(typeName, version)))));
      case _ =>
        return Ok(attr.value);
    }
  }

  /** The fields of a record, in order; those absent in version v are dropped. */
  method ParseFieldsInto(table: TypeTable, fs: seq<Field>, v: nat, flexible: bool) returns (r: Result<seq<HsField>, Failure>)
    modifies table
    ensures var spec := ParseFields(old(table.Abs()), fs, v, flexible);
            && (r.Ok? <==> spec.Ok?)
            && (r.Ok? ==> r.value == spec.value.1 && table.Abs() == spec.value.0)
            && (r.Err? ==> r.error == spec.error)
    decreases fs
  {
    if fs == [] {
      return Ok([]);
    }
    var n := |fs| - 1;
    var front := ParseFieldsInto(table, fs[..n], v, flexible);
    if front.Err? {
      return front;
    }
    var last := ParseFieldInto(table, fs[n], v, flexible);
    if last.Err? {
      return Err(last.error);
    }
    r := Ok(front.value + if last.value.None? then [] else [last.value.value]);
  }

  // ------------------------------------------------ whole messages

  /** A message: its fields, the versions generated and the flexible ones. */
  datatype Message = Message(name: string, fields: seq<Field>, min: nat, max: nat, flex: Range)

  /** `SUB_DATA_TYPES` and `DATA_TYPES`. */
  datatype Output = Output(subs: Types, tops: Types)

  /** One version of a message: its fields, then the message type itself. */
  ghost function ParseVersion(out: Output, m: Message, v: nat): Result<Output, Failure> {
    var (subs, fs) :- ParseFields(out.subs, m.fields, v, InRange(v, m.flex));
    Ok(Output(subs, Append(out.tops, m.name, Untagged(fs), v, InRange(v, m.flex))))
  }

  /** The loop of `parse` over the versions from min on, below hi. */
  ghost function ParseVersions(out: Output, m: Message, hi: nat): Result<Output, Failure>
    requires m.min <= hi
    decreases hi
  {
    if hi == m.min then Ok(out)
    else
      match ParseVersions(out, m, hi - 1)
      case Ok(out1) => ParseVersion(out1, m, hi - 1)
      case Err(e) => Err(e)
  }

  /** A message without versions adds nothing. */
  ghost function ParseMessage(out: Output, m: Message): Result<Output, Failure> {
    if m.min > m.max then Ok(out) else ParseVersions(out, m, m.max + 1)
  }

  /** One version of a message, mutating the two tables. */
  method ParseVersionInto(subs: TypeTable, tops: TypeTable, m: Message, v: nat)
      returns (ok: bool, ghost spec: Result<Output, Failure>)
    requires subs != tops
    modifies subs, tops
    ensures spec == ParseVersion(old(Output(subs.Abs(), tops.Abs())), m, v)
    ensures ok <==> spec.Ok?
    ensures ok ==> Output(subs.Abs(), tops.Abs()) == spec.value
  {
    spec := ParseVersion(Output(subs.Abs(), tops.Abs()), m, v);
    var flexible := InRange(v, m.flex);
    var fs := ParseFieldsInto(subs, m.fields, v, flexible);
    if fs.Err? {
      ok := false;
      return;
    }
    tops.AppendHsDatas(m.name, Untagged(fs.value), v, flexible);
    ok := true;
  }

  /** The version loop of `parse`. */
  method ParseVersionsInto(subs: TypeTable, tops: TypeTable, m: Message) returns (ok: bool)
    requires subs != tops && m.min <= m.max
    modifies subs, tops
    ensures var spec := ParseVersions(old(Output(subs.Abs(), tops.Abs())), m, m.max + 1);
            && (ok <==> spec.Ok?)
            && (ok ==> Output(subs.Abs(), tops.Abs()) == spec.value)
  {
    ghost var out := Output(subs.Abs(), tops.Abs());
    ghost var now := out;
    for v := m.min to m.max + 1
      invariant now == Output(subs.Abs(), tops.Abs()) && ParseVersions(out, m, v) == Ok(now)
    {
      ghost var next;
      ok, next := ParseVersionInto(subs, tops, m, v);
      NextVersion(out, m, v, now, next);
      if !ok {
        return;
      }
      now := next.value;
    }
    ok := true;
  }

  /** `parse` for one message. */
  method ParseMessageInto(subs: TypeTable, tops: TypeTable, m: Message) returns (ok: bool)
    requires subs != tops
    modifies subs, tops
    ensures var spec := ParseMessage(old(Output(subs.Abs(), tops.Abs())), m);
            && (ok <==> spec.Ok?)
            && (ok ==> Output(subs.Abs(), tops.Abs()) == spec.value)
  {
    if m.min > m.max {
      ok := true;
    } else {
      ok := ParseVersionsInto(subs, tops, m);
    }
  }

  lemma NextVersion(out: Output, m: Message, v: nat, now: Output, next: Result<Output, Failure>)
    requires m.min <= v <= m.max && ParseVersions(out, m, v) == Ok(now) && next == ParseVersion(now, m, v)
    ensures ParseVersions(out, m, v + 1) == next
    ensures next.Err? ==> ParseVersions(out, m, m.max + 1).Err?
  {
    OneMoreVersion(out, m, v, now);
    if next.Err? {
      FailureStays(out, m, v + 1, m.max + 1);
    }
  }

  lemma OneMoreVersion(out: Output, m: Message, v: nat, now: Output)
    requires m.min <= v && ParseVersions(out, m, v) == Ok(now)
    ensures ParseVersions(out, m, v + 1) == ParseVersion(now, m, v)
  {
  }

  /** A version that fails to parse ends the whole run. */
  lemma {:induction false} FailureStays(out: Output, m: Message, v: nat, hi: nat)
    requires m.min <= v <= hi && ParseVersions(out, m, v).Err?
    ensures ParseVersions(out, m, hi).Err?
    decreases hi
  {
    if v < hi {
      FailureStays(out, m, v, hi - 1);
      var before := ParseVersions(out, m, hi - 1);
      assert ParseVersions(out, m, hi) == Err(before.error);
    }
  }

  ghost function ParseMessages(ms: seq<Message>): Result<Output, Failure> {
    if ms == [] then Ok(Output(EMPTY, EMPTY))
    else
      var n := |ms| - 1;
      var out :- ParseMessages(ms[..n]);
      ParseMessage(out, ms[n])
  }

  /** Version v of message m is in the output and, names expanded, is its unshared type. */
  ghost predicate Generated(out: Output, m: Message, v: nat) {
    var flexible := InRange(v, m.flex);
    var r, ts := Resolve(out.tops.datas, m.name, v), TreeOfFields(m.fields, v, flexible);
    && Find(out.tops.datas, m.name, v).Some? && r.Some? && r.value.1 == flexible
    && ts.Ok? && StandFor(out.subs.datas, r.value.0, UntaggedTree(ts.value))
  }

  ghost predicate OutputInv(out: Output, decls: Decls) {
    TableInv(out.subs, decls) && Inv(out.tops) && LinksInv(out.tops.datas, out.subs.datas)
  }

  ghost predicate MessageDeclared(decls: Decls, m: Message) {
    forall v: nat :: m.min <= v <= m.max ==> FieldsDeclared(decls, m.fields, v, InRange(v, m.flex))
  }

  lemma {:induction false} StandForLater(datas: seq<HsData>, all: seq<HsData>, hs: seq<HsField>, ts: seq<TreeField>)
    requires Unique(all) && datas <= all && StandFor(datas, hs, ts)
    ensures StandFor(all, hs, ts)
  {
    forall i | 0 <= i < |hs|
      ensures Stands(all, hs[i], ts[i])
    {
      StandsLater(datas, all, hs[i], ts[i]);
    }
  }

  /** Later output keeps what was generated. */
  ghost predicate Extends(a: Output, b: Output) {
    && a.subs.datas <= b.subs.datas
    && forall n, v: nat :: Find(a.tops.datas, n, v).Some? ==>
         Find(b.tops.datas, n, v).Some? && Resolve(b.tops.datas, n, v) == Resolve(a.tops.datas, n, v)
  }

  lemma GeneratedLater(a: Output, b: Output, m: Message, v: nat)
    requires Extends(a, b) && Unique(b.subs.datas) && Generated(a, m, v)
    ensures Generated(b, m, v)
  {
    var flexible := InRange(v, m.flex);
    StandForLater(a.subs.datas, b.subs.datas, Resolve(a.tops.datas, m.name, v).value.0,
                  UntaggedTree(TreeOfFields(m.fields, v, flexible).value));
  }

  /** One version of one message. */
  lemma VersionSound(out: Output, decls: Decls, m: Message, v: nat)
    requires OutputInv(out, decls) && FieldsDeclared(decls, m.fields, v, InRange(v, m.flex))
    requires Find(out.tops.datas, m.name, v).None?
    requires ParseVersion(out, m, v).Ok?
    ensures var out' := ParseVersion(out, m, v).value;
            && OutputInv(out', decls) && Extends(out, out') && Generated(out', m, v)
            && forall n, w: nat :: Find(out'.tops.datas, n, w).Some? && Find(out.tops.datas, n, w).None? ==>
                 n == m.name && w == v
  {
    var flexible := InRange(v, m.flex);
    ParseFieldsSound(out.subs, decls, m.fields, v, flexible);
    var (subs, fs) := ParseFields(out.subs, m.fields, v, flexible).value;
    UntaggedStandFor(subs.datas, fs, TreeOfFields(m.fields, v, flexible).value);
    AppendSound(out.tops, m.name, Untagged(fs), v, flexible);
    UntaggedLinked(subs.datas, v, fs);
    LinksInvLater(out.tops.datas, out.subs.datas, subs.datas);
    AppendLinks(out.tops, subs.datas, m.name, Untagged(fs), v, flexible);
    forall n, w: nat | Find(Append(out.tops, m.name, Untagged(fs), v, flexible).datas, n, w).Some? &&
                       Find(out.tops.datas, n, w).None?
      ensures n == m.name && w == v
    {
      OnlyNewEntry(out.tops, m.name, Untagged(fs), v, flexible, n, w);
    }
  }

  lemma ExtendsTrans(a: Output, b: Output, c: Output)
    requires Extends(a, b) && Extends(b, c)
    ensures Extends(a, c)
  {
  }

  /** Only versions of m from its first on and below hi are new in b. */
  ghost predicate AddedOnly(a: Output, b: Output, m: Message, hi: nat) {
    forall n, w: nat :: Find(b.tops.datas, n, w).Some? && Find(a.tops.datas, n, w).None? ==>
      n == m.name && m.min <= w < hi
  }

  ghost predicate Progress(a: Output, b: Output, m: Message, hi: nat) {
    Extends(a, b) && AddedOnly(a, b, m, hi) && forall v: nat :: m.min <= v < hi ==> Generated(b, m, v)
  }

  lemma ProgressStep(a: Output, b: Output, c: Output, m: Message, v: nat)
    requires Progress(a, b, m, v) && Extends(b, c) && Generated(c, m, v) && Unique(c.subs.datas) && m.min <= v
    requires forall n, w: nat :: Find(c.tops.datas, n, w).Some? && Find(b.tops.datas, n, w).None? ==> n == m.name && w == v
    ensures Progress(a, c, m, v + 1)
  {
    ExtendsTrans(a, b, c);
    forall w: nat | m.min <= w < v
      ensures Generated(c, m, w)
    {
      GeneratedLater(b, c, m, w);
    }
  }

  lemma {:induction false} VersionsSound(out: Output, decls: Decls, m: Message, hi: nat)
    requires OutputInv(out, decls) && MessageDeclared(decls, m) && m.min <= hi <= m.max + 1
    requires forall v: nat :: Find(out.tops.datas, m.name, v).None?
    requires ParseVersions(out, m, hi).Ok?
    ensures OutputInv(ParseVersions(out, m, hi).value, decls)
    ensures Progress(out, ParseVersions(out, m, hi).value, m, hi)
    decreases hi
  {
    if hi > m.min {
      var v := hi - 1;
      VersionsSound(out, decls, m, v);
      var out1 := ParseVersions(out, m, v).value;
      assert Find(out1.tops.datas, m.name, v).None?;
      assert FieldsDeclared(decls, m.fields, v, InRange(v, m.flex));
      VersionSound(out1, decls, m, v);
      ProgressStep(out, out1, ParseVersion(out1, m, v).value, m, v);
    }
  }

  /** Every version of every message is generated, and nothing else is. */
  ghost predicate AllGenerated(out: Output, ms: seq<Message>) {
    && (forall i, v: nat :: 0 <= i < |ms| && ms[i].min <= v <= ms[i].max ==> Generated(out, ms[i], v))
    && (forall n, v: nat :: Find(out.tops.datas, n, v).Some? <==> Asked(ms, n, v))
  }

  /** v is a version of the message named n. */
  ghost predicate Asked(ms: seq<Message>, n: string, v: nat) {
    exists i :: 0 <= i < |ms| && ms[i].name == n && ms[i].min <= v <= ms[i].max
  }

  lemma AskedAppend(ms: seq<Message>, m: Message, n: string, v: nat)
    ensures Asked(ms + [m], n, v) <==> Asked(ms, n, v) || (m.name == n && m.min <= v <= m.max)
  {
    var all := ms + [m];
    if Asked(ms, n, v) {
      var i :| 0 <= i < |ms| && ms[i].name == n && ms[i].min <= v <= ms[i].max;
      assert all[i] == ms[i];
    }
    assert all[|ms|] == m;
  }

  ghost predicate Named(ms: seq<Message>, n: string) {
    exists i :: 0 <= i < |ms| && ms[i].name == n
  }

  lemma NotYetGenerated(out: Output, ms: seq<Message>, m: Message)
    requires AllGenerated(out, ms) && !Named(ms, m.name)
    ensures forall v: nat :: Find(out.tops.datas, m.name, v).None?
  {
  }

  lemma ProgressGenerates(a: Output, b: Output, ms: seq<Message>, m: Message)
    requires AllGenerated(a, ms) && Progress(a, b, m, m.max + 1) && Unique(b.subs.datas)
    ensures AllGenerated(b, ms + [m])
  {
    var all := ms + [m];
    forall i, v: nat | 0 <= i < |all| && all[i].min <= v <= all[i].max
      ensures Generated(b, all[i], v)
    {
      if i < |ms| {
        assert Generated(a, ms[i], v);
        GeneratedLater(a, b, ms[i], v);
      } else {
        assert all[i] == m;
      }
    }
    forall n, v: nat
      ensures Find(b.tops.datas, n, v).Some? <==> Asked(all, n, v)
    {
      AskedAppend(ms, m, n, v);
      if m.name == n && m.min <= v <= m.max {
        assert Generated(b, m, v);
      }
    }
  }

  lemma MessageAdded(out: Output, decls: Decls, ms: seq<Message>, m: Message)
    requires OutputInv(out, decls) && AllGenerated(out, ms) && MessageDeclared(decls, m) && !Named(ms, m.name)
    requires m.min <= m.max && ParseVersions(out, m, m.max + 1).Ok?
    ensures var out' := ParseVersions(out, m, m.max + 1).value;
            OutputInv(out', decls) && AllGenerated(out', ms + [m])
  {
    NotYetGenerated(out, ms, m);
    VersionsSound(out, decls, m, m.max + 1);
    ProgressGenerates(out, ParseVersions(out, m, m.max + 1).value, ms, m);
  }

  ghost predicate DistinctNames(ms: seq<Message>) {
    forall i, j :: 0 <= i < j < |ms| ==> ms[i].name != ms[j].name
  }

  ghost predicate AllDeclared(decls: Decls, ms: seq<Message>) {
    forall i :: 0 <= i < |ms| ==> MessageDeclared(decls, ms[i])
  }

  lemma NothingYet(decls: Decls)
    ensures OutputInv(Output(EMPTY, EMPTY), decls) && AllGenerated(Output(EMPTY, EMPTY), [])
  {
  }

  lemma FrontOfMessages(decls: Decls, ms: seq<Message>)
    requires ms != [] && DistinctNames(ms) && AllDeclared(decls, ms)
    ensures var front, m := ms[..|ms| - 1], ms[|ms| - 1];
            && DistinctNames(front) && AllDeclared(decls, front) && MessageDeclared(decls, m)
            && !Named(front, m.name) && ms == front + [m]
  {
  }

  /** The generator as a whole: for every list of messages with distinct names, each
      generated version of each message stands for its unshared type, and both
      tables are well-formed, so no name and version is emitted twice. */
  lemma {:induction false} GeneratorSound(ms: seq<Message>, decls: Decls)
    requires DistinctNames(ms) && AllDeclared(decls, ms) && ParseMessages(ms).Ok?
    ensures OutputInv(ParseMessages(ms).value, decls) && AllGenerated(ParseMessages(ms).value, ms)
  {
    if ms == [] {
      NothingYet(decls);
    } else {
      FrontOfMessages(decls, ms);
      var front, m := ms[..|ms| - 1], ms[|ms| - 1];
      GeneratorSound(front, decls);
      var out := ParseMessages(front).value;
      if m.min <= m.max {
        MessageAdded(out, decls, front, m);
      } else {
        NothingAdded(out, front, m);
      }
    }
  }

  lemma NothingAdded(out: Output, ms: seq<Message>, m: Message)
    requires AllGenerated(out, ms) && m.min > m.max
    ensures AllGenerated(out, ms + [m])
  {
    forall n, v: nat
      ensures Find(out.tops.datas, n, v).Some? <==> Asked(ms + [m], n, v)
    {
      AskedAppend(ms, m, n, v);
    }
    forall i, v: nat | 0 <= i < |ms + [m]| && (ms + [m])[i].min <= v <= (ms + [m])[i].max
      ensures Generated(out, (ms + [m])[i], v)
    {
      assert i < |ms| && Generated(out, ms[i], v);
    }
  }
}
