/** The unshared type trees of a schema, and the trees that shared names expand to. */
module SchemaTrees {
  import opened Wrappers
  import opened SchemaTypes
  import opened SchemaSharing

  /** A record type written out in full: every field with its attributes and, for
      an array of structs, the element type itself instead of its name. */
  datatype Tree = Tree(fields: seq<TreeField>, flexible: bool)
  datatype TreeField = TreeField(attr: HsField, sub: Option<Tree>)

  /** What a field stands for once every name in it is looked up. */
  ghost function ExpandField(datas: seq<HsData>, f: HsField): TreeField
    decreases |datas|, 1
  {
    TreeField(f.(ref := None), if f.ref.None? then None else Some(ExpandRef(datas, f.ref.value)))
  }

  ghost function ExpandFields(datas: seq<HsData>, fs: seq<HsField>): (r: seq<TreeField>)
    ensures |r| == |fs|
    decreases |datas|, 2
  {
    seq(|fs|, j requires 0 <= j < |fs| => ExpandField(datas, fs[j]))
  }

  /** Names refer to entries before the one they occur in. */
  ghost function ExpandRef(datas: seq<HsData>, r: Ref): Tree
    decreases |datas|, 0
  {
    match Find(datas, r.name, r.version)
    case None => Tree([], false)
    case Some(i) =>
      match datas[i].body
      case Own(fs) => Tree(ExpandFields(datas[..i], fs), datas[i].flexible)
      case Alias(m) => ExpandRef(datas[..i], Ref(r.name, m))
  }

  lemma {:induction false} FindPrefix(datas: seq<HsData>, more: seq<HsData>, n: string, v: nat)
    requires Find(datas, n, v).Some?
    ensures Find(datas + more, n, v) == Find(datas, n, v)
  {
    if more == [] {
      assert datas + more == datas;
    } else {
      var k := |more| - 1;
      assert (datas + more)[..|datas| + k] == datas + more[..k];
      FindPrefix(datas, more[..k], n, v);
    }
  }

  /** Later entries change no expansion. */
  lemma ExpandRefPrefix(datas: seq<HsData>, all: seq<HsData>, r: Ref)
    requires datas <= all && Find(datas, r.name, r.version).Some?
    ensures ExpandRef(all, r) == ExpandRef(datas, r)
  {
    assert all == datas + all[|datas|..];
    FindPrefix(datas, all[|datas|..], r.name, r.version);
    var i := Find(datas, r.name, r.version).value;
    assert all[..i] == datas[..i];
  }

  /** The field's reference, if it has one, is to an own type before position n. */
  ghost predicate FieldBelow(datas: seq<HsData>, n: nat, f: HsField) {
    f.ref.Some? ==>
      && f.arrOf == Some(f.ref.value.name)
      && exists i: nat :: i < n && OwnAt(datas, i, f.ref.value.name, f.ref.value.version)
  }

  ghost predicate FieldsBelow(datas: seq<HsData>, n: nat, fs: seq<HsField>) {
    forall j :: 0 <= j < |fs| ==> FieldBelow(datas, n, fs[j])
  }

  ghost predicate RefsInv(datas: seq<HsData>) {
    forall i :: 0 <= i < |datas| && datas[i].body.Own? ==> FieldsBelow(datas, i, datas[i].body.fields)
  }

  lemma FieldBelowPrefix(datas: seq<HsData>, all: seq<HsData>, n: nat, m: nat, f: HsField)
    requires datas <= all && FieldBelow(datas, n, f) && n <= m && n <= |datas|
    ensures FieldBelow(all, m, f)
  {
    if f.ref.Some? {
      var i: nat :| i < n && OwnAt(datas, i, f.ref.value.name, f.ref.value.version);
      assert OwnAt(all, i, f.ref.value.name, f.ref.value.version);
    }
  }

  lemma FindOwnBelow(datas: seq<HsData>, n: nat, i: nat, r: Ref)
    requires Unique(datas) && i < n <= |datas| && OwnAt(datas, i, r.name, r.version)
    ensures Find(datas[..n], r.name, r.version) == Some(i)
  {
    assert datas[..n][i] == datas[i];
    FindEntry(datas[..n], i);
  }

  /** A field whose references lie below n expands the same from the first n entries. */
  lemma ExpandBelow(datas: seq<HsData>, n: nat, f: HsField)
    requires Unique(datas) && n <= |datas| && FieldBelow(datas, n, f)
    ensures ExpandField(datas[..n], f) == ExpandField(datas, f)
  {
    if f.ref.Some? {
      var i: nat :| i < n && OwnAt(datas, i, f.ref.value.name, f.ref.value.version);
      FindOwnBelow(datas, n, i, f.ref.value);
      ExpandRefPrefix(datas[..n], datas, f.ref.value);
    }
  }

  lemma ExpandFieldsBelow(datas: seq<HsData>, n: nat, fs: seq<HsField>)
    requires Unique(datas) && n <= |datas| && FieldsBelow(datas, n, fs)
    ensures ExpandFields(datas[..n], fs) == ExpandFields(datas, fs)
  {
    forall j | 0 <= j < |fs|
      ensures ExpandField(datas[..n], fs[j]) == ExpandField(datas, fs[j])
    {
      ExpandBelow(datas, n, fs[j]);
    }
  }

  /** The own type at position i expands to its fields' expansions. */
  lemma ExpandOwn(datas: seq<HsData>, i: nat, r: Ref)
    requires Unique(datas) && RefsInv(datas) && OwnAt(datas, i, r.name, r.version)
    ensures ExpandRef(datas, r) == Tree(ExpandFields(datas, datas[i].body.fields), datas[i].flexible)
  {
    FindEntry(datas, i);
    ExpandFieldsBelow(datas, i, datas[i].body.fields);
  }

  // ------------------------------------------------ sharing is maximal

  /** Field lists with equal expansions are equal: references are canonical. */
  lemma {:induction false} ExpandInjective(datas: seq<HsData>, n: nat, fs: seq<HsField>, gs: seq<HsField>)
    requires Unique(datas) && OwnsDiffer(datas) && RefsInv(datas) && n <= |datas|
    requires FieldsBelow(datas, n, fs) && FieldsBelow(datas, n, gs)
    requires ExpandFields(datas, fs) == ExpandFields(datas, gs)
    ensures fs == gs
    decreases n, 1
  {
    assert |fs| == |gs|;
    forall j | 0 <= j < |fs|
      ensures fs[j] == gs[j]
    {
      assert ExpandField(datas, fs[j]) == ExpandFields(datas, fs)[j] == ExpandField(datas, gs[j]);
      FieldInjective(datas, n, fs[j], gs[j]);
    }
  }

  lemma {:induction false} FieldInjective(datas: seq<HsData>, n: nat, f: HsField, g: HsField)
    requires Unique(datas) && OwnsDiffer(datas) && RefsInv(datas) && n <= |datas|
    requires FieldBelow(datas, n, f) && FieldBelow(datas, n, g)
    requires ExpandField(datas, f) == ExpandField(datas, g)
    ensures f == g
    decreases n, 0
  {
    if f.ref.Some? {
      var a, b := f.ref.value, g.ref.value;
      var i: nat :| i < n && OwnAt(datas, i, a.name, a.version);
      var j: nat :| j < n && OwnAt(datas, j, b.name, b.version);
      assert f.(ref := None).arrOf == g.(ref := None).arrOf;
      OwnInjective(datas, n, i, j, a, b);
    }
    assert f == f.(ref := None).(ref := f.ref) == g;
  }

  lemma {:induction false} OwnInjective(datas: seq<HsData>, n: nat, i: nat, j: nat, a: Ref, b: Ref)
    requires Unique(datas) && OwnsDiffer(datas) && RefsInv(datas) && i < n && j < n <= |datas|
    requires OwnAt(datas, i, a.name, a.version) && OwnAt(datas, j, b.name, b.version) && a.name == b.name
    requires ExpandRef(datas, a) == ExpandRef(datas, b)
    ensures a == b
    decreases if i < j then j else i, 2
  {
    ExpandOwn(datas, i, a);
    ExpandOwn(datas, j, b);
    var m := if i < j then j else i;
    var fs, gs := datas[i].body.fields, datas[j].body.fields;
    forall k | 0 <= k < |fs|
      ensures FieldBelow(datas, m, fs[k])
    {
      FieldBelowPrefix(datas, datas, i, m, fs[k]);
    }
    forall k | 0 <= k < |gs|
      ensures FieldBelow(datas, m, gs[k])
    {
      FieldBelowPrefix(datas, datas, j, m, gs[k]);
    }
    ExpandInjective(datas, m, fs, gs);
  }

  /** An entry and the own type it resolves to expand alike. */
  lemma ExpandCanonical(st: Types, name: string, v: nat)
    requires Inv(st) && RefsInv(st.datas) && Find(st.datas, name, v).Some?
    ensures Find(st.datas, name, Canonical(st.datas, name, v)).Some?
    ensures ExpandRef(st.datas, Ref(name, v)) == ExpandRef(st.datas, Ref(name, Canonical(st.datas, name, v)))
    ensures var r := Resolve(st.datas, name, v);
            r.Some? && ExpandRef(st.datas, Ref(name, v)) == Tree(ExpandFields(st.datas, r.value.0), r.value.1)
  {
    var i, j := ResolvedAt(st, name, v);
    var own := Ref(name, st.datas[j].version);
    ExpandOwn(st.datas, j, own);
    FindEntry(st.datas, j);
    if i != j {
      FindOwnBelow(st.datas, i, j, own);
      ExpandRefPrefix(st.datas[..i], st.datas, own);
    }
  }

  /** Two versions of a type share one definition exactly when their types, written
      out in full, are equal. */
  lemma SharingIsMaximal(st: Types, name: string, v: nat, w: nat)
    requires Inv(st) && RefsInv(st.datas)
    requires Find(st.datas, name, v).Some? && Find(st.datas, name, w).Some?
    ensures Canonical(st.datas, name, v) == Canonical(st.datas, name, w) <==>
            ExpandRef(st.datas, Ref(name, v)) == ExpandRef(st.datas, Ref(name, w))
  {
    ExpandCanonical(st, name, v);
    ExpandCanonical(st, name, w);
    var _, i := ResolvedAt(st, name, v);
    var _, j := ResolvedAt(st, name, w);
    if ExpandRef(st.datas, Ref(name, v)) == ExpandRef(st.datas, Ref(name, w)) {
      OwnInjective(st.datas, |st.datas|, i, j,
                   Ref(name, Canonical(st.datas, name, v)), Ref(name, Canonical(st.datas, name, w)));
    }
  }

  // ------------------------------------------------ references and versions

  /** In a type of version v, a field refers to a struct exactly when its elements
      need converting; that struct has an entry for v, and the reference is to the
      own type serving v. */
  ghost predicate Linked(datas: seq<HsData>, v: nat, f: HsField) {
    && (f.ref.Some? <==> f.kaType == "array" && f.arrOf.Some? && !IsPlainElem(f.arrOf.value))
    && (f.ref.Some? ==>
          && Find(datas, f.arrOf.value, v).Some?
          && f.ref.value == Ref(f.arrOf.value, Canonical(datas, f.arrOf.value, v)))
  }

  ghost predicate AllLinked(datas: seq<HsData>, v: nat, fs: seq<HsField>) {
    forall j :: 0 <= j < |fs| ==> Linked(datas, v, fs[j])
  }

  /** Every own type of the list is linked, its structs being in subs. */
  ghost predicate LinksInv(list: seq<HsData>, subs: seq<HsData>) {
    forall i :: 0 <= i < |list| && list[i].body.Own? ==> AllLinked(subs, list[i].version, list[i].body.fields)
  }

  lemma LinkedLater(datas: seq<HsData>, all: seq<HsData>, v: nat, f: HsField)
    requires datas <= all && Linked(datas, v, f)
    ensures Linked(all, v, f)
  {
    if f.ref.Some? {
      assert all == datas + all[|datas|..];
      FindPrefix(datas, all[|datas|..], f.arrOf.value, v);
    }
  }

  lemma AllLinkedLater(datas: seq<HsData>, all: seq<HsData>, v: nat, fs: seq<HsField>)
    requires datas <= all && AllLinked(datas, v, fs)
    ensures AllLinked(all, v, fs)
  {
    forall j | 0 <= j < |fs|
      ensures Linked(all, v, fs[j])
    {
      LinkedLater(datas, all, v, fs[j]);
    }
  }

  lemma LinksInvLater(list: seq<HsData>, subs: seq<HsData>, all: seq<HsData>)
    requires subs <= all && LinksInv(list, subs)
    ensures LinksInv(list, all)
  {
    forall i | 0 <= i < |list| && list[i].body.Own?
      ensures AllLinked(all, list[i].version, list[i].body.fields)
    {
      AllLinkedLater(subs, all, list[i].version, list[i].body.fields);
    }
  }

  /** Appending a linked type keeps a list linked. */
  lemma AppendLinks(st: Types, subs: seq<HsData>, name: string, fs: seq<HsField>, v: nat, flexible: bool)
    requires LinksInv(st.datas, subs) && AllLinked(subs, v, fs)
    ensures LinksInv(Append(st, name, fs, v, flexible).datas, subs)
  {
  }
}
