/** Sharing of equal record types between versions: `append_hs_datas`. */
module SchemaSharing {
  import opened Wrappers
  import opened SchemaTypes

  /** `SUB_DATA_TYPES` or `DATA_TYPES`, with `DATA_TYPE_RENAMES`. */
  datatype Types = Types(datas: seq<HsData>, renames: map<(string, nat), nat>)

  const EMPTY := Types([], map[])

  /** An earlier type of the same name with the same fields and flexibility. */
  predicate Same(d: HsData, name: string, fields: seq<HsField>, flexible: bool) {
    d.name == name && d.flexible == flexible && d.body == Own(fields)
  }

  /** The first position from i on whose type can be reused. */
  function FirstSame(datas: seq<HsData>, i: nat, name: string, fields: seq<HsField>, flexible: bool): (r: Option<nat>)
    requires i <= |datas|
    ensures r.Some? ==> i <= r.value < |datas| && Same(datas[r.value], name, fields, flexible)
    ensures r.Some? ==> forall k :: i <= k < r.value ==> !Same(datas[k], name, fields, flexible)
    ensures r.None? ==> forall k :: i <= k < |datas| ==> !Same(datas[k], name, fields, flexible)
    decreases |datas| - i
  {
    if i == |datas| then None
    else if Same(datas[i], name, fields, flexible) then Some(i)
    else FirstSame(datas, i + 1, name, fields, flexible)
  }

  function NewBody(datas: seq<HsData>, name: string, fields: seq<HsField>, flexible: bool): Body {
    match FirstSame(datas, 0, name, fields, flexible)
    case None => Own(fields)
    case Some(i) => Alias(datas[i].version)
  }

  /** What data.fields is when the loop compares it with entry k: the alias takes
      effect after the entry it was found at. */
  function BodyAt(datas: seq<HsData>, name: string, fields: seq<HsField>, flexible: bool, k: nat): Body {
    match FirstSame(datas, 0, name, fields, flexible)
    case None => Own(fields)
    case Some(i) => if k <= i then Own(fields) else Alias(datas[i].version)
  }

  /** `totally_same_found`. */
  ghost predicate TotallySame(datas: seq<HsData>, name: string, fields: seq<HsField>, v: nat, flexible: bool) {
    exists k :: 0 <= k < |datas| && SameVersionAt(datas, name, fields, v, flexible, k)
  }

  ghost predicate SameVersionAt(datas: seq<HsData>, name: string, fields: seq<HsField>, v: nat, flexible: bool, k: nat)
    requires k < |datas|
  {
    datas[k].name == name && datas[k].version == v && datas[k].body == BodyAt(datas, name, fields, flexible, k)
  }

  /** `append_hs_datas`. */
  ghost function Append(st: Types, name: string, fields: seq<HsField>, v: nat, flexible: bool): Types {
    var body := NewBody(st.datas, name, fields, flexible);
    Types(
      if TotallySame(st.datas, name, fields, v, flexible) then st.datas
      else st.datas + [HsData(name, body, v, flexible)],
      if body.Alias? then st.renames[(name, v) := body.version] else st.renames)
  }

  /** The loop of `append_hs_datas` over the mutable list and rename table. */
  class TypeTable {
    var datas: seq<HsData>
    var renames: map<(string, nat), nat>

    ghost function Abs(): Types
      reads this
    {
      Types(datas, renames)
    }

    constructor ()
      ensures Abs() == EMPTY
    {
      datas, renames := [], map[];
    }

    method AppendHsDatas(name: string, fields: seq<HsField>, v: nat, flexible: bool)
      modifies this
      ensures Abs() == Append(old(Abs()), name, fields, v, flexible)
    {
      var sameFound, totallySameFound := false, false;
      var body := Own(fields);
      ghost var first := FirstSame(datas, 0, name, fields, flexible);
      for k := 0 to |datas|
        invariant datas == old(datas)
        invariant sameFound <==> first.Some? && first.value < k
        invariant body == if sameFound then Alias(datas[first.value].version) else Own(fields)
        invariant totallySameFound <==> exists j :: 0 <= j < k && SameVersionAt(datas, name, fields, v, flexible, j)
        invariant renames == if sameFound then old(renames)[(name, v) := datas[first.value].version] else old(renames)
      {
        var d := datas[k];
        assert SameVersionAt(datas, name, fields, v, flexible, k) <==>
          d.name == name && d.version == v && d.body == body;
        if d.name == name {
          if d.version == v && d.body == body {
            totallySameFound := true;
          }
          if !sameFound && d.flexible == flexible && d.body == body {
            renames := renames[(name, v) := d.version];
            body := Alias(d.version);
            sameFound := true;
          }
        }
      }
      if !totallySameFound {
        datas := datas + [HsData(name, body, v, flexible)];
      }
    }
  }

  // ------------------------------------------------ what a name stands for

  /** The position of the entry for a name and version. */
  function Find(datas: seq<HsData>, name: string, v: nat): (r: Option<nat>)
    ensures r.Some? ==> r.value < |datas| && datas[r.value].name == name && datas[r.value].version == v
    ensures r.None? ==> forall i :: 0 <= i < |datas| ==> !(datas[i].name == name && datas[i].version == v)
  {
    if datas == [] then None
    else
      var n := |datas| - 1;
      var r := Find(datas[..n], name, v);
      if r.Some? then r
      else if datas[n].name == name && datas[n].version == v then Some(n)
      else None
  }

  /** No name and version is emitted twice. */
  ghost predicate Unique(datas: seq<HsData>) {
    forall i, j :: 0 <= i < j < |datas| ==> !(datas[i].name == datas[j].name && datas[i].version == datas[j].version)
  }

  /** Entry i is the own type named name at version m. */
  predicate OwnAt(datas: seq<HsData>, i: nat, name: string, m: nat) {
    i < |datas| && datas[i].name == name && datas[i].version == m && datas[i].body.Own?
  }

  /** Every alias resolves in one hop to an earlier own type of the same name and
      flexibility. */
  ghost predicate AliasesResolve(datas: seq<HsData>) {
    forall i :: 0 <= i < |datas| && datas[i].body.Alias? ==>
      exists j :: 0 <= j < i && OwnAt(datas, j, datas[i].name, datas[i].body.version) &&
                  datas[j].flexible == datas[i].flexible
  }

  /** Own types of one name differ. */
  ghost predicate OwnsDiffer(datas: seq<HsData>) {
    forall i, j :: 0 <= i < j < |datas| && datas[i].name == datas[j].name && datas[i].body.Own? && datas[j].body.Own? ==>
      datas[i].body != datas[j].body || datas[i].flexible != datas[j].flexible
  }

  /** The version whose own type serves the given one. */
  function Canonical(datas: seq<HsData>, name: string, v: nat): nat {
    match Find(datas, name, v)
    case None => v
    case Some(i) => if datas[i].body.Alias? then datas[i].body.version else v
  }

  /** The rename table agrees with the entries. */
  ghost predicate RenamesAgree(st: Types) {
    forall n, v ::
      (if (n, v) in st.renames then st.renames[(n, v)] else v) == Canonical(st.datas, n, v)
  }

  ghost predicate Inv(st: Types) {
    Unique(st.datas) && AliasesResolve(st.datas) && OwnsDiffer(st.datas) && RenamesAgree(st)
  }

  /** The fields and flexibility a name and version stand for. */
  function Resolve(datas: seq<HsData>, name: string, v: nat): Option<(seq<HsField>, bool)> {
    match Find(datas, name, v)
    case None => None
    case Some(i) =>
      match datas[i].body
      case Own(fields) => Some((fields, datas[i].flexible))
      case Alias(m) =>
        match Find(datas, name, m)
        case Some(j) => if datas[j].body.Own? then Some((datas[j].body.fields, datas[j].flexible)) else None
        case None => None
  }

  lemma FindAppend(datas: seq<HsData>, d: HsData, n: string, v: nat)
    ensures Find(datas + [d], n, v) ==
            if Find(datas, n, v).Some? then Find(datas, n, v)
            else if d.name == n && d.version == v then Some(|datas|)
            else None
  {
    assert (datas + [d])[..|datas|] == datas;
  }

  lemma FindEntry(datas: seq<HsData>, i: nat)
    requires Unique(datas) && i < |datas|
    ensures Find(datas, datas[i].name, datas[i].version) == Some(i)
  {
  }

  /** In a well-formed table every entry resolves, to an entry of its own name. */
  lemma ResolvedAt(st: Types, name: string, v: nat) returns (i: nat, j: nat)
    requires Inv(st) && Find(st.datas, name, v).Some?
    ensures Find(st.datas, name, v) == Some(i) && j <= i < |st.datas|
    ensures OwnAt(st.datas, j, name, Canonical(st.datas, name, v))
    ensures Resolve(st.datas, name, v) == Some((st.datas[j].body.fields, st.datas[j].flexible))
    ensures i == j || st.datas[i].body == Alias(st.datas[j].version)
  {
    i := Find(st.datas, name, v).value;
    if st.datas[i].body.Own? {
      j := i;
    } else {
      j :| 0 <= j < i && OwnAt(st.datas, j, name, st.datas[i].body.version) &&
           st.datas[j].flexible == st.datas[i].flexible;
      FindEntry(st.datas, j);
    }
  }

  /** The declaration is new, or repeats what the name and version already stand for. */
  ghost predicate Consistent(datas: seq<HsData>, name: string, fields: seq<HsField>, v: nat, flexible: bool) {
    Find(datas, name, v).Some? ==> Resolve(datas, name, v) == Some((fields, flexible))
  }

  /** A repeated declaration changes nothing but a rename that was already in force. */
  lemma AppendRepeated(st: Types, name: string, fields: seq<HsField>, v: nat, flexible: bool)
    requires Inv(st) && Find(st.datas, name, v).Some? && Resolve(st.datas, name, v) == Some((fields, flexible))
    ensures Append(st, name, fields, v, flexible).datas == st.datas
    ensures Inv(Append(st, name, fields, v, flexible))
  {
    var i, j := ResolvedAt(st, name, v);
    var f := FirstSame(st.datas, 0, name, fields, flexible);
    assert Same(st.datas[j], name, fields, flexible);
    assert f == Some(j);
    assert SameVersionAt(st.datas, name, fields, v, flexible, i);
    var st' := Append(st, name, fields, v, flexible);
    assert st'.renames == st.renames[(name, v) := Canonical(st.datas, name, v)];
  }

  /** A new declaration is added at the end. */
  lemma AppendNew(st: Types, name: string, fields: seq<HsField>, v: nat, flexible: bool)
    requires Inv(st) && Find(st.datas, name, v).None?
    ensures var st' := Append(st, name, fields, v, flexible);
            && st'.datas == st.datas + [HsData(name, NewBody(st.datas, name, fields, flexible), v, flexible)]
            && Inv(st') && Resolve(st'.datas, name, v) == Some((fields, flexible))
  {
    var d := HsData(name, NewBody(st.datas, name, fields, flexible), v, flexible);
    assert !TotallySame(st.datas, name, fields, v, flexible);
    var st' := Append(st, name, fields, v, flexible);
    NewTableShape(st.datas, d, fields);
    NewRenames(st, d, fields);
    NewResolves(st.datas, d, fields);
    assert st'.datas == st.datas + [d];
  }

  lemma NewResolves(datas: seq<HsData>, d: HsData, fields: seq<HsField>)
    requires Unique(datas) && Find(datas, d.name, d.version).None?
    requires d.body == NewBody(datas, d.name, fields, d.flexible)
    ensures Resolve(datas + [d], d.name, d.version) == Some((fields, d.flexible))
  {
    FindAppend(datas, d, d.name, d.version);
    if d.body.Alias? {
      var j := FirstSame(datas, 0, d.name, fields, d.flexible).value;
      FindEntry(datas, j);
      FindAppend(datas, d, d.name, datas[j].version);
    }
  }

  lemma NewRenames(st: Types, d: HsData, fields: seq<HsField>)
    requires RenamesAgree(st) && Find(st.datas, d.name, d.version).None?
    requires d.body == NewBody(st.datas, d.name, fields, d.flexible)
    ensures RenamesAgree(Types(st.datas + [d],
              if d.body.Alias? then st.renames[(d.name, d.version) := d.body.version] else st.renames))
  {
    forall n: string, w: nat
      ensures Canonical(st.datas + [d], n, w) ==
              if n == d.name && w == d.version then (if d.body.Alias? then d.body.version else w)
              else Canonical(st.datas, n, w)
    {
      FindAppend(st.datas, d, n, w);
    }
  }

  lemma NewTableShape(datas: seq<HsData>, d: HsData, fields: seq<HsField>)
    requires Unique(datas) && AliasesResolve(datas) && OwnsDiffer(datas)
    requires Find(datas, d.name, d.version).None?
    requires d.body == NewBody(datas, d.name, fields, d.flexible)
    ensures Unique(datas + [d]) && AliasesResolve(datas + [d]) && OwnsDiffer(datas + [d])
  {
    var all := datas + [d];
    forall i | 0 <= i < |all| && all[i].body.Alias?
      ensures exists j :: 0 <= j < i && OwnAt(all, j, all[i].name, all[i].body.version) &&
                          all[j].flexible == all[i].flexible
    {
      var j: nat;
      if i < |datas| {
        j :| 0 <= j < i && OwnAt(datas, j, datas[i].name, datas[i].body.version) &&
             datas[j].flexible == datas[i].flexible;
      } else {
        j := FirstSame(datas, 0, d.name, fields, d.flexible).value;
      }
      assert OwnAt(all, j, all[i].name, all[i].body.version);
    }
  }

  /** Sharing is sound: appending keeps the table well-formed, keeps what every
      earlier name stands for, and the new name stands for exactly what was
      declared, whether or not its type was shared. */
  lemma AppendSound(st: Types, name: string, fields: seq<HsField>, v: nat, flexible: bool)
    requires Inv(st) && Consistent(st.datas, name, fields, v, flexible)
    ensures var st' := Append(st, name, fields, v, flexible);
            && Inv(st') && st.datas <= st'.datas
            && Resolve(st'.datas, name, v) == Some((fields, flexible))
            && Find(st'.datas, name, v).Some?
            && forall n, w :: Find(st.datas, n, w).Some? ==>
                 Find(st'.datas, n, w) == Find(st.datas, n, w) && Resolve(st'.datas, n, w) == Resolve(st.datas, n, w)
  {
    if Find(st.datas, name, v).Some? {
      AppendRepeated(st, name, fields, v, flexible);
    } else {
      AppendNew(st, name, fields, v, flexible);
      var d := HsData(name, NewBody(st.datas, name, fields, flexible), v, flexible);
      forall n, w | Find(st.datas, n, w).Some?
        ensures Find(st.datas + [d], n, w) == Find(st.datas, n, w)
        ensures Resolve(st.datas + [d], n, w) == Resolve(st.datas, n, w)
      {
        var i, j := ResolvedAt(st, n, w);
        FindEntry(st.datas, j);
        FindAppend(st.datas, d, n, w);
        FindAppend(st.datas, d, n, st.datas[j].version);
      }
    }
  }

  /** The name and version were declared before with the same fields but another
      flexibility, and nothing before that can be reused: the repeat is overlooked. */
  ghost predicate OnlyFlexibilityDiffers(datas: seq<HsData>, name: string, fields: seq<HsField>, v: nat, flexible: bool) {
    var i := Find(datas, name, v);
    && i.Some? && datas[i.value].body == Own(fields)
    && forall k :: 0 <= k < i.value ==> !Same(datas[k], name, fields, flexible)
  }

  /** A name and version declared again with another type is emitted twice. */
  lemma RedeclaredIsNotSame(st: Types, name: string, fields: seq<HsField>, v: nat, flexible: bool)
    requires Inv(st) && Find(st.datas, name, v).Some?
    requires Resolve(st.datas, name, v) != Some((fields, flexible))
    requires !OnlyFlexibilityDiffers(st.datas, name, fields, v, flexible)
    ensures !TotallySame(st.datas, name, fields, v, flexible)
  {
    var i, j := ResolvedAt(st, name, v);
    var f := FirstSame(st.datas, 0, name, fields, flexible);
    if f.Some? && f.value != j {
      assert OwnAt(st.datas, f.value, name, st.datas[f.value].version);
      assert st.datas[f.value].version != st.datas[j].version;
    }
    assert st.datas[i].body != BodyAt(st.datas, name, fields, flexible, i);
    forall k | 0 <= k < |st.datas|
      ensures !SameVersionAt(st.datas, name, fields, v, flexible, k)
    {
    }
  }

  /** No name and version is emitted twice exactly when none is redeclared with
      another type. */
  lemma AppendUniqueIff(st: Types, name: string, fields: seq<HsField>, v: nat, flexible: bool)
    requires Inv(st)
    ensures Unique(Append(st, name, fields, v, flexible).datas) <==>
            || Consistent(st.datas, name, fields, v, flexible)
            || OnlyFlexibilityDiffers(st.datas, name, fields, v, flexible)
  {
    if Find(st.datas, name, v).None? {
      AppendNew(st, name, fields, v, flexible);
    } else if Resolve(st.datas, name, v) == Some((fields, flexible)) {
      AppendRepeated(st, name, fields, v, flexible);
    } else if OnlyFlexibilityDiffers(st.datas, name, fields, v, flexible) {
      assert SameVersionAt(st.datas, name, fields, v, flexible, Find(st.datas, name, v).value);
    } else {
      RedeclaredIsNotSame(st, name, fields, v, flexible);
      var i := Find(st.datas, name, v).value;
      var all := Append(st, name, fields, v, flexible).datas;
      assert all[i].name == all[|st.datas|].name && all[i].version == all[|st.datas|].version;
    }
  }
}
