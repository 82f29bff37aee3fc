/** Equality indexes inside a cache entry: serving a query from an index gives
    the rows a scan of the entry gives. */
module Indexing {
  import opened Wrappers
  import opened Tables
  import opened NodeSelection

  /** Value to the ascending positions of the rows holding it. Null is no key. */
  type Index = map<string, seq<nat>>

  ghost function Positions(col: seq<Cell>, v: string): seq<nat> {
    if col == [] then []
    else
      var n := |col| - 1;
      Positions(col[..n], v) + if col[n] == Some(v) then [n] else []
  }

  ghost function IndexOf(col: seq<Cell>): (idx: Index)
    ensures forall v :: v in idx <==> Some(v) in col
    ensures forall v :: v in idx ==> idx[v] == Positions(col, v)
  {
    map c | c in col && c.Some? :: c.value := Positions(col, c.value)
  }

  lemma {:induction false} PositionsMember(col: seq<Cell>, v: string, p: nat)
    ensures p in Positions(col, v) <==> p < |col| && col[p] == Some(v)
  {
    if col != [] {
      var n := |col| - 1;
      PositionsMember(col[..n], v, p);
    }
  }

  /** The positions recorded for a value are exactly the rows holding it, in
      ascending order. */
  lemma {:induction false} PositionsExact(col: seq<Cell>, v: string)
    ensures forall i, j :: 0 <= i < j < |Positions(col, v)| ==> Positions(col, v)[i] < Positions(col, v)[j]
    ensures forall p: nat :: p in Positions(col, v) <==> p < |col| && col[p] == Some(v)
  {
    forall p: nat
      ensures p in Positions(col, v) <==> p < |col| && col[p] == Some(v)
    {
      PositionsMember(col, v, p);
    }
    if col != [] {
      var front := Positions(col[..|col| - 1], v);
      PositionsExact(col[..|col| - 1], v);
      forall i | 0 <= i < |front|
        ensures front[i] < |col| - 1
      {
        assert front[i] in front;
      }
    }
  }

  /** `buildIndexForConstraint`. */
  method BuildIndex(data: Table, name: string) returns (idx: Index)
    ensures idx == IndexOf(ColumnOf(data, name))
  {
    idx := map[];
    if name in data {
      var col := data[name];
      for i := 0 to |col|
        invariant IsIndex(col[..i], idx)
      {
        IndexStep(col[..i], col[i], idx);
        assert col[..i + 1] == col[..i] + [col[i]];
        if col[i].Some? {
          var v := col[i].value;
          idx := idx[v := (if v in idx then idx[v] else []) + [i]];
        }
      }
      assert col[..|col|] == col;
    }
    IsIndexOf(ColumnOf(data, name), idx);
  }

  ghost predicate IsIndex(col: seq<Cell>, idx: Index) {
    forall v :: (v in idx <==> Some(v) in col) && (v in idx ==> idx[v] == Positions(col, v))
  }

  lemma IsIndexOf(col: seq<Cell>, idx: Index)
    requires IsIndex(col, idx)
    ensures idx == IndexOf(col)
  {
  }

  lemma PositionsStep(col: seq<Cell>, c: Cell, v: string)
    ensures Positions(col + [c], v) == Positions(col, v) + if c == Some(v) then [|col|] else []
    ensures Some(v) in col + [c] <==> Some(v) in col || c == Some(v)
  {
    assert (col + [c])[..|col|] == col;
  }

  lemma IndexStep(col: seq<Cell>, c: Cell, idx: Index)
    requires IsIndex(col, idx)
    ensures c.None? ==> IsIndex(col + [c], idx)
    ensures c.Some? ==>
              IsIndex(col + [c], idx[c.value := (if c.value in idx then idx[c.value] else []) + [|col|]])
  {
    forall v: string
      ensures Positions(col + [c], v) == Positions(col, v) + if c == Some(v) then [|col|] else []
      ensures Some(v) in col + [c] <==> Some(v) in col || c == Some(v)
    {
      PositionsStep(col, c, v);
    }
    if c.Some? && c.value !in idx {
      AbsentValue(col, c.value);
    }
  }

  lemma {:induction false} AbsentValue(col: seq<Cell>, v: string)
    requires Some(v) !in col
    ensures Positions(col, v) == []
  {
    if col != [] {
      AbsentValue(col[..|col| - 1], v);
    }
  }

  function Gathered<T>(xs: seq<T>, ps: seq<nat>): (r: seq<T>)
    requires forall p :: p in ps ==> p < |xs|
    ensures |r| == |ps|
  {
    seq(|ps|, i requires 0 <= i < |ps| => assert ps[i] in ps; xs[ps[i]])
  }

  /** The rows at the given positions, column by column. */
  method Gather(data: Table, ps: seq<nat>) returns (r: Table)
    requires forall c, p :: c in data && p in ps ==> p < |data[c]|
    ensures r == map c | c in data :: Gathered(data[c], ps)
  {
    r := map[];
    var todo := data.Keys;
    while todo != {}
      invariant todo <= data.Keys && r.Keys == data.Keys - todo
      invariant forall c :: c in r ==> r[c] == Gathered(data[c], ps)
    {
      var name := Pick(todo);
      var cells: seq<Cell> := [];
      for i := 0 to |ps|
        invariant |cells| == i
        invariant forall k :: 0 <= k < i ==> ps[k] in ps && cells[k] == data[name][ps[k]]
      {
        assert ps[i] in ps;
        cells := cells + [data[name][ps[i]]];
      }
      assert cells == Gathered(data[name], ps);
      r := r[name := cells];
      todo := todo - {name};
    }
  }

  lemma GatheredRows(data: Table, n: nat, ps: seq<nat>, r: Table)
    requires Rect(data, n) && data != map[]
    requires forall p :: p in ps ==> p < n
    requires r.Keys == data.Keys
    requires forall c :: c in data ==> r[c] == Gathered(data[c], ps)
    ensures Rect(r, |ps|)
    ensures Rows(r) == Gathered(Rows(data), ps)
  {
    forall i | 0 <= i < |ps|
      ensures RowAt(r, i) == RowAt(data, ps[i])
      ensures 0 <= ps[i] < n
    {
      assert ps[i] in ps;
    }
    assert r.Keys != {};
    assert Rect(r, |ps|);
  }

  lemma {:induction false} GatheredConcat<T>(xs: seq<T>, ps: seq<nat>, qs: seq<nat>)
    requires forall p :: p in ps + qs ==> p < |xs|
    ensures forall p :: p in ps || p in qs ==> p in ps + qs
    ensures Gathered(xs, ps + qs) == Gathered(xs, ps) + Gathered(xs, qs)
  {
    assert forall p :: p in ps || p in qs ==> p in ps + qs;
  }

  /** Filtering the rows an equality index yields is filtering all rows, whenever
      that equality is one of the query's constraints. */
  lemma {:induction false} IndexPreserves(
      sql: Sql, columns: seq<string>, q: ConstraintMap, col: int, v: string, cells: seq<Cell>, rows: seq<Row>, k: nat)
    requires 0 <= col < |columns| && col in q && Constraint(Eq, Some(v)) in q[col]
    requires k <= |cells| == |rows|
    requires forall i :: 0 <= i < |rows| ==> CellOf(rows[i], columns[col]) == cells[i]
    ensures forall p :: p in Positions(cells[..k], v) ==> p < k
    ensures Filter(sql, columns, q, Gathered(rows, Positions(cells[..k], v))) == Filter(sql, columns, q, rows[..k])
  {
    PositionsExact(cells[..k], v);
    if k > 0 {
      IndexPreserves(sql, columns, q, col, v, cells, rows, k - 1);
      assert cells[..k][..k - 1] == cells[..k - 1];
      assert rows[..k] == rows[..k - 1] + [rows[k - 1]];
      FilterConcat(sql, columns, q, rows[..k - 1], [rows[k - 1]]);
      var ps := Positions(cells[..k - 1], v);
      if cells[k - 1] == Some(v) {
        HitKept(sql, columns, q, rows, ps, k - 1);
      } else {
        assert Positions(cells[..k], v) == ps;
        MissDropped(sql, columns, q, col, v, rows[k - 1]);
      }
    }
  }

  lemma HitKept(sql: Sql, columns: seq<string>, q: ConstraintMap, rows: seq<Row>, ps: seq<nat>, k: nat)
    requires k < |rows| && forall p :: p in ps ==> p < |rows|
    ensures Filter(sql, columns, q, Gathered(rows, ps + [k])) ==
            Filter(sql, columns, q, Gathered(rows, ps)) + Filter(sql, columns, q, [rows[k]])
  {
    GatheredConcat(rows, ps, [k]);
    assert Gathered(rows, [k]) == [rows[k]];
    FilterConcat(sql, columns, q, Gathered(rows, ps), [rows[k]]);
  }

  lemma MissDropped(sql: Sql, columns: seq<string>, q: ConstraintMap, col: int, v: string, row: Row)
    requires 0 <= col < |columns| && col in q && Constraint(Eq, Some(v)) in q[col]
    requires CellOf(row, columns[col]) != Some(v)
    ensures Filter(sql, columns, q, [row]) == []
  {
    assert !sql.Holds(col, Constraint(Eq, Some(v)), CellAt(columns, row, col));
    FilterNone(sql, columns, q, [row]);
  }

  predicate IsFirstEq(cs: seq<Constraint>, i: nat) {
    i < |cs| && cs[i].op == Eq && forall j :: 0 <= j < i ==> cs[j].op != Eq
  }

  /** `findIndexableConstraint` in a column's list: the first equality. */
  function FirstEq(cs: seq<Constraint>): (r: Option<Constraint>)
    ensures r.Some? ==> exists i :: 0 <= i < |cs| && cs[i] == r.value && IsFirstEq(cs, i)
    ensures r.None? <==> forall c :: c in cs ==> c.op != Eq
  {
    if cs == [] then None
    else if cs[0].op == Eq then Some(cs[0])
    else
      var r := FirstEq(cs[1..]);
      assert r.Some? ==> exists i :: 0 < i < |cs| && cs[i] == r.value && IsFirstEq(cs, i) by {
        if r.Some? {
          var i :| 0 <= i < |cs[1..]| && cs[1..][i] == r.value && IsFirstEq(cs[1..], i);
          assert forall j :: 1 <= j < i + 1 ==> cs[j] == cs[1..][j - 1];
          assert IsFirstEq(cs, i + 1);
        }
      }
      r
  }
}
