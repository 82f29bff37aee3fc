/** Column tables as the admin query front end holds them, the rows they denote,
    and the merge of per-node tables. */
module Tables {
  import opened Wrappers

  type Cell = Option<string>

  /** `TableData::cols`: column name to cells. */
  type Table = map<string, seq<Cell>>

  /** A row as SQLite sees it: its non-null cells. An absent column reads as null. */
  type Row = map<string, string>

  /** All columns of t have n cells. A table without columns has no rows. */
  ghost predicate Rect(t: Table, n: nat) {
    && (forall c :: c in t ==> |t[c]| == n)
    && (t == map[] ==> n == 0)
  }

  ghost predicate Rectangular(t: Table) {
    exists n: nat :: Rect(t, n)
  }

  /** `TableData::numRows`: the height of some column. */
  ghost function NumRows(t: Table): (n: nat)
    ensures forall k: nat :: Rect(t, k) ==> n == k
  {
    if t == map[] then 0 else var c :| c in t; |t[c]|
  }

  ghost function RowAt(t: Table, i: nat): Row {
    map c | c in t && i < |t[c]| && t[c][i].Some? :: t[c][i].value
  }

  function CellOf(row: Row, c: string): Cell {
    if c in row then Some(row[c]) else None
  }

  ghost function Rows(t: Table): seq<Row> {
    seq(NumRows(t), i requires 0 <= i => RowAt(t, i))
  }

  function Nulls(n: nat): (s: seq<Cell>)
    ensures |s| == n
  {
    seq(n, _ => None)
  }

  /** `std::vector::resize`. */
  function Resize(col: seq<Cell>, n: nat): (r: seq<Cell>)
    ensures |r| == n
  {
    if |col| >= n then col[..n] else col + Nulls(n - |col|)
  }

  ghost function TotalRows(ts: seq<Table>): nat {
    if ts == [] then 0 else TotalRows(ts[..|ts| - 1]) + NumRows(ts[|ts| - 1])
  }

  ghost function AllRows(ts: seq<Table>): seq<Row> {
    if ts == [] then [] else AllRows(ts[..|ts| - 1]) + Rows(ts[|ts| - 1])
  }

  ghost predicate HasColumn(ts: seq<Table>, c: string) {
    exists i :: 0 <= i < |ts| && c in ts[i]
  }

  /** What column c of the merge must hold: each source's cells in turn, nulls
      where a source lacks the column. */
  ghost function MergedColumn(ts: seq<Table>, c: string): (s: seq<Cell>)
    requires forall t :: t in ts ==> Rectangular(t)
    ensures |s| == TotalRows(ts)
  {
    if ts == [] then [] else
      var t := ts[|ts| - 1];
      assert Rectangular(t);
      MergedColumn(ts[..|ts| - 1], c) + if c in t then t[c] else Nulls(NumRows(t))
  }

  ghost function Columns(ts: seq<Table>): (s: set<string>)
    ensures forall c :: c in s <==> HasColumn(ts, c)
  {
    set i, c | 0 <= i < |ts| && c in ts[i] :: c
  }

  /** The merge of per-node tables. */
  ghost function Merge(ts: seq<Table>): (r: Table)
    requires forall t :: t in ts ==> Rectangular(t)
    ensures forall c :: c in r <==> HasColumn(ts, c)
  {
    map c | c in Columns(ts) :: MergedColumn(ts, c)
  }

  lemma {:induction false} MergedColumnAbsent(ts: seq<Table>, c: string)
    requires forall t :: t in ts ==> Rectangular(t)
    requires !HasColumn(ts, c)
    ensures MergedColumn(ts, c) == Nulls(TotalRows(ts))
  {
    if ts != [] {
      var front := ts[..|ts| - 1];
      assert !HasColumn(front, c);
      assert c !in ts[|ts| - 1];
      MergedColumnAbsent(front, c);
    }
  }

  lemma {:induction false} MergedCell(ts: seq<Table>, t: Table, c: string, i: nat)
    requires forall u :: u in ts + [t] ==> Rectangular(u)
    requires i < TotalRows(ts + [t])
    ensures (ts + [t])[..|ts|] == ts && TotalRows(ts + [t]) == TotalRows(ts) + NumRows(t)
    ensures MergedColumn(ts + [t], c)[i] ==
            if i < TotalRows(ts) then MergedColumn(ts, c)[i]
            else if c in t then t[c][i - TotalRows(ts)] else None
  {
    assert (ts + [t])[..|ts|] == ts;
    assert t in ts + [t];
  }

  /** The merge is rectangular, as tall as its sources together. */
  lemma MergeRect(ts: seq<Table>)
    requires forall t :: t in ts ==> Rectangular(t)
    ensures Rect(Merge(ts), TotalRows(ts))
  {
    if Merge(ts) == map[] {
      forall i | 0 <= i < |ts|
        ensures ts[i] == map[]
      {
        assert ts[i].Keys == {} by {
          if c :| c in ts[i] {
            assert HasColumn(ts, c);
          }
        }
      }
      NoColumnsNoRows(ts);
    }
  }

  lemma {:induction false} NoColumnsNoRows(ts: seq<Table>)
    requires forall i :: 0 <= i < |ts| ==> ts[i] == map[]
    ensures TotalRows(ts) == 0
  {
    if ts != [] {
      NoColumnsNoRows(ts[..|ts| - 1]);
    }
  }

  /** Cell i of a merged column is what row i of the sources' rows, laid end to
      end, holds in that column. */
  lemma {:induction false} MergedCellIsSourceCell(ts: seq<Table>, c: string, i: nat)
    requires forall t :: t in ts ==> Rectangular(t)
    requires i < TotalRows(ts)
    ensures |AllRows(ts)| == TotalRows(ts)
    ensures MergedColumn(ts, c)[i] == CellOf(AllRows(ts)[i], c)
  {
    var front, t := ts[..|ts| - 1], ts[|ts| - 1];
    assert ts == front + [t];
    assert Rectangular(t);
    AllRowsLength(front);
    MergedCell(front, t, c, i);
    if i < TotalRows(front) {
      MergedCellIsSourceCell(front, c, i);
    } else {
      assert AllRows(ts)[i] == RowAt(t, i - TotalRows(front));
    }
  }

  lemma {:induction false} AllRowsLength(ts: seq<Table>)
    ensures |AllRows(ts)| == TotalRows(ts)
  {
    if ts != [] {
      AllRowsLength(ts[..|ts| - 1]);
    }
  }

  /** The merge denotes exactly the sources' rows, one contiguous block per
      source, in order. */
  lemma MergeRows(ts: seq<Table>)
    requires forall t :: t in ts ==> Rectangular(t)
    ensures Rows(Merge(ts)) == AllRows(ts)
  {
    MergeRect(ts);
    AllRowsLength(ts);
    var r := Merge(ts);
    forall i | 0 <= i < TotalRows(ts)
      ensures RowAt(r, i) == AllRows(ts)[i]
    {
      forall c: string
        ensures CellOf(RowAt(r, i), c) == CellOf(AllRows(ts)[i], c)
      {
        MergedCellIsSourceCell(ts, c, i);
        if c !in r { MergedColumnAbsent(ts, c); }
      }
      SameCellsSameRow(RowAt(r, i), AllRows(ts)[i]);
    }
  }

  lemma SameCellsSameRow(a: Row, b: Row)
    requires forall c :: CellOf(a, c) == CellOf(b, c)
    ensures a == b
  {
    forall c
      ensures c in a <==> c in b
      ensures c in a && c in b ==> a[c] == b[c]
    {
      assert CellOf(a, c) == CellOf(b, c);
    }
  }

  method CountRows(t: Table) returns (n: nat)
    requires Rectangular(t)
    ensures n == NumRows(t)
  {
    if t == map[] {
      n := 0;
    } else {
      var c :| c in t;
      n := |t[c]|;
    }
  }

  /** The columns of r are those of ts; each is the merged column, possibly still
      short of its trailing nulls. */
  ghost predicate Partial(ts: seq<Table>, r: Table)
    requires forall t :: t in ts ==> Rectangular(t)
  {
    forall c ::
      && (c in r <==> HasColumn(ts, c))
      && (c in r ==> ShortOf(r[c], MergedColumn(ts, c)))
  }

  ghost predicate ShortOf(col: seq<Cell>, full: seq<Cell>) {
    && |col| <= |full|
    && Resize(col, |full|) == full
  }

  /** A column once the source's cells are behind the rows merged so far. */
  function Extended(acc: Table, n: nat, src: Table, c: string): seq<Cell> {
    if c in src then Resize(ColumnOf(acc, c), n) + src[c] else ColumnOf(acc, c)
  }

  // ------------------------------------------------ the row check

  /** An order in which a hash map may yield its columns. */
  ghost predicate IsOrder(t: Table, order: seq<string>) {
    && (forall i :: 0 <= i < |order| ==> order[i] in t)
    && (forall c :: c in t ==> c in order)
    && forall i, j :: 0 <= i < j < |order| ==> order[i] != order[j]
  }

  /** The check while copying the first k columns: each is as high as the one before,
      unless that one is empty. */
  ghost predicate LevelUpTo(t: Table, order: seq<string>, k: nat)
    requires k <= |order| && forall i :: 0 <= i < |order| ==> order[i] in t
  {
    forall i :: 0 < i < k ==> |t[order[i - 1]]| == 0 || |t[order[i - 1]]| == |t[order[i]]|
  }

  ghost predicate Level(t: Table, order: seq<string>)
    requires forall i :: 0 <= i < |order| ==> order[i] in t
  {
    LevelUpTo(t, order, |order|)
  }

  /** The height of the last of the first k columns. */
  ghost function LastHeight(t: Table, order: seq<string>, k: nat): nat
    requires k <= |order| && forall i :: 0 <= i < |order| ==> order[i] in t
  {
    if k == 0 then 0 else |t[order[k - 1]]|
  }

  lemma RectangularIsLevel(t: Table, order: seq<string>)
    requires Rectangular(t) && IsOrder(t, order)
    ensures Level(t, order) && LastHeight(t, order, |order|) == NumRows(t)
  {
    assert Rect(t, NumRows(t));
    if order == [] {
      assert t.Keys == {};
    }
  }

  lemma {:induction false} LevelFromFirst(t: Table, order: seq<string>, i: nat)
    requires IsOrder(t, order) && Level(t, order) && i < |order|
    requires forall c :: c in t ==> |t[c]| > 0
    ensures |t[order[i]]| == |t[order[0]]|
  {
    if i > 0 {
      LevelFromFirst(t, order, i - 1);
    }
  }

  /** On a table without empty columns the check passes, whatever the iteration order,
      if and only if the table is rectangular. */
  lemma LevelIff(t: Table, order: seq<string>)
    requires IsOrder(t, order) && forall c :: c in t ==> |t[c]| > 0
    ensures Level(t, order) <==> Rectangular(t)
  {
    if Rectangular(t) {
      RectangularIsLevel(t, order);
    }
    if Level(t, order) {
      var n := if order == [] then 0 else |t[order[0]]|;
      forall c | c in t
        ensures |t[c]| == n
      {
        var i :| 0 <= i < |order| && order[i] == c;
        LevelFromFirst(t, order, i);
      }
      assert Rect(t, n);
    }
  }

  lemma OneMoreName(t: Table, order: seq<string>, todo: set<string>, name: string)
    requires name in todo && todo <= t.Keys && forall c :: c in t ==> (c in order <==> c !in todo)
    requires (forall i :: 0 <= i < |order| ==> order[i] in t)
    requires forall i, j :: 0 <= i < j < |order| ==> order[i] != order[j]
    ensures forall c :: c in t ==> (c in order + [name] <==> c !in todo - {name})
    ensures forall i :: 0 <= i < |order + [name]| ==> (order + [name])[i] in t
    ensures forall i, j :: 0 <= i < j < |order + [name]| ==> (order + [name])[i] != (order + [name])[j]
  {
    assert name !in order;
  }

  /** The order in which a hash map happens to yield its columns. */
  method IterationOrder(t: Table) returns (order: seq<string>)
    ensures IsOrder(t, order)
  {
    order := [];
    var todo := t.Keys;
    while todo != {}
      invariant todo <= t.Keys && forall c :: c in t ==> (c in order <==> c !in todo)
      invariant forall i :: 0 <= i < |order| ==> order[i] in t
      invariant forall i, j :: 0 <= i < j < |order| ==> order[i] != order[j]
    {
      var name := Pick(todo);
      OneMoreName(t, order, todo, name);
      order := order + [name];
      todo := todo - {name};
    }
  }

  ghost function FirstNames(order: seq<string>, k: nat): set<string>
    requires k <= |order|
  {
    if k == 0 then {} else FirstNames(order, k - 1) + {order[k - 1]}
  }

  lemma {:induction false} FirstNamesHave(order: seq<string>, k: nat, c: string)
    requires k <= |order|
    ensures c in FirstNames(order, k) <==> exists i :: 0 <= i < k && order[i] == c
  {
    if k > 0 {
      FirstNamesHave(order, k - 1, c);
    }
  }

  lemma NextIsNew(t: Table, order: seq<string>, k: nat)
    requires IsOrder(t, order) && k < |order|
    ensures order[k] !in FirstNames(order, k) && FirstNames(order, k + 1) == FirstNames(order, k) + {order[k]}
  {
    FirstNamesHave(order, k, order[k]);
  }

  lemma AllNames(t: Table, order: seq<string>)
    requires IsOrder(t, order)
    ensures FirstNames(order, |order|) == t.Keys
  {
    forall c: string
      ensures c in FirstNames(order, |order|) <==> c in t
    {
      FirstNamesHave(order, |order|, c);
    }
  }

  /** The columns called done have been copied. */
  ghost predicate Copied(acc: Table, rowsSoFar: nat, src: Table, done: set<string>, result: Table) {
    && result.Keys == acc.Keys + done
    && forall c :: c in result ==>
         result[c] == if c in done then Extended(acc, rowsSoFar, src, c) else ColumnOf(acc, c)
  }

  /** A column moved behind the rows so far, which it is filled up to with nulls. */
  function WithColumn(t: Table, name: string, rowsSoFar: nat, c: seq<Cell>): Table {
    t[name := Resize(ColumnOf(t, name), rowsSoFar) + c]
  }

  lemma CopyNext(acc: Table, rowsSoFar: nat, src: Table, done: set<string>, name: string, result: Table)
    requires name in src && name !in done && Copied(acc, rowsSoFar, src, done, result)
    ensures Copied(acc, rowsSoFar, src, done + {name}, WithColumn(result, name, rowsSoFar, src[name]))
  {
    assert ColumnOf(result, name) == ColumnOf(acc, name);
  }

  lemma CopyName(acc: Table, rowsSoFar: nat, src: Table, order: seq<string>, k: nat, result: Table)
    requires IsOrder(src, order) && k < |order| && Copied(acc, rowsSoFar, src, FirstNames(order, k), result)
    ensures Copied(acc, rowsSoFar, src, FirstNames(order, k + 1),
                   WithColumn(result, order[k], rowsSoFar, src[order[k]]))
  {
    NextIsNew(src, order, k);
    CopyNext(acc, rowsSoFar, src, FirstNames(order, k), order[k], result);
  }

  lemma LevelNext(t: Table, order: seq<string>, k: nat)
    requires IsOrder(t, order) && k < |order| && LevelUpTo(t, order, k)
    ensures var before := LastHeight(t, order, k);
            if before == 0 || before == |t[order[k]]| then LevelUpTo(t, order, k + 1) else !Level(t, order)
  {
  }

  /** Copies one source's columns, in the order the hash map yields them, behind the
      rows merged so far; stops where the row check fails. */
  method CopyColumns(acc: Table, rowsSoFar: nat, src: Table, order: seq<string>)
      returns (ok: bool, result: Table, rowsInCurrent: nat)
    requires IsOrder(src, order)
    ensures ok <==> Level(src, order)
    ensures ok ==> rowsInCurrent == LastHeight(src, order, |order|)
    ensures ok ==> Copied(acc, rowsSoFar, src, src.Keys, result)
  {
    ok, result, rowsInCurrent := true, acc, 0;
    for k := 0 to |order|
      invariant LevelUpTo(src, order, k) && rowsInCurrent == LastHeight(src, order, k)
      invariant Copied(acc, rowsSoFar, src, FirstNames(order, k), result)
    {
      var c := src[order[k]];
      LevelNext(src, order, k);
      if !(rowsInCurrent == 0 || rowsInCurrent == |c|) {  // hs_check
        ok := false;
        return;
      }
      rowsInCurrent := |c|;
      CopyName(acc, rowsSoFar, src, order, k, result);
      result := WithColumn(result, order[k], rowsSoFar, c);
    }
    AllNames(src, order);
  }

  /** `result.cols[name]`: an absent column is created empty. */
  function ColumnOf(t: Table, c: string): seq<Cell> {
    if c in t then t[c] else []
  }

  lemma AppendedIsPartial(ts: seq<Table>, acc: Table, src: Table, result: Table)
    requires forall t :: t in ts ==> Rectangular(t)
    requires Rectangular(src)
    requires Partial(ts, acc)
    requires Copied(acc, TotalRows(ts), src, src.Keys, result)
    ensures Partial(ts + [src], result)
  {
    forall c: string
      ensures c in result <==> HasColumn(ts + [src], c)
      ensures c in result ==> ShortOf(result[c], MergedColumn(ts + [src], c))
    {
      PartialColumn(ts, acc, c);
      AppendedColumn(ts, src, c, ColumnOf(acc, c));
    }
  }

  lemma PartialColumn(ts: seq<Table>, acc: Table, c: string)
    requires forall t :: t in ts ==> Rectangular(t)
    requires Partial(ts, acc)
    ensures c in acc <==> HasColumn(ts, c)
    ensures ShortOf(ColumnOf(acc, c), MergedColumn(ts, c))
  {
    if c !in acc {
      MergedColumnAbsent(ts, c);
    }
  }

  lemma AppendedColumn(ts: seq<Table>, src: Table, c: string, col: seq<Cell>)
    requires forall t :: t in ts ==> Rectangular(t)
    requires Rectangular(src)
    requires ShortOf(col, MergedColumn(ts, c))
    ensures HasColumn(ts + [src], c) <==> HasColumn(ts, c) || c in src
    ensures c in src ==> ShortOf(Resize(col, TotalRows(ts)) + src[c], MergedColumn(ts + [src], c))
    ensures c !in src ==> ShortOf(col, MergedColumn(ts + [src], c))
  {
    MergedColumnAppend(ts, src, c);
    if c !in src {
      ShortOfPadded(col, MergedColumn(ts, c), NumRows(src));
    }
  }

  lemma MergedColumnAppend(ts: seq<Table>, src: Table, c: string)
    requires forall t :: t in ts ==> Rectangular(t)
    requires Rectangular(src)
    ensures HasColumn(ts + [src], c) <==> HasColumn(ts, c) || c in src
    ensures TotalRows(ts + [src]) == TotalRows(ts) + NumRows(src)
    ensures MergedColumn(ts + [src], c) ==
            MergedColumn(ts, c) + if c in src then src[c] else Nulls(NumRows(src))
  {
    var ts' := ts + [src];
    assert ts'[..|ts|] == ts && ts'[|ts|] == src;
    if HasColumn(ts, c) {
      var i :| 0 <= i < |ts| && c in ts[i];
      assert c in ts'[i];
    }
  }

  lemma ShortOfPadded(col: seq<Cell>, full: seq<Cell>, n: nat)
    requires ShortOf(col, full)
    ensures ShortOf(col, full + Nulls(n))
  {
    assert full == col + Nulls(|full| - |col|);
  }

  ghost function Padded(t: Table, n: nat): Table {
    map c | c in t :: Resize(t[c], n)
  }

  /** Fills columns the last sources lacked with nulls. */
  method PadColumns(t: Table, n: nat) returns (r: Table)
    ensures r == Padded(t, n)
  {
    r := t;
    var todo := t.Keys;
    while todo != {}
      invariant todo <= t.Keys == r.Keys
      invariant forall c :: c in t ==> r[c] == if c in todo then t[c] else Resize(t[c], n)
    {
      var name := Pick(todo);
      r := r[name := Resize(r[name], n)];
      todo := todo - {name};
    }
  }

  lemma PaddedIsMerge(ts: seq<Table>, r: Table)
    requires forall t :: t in ts ==> Rectangular(t)
    requires Partial(ts, r)
    ensures Padded(r, TotalRows(ts)) == Merge(ts)
  {
    forall c: string
      ensures c in r <==> c in Merge(ts)
      ensures c in r ==> Resize(r[c], TotalRows(ts)) == Merge(ts)[c]
    {
      PaddedColumn(ts, r, c);
    }
    SameColumns(r, TotalRows(ts), Merge(ts));
  }

  lemma PaddedColumn(ts: seq<Table>, r: Table, c: string)
    requires forall t :: t in ts ==> Rectangular(t)
    requires Partial(ts, r)
    ensures c in r <==> c in Merge(ts)
    ensures c in r ==> Resize(r[c], TotalRows(ts)) == Merge(ts)[c]
  {
    PartialColumn(ts, r, c);
  }

  lemma SameColumns(r: Table, n: nat, t: Table)
    requires forall c :: c in r <==> c in t
    requires forall c :: c in r ==> Resize(r[c], n) == t[c]
    ensures Padded(r, n) == t
  {
    assert Padded(r, n).Keys == t.Keys;
  }

  /** The step of `aggregate` for one source; its row check passes. */
  method AddSource(ghost ts: seq<Table>, acc: Table, rowsSoFar: nat, src: Table) returns (result: Table, rows: nat)
    requires (forall t :: t in ts ==> Rectangular(t)) && Rectangular(src)
    requires Partial(ts, acc) && rowsSoFar == TotalRows(ts)
    ensures Partial(ts + [src], result) && rows == NumRows(src)
    ensures TotalRows(ts + [src]) == TotalRows(ts) + NumRows(src)
  {
    var order := IterationOrder(src);
    RectangularIsLevel(src, order);
    var ok;
    ok, result, rows := CopyColumns(acc, rowsSoFar, src, order);
    assert ok;  // hs_check
    AppendedIsPartial(ts, acc, src, result);
    assert (ts + [src])[..|ts|] == ts;
  }

  /** `AdminCommandTable::aggregate`. */
  method Aggregate(results: seq<Table>) returns (result: Table)
    requires forall t :: t in results ==> Rectangular(t)
    ensures result == Merge(results)
    ensures Rect(result, TotalRows(results))
    ensures Rows(result) == AllRows(results)
  {
    var totalRows := 0;
    for k := 0 to |results|
      invariant totalRows == TotalRows(results[..k])
    {
      var n := CountRows(results[k]);
      totalRows := totalRows + n;
      assert results[..k + 1][..k] == results[..k];
    }
    assert results[..|results|] == results;

    result := map[];
    var rowsSoFar := 0;
    for k := 0 to |results|
      invariant rowsSoFar == TotalRows(results[..k])
      invariant Partial(results[..k], result)
    {
      var n;
      assert results[..k + 1] == results[..k] + [results[k]];
      result, n := AddSource(results[..k], result, rowsSoFar, results[k]);
      rowsSoFar := rowsSoFar + n;
    }
    assert rowsSoFar == totalRows;  // hs_check

    PaddedIsMerge(results, result);
    result := PadColumns(result, totalRows);
    MergeRect(results);
    MergeRows(results);
  }
}
