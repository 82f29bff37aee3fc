/** From a node's parsed JSON answer to a column table. */
module JsonTable {
  import opened Wrappers
  import opened Tables
  import opened NameNormalizer

  /** A JSON value, as far as the table parser distinguishes them. */
  datatype Json = JNull | JString(text: string) | JArray(items: seq<Json>) | JOther

  /** The fetchable columns with their types, and the per-type cell preprocessing. */
  datatype Schema = Schema(types: map<string, nat>, preprocess: (nat, string) -> Cell)

  /** For each header position the known column it feeds, if any. */
  type Layout = seq<Option<string>>

  function ColumnFor(schema: Schema, header: string): Option<string> {
    var name := Normalize(header);
    if name in schema.types then Some(name) else None
  }

  ghost predicate HeadersOk(headers: Json) {
    headers.JArray? && forall h :: h in headers.items ==> h.JString?
  }

  ghost function LayoutOf(schema: Schema, headers: seq<Json>): (l: Layout)
    requires forall h :: h in headers ==> h.JString?
    ensures |l| == |headers|
  {
    seq(|headers|, i requires 0 <= i < |headers| => ColumnFor(schema, headers[i].text))
  }

  predicate IsCell(j: Json) {
    j.JString? || j.JNull?
  }

  function CellOfJson(schema: Schema, name: string, j: Json): Cell
    requires name in schema.types && IsCell(j)
  {
    match j
    case JString(s) => schema.preprocess(schema.types[name], s)
    case _ => None
  }

  ghost predicate LayoutOk(schema: Schema, layout: Layout) {
    forall i :: 0 <= i < |layout| && layout[i].Some? ==> layout[i].value in schema.types
  }

  /** A row of the right width whose known columns hold strings or nulls. */
  ghost predicate RowOk(layout: Layout, row: Json) {
    && row.JArray?
    && |row.items| == |layout|
    && forall i :: 0 <= i < |layout| && layout[i].Some? ==> IsCell(row.items[i])
  }

  ghost predicate RowsOk(layout: Layout, rows: Json) {
    rows.JArray? && forall i :: 0 <= i < |rows.items| ==> RowOk(layout, rows.items[i])
  }

  /** The cells one row puts into column name, by ascending header position. */
  ghost function RowCells(schema: Schema, layout: Layout, cells: seq<Json>, name: string): seq<Cell>
    requires |cells| <= |layout| && name in schema.types
    requires forall i :: 0 <= i < |cells| && layout[i].Some? ==> IsCell(cells[i])
  {
    if cells == [] then []
    else
      var n := |cells| - 1;
      RowCells(schema, layout, cells[..n], name) +
      if layout[n] == Some(name) then [CellOfJson(schema, name, cells[n])] else []
  }

  /** The cells all rows put into column name, row after row. */
  ghost function ColumnCells(schema: Schema, layout: Layout, rows: seq<Json>, name: string): seq<Cell>
    requires name in schema.types
    requires forall i :: 0 <= i < |rows| ==> RowOk(layout, rows[i])
  {
    if rows == [] then []
    else
      var n := |rows| - 1;
      assert RowOk(layout, rows[n]);
      ColumnCells(schema, layout, rows[..n], name) + RowCells(schema, layout, rows[n].items, name)
  }

  /** t is the table under construction after the given rows. */
  ghost predicate Holds(schema: Schema, layout: Layout, rows: seq<Json>, t: Table)
    requires LayoutOk(schema, layout)
    requires forall i :: 0 <= i < |rows| ==> RowOk(layout, rows[i])
  {
    && (forall name :: name in t <==> Some(name) in layout)
    && (forall name :: name in t ==> name in schema.types && t[name] == ColumnCells(schema, layout, rows, name))
  }

  ghost predicate EmptyColumns(layout: Layout, cols: Table) {
    && (forall name :: name in cols <==> Some(name) in layout)
    && (forall name :: name in cols ==> cols[name] == [])
  }

  lemma EmptyColumnsStep(layout: Layout, cols: Table, c: Option<string>)
    requires EmptyColumns(layout, cols)
    ensures EmptyColumns(layout + [c], if c.Some? && c.value !in cols then cols[c.value := []] else cols)
  {
    forall name: string
      ensures Some(name) in layout + [c] <==> Some(name) in layout || c == Some(name)
    {
    }
  }

  lemma HeadersDone(schema: Schema, hs: seq<Json>, layout: Layout, cols: Table)
    requires |layout| == |hs|
    requires forall k :: 0 <= k < |hs| ==> hs[k].JString? && layout[k] == ColumnFor(schema, hs[k].text)
    requires EmptyColumns(layout, cols)
    ensures (forall h :: h in hs ==> h.JString?) && layout == LayoutOf(schema, hs)
    ensures LayoutOk(schema, layout) && Holds(schema, layout, [], cols)
  {
  }

  /** `parse_headers`. */
  method ParseHeaders(schema: Schema, headers: Json) returns (r: Option<Layout>, cols: Table)
    ensures r.Some? <==> HeadersOk(headers)
    ensures r.Some? ==> r.value == LayoutOf(schema, headers.items) && LayoutOk(schema, r.value)
    ensures r.Some? ==> Holds(schema, r.value, [], cols)
  {
    cols := map[];
    if !headers.JArray? {
      return None, cols;
    }
    var present: Layout := [];
    var hs := headers.items;
    for i := 0 to |hs|
      invariant |present| == i
      invariant forall k :: 0 <= k < i ==> hs[k].JString? && present[k] == ColumnFor(schema, hs[k].text)
      invariant EmptyColumns(present, cols)
    {
      if !hs[i].JString? {
        assert hs[i] in hs;
        return None, cols;
      }
      var c := ColumnFor(schema, hs[i].text);
      EmptyColumnsStep(present, cols, c);
      if c.Some? && c.value !in cols {
        cols := cols[c.value := []];
      }
      present := present + [c];
    }
    HeadersDone(schema, hs, present, cols);
    r := Some(present);
  }

  /** after is before with the first k cells of a row appended to their columns. */
  ghost predicate CellsAdded(schema: Schema, layout: Layout, cells: seq<Json>, before: Table, after: Table)
    requires |cells| <= |layout|
    requires forall i :: 0 <= i < |cells| && layout[i].Some? ==> IsCell(cells[i])
  {
    && after.Keys == before.Keys
    && forall name :: name in before && name in schema.types ==>
         after[name] == before[name] + RowCells(schema, layout, cells, name)
  }

  lemma NextCell(schema: Schema, layout: Layout, cells: seq<Json>, cell: Json, before: Table, after: Table)
    requires LayoutOk(schema, layout) && |cells| < |layout|
    requires forall i :: 0 <= i < |cells| && layout[i].Some? ==> IsCell(cells[i])
    requires forall name :: Some(name) in layout ==> name in before
    requires CellsAdded(schema, layout, cells, before, after)
    requires layout[|cells|].Some? ==> IsCell(cell)
    ensures forall i :: 0 <= i < |cells + [cell]| && layout[i].Some? ==> IsCell((cells + [cell])[i])
    ensures var c := layout[|cells|];
            if c.None? then CellsAdded(schema, layout, cells + [cell], before, after)
            else
              && c.value in after && c.value in schema.types
              && CellsAdded(schema, layout, cells + [cell], before,
                            after[c.value := after[c.value] + [CellOfJson(schema, c.value, cell)]])
  {
    var c, more := layout[|cells|], cells + [cell];
    assert c in layout && more[..|cells|] == cells;
    forall name | name in before && name in schema.types
      ensures RowCells(schema, layout, more, name) ==
              RowCells(schema, layout, cells, name) +
              if c == Some(name) then [CellOfJson(schema, name, cell)] else []
    {
    }
  }

  /** `parse_row`: fails on a wrong width or on a known cell that is neither a
      string nor null. */
  method ParseRow(schema: Schema, layout: Layout, row: Json, before: Table) returns (ok: bool, cols: Table)
    requires LayoutOk(schema, layout)
    requires forall name :: Some(name) in layout ==> name in before
    ensures ok <==> RowOk(layout, row)
    ensures ok ==> CellsAdded(schema, layout, row.items, before, cols)
  {
    cols := before;
    if !row.JArray? {
      return false, cols;
    }
    var items := row.items;
    var col := 0;
    while col < |items|
      invariant col <= |items| && (col <= |layout| ==> forall i :: 0 <= i < col && layout[i].Some? ==> IsCell(items[..col][i]))
      invariant col <= |layout| ==> CellsAdded(schema, layout, items[..col], before, cols)
    {
      if col < |layout| {
        var c := layout[col];
        if c.Some? && !IsCell(items[col]) {
          return false, cols;
        }
        NextCell(schema, layout, items[..col], items[col], before, cols);
        assert items[..col + 1] == items[..col] + [items[col]];
        if c.Some? {
          cols := cols[c.value := cols[c.value] + [CellOfJson(schema, c.value, items[col])]];
        }
      }
      col := col + 1;
    }
    assert items[..|items|] == items;
    ok := col == |layout|;
  }

  /** t holds the given rows, all of them well-formed. */
  ghost predicate HoldsRows(schema: Schema, layout: Layout, rows: seq<Json>, t: Table)
    requires LayoutOk(schema, layout)
  {
    (forall i :: 0 <= i < |rows| ==> RowOk(layout, rows[i])) && Holds(schema, layout, rows, t)
  }

  lemma RowAppended(schema: Schema, layout: Layout, rows: seq<Json>, row: Json, before: Table, after: Table)
    requires LayoutOk(schema, layout) && RowOk(layout, row) && HoldsRows(schema, layout, rows, before)
    requires CellsAdded(schema, layout, row.items, before, after)
    ensures HoldsRows(schema, layout, rows + [row], after)
  {
    var all := rows + [row];
    assert all[..|rows|] == rows && all[|rows|] == row;
    assert forall i :: 0 <= i < |rows| ==> all[i] == rows[i];
    forall name | name in after
      ensures name in schema.types && after[name] == ColumnCells(schema, layout, all, name)
    {
      assert name in before;
    }
  }

  /** `parse_rows`. */
  method ParseRows(schema: Schema, layout: Layout, rows: seq<Json>, empty: Table) returns (ok: bool, cols: Table)
    requires LayoutOk(schema, layout) && HoldsRows(schema, layout, [], empty)
    ensures ok <==> forall i :: 0 <= i < |rows| ==> RowOk(layout, rows[i])
    ensures ok ==> HoldsRows(schema, layout, rows, cols)
  {
    cols := empty;
    for i := 0 to |rows|
      invariant HoldsRows(schema, layout, rows[..i], cols)
    {
      var more;
      ok, more := ParseRow(schema, layout, rows[i], cols);
      if !ok {
        return;
      }
      RowAppended(schema, layout, rows[..i], rows[i], cols, more);
      assert rows[..i + 1] == rows[..i] + [rows[i]];
      cols := more;
    }
    assert rows[..|rows|] == rows;
    ok := true;
  }

  /** The table part of `jsonToTableData`. It succeeds exactly on well-formed
      tables and then holds each known column's own cells. */
  method ParseTable(schema: Schema, headers: Json, rows: Json) returns (r: Option<Table>)
    ensures r.Some? <==> HeadersOk(headers) && RowsOk(LayoutOf(schema, headers.items), rows)
    ensures r.Some? ==> LayoutOk(schema, LayoutOf(schema, headers.items))
    ensures r.Some? ==> Holds(schema, LayoutOf(schema, headers.items), rows.items, r.value)
  {
    var layout, cols := ParseHeaders(schema, headers);
    if layout.None? || !rows.JArray? {
      return None;
    }
    var ok;
    ok, cols := ParseRows(schema, layout.value, rows.items, cols);
    r := if ok then Some(cols) else None;
  }

  // ------------------------------------------------ distinct headers

  /** Position p is the only one that feeds column name. */
  ghost predicate OnlyAt(layout: Layout, name: string, p: nat) {
    p < |layout| && forall i :: 0 <= i < |layout| ==> (layout[i] == Some(name) <==> i == p)
  }

  lemma {:induction false} OneCellPerRow(schema: Schema, layout: Layout, cells: seq<Json>, name: string, p: nat)
    requires OnlyAt(layout, name, p) && |cells| <= |layout| && name in schema.types
    requires forall i :: 0 <= i < |cells| && layout[i].Some? ==> IsCell(cells[i])
    ensures RowCells(schema, layout, cells, name) ==
            if p < |cells| then [CellOfJson(schema, name, cells[p])] else []
  {
    if cells != [] {
      OneCellPerRow(schema, layout, cells[..|cells| - 1], name, p);
    }
  }

  lemma LastCell(schema: Schema, layout: Layout, rows: seq<Json>, name: string, p: nat)
    requires OnlyAt(layout, name, p) && name in schema.types && rows != []
    requires forall i :: 0 <= i < |rows| ==> RowOk(layout, rows[i])
    ensures var n := |rows| - 1;
            ColumnCells(schema, layout, rows, name) ==
            ColumnCells(schema, layout, rows[..n], name) + [CellOfJson(schema, name, rows[n].items[p])]
  {
    OneCellPerRow(schema, layout, rows[|rows| - 1].items, name, p);
  }

  /** A column fed by one header position holds, row by row, the cells under it. */
  lemma {:induction false} ColumnUnderItsHeader(schema: Schema, layout: Layout, rows: seq<Json>, name: string, p: nat)
    requires OnlyAt(layout, name, p) && name in schema.types
    requires forall i :: 0 <= i < |rows| ==> RowOk(layout, rows[i])
    ensures |ColumnCells(schema, layout, rows, name)| == |rows|
    ensures forall i :: 0 <= i < |rows| ==>
              ColumnCells(schema, layout, rows, name)[i] == CellOfJson(schema, name, rows[i].items[p])
  {
    if rows != [] {
      var n := |rows| - 1;
      ColumnUnderItsHeader(schema, layout, rows[..n], name, p);
      LastCell(schema, layout, rows, name, p);
    }
  }

  ghost predicate DistinctHeaders(layout: Layout) {
    forall i, j :: 0 <= i < j < |layout| && layout[i].Some? ==> layout[i] != layout[j]
  }

  /** With distinct known headers the parsed table is rectangular: one value per
      row in every known column, whatever unknown columns are interleaved. */
  lemma DistinctHeadersRectangular(schema: Schema, layout: Layout, rows: seq<Json>, t: Table)
    requires LayoutOk(schema, layout)
    requires forall i :: 0 <= i < |rows| ==> RowOk(layout, rows[i])
    requires Holds(schema, layout, rows, t)
    requires DistinctHeaders(layout)
    ensures forall name :: name in t ==> |t[name]| == |rows|
    ensures Rectangular(t)
  {
    forall name | name in t
      ensures |t[name]| == |rows|
    {
      var p :| 0 <= p < |layout| && layout[p] == Some(name);
      assert OnlyAt(layout, name, p);
      ColumnUnderItsHeader(schema, layout, rows, name, p);
    }
    assert Rect(t, if t == map[] then 0 else |rows|);
  }

  /** A header feeds the column whose name is its normal form, if there is one. */
  lemma HeaderFeeds(schema: Schema, headers: seq<Json>, i: nat, name: string)
    requires (forall h :: h in headers ==> h.JString?) && i < |headers|
    ensures LayoutOf(schema, headers)[i] == Some(name) <==>
            name in schema.types && NormalForm(headers[i].text) == name
  {
    NormalizeIsNormalForm(headers[i].text);
  }

  /** The parser succeeds if and only if the headers are an array of strings and the rows
      an array of arrays as long, with strings or nulls under every known header. */
  lemma ParsesIff(schema: Schema, headers: Json, rows: Json)
    ensures HeadersOk(headers) && RowsOk(LayoutOf(schema, headers.items), rows) <==>
            && headers.JArray? && (forall i :: 0 <= i < |headers.items| ==> headers.items[i].JString?)
            && rows.JArray?
            && forall r :: 0 <= r < |rows.items| ==>
                 && rows.items[r].JArray? && |rows.items[r].items| == |headers.items|
                 && forall i :: 0 <= i < |headers.items| && NormalForm(headers.items[i].text) in schema.types ==>
                      rows.items[r].items[i].JString? || rows.items[r].items[i].JNull?
  {
    if HeadersOk(headers) {
      forall i | 0 <= i < |headers.items|
        ensures LayoutOf(schema, headers.items)[i].Some? <==> NormalForm(headers.items[i].text) in schema.types
      {
        assert headers.items[i] in headers.items;
        HeaderFeeds(schema, headers.items, i, NormalForm(headers.items[i].text));
        NormalizeIsNormalForm(headers.items[i].text);
      }
    }
  }

  /** A null stays null; a string goes through the preprocessing of its column's type. */
  lemma CellsUnderHeader(schema: Schema, layout: Layout, rows: seq<Json>, name: string, p: nat, i: nat)
    requires OnlyAt(layout, name, p) && name in schema.types && i < |rows|
    requires forall k :: 0 <= k < |rows| ==> RowOk(layout, rows[k])
    ensures |ColumnCells(schema, layout, rows, name)| == |rows|
    ensures rows[i].items[p] == JNull ==> ColumnCells(schema, layout, rows, name)[i] == None
    ensures forall s :: rows[i].items[p] == JString(s) ==>
              ColumnCells(schema, layout, rows, name)[i] == schema.preprocess(schema.types[name], s)
  {
    ColumnUnderItsHeader(schema, layout, rows, name, p);
  }

  // ------------------------------------------------ repeated headers

  /** How many header positions feed column name. */
  ghost function HeaderCount(layout: Layout, name: string): nat {
    if layout == [] then 0
    else HeaderCount(layout[..|layout| - 1], name) + if layout[|layout| - 1] == Some(name) then 1 else 0
  }

  lemma {:induction false} HeaderCounts(layout: Layout, name: string)
    ensures HeaderCount(layout, name) > 0 <==> Some(name) in layout
  {
    if layout != [] {
      var n := |layout| - 1;
      assert layout == layout[..n] + [layout[n]];
      HeaderCounts(layout[..n], name);
    }
  }

  lemma {:induction false} CellsPerRow(schema: Schema, layout: Layout, cells: seq<Json>, name: string)
    requires |cells| <= |layout| && name in schema.types
    requires forall i :: 0 <= i < |cells| && layout[i].Some? ==> IsCell(cells[i])
    ensures |RowCells(schema, layout, cells, name)| == HeaderCount(layout[..|cells|], name)
  {
    if cells != [] {
      var n := |cells| - 1;
      CellsPerRow(schema, layout, cells[..n], name);
      assert layout[..n + 1][..n] == layout[..n];
    }
  }

  /** Every row puts one cell into a column for each header that feeds it. */
  lemma {:induction false} CellsPerColumn(schema: Schema, layout: Layout, rows: seq<Json>, name: string)
    requires name in schema.types
    requires forall i :: 0 <= i < |rows| ==> RowOk(layout, rows[i])
    ensures |ColumnCells(schema, layout, rows, name)| == |rows| * HeaderCount(layout, name)
  {
    if rows != [] {
      var n := |rows| - 1;
      CellsPerColumn(schema, layout, rows[..n], name);
      CellsPerRow(schema, layout, rows[n].items, name);
      assert layout[..|layout|] == layout;
    }
  }

  /** All known columns are fed by equally many headers. */
  ghost predicate EvenHeaders(layout: Layout) {
    forall a, b :: Some(a) in layout && Some(b) in layout ==> HeaderCount(layout, a) == HeaderCount(layout, b)
  }

  lemma ProductsDiffer(n: nat, a: nat, b: nat)
    requires n > 0 && a != b
    ensures n * a != n * b
  {
    assert n * (b - a) == n * b - n * a;
    if a < b {
      assert n * (b - a) > 0;
    } else {
      assert n * (a - b) > 0;
    }
  }

  /** The parsed table is rectangular if and only if it has no rows or its known
      columns are fed by equally many headers. */
  lemma RectangularIff(schema: Schema, layout: Layout, rows: seq<Json>, t: Table)
    requires LayoutOk(schema, layout)
    requires forall i :: 0 <= i < |rows| ==> RowOk(layout, rows[i])
    requires Holds(schema, layout, rows, t)
    ensures Rectangular(t) <==> rows == [] || EvenHeaders(layout)
  {
    forall name | name in t
      ensures |t[name]| == |rows| * HeaderCount(layout, name)
    {
      CellsPerColumn(schema, layout, rows, name);
    }
    if rows == [] {
      assert Rect(t, 0);
    } else if EvenHeaders(layout) {
      EvenIsRectangular(layout, |rows|, t);
    } else {
      var a, b :| Some(a) in layout && Some(b) in layout && HeaderCount(layout, a) != HeaderCount(layout, b);
      ProductsDiffer(|rows|, HeaderCount(layout, a), HeaderCount(layout, b));
      assert |t[a]| != |t[b]|;
    }
  }

  lemma EvenIsRectangular(layout: Layout, n: nat, t: Table)
    requires EvenHeaders(layout) && forall name :: name in t <==> Some(name) in layout
    requires forall name :: name in t ==> |t[name]| == n * HeaderCount(layout, name)
    ensures Rectangular(t)
  {
    if t == map[] {
      assert Rect(t, 0);
    } else {
      var a :| a in t;
      assert Rect(t, |t[a]|);
    }
  }
}
