/** The cluster's tables as they come out of the nodes' parsed answers. */
module NodeAnswers {
  import opened Wrappers
  import opened Tables
  import opened NodeSelection
  import opened Pushdown
  import opened JsonTable

  /** A node's answer: its header layout and rows, or nothing usable. */
  datatype Answer = Failed | Parsed(layout: Layout, rows: seq<Json>)

  /** The table is what parsing the answer gives; a failed answer has no columns. */
  ghost predicate AnswersWith(schema: Schema, n: Node, a: Answer) {
    match a
    case Failed => n.table == map[]
    case Parsed(layout, rows) =>
      && LayoutOk(schema, layout)
      && (forall i :: 0 <= i < |rows| ==> RowOk(layout, rows[i]))
      && Holds(schema, layout, rows, n.table)
  }

  ghost predicate Even(a: Answer) {
    a.Failed? || a.rows == [] || EvenHeaders(a.layout)
  }

  lemma AnswerRectangularIff(schema: Schema, n: Node, a: Answer)
    requires AnswersWith(schema, n, a)
    ensures Rectangular(n.table) <==> Even(a)
  {
    if a.Failed? {
      assert Rect(n.table, 0);
    } else {
      RectangularIff(schema, a.layout, a.rows, n.table);
    }
  }

  /** The nodes' tables can be merged if and only if in every answer with rows the
      known columns are fed by equally many headers. */
  lemma ParsedClusterValidIff(schema: Schema, cluster: Cluster, answers: seq<Answer>)
    requires |answers| == |cluster| && forall i :: 0 <= i < |cluster| ==> cluster[i].id < UINT_SPAN
    requires forall i :: 0 <= i < |cluster| ==> AnswersWith(schema, cluster[i], answers[i])
    ensures ValidCluster(cluster) <==> forall i :: 0 <= i < |answers| ==> Even(answers[i])
  {
    forall i | 0 <= i < |cluster|
      ensures Rectangular(cluster[i].table) <==> Even(answers[i])
    {
      AnswerRectangularIff(schema, cluster[i], answers[i]);
    }
    if ValidCluster(cluster) {
      forall i | 0 <= i < |answers|
        ensures Even(answers[i])
      {
        assert cluster[i] in cluster;
      }
    }
  }

  /** In particular, distinct known headers are enough. */
  lemma DistinctHeadersValid(schema: Schema, cluster: Cluster, answers: seq<Answer>)
    requires |answers| == |cluster| && forall i :: 0 <= i < |cluster| ==> cluster[i].id < UINT_SPAN
    requires forall i :: 0 <= i < |cluster| ==> AnswersWith(schema, cluster[i], answers[i])
    requires forall i :: 0 <= i < |answers| && answers[i].Parsed? ==> DistinctHeaders(answers[i].layout)
    ensures ValidCluster(cluster)
  {
    forall i | 0 <= i < |cluster|
      ensures Rectangular(cluster[i].table)
    {
      if answers[i].Failed? {
        assert Rect(cluster[i].table, 0);
      } else {
        DistinctHeadersRectangular(schema, answers[i].layout, answers[i].rows, cluster[i].table);
      }
    }
  }

  // ------------------------------------------------ the row check on an answer

  /** Every known column of an answer with rows has cells. */
  lemma NoEmptyColumn(schema: Schema, n: Node, a: Answer, c: string)
    requires AnswersWith(schema, n, a) && a.Parsed? && a.rows != [] && c in n.table
    ensures |n.table[c]| > 0
  {
    CellsPerColumn(schema, a.layout, a.rows, c);
    HeaderCounts(a.layout, c);
    ProductIsPositive(|a.rows|, HeaderCount(a.layout, c));
  }

  lemma ProductIsPositive(a: nat, b: nat)
    requires a > 0 && b > 0
    ensures a * b > 0
  {
  }

  lemma SomeColumnCounts(t: Table) returns (c: string)
    requires t != map[]
    ensures c in t && NumRows(t) == |t[c]|
  {
    c :| c in t && NumRows(t) == |t[c]|;
  }

  /** The added column has the height of some column, so it evens nothing out. */
  lemma NodeIdEvensNothing(n: Node)
    requires NODE_ID_COLUMN !in n.table
    ensures Rectangular(NodeTable(n)) <==> Rectangular(n.table)
  {
    if Rectangular(NodeTable(n)) {
      var k :| Rect(NodeTable(n), k);
      if n.table == map[] {
        assert Rect(n.table, 0);
      } else {
        forall c | c in n.table
          ensures |n.table[c]| == k
        {
          assert NodeTable(n)[c] == n.table[c];
        }
        assert Rect(n.table, k);
      }
    }
  }

  /** Merging a node's answer passes the row check, whatever the iteration order, if
      and only if it has no rows or its known columns are fed by equally many headers. */
  lemma RowCheckPassesIff(schema: Schema, n: Node, a: Answer, order: seq<string>)
    requires AnswersWith(schema, n, a) && NODE_ID_COLUMN !in n.table && IsOrder(NodeTable(n), order)
    ensures Level(NodeTable(n), order) <==> Even(a)
  {
    AnswerRectangularIff(schema, n, a);
    NodeIdEvensNothing(n);
    if Rectangular(n.table) {
      RectangularIsLevel(NodeTable(n), order);
    } else {
      var t := SomeColumnCounts(n.table);
      forall c | c in NodeTable(n)
        ensures |NodeTable(n)[c]| > 0
      {
        NoEmptyColumn(schema, n, a, if c == NODE_ID_COLUMN then t else c);
      }
      LevelIff(NodeTable(n), order);
    }
  }

  lemma CountLast(layout: Layout, c: Option<string>, name: string)
    ensures HeaderCount(layout + [c], name) == HeaderCount(layout, name) + if c == Some(name) then 1 else 0
  {
    assert (layout + [c])[..|layout|] == layout;
  }

  const REPEATED: Layout := [Some("a"), Some("a"), Some("b")]

  lemma RepeatedIsUneven()
    ensures HeaderCount(REPEATED, "a") == 2 && HeaderCount(REPEATED, "b") == 1
  {
    assert "a" != "b" by { assert "a"[0] != "b"[0]; }
    var a, b := Some("a"), Some("b");
    assert REPEATED == [a] + [a] + [b] && [a] == [] + [a];
    CountLast([], a, "a");
    CountLast([a], a, "a");
    CountLast([a] + [a], b, "a");
    CountLast([], a, "b");
    CountLast([a], a, "b");
    CountLast([a] + [a], b, "b");
  }

  /** Headers a, a, b with one row: the check fails in every iteration order. */
  lemma RepeatedHeaderFails(schema: Schema, n: Node, row: Json, order: seq<string>)
    requires AnswersWith(schema, n, Parsed(REPEATED, [row])) && IsOrder(NodeTable(n), order)
    ensures !Level(NodeTable(n), order)
  {
    RepeatedIsUneven();
    assert REPEATED[0] == Some("a") && REPEATED[2] == Some("b");
    assert NODE_ID_COLUMN !in n.table by {
      assert NODE_ID_COLUMN[0] != "a"[0] && NODE_ID_COLUMN[0] != "b"[0];
    }
    RowCheckPassesIff(schema, n, Parsed(REPEATED, [row]), order);
  }
}
