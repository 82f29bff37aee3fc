/** Pushing `node_id` constraints down to node selection preserves the meaning of
    a query, exactly when node ids with rows fit a signed 32-bit integer. */
module Pushdown {
  import opened Wrappers
  import opened Tables
  import opened NodeSelection
  import Decimal

  /** A node's table with the added `node_id` column. */
  ghost function NodeTable(n: Node): (t: Table)
    ensures Rectangular(n.table) ==> Rect(t, NumRows(n.table))
  {
    if n.table == map[] then map[]
    else n.table[NODE_ID_COLUMN := seq(NumRows(n.table), _ => Some(Decimal.Digits(n.id)))]
  }

  ghost function NodeTables(nodes: Cluster): (ts: seq<Table>)
    ensures |ts| == |nodes|
    ensures forall i :: 0 <= i < |ts| ==> ts[i] == NodeTable(nodes[i])
  {
    seq(|nodes|, i requires 0 <= i < |nodes| => NodeTable(nodes[i]))
  }

  /** Every row of every node: the table the query is about. */
  ghost function Scan(nodes: Cluster): seq<Row> {
    AllRows(NodeTables(nodes))
  }

  lemma ScanAppend(nodes: Cluster, n: Node)
    ensures Scan(nodes + [n]) == Scan(nodes) + Rows(NodeTable(n))
  {
    var ts := NodeTables(nodes + [n]);
    assert ts[..|ts| - 1] == NodeTables(nodes);
  }

  lemma FilterScanAppend(sql: Sql, columns: seq<string>, q: ConstraintMap, nodes: Cluster, n: Node)
    ensures Filter(sql, columns, q, Scan(nodes + [n])) ==
            Filter(sql, columns, q, Scan(nodes)) + Filter(sql, columns, q, Rows(NodeTable(n)))
  {
    ScanAppend(nodes, n);
    FilterConcat(sql, columns, q, Scan(nodes), Rows(NodeTable(n)));
  }

  lemma RowNamesItsNode(n: Node, i: nat)
    requires Rectangular(n.table)
    requires i < |Rows(NodeTable(n))|
    ensures CellOf(Rows(NodeTable(n))[i], NODE_ID_COLUMN) == Some(Decimal.Digits(n.id))
  {
    assert Rect(NodeTable(n), NumRows(n.table));
  }

  ghost predicate ValidColumns(columns: seq<string>) {
    columns != [] && columns[0] == NODE_ID_COLUMN
  }

  /** The key consists of constraints of the query that node selection can use. */
  ghost predicate KeyFor(sql: Sql, q: ConstraintMap, key: ConstraintMap) {
    0 in key ==> 0 in q && forall c :: c in key[0] ==> c in q[0] && Usable(c) && Converts(sql, c)
  }

  /** Every node that answers with rows has an id that survives the conversion to
      `node_id_t`. */
  ghost predicate SafeIds(nodes: Cluster) {
    forall n :: n in nodes && NumRows(n.table) > 0 ==> n.id <= INT_MAX
  }

  lemma SelectedStep(sql: Sql, key: ConstraintMap, nodes: Cluster)
    requires nodes != []
    ensures var front, n := nodes[..|nodes| - 1], nodes[|nodes| - 1];
            Selected(sql, key, nodes) ==
            if NodeIn(sql, key, n) then Selected(sql, key, front) + [n] else Selected(sql, key, front)
  {
  }

  /** A node that was not selected has no row the query keeps. */
  lemma SkippedNodeHasNoAnswer(sql: Sql, columns: seq<string>, q: ConstraintMap, key: ConstraintMap, n: Node)
    requires sql.Lawful() && ValidColumns(columns) && KeyFor(sql, q, key)
    requires Rectangular(n.table) && SafeIds([n])
    requires !NodeIn(sql, key, n)
    ensures Filter(sql, columns, q, Rows(NodeTable(n))) == []
  {
    var c :| c in key[0] && NodeMatches(sql, SignedId(n.id), c) != Ok(MATCH);
    var rows := Rows(NodeTable(n));
    forall i | 0 <= i < |rows|
      ensures !RowHolds(sql, columns, q, rows[i])
    {
      RowNamesItsNode(n, i);
      assert n in [n];
      Decimal.ValueOfDigits(n.id);
      assert !sql.Holds(0, c, CellAt(columns, rows[i], 0));
    }
    FilterNone(sql, columns, q, rows);
  }

  /** Merging only the selected nodes and filtering gives the rows, in the order,
      that merging all nodes and filtering gives. */
  lemma {:induction false} PushdownPreserves(sql: Sql, columns: seq<string>, q: ConstraintMap, key: ConstraintMap, nodes: Cluster)
    requires sql.Lawful() && ValidColumns(columns) && KeyFor(sql, q, key)
    requires ValidCluster(nodes) && SafeIds(nodes)
    ensures Filter(sql, columns, q, Scan(Selected(sql, key, nodes))) == Filter(sql, columns, q, Scan(nodes))
  {
    if nodes != [] {
      var front, n := nodes[..|nodes| - 1], nodes[|nodes| - 1];
      assert nodes == front + [n];
      assert n in nodes;
      SelectedStep(sql, key, nodes);
      PushdownPreserves(sql, columns, q, key, front);
      FilterScanAppend(sql, columns, q, front, n);
      if NodeIn(sql, key, n) {
        FilterScanAppend(sql, columns, q, Selected(sql, key, front), n);
      } else {
        SkippedNodeHasNoAnswer(sql, columns, q, key, n);
      }
    }
  }

  ghost predicate PushdownSound(sql: Sql, columns: seq<string>, nodes: Cluster) {
    forall q, key | KeyFor(sql, q, key) ::
      Filter(sql, columns, q, Scan(Selected(sql, key, nodes))) == Filter(sql, columns, q, Scan(nodes))
  }

  /** `node_id >= 0`: true of every row there is. */
  const EVERY_NODE: ConstraintMap := map[0 := [Constraint(Ge, Some(Decimal.Digits(0)))]]

  lemma {:induction false} FilterEveryRow(sql: Sql, columns: seq<string>, nodes: Cluster)
    requires sql.Lawful() && ValidColumns(columns) && ValidCluster(nodes)
    ensures Filter(sql, columns, EVERY_NODE, Scan(nodes)) == Scan(nodes)
  {
    if nodes != [] {
      var front, n := nodes[..|nodes| - 1], nodes[|nodes| - 1];
      FilterEveryRow(sql, columns, front);
      assert nodes == front + [n];
      ScanAppend(front, n);
      FilterConcat(sql, columns, EVERY_NODE, Scan(front), Rows(NodeTable(n)));
      FilterKeepsNode(sql, columns, n, |Rows(NodeTable(n))|);
      var rows := Rows(NodeTable(n));
      assert rows[..|rows|] == rows;
    }
  }

  lemma {:induction false} FilterKeepsNode(sql: Sql, columns: seq<string>, n: Node, k: nat)
    requires sql.Lawful() && ValidColumns(columns) && Rectangular(n.table)
    requires k <= |Rows(NodeTable(n))|
    ensures Filter(sql, columns, EVERY_NODE, Rows(NodeTable(n))[..k]) == Rows(NodeTable(n))[..k]
  {
    if k > 0 {
      var rows := Rows(NodeTable(n));
      FilterKeepsNode(sql, columns, n, k - 1);
      RowNamesItsNode(n, k - 1);
      assert rows[..k][..k - 1] == rows[..k - 1];
      EveryNodeHolds(sql, columns, rows[k - 1]);
    }
  }

  lemma EveryNodeHolds(sql: Sql, columns: seq<string>, row: Row)
    requires sql.Lawful() && ValidColumns(columns) && CellOf(row, NODE_ID_COLUMN).Some?
    ensures RowHolds(sql, columns, EVERY_NODE, row)
  {
    assert sql.toInt(Decimal.Digits(0)) == Some(0);
  }

  lemma NodeRowCount(nodes: Cluster, n: Node)
    requires Rectangular(n.table)
    ensures |Scan(nodes + [n])| == |Scan(nodes)| + NumRows(n.table)
  {
    ScanAppend(nodes, n);
    assert Rect(NodeTable(n), NumRows(n.table));
  }

  lemma BigIdIsDropped(sql: Sql, n: Node)
    requires sql.Lawful() && n.id < UINT_SPAN
    ensures n.id > INT_MAX ==> !NodeIn(sql, EVERY_NODE, n)
  {
    assert sql.toInt(Decimal.Digits(0)) == Some(0);
    assert Constraint(Ge, Some(Decimal.Digits(0))) in EVERY_NODE[0];
  }

  /** An id above INT_MAX turns negative, so `node_id >= 0` drops that node. */
  lemma {:induction false} LostRows(sql: Sql, nodes: Cluster)
    requires sql.Lawful() && ValidCluster(nodes)
    ensures |Scan(Selected(sql, EVERY_NODE, nodes))| <= |Scan(nodes)|
    ensures !SafeIds(nodes) ==> |Scan(Selected(sql, EVERY_NODE, nodes))| < |Scan(nodes)|
  {
    if nodes != [] {
      var front, n := nodes[..|nodes| - 1], nodes[|nodes| - 1];
      assert nodes == front + [n];
      assert n in nodes;
      assert forall m :: m in nodes <==> m in front || m == n;
      SelectedStep(sql, EVERY_NODE, nodes);
      LostRows(sql, front);
      NodeRowCount(front, n);
      NodeRowCount(Selected(sql, EVERY_NODE, front), n);
      BigIdIsDropped(sql, n);
    }
  }

  /** Pushdown is sound for every query exactly on the clusters whose nodes with
      rows have ids below 2^31. */
  lemma PushdownSoundIff(sql: Sql, columns: seq<string>, nodes: Cluster)
    requires sql.Lawful() && ValidColumns(columns) && ValidCluster(nodes)
    ensures PushdownSound(sql, columns, nodes) <==> SafeIds(nodes)
  {
    if SafeIds(nodes) {
      forall q, key | KeyFor(sql, q, key)
        ensures Filter(sql, columns, q, Scan(Selected(sql, key, nodes))) == Filter(sql, columns, q, Scan(nodes))
      {
        PushdownPreserves(sql, columns, q, key, nodes);
      }
    } else {
      assert sql.toInt(Decimal.Digits(0)) == Some(0);
      assert KeyFor(sql, EVERY_NODE, EVERY_NODE);
      LostRows(sql, nodes);
      SelectedIsValid(sql, EVERY_NODE, nodes);
      FilterEveryRow(sql, columns, nodes);
      FilterEveryRow(sql, columns, Selected(sql, EVERY_NODE, nodes));
    }
  }

  lemma {:induction false} SelectedIsValid(sql: Sql, key: ConstraintMap, nodes: Cluster)
    requires ValidCluster(nodes)
    ensures ValidCluster(Selected(sql, key, nodes))
  {
    if nodes != [] {
      SelectedIsValid(sql, key, nodes[..|nodes| - 1]);
    }
  }

  // ------------------------------------------------ no node is contacted in vain

  /** A usable constraint lets a node with an id below 2^31 through if its rows pass it,
      and only then, except that equality also lets through a node whose id is the
      number but not the text. */
  lemma MatchIsExact(sql: Sql, c: Constraint, id: nat)
    requires sql.Lawful() && id <= INT_MAX && c.expr.Some? && !c.op.Other? && sql.toInt(c.expr.value).Some?
    ensures NodeMatches(sql, SignedId(id), c) in {Ok(MATCH), Ok(NO_MATCH)}
    ensures sql.Holds(0, c, Some(Decimal.Digits(id))) ==> NodeMatches(sql, SignedId(id), c) == Ok(MATCH)
    ensures !sql.Holds(0, c, Some(Decimal.Digits(id))) && c.op != Eq ==> NodeMatches(sql, SignedId(id), c) == Ok(NO_MATCH)
    ensures c.op == Eq ==> (NodeMatches(sql, SignedId(id), c) == Ok(MATCH) <==> sql.toInt(c.expr.value).value == id)
  {
    Decimal.ValueOfDigits(id);
  }

  /** The comparisons are the usual ones. */
  lemma RangesHold(sql: Sql, id: nat, e: string, k: int)
    requires sql.toInt(e) == Some(k)
    ensures sql.Holds(0, Constraint(Lt, Some(e)), Some(Decimal.Digits(id))) <==> id < k
    ensures sql.Holds(0, Constraint(Le, Some(e)), Some(Decimal.Digits(id))) <==> id <= k
    ensures sql.Holds(0, Constraint(Gt, Some(e)), Some(Decimal.Digits(id))) <==> id > k
    ensures sql.Holds(0, Constraint(Ge, Some(e)), Some(Decimal.Digits(id))) <==> id >= k
    ensures sql.Holds(0, Constraint(Eq, Some(e)), Some(Decimal.Digits(id))) <==> Decimal.Digits(id) == e
  {
    Decimal.ValueOfDigits(id);
  }

  /** A node with rows that is contacted has only rows passing the range constraints of
      the key, and the id of every equality in it. */
  lemma ContactedNodeAnswers(sql: Sql, columns: seq<string>, q: ConstraintMap, key: ConstraintMap, n: Node, c: Constraint, i: nat)
    requires sql.Lawful() && ValidColumns(columns) && KeyFor(sql, q, key) && 0 in key && c in key[0]
    requires Rectangular(n.table) && SafeIds([n]) && NodeIn(sql, key, n) && i < |Rows(NodeTable(n))|
    ensures if c.op == Eq then sql.toInt(c.expr.value).value == n.id
            else sql.Holds(0, c, CellAt(columns, Rows(NodeTable(n))[i], 0))
  {
    assert n in [n];
    RowNamesItsNode(n, i);
    MatchIsExact(sql, c, n.id);
  }
}
