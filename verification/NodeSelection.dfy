/** Query constraints, the row filter SQLite applies afterwards, and the pushdown
    of `node_id` constraints to the choice of nodes to contact. */
module NodeSelection {
  import opened Wrappers
  import opened Tables
  import Decimal

  datatype Op = Eq | Lt | Gt | Le | Ge | Other(code: nat)

  /** A constraint on one column. A missing expression stands for null. */
  datatype Constraint = Constraint(op: Op, expr: Option<string>)

  /** Column position to the constraints on that column. */
  type ConstraintMap = map<int, seq<Constraint>>

  datatype Error = BadNodeId | BadColumn

  const NODE_ID_COLUMN := "node_id"
  const INT_MAX := 0x7FFF_FFFF
  const UINT_SPAN := 0x1_0000_0000

  /** What the model takes from outside: `folly::to<int>`, and how SQLite decides
      the comparisons this table never evaluates itself. */
  datatype Sql = Sql(toInt: string -> Option<int>, other: (int, Constraint, Cell) -> bool) {

    /** Integers that were printed in decimal are read back. */
    ghost predicate Lawful() {
      forall n: nat :: n <= INT_MAX ==> toInt(Decimal.Digits(n)) == Some(n)
    }

    /** Whether a cell of column col passes c: equality is on text, and a range
        constraint on `node_id` compares integers. */
    predicate Holds(col: int, c: Constraint, cell: Cell) {
      match c
      case Constraint(Eq, Some(e)) => cell == Some(e)
      case Constraint(op, Some(e)) =>
        if col == 0 && !op.Other? && toInt(e).Some? then
          cell.Some? && Compare(op, Decimal.Value(cell.value), toInt(e).value)
        else
          other(col, c, cell)
      case _ => other(col, c, cell)
    }
  }

  predicate Compare(op: Op, a: int, b: int)
    requires !op.Other?
  {
    match op
    case Eq => a == b
    case Lt => a < b
    case Gt => a > b
    case Le => a <= b
    case Ge => a >= b
  }

  function CellAt(columns: seq<string>, row: Row, col: int): Cell {
    if 0 <= col < |columns| then CellOf(row, columns[col]) else None
  }

  ghost predicate RowHolds(sql: Sql, columns: seq<string>, q: ConstraintMap, row: Row) {
    forall col, c :: col in q && c in q[col] ==> sql.Holds(col, c, CellAt(columns, row, col))
  }

  /** The rows SQLite keeps. */
  ghost function Filter(sql: Sql, columns: seq<string>, q: ConstraintMap, rows: seq<Row>): seq<Row> {
    if rows == [] then []
    else
      Filter(sql, columns, q, rows[..|rows| - 1]) +
      if RowHolds(sql, columns, q, rows[|rows| - 1]) then [rows[|rows| - 1]] else []
  }

  lemma {:induction false} FilterConcat(sql: Sql, columns: seq<string>, q: ConstraintMap, a: seq<Row>, b: seq<Row>)
    ensures Filter(sql, columns, q, a + b) == Filter(sql, columns, q, a) + Filter(sql, columns, q, b)
  {
    if b == [] {
      assert a + b == a;
    } else {
      assert (a + b)[..|a + b| - 1] == a + b[..|b| - 1];
      FilterConcat(sql, columns, q, a, b[..|b| - 1]);
    }
  }

  lemma {:induction false} FilterNone(sql: Sql, columns: seq<string>, q: ConstraintMap, rows: seq<Row>)
    requires forall i :: 0 <= i < |rows| ==> !RowHolds(sql, columns, q, rows[i])
    ensures Filter(sql, columns, q, rows) == []
  {
    if rows != [] {
      FilterNone(sql, columns, q, rows[..|rows| - 1]);
    }
  }

  /** What SQLite keeps of each table's rows. */
  ghost function Filtered(sql: Sql, columns: seq<string>, q: ConstraintMap, ts: seq<Table>): seq<seq<Row>> {
    seq(|ts|, i requires 0 <= i < |ts| => Filter(sql, columns, q, Rows(ts[i])))
  }

  lemma FilteredLast(sql: Sql, columns: seq<string>, q: ConstraintMap, ts: seq<Table>, t: Table)
    ensures Flatten(Filtered(sql, columns, q, ts + [t])) ==
            Flatten(Filtered(sql, columns, q, ts)) + Filter(sql, columns, q, Rows(t))
  {
    assert Filtered(sql, columns, q, ts + [t]) == Filtered(sql, columns, q, ts) + [Filter(sql, columns, q, Rows(t))];
    FlattenLast(Filtered(sql, columns, q, ts), Filter(sql, columns, q, Rows(t)));
  }

  lemma FilterLastTable(sql: Sql, columns: seq<string>, q: ConstraintMap, ts: seq<Table>, t: Table)
    ensures Filter(sql, columns, q, AllRows(ts + [t])) ==
            Filter(sql, columns, q, AllRows(ts)) + Filter(sql, columns, q, Rows(t))
  {
    assert (ts + [t])[..|ts|] == ts;
    FilterConcat(sql, columns, q, AllRows(ts), Rows(t));
  }

  lemma {:induction false} FilterAllRows(sql: Sql, columns: seq<string>, q: ConstraintMap, ts: seq<Table>)
    ensures Filter(sql, columns, q, AllRows(ts)) == Flatten(Filtered(sql, columns, q, ts))
  {
    if ts != [] {
      var front, t := ts[..|ts| - 1], ts[|ts| - 1];
      assert ts == front + [t];
      FilterAllRows(sql, columns, q, front);
      FilteredLast(sql, columns, q, front, t);
      FilterLastTable(sql, columns, q, front, t);
    }
  }

  /** Filtering the merge is filtering each source, the results end to end. */
  lemma FilterMerge(sql: Sql, columns: seq<string>, q: ConstraintMap, ts: seq<Table>)
    requires forall t :: t in ts ==> Rectangular(t)
    ensures Filter(sql, columns, q, Rows(Merge(ts))) == Flatten(Filtered(sql, columns, q, ts))
  {
    MergeRows(ts);
    FilterAllRows(sql, columns, q, ts);
  }

  /** A server of the cluster and the table it answers with; a failed or
      unparsable answer is the table without columns. */
  datatype Node = Node(id: nat, table: Table)

  type Cluster = seq<Node>

  ghost predicate ValidCluster(cluster: Cluster) {
    forall n :: n in cluster ==> n.id < UINT_SPAN && Rectangular(n.table)
  }

  /** `node_id_t` is a signed 32-bit integer, `ServerNode::id` an unsigned one. */
  function SignedId(id: nat): int {
    if id <= INT_MAX then id else id - UINT_SPAN
  }

  datatype MatchResult = MATCH | NO_MATCH | UNUSED

  /** `nodeMatchesConstraint`. The conversion of the expression throws before the
      operator is looked at. */
  function NodeMatches(sql: Sql, nid: int, c: Constraint): Result<MatchResult, Error> {
    if c.expr.None? then Ok(UNUSED)
    else
      match sql.toInt(c.expr.value)
      case None => Err(BadNodeId)
      case Some(k) =>
        match c.op
        case Eq => if nid != k then Ok(NO_MATCH) else Ok(MATCH)
        case Lt => if nid >= k then Ok(NO_MATCH) else Ok(MATCH)
        case Gt => if nid <= k then Ok(NO_MATCH) else Ok(MATCH)
        case Le => if nid > k then Ok(NO_MATCH) else Ok(MATCH)
        case Ge => if nid < k then Ok(NO_MATCH) else Ok(MATCH)
        case Other(_) => Ok(UNUSED)
  }

  predicate Usable(c: Constraint) {
    c.expr.Some? && !c.op.Other?
  }

  predicate Converts(sql: Sql, c: Constraint) {
    c.expr.Some? ==> sql.toInt(c.expr.value).Some?
  }

  /** No `node_id` constraint makes `selectNodes` throw. */
  predicate Selectable(sql: Sql, nodes: Cluster, q: ConstraintMap, allow: bool) {
    allow && 0 in q && nodes != [] ==> forall c :: c in q[0] ==> Converts(sql, c)
  }

  /** The cache key records the usable `node_id` constraints, in any order, once
      some node has been looked at. */
  ghost predicate IsUsedKey(nodes: Cluster, q: ConstraintMap, allow: bool, key: ConstraintMap) {
    if allow && 0 in q && nodes != [] && UsableAt(q[0]) != {} then
      && key.Keys == {0}
      && (forall c :: c in key[0] <==> c in q[0] && Usable(c))
      && |key[0]| == |UsableAt(q[0])|
    else
      key == map[]
  }

  function UsableAt(cs: seq<Constraint>): set<int> {
    set i | 0 <= i < |cs| && Usable(cs[i])
  }

  /** The node satisfies every constraint of a cache key. */
  predicate NodeIn(sql: Sql, key: ConstraintMap, n: Node) {
    0 in key ==> forall c :: c in key[0] ==> NodeMatches(sql, SignedId(n.id), c) == Ok(MATCH)
  }

  function Selected(sql: Sql, key: ConstraintMap, nodes: Cluster): Cluster {
    if nodes == [] then []
    else
      Selected(sql, key, nodes[..|nodes| - 1]) +
      if NodeIn(sql, key, nodes[|nodes| - 1]) then [nodes[|nodes| - 1]] else []
  }

  /** One pass over the `node_id` constraints for one node. */
  method MatchNode(sql: Sql, cs: seq<Constraint>, nid: int, usedBefore: set<int>)
      returns (r: Result<bool, Error>, used: set<int>)
    requires usedBefore == {} || usedBefore == UsableAt(cs)
    ensures r.Ok? <==> forall c :: c in cs ==> Converts(sql, c)
    ensures r.Ok? ==> used == UsableAt(cs)
    ensures r.Ok? ==> (r.value <==> exists c :: c in cs && NodeMatches(sql, nid, c) == Ok(NO_MATCH))
  {
    used := usedBefore;
    var skip := false;
    for i := 0 to |cs|
      invariant used == usedBefore + UsableAt(cs[..i])
      invariant forall c :: c in cs[..i] ==> Converts(sql, c)
      invariant skip <==> exists c :: c in cs[..i] && NodeMatches(sql, nid, c) == Ok(NO_MATCH)
    {
      var res := NodeMatches(sql, nid, cs[i]);
      if res.Err? {
        assert cs[i] in cs && !Converts(sql, cs[i]);
        return Err(BadNodeId), used;
      }
      if res.value != UNUSED {
        used := used + {i};
      }
      skip := skip || res.value == NO_MATCH;
      assert cs[..i + 1] == cs[..i] + [cs[i]];
    }
    assert cs[..|cs|] == cs;
    r := Ok(skip);
  }

  /** Turns the set of used positions into the recorded list, in the order the
      hash set yields them. */
  method RecordUsed(cs: seq<Constraint>, used: set<int>) returns (key: ConstraintMap)
    requires forall i :: i in used ==> 0 <= i < |cs|
    ensures used == {} ==> key == map[]
    ensures used != {} ==>
              && key.Keys == {0} && |key[0]| == |used|
              && forall c :: c in key[0] <==> exists i :: i in used && cs[i] == c
  {
    key := map[];
    var todo := used;
    var list := [];
    while todo != {}
      invariant todo <= used && |list| + |todo| == |used|
      invariant key == if todo == used then map[] else map[0 := list]
      invariant todo == used ==> list == []
      invariant forall c :: c in list <==> exists i :: i in used - todo && cs[i] == c
    {
      var i := Pick(todo);
      list := list + [cs[i]];
      key := key[0 := list];
      todo := todo - {i};
    }
    assert used - todo == used;
  }

  /** `selectNodes`: the nodes worth contacting and the constraints that decided it. */
  method SelectNodes(sql: Sql, nodes: Cluster, q: ConstraintMap, allow: bool)
      returns (r: Result<Cluster, Error>, key: ConstraintMap)
    ensures r.Ok? <==> Selectable(sql, nodes, q, allow)
    ensures r.Err? <==>
            && allow && nodes != [] && 0 in q
            && exists c :: c in q[0] && c.expr.Some? && sql.toInt(c.expr.value).None?
    ensures r.Err? ==> r.error == BadNodeId
    ensures r.Ok? ==> IsUsedKey(nodes, q, allow, key)
    ensures r.Ok? ==>
              forall c :: 0 in key && c in key[0] <==>
                allow && nodes != [] && 0 in q && c in q[0] && c.expr.Some? && !c.op.Other?
    ensures r.Ok? ==> r.value == Selected(sql, key, nodes)
  {
    if !(allow && 0 in q) {
      SelectedByNothing(sql, nodes);
      return Ok(nodes), map[];
    }
    var ok, res, used := KeepNodes(sql, q[0], nodes);
    if !ok {
      return Err(BadNodeId), map[];
    }
    key := RecordUsed(q[0], used);
    if nodes != [] {
      UsedAreUsable(q[0], used);
      KeptIsSelected(sql, q[0], key, nodes);
    } else {
      SelectedByNothing(sql, nodes);
    }
    r := Ok(res);
  }

  lemma UsedAreUsable(cs: seq<Constraint>, used: set<int>)
    requires used == UsableAt(cs)
    ensures forall c :: (exists i :: i in used && cs[i] == c) <==> c in cs && Usable(c)
  {
  }

  lemma KeptNext(sql: Sql, cs: seq<Constraint>, nodes: Cluster, k: nat)
    requires k < |nodes|
    ensures var skip := exists c :: c in cs && NodeMatches(sql, SignedId(nodes[k].id), c) == Ok(NO_MATCH);
            Kept(sql, cs, nodes[..k + 1]) == Kept(sql, cs, nodes[..k]) + if skip then [] else [nodes[k]]
  {
    assert nodes[..k + 1][..k] == nodes[..k];
  }

  /** The loop over the nodes: those no constraint rejects, and the constraints used. */
  method KeepNodes(sql: Sql, cs: seq<Constraint>, nodes: Cluster) returns (ok: bool, res: Cluster, used: set<int>)
    ensures ok <==> nodes == [] || forall c :: c in cs ==> Converts(sql, c)
    ensures ok ==> res == Kept(sql, cs, nodes) && used == if nodes == [] then {} else UsableAt(cs)
  {
    used, res := {}, [];
    for k := 0 to |nodes|
      invariant used == if k > 0 then UsableAt(cs) else {}
      invariant k > 0 ==> forall c :: c in cs ==> Converts(sql, c)
      invariant res == Kept(sql, cs, nodes[..k])
    {
      var skip;
      skip, used := MatchNode(sql, cs, SignedId(nodes[k].id), used);
      if skip.Err? {
        ok := false;
        return;
      }
      KeptNext(sql, cs, nodes, k);
      if !skip.value {
        res := res + [nodes[k]];
      }
    }
    assert nodes[..|nodes|] == nodes;
    ok := true;
  }

  /** The nodes no constraint of cs rejects. */
  ghost function Kept(sql: Sql, cs: seq<Constraint>, nodes: Cluster): Cluster {
    if nodes == [] then []
    else
      var n := nodes[|nodes| - 1];
      Kept(sql, cs, nodes[..|nodes| - 1]) +
      if exists c :: c in cs && NodeMatches(sql, SignedId(n.id), c) == Ok(NO_MATCH) then [] else [n]
  }

  lemma {:induction false} KeptIsSelected(sql: Sql, cs: seq<Constraint>, key: ConstraintMap, nodes: Cluster)
    requires forall c :: c in cs ==> Converts(sql, c)
    requires forall c :: 0 in key && c in key[0] <==> c in cs && Usable(c)
    ensures Kept(sql, cs, nodes) == Selected(sql, key, nodes)
  {
    if nodes != [] {
      KeptIsSelected(sql, cs, key, nodes[..|nodes| - 1]);
      var n := nodes[|nodes| - 1];
      if NodeIn(sql, key, n) {
        forall c | c in cs
          ensures NodeMatches(sql, SignedId(n.id), c) != Ok(NO_MATCH)
        {
          if Usable(c) { assert c in key[0]; }
        }
      } else {
        var c :| c in key[0] && NodeMatches(sql, SignedId(n.id), c) != Ok(MATCH);
        assert c in cs && Usable(c);
      }
    }
  }

  lemma {:induction false} SelectedByNothing(sql: Sql, nodes: Cluster)
    ensures Selected(sql, map[], nodes) == nodes
  {
    if nodes != [] {
      SelectedByNothing(sql, nodes[..|nodes| - 1]);
    }
  }
}
