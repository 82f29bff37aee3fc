/** The cached admin command table: every answer, whether it comes from the
    cluster, the cache or an index, filters to what a scan of all nodes filters to. */
module AdminCache {
  import opened Wrappers
  import opened Tables
  import opened NodeSelection
  import opened Pushdown
  import opened Indexing

  const MAX_FETCHES := 5

  /** A merged table, the indexes built on it so far and when it was fetched. The
      cluster it was fetched from is kept for specification only. */
  datatype Entry = Entry(data: Table, indices: map<int, Index>, created: nat, ghost origin: Cluster)

  datatype State = State(cache: map<ConstraintMap, Entry>, numFetches: nat, ttl: nat, filtering: bool) {

    /** `allowServerSideFiltering`. */
    predicate Allow() {
      filtering && numFetches <= MAX_FETCHES
    }
  }

  const INITIAL := State(map[], 0, 0, true)

  // ---------------------------------------------------------------- one entry

  ghost predicate IndexesOk(columns: seq<string>, e: Entry) {
    && Rectangular(e.data)
    && forall col :: col in e.indices ==>
         0 <= col < |columns| && e.indices[col] == IndexOf(ColumnOf(e.data, columns[col]))
  }

  /** The entry under key holds exactly the rows of the nodes satisfying key. */
  ghost predicate EntryOk(sql: Sql, columns: seq<string>, key: ConstraintMap, e: Entry) {
    && ValidCluster(e.origin)
    && Rows(e.data) == Scan(Selected(sql, key, e.origin))
    && IndexesOk(columns, e)
  }

  /** What `refillCache` stores for the nodes it contacted. */
  ghost function Fetched(sql: Sql, key: ConstraintMap, cluster: Cluster, now: nat): Entry
    requires ValidCluster(cluster)
  {
    SelectedTables(sql, key, cluster);
    Entry(Merge(NodeTables(Selected(sql, key, cluster))), map[], now, cluster)
  }

  lemma SelectedTables(sql: Sql, key: ConstraintMap, cluster: Cluster)
    requires ValidCluster(cluster)
    ensures forall t :: t in NodeTables(Selected(sql, key, cluster)) ==> Rectangular(t)
  {
    SelectedIsValid(sql, key, cluster);
    var nodes := Selected(sql, key, cluster);
    forall i | 0 <= i < |nodes|
      ensures Rectangular(NodeTable(nodes[i]))
    {
      assert nodes[i] in nodes;
      assert Rect(NodeTable(nodes[i]), NumRows(nodes[i].table));
    }
  }

  lemma FetchedOk(sql: Sql, columns: seq<string>, key: ConstraintMap, cluster: Cluster, now: nat)
    requires ValidCluster(cluster)
    ensures EntryOk(sql, columns, key, Fetched(sql, key, cluster, now))
  {
    SelectedTables(sql, key, cluster);
    var ts := NodeTables(Selected(sql, key, cluster));
    MergeRows(ts);
    MergeRect(ts);
  }

  // ------------------------------------------------- serving a query from an entry

  /** A column `findIndexableConstraint` may stop at, given that the iteration
      order over the constrained columns is the hash map's. */
  ghost predicate MayPick(q: ConstraintMap, pick: Option<int>) {
    match pick
    case None => forall col :: col in q ==> FirstEq(q[col]).None?
    case Some(col) => col in q && FirstEq(q[col]).Some?
  }

  /** The index lookup to do, if any: a comparison with null uses no index. */
  ghost function Lookup(q: ConstraintMap, pick: Option<int>): Option<(int, string)>
    requires MayPick(q, pick)
  {
    if pick.None? then None
    else
      match FirstEq(q[pick.value]).value.expr
      case None => None
      case Some(v) => Some((pick.value, v))
  }

  ghost function WithIndex(columns: seq<string>, e: Entry, col: int): Entry
    requires 0 <= col < |columns|
  {
    if col in e.indices then e
    else e.(indices := e.indices[col := IndexOf(ColumnOf(e.data, columns[col]))])
  }

  ghost function GatherTable(data: Table, ps: seq<nat>): Table
    requires forall c, p :: c in data && p in ps ==> p < |data[c]|
  {
    map c | c in data :: Gathered(data[c], ps)
  }

  lemma IndexedPositions(columns: seq<string>, e: Entry, col: int, v: string)
    requires IndexesOk(columns, e) && 0 <= col < |columns|
    ensures var idx := WithIndex(columns, e, col).indices[col];
            v in idx ==>
              && columns[col] in e.data
              && idx[v] == Positions(e.data[columns[col]], v)
              && forall c, p :: c in e.data && p in idx[v] ==> p < |e.data[c]|
  {
    PositionsExact(ColumnOf(e.data, columns[col]), v);
  }

  /** The rows `getData` returns. */
  ghost function Answer(columns: seq<string>, e: Entry, look: Option<(int, string)>): Result<Table, Error>
    requires IndexesOk(columns, e)
  {
    match look
    case None => Ok(e.data)
    case Some((col, v)) =>
      if !(0 <= col < |columns|) then Err(BadColumn)
      else
        var idx := WithIndex(columns, e, col).indices[col];
        IndexedPositions(columns, e, col, v);
        if v in idx then Ok(GatherTable(e.data, idx[v])) else Ok(map[])
  }

  /** The entry after serving: the index looked at has been built. */
  ghost function Served(columns: seq<string>, e: Entry, look: Option<(int, string)>): Entry {
    match look
    case None => e
    case Some((col, v)) => if 0 <= col < |columns| then WithIndex(columns, e, col) else e
  }

  /** Serving from an entry, indexed or not, loses no row the query keeps. */
  lemma AnswerFilters(sql: Sql, columns: seq<string>, e: Entry, q: ConstraintMap, pick: Option<int>)
    requires IndexesOk(columns, e) && MayPick(q, pick)
    requires Answer(columns, e, Lookup(q, pick)).Ok?
    ensures Filter(sql, columns, q, Rows(Answer(columns, e, Lookup(q, pick)).value)) ==
            Filter(sql, columns, q, Rows(e.data))
  {
    var look := Lookup(q, pick);
    if look.Some? {
      var (col, v) := look.value;
      IndexedPositions(columns, e, col, v);
      var cells := ColumnOf(e.data, columns[col]);
      if cells == [] {
        NoRowsOrNoColumn(sql, columns, e.data, q, col, v);
      } else {
        IndexAnswer(sql, columns, e.data, q, col, v);
      }
    }
  }

  /** Without the column every cell is null, so nothing equals v. */
  lemma NoRowsOrNoColumn(sql: Sql, columns: seq<string>, data: Table, q: ConstraintMap, col: int, v: string)
    requires Rectangular(data) && 0 <= col < |columns|
    requires col in q && Constraint(Eq, Some(v)) in q[col]
    requires ColumnOf(data, columns[col]) == []
    ensures Filter(sql, columns, q, Rows(data)) == []
    ensures Filter(sql, columns, q, Rows(map[])) == []
  {
    forall i | 0 <= i < |Rows(data)|
      ensures !RowHolds(sql, columns, q, Rows(data)[i])
    {
      assert !sql.Holds(col, Constraint(Eq, Some(v)), CellAt(columns, Rows(data)[i], col));
    }
    FilterNone(sql, columns, q, Rows(data));
  }

  lemma IndexAnswer(sql: Sql, columns: seq<string>, data: Table, q: ConstraintMap, col: int, v: string)
    requires Rectangular(data) && 0 <= col < |columns| && columns[col] in data
    requires col in q && Constraint(Eq, Some(v)) in q[col]
    ensures forall c, p :: c in data && p in Positions(data[columns[col]], v) ==> p < |data[c]|
    ensures Filter(sql, columns, q, Rows(GatherTable(data, Positions(data[columns[col]], v)))) ==
            Filter(sql, columns, q, Rows(data))
    ensures Some(v) !in data[columns[col]] ==> Filter(sql, columns, q, Rows(data)) == []
  {
    var cells, rows, n := data[columns[col]], Rows(data), NumRows(data);
    var ps := Positions(cells, v);
    assert Rect(data, n);
    PositionsExact(cells, v);
    assert cells[..n] == cells && rows[..n] == rows;
    IndexPreserves(sql, columns, q, col, v, cells, rows, n);
    GatheredRows(data, n, ps, GatherTable(data, ps));
    if Some(v) !in cells {
      AbsentValue(cells, v);
    }
  }

  // ---------------------------------------------------------------- the machine

  ghost predicate Inv(sql: Sql, columns: seq<string>, s: State) {
    && ValidColumns(columns)
    && forall key :: key in s.cache ==> EntryOk(sql, columns, key, s.cache[key])
  }

  /** Once filtering has been given up, the only entry still fetched is the
      unfiltered one, and it is fetched at most once. */
  ghost predicate FetchInv(s: State) {
    s.numFetches <= MAX_FETCHES + 1 || (s.numFetches == MAX_FETCHES + 2 && map[] in s.cache)
  }

  datatype Event =
    | NewQuery(now: nat, isValid: (nat, nat, nat) -> bool)
    | SetCacheTtl(ttl: nat)
    | EnableFiltering(val: bool)
    | GetData(cluster: Cluster, q: ConstraintMap, now: nat, key: ConstraintMap, result: Result<Table, Error>)

  /** `refillCache` after node selection settled on key. */
  ghost function Refilled(sql: Sql, s: State, cluster: Cluster, key: ConstraintMap, now: nat): State
    requires ValidCluster(cluster)
  {
    if key in s.cache then s
    else s.(cache := s.cache[key := Fetched(sql, key, cluster, now)], numFetches := s.numFetches + 1)
  }

  /** One `getData` call. */
  ghost predicate GetDataStep(sql: Sql, columns: seq<string>, s: State, e: Event, s': State)
    requires e.GetData?
  {
    && ValidCluster(e.cluster)
    && if !Selectable(sql, e.cluster, e.q, s.Allow()) then
         s' == s && e.result == Err(BadNodeId)
       else
         && IsUsedKey(e.cluster, e.q, s.Allow(), e.key)
         && var s1 := Refilled(sql, s, e.cluster, e.key, e.now);
            IndexesOk(columns, s1.cache[e.key]) &&
            exists pick ::
              && MayPick(e.q, pick)
              && s' == s1.(cache := s1.cache[e.key := Served(columns, s1.cache[e.key], Lookup(e.q, pick))])
              && e.result == Answer(columns, s1.cache[e.key], Lookup(e.q, pick))
  }

  ghost predicate Next(sql: Sql, columns: seq<string>, s: State, e: Event, s': State) {
    match e
    case NewQuery(now, isValid) =>
      s' == s.(cache := map k | k in s.cache && isValid(s.cache[k].created, now, s.ttl) :: s.cache[k],
               numFetches := 0)
    case SetCacheTtl(ttl) => s' == s.(ttl := ttl)
    case EnableFiltering(val) => s' == s.(filtering := val)
    case GetData(_, _, _, _, _) => GetDataStep(sql, columns, s, e, s')
  }

  lemma RefilledInv(sql: Sql, columns: seq<string>, s: State, cluster: Cluster, key: ConstraintMap, now: nat)
    requires Inv(sql, columns, s) && ValidCluster(cluster)
    ensures Inv(sql, columns, Refilled(sql, s, cluster, key, now))
  {
    FetchedOk(sql, columns, key, cluster, now);
  }

  lemma ServedOk(sql: Sql, columns: seq<string>, key: ConstraintMap, e: Entry, look: Option<(int, string)>)
    requires EntryOk(sql, columns, key, e)
    ensures EntryOk(sql, columns, key, Served(columns, e, look))
  {
  }

  /** Every step keeps each entry faithful to its key. */
  lemma NextInv(sql: Sql, columns: seq<string>, s: State, e: Event, s': State)
    requires Inv(sql, columns, s) && Next(sql, columns, s, e, s')
    ensures Inv(sql, columns, s')
  {
    if e.GetData? && Selectable(sql, e.cluster, e.q, s.Allow()) {
      RefilledInv(sql, columns, s, e.cluster, e.key, e.now);
      var s1 := Refilled(sql, s, e.cluster, e.key, e.now);
      var pick :| MayPick(e.q, pick) &&
        s' == s1.(cache := s1.cache[e.key := Served(columns, s1.cache[e.key], Lookup(e.q, pick))]);
      ServedOk(sql, columns, e.key, s1.cache[e.key], Lookup(e.q, pick));
    }
  }

  /** After a successful selection the entry for the key is present, and it was
      fetched from this cluster unless it was there before. */
  lemma EntryPresent(sql: Sql, columns: seq<string>, s: State, e: Event, s': State)
    requires e.GetData? && Next(sql, columns, s, e, s') && e.result.Ok?
    ensures e.key in s'.cache
    ensures s'.cache[e.key].origin == if e.key in s.cache then s.cache[e.key].origin else e.cluster
  {
  }

  lemma UsedKeyIsForQuery(sql: Sql, cluster: Cluster, q: ConstraintMap, allow: bool, key: ConstraintMap)
    requires Selectable(sql, cluster, q, allow) && IsUsedKey(cluster, q, allow, key)
    ensures KeyFor(sql, q, key)
  {
  }

  /** The answer of one call filters to the scan of all nodes of the cluster its
      entry was fetched from. */
  lemma GetDataAnswers(sql: Sql, columns: seq<string>, s: State, e: Event, s': State)
    requires sql.Lawful() && Inv(sql, columns, s)
    requires e.GetData? && Next(sql, columns, s, e, s') && e.result.Ok?
    requires e.key in s'.cache && SafeIds(s'.cache[e.key].origin)
    ensures Filter(sql, columns, e.q, Rows(e.result.value)) ==
            Filter(sql, columns, e.q, Scan(s'.cache[e.key].origin))
  {
    RefilledInv(sql, columns, s, e.cluster, e.key, e.now);
    var entry := Refilled(sql, s, e.cluster, e.key, e.now).cache[e.key];
    var pick :| MayPick(e.q, pick) && e.result == Answer(columns, entry, Lookup(e.q, pick));
    AnswerFilters(sql, columns, entry, e.q, pick);
    EntryPresent(sql, columns, s, e, s');
    UsedKeyIsForQuery(sql, e.cluster, e.q, s.Allow(), e.key);
    PushdownPreserves(sql, columns, e.q, e.key, entry.origin);
  }

  lemma NextFetchInv(sql: Sql, columns: seq<string>, s: State, e: Event, s': State)
    requires FetchInv(s) && Next(sql, columns, s, e, s')
    ensures FetchInv(s')
    ensures !e.NewQuery? ==> s'.numFetches == s.numFetches || s'.numFetches == s.numFetches + 1
  {
  }
}
