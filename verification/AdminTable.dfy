/** Whole runs of the admin command table, and the object that performs them. */
module AdminTable {
  import opened Wrappers
  import opened Tables
  import opened NodeSelection
  import opened Pushdown
  import opened Indexing
  import opened AdminCache
  import Decimal

  // ---------------------------------------------------------------- runs

  ghost predicate IsRun(sql: Sql, columns: seq<string>, states: seq<State>, events: seq<Event>) {
    && ValidColumns(columns)
    && |states| == |events| + 1
    && states[0] == INITIAL
    && forall i :: 0 <= i < |events| ==> Next(sql, columns, states[i], events[i], states[i + 1])
  }

  lemma {:induction false} RunInv(sql: Sql, columns: seq<string>, states: seq<State>, events: seq<Event>, i: nat)
    requires IsRun(sql, columns, states, events) && i < |states|
    ensures Inv(sql, columns, states[i]) && FetchInv(states[i])
  {
    if i > 0 {
      RunInv(sql, columns, states, events, i - 1);
      NextInv(sql, columns, states[i - 1], events[i - 1], states[i]);
      NextFetchInv(sql, columns, states[i - 1], events[i - 1], states[i]);
    }
  }

  /** Some call up to i read the cluster c. */
  ghost predicate SeenBefore(events: seq<Event>, i: nat, c: Cluster) {
    exists j :: 0 <= j < i && j < |events| && events[j].GetData? && events[j].cluster == c
  }

  lemma OriginsStep(sql: Sql, columns: seq<string>, s: State, e: Event, s': State, key: ConstraintMap)
    requires Next(sql, columns, s, e, s') && key in s'.cache
    ensures || (key in s.cache && s'.cache[key].origin == s.cache[key].origin)
            || (e.GetData? && s'.cache[key].origin == e.cluster)
  {
  }

  /** Every entry was fetched from a cluster some earlier call looked at. */
  lemma {:induction false} RunOrigins(
      sql: Sql, columns: seq<string>, states: seq<State>, events: seq<Event>, i: nat, key: ConstraintMap)
    requires IsRun(sql, columns, states, events) && i < |states| && key in states[i].cache
    ensures SeenBefore(events, i, states[i].cache[key].origin)
  {
    if i > 0 {
      var c := states[i].cache[key].origin;
      OriginsStep(sql, columns, states[i - 1], events[i - 1], states[i], key);
      if events[i - 1].GetData? && c == events[i - 1].cluster {
        assert SeenBefore(events, i, c);
      } else {
        RunOrigins(sql, columns, states, events, i - 1, key);
        var j :| 0 <= j < i - 1 && events[j].GetData? && events[j].cluster == c;
        assert SeenBefore(events, i, c);
      }
    }
  }

  ghost predicate Answers(sql: Sql, columns: seq<string>, e: Event, c: Cluster)
    requires e.GetData? && e.result.Ok?
  {
    Filter(sql, columns, e.q, Rows(e.result.value)) == Filter(sql, columns, e.q, Scan(c))
  }

  /** In every run each answer filters to the scan of a cluster the table has
      looked at, however it was produced. */
  lemma RunAnswers(sql: Sql, columns: seq<string>, states: seq<State>, events: seq<Event>, i: nat)
    requires sql.Lawful() && IsRun(sql, columns, states, events)
    requires forall e :: e in events && e.GetData? ==> SafeIds(e.cluster)
    requires i < |events| && events[i].GetData? && events[i].result.Ok?
    ensures exists c :: SeenBefore(events, i + 1, c) && Answers(sql, columns, events[i], c)
  {
    var e := events[i];
    RunInv(sql, columns, states, events, i);
    EntryPresent(sql, columns, states[i], e, states[i + 1]);
    RunOrigins(sql, columns, states, events, i + 1, e.key);
    GetDataAnswers(sql, columns, states[i], e, states[i + 1]);
    assert Answers(sql, columns, e, states[i + 1].cache[e.key].origin);
  }

  /** While the nodes' tables stay fixed, every answer of every run filters to
      what scanning all nodes filters to. */
  lemma FixedClusterAnswers(
      sql: Sql, columns: seq<string>, states: seq<State>, events: seq<Event>, cluster: Cluster, i: nat)
    requires sql.Lawful() && IsRun(sql, columns, states, events)
    requires SafeIds(cluster) && forall e :: e in events && e.GetData? ==> e.cluster == cluster
    requires i < |events| && events[i].GetData? && events[i].result.Ok?
    ensures Answers(sql, columns, events[i], cluster)
  {
    RunAnswers(sql, columns, states, events, i);
    var c :| SeenBefore(events, i + 1, c) && Answers(sql, columns, events[i], c);
    assert c == cluster;
  }

  /** The call contacts the cluster: node selection succeeds and its key is not cached. */
  ghost predicate Contacts(sql: Sql, s: State, e: Event) {
    e.GetData? && Selectable(sql, e.cluster, e.q, s.Allow()) && e.key !in s.cache
  }

  /** The calls between two points of a run that contact the cluster. */
  ghost function Fetches(sql: Sql, states: seq<State>, events: seq<Event>, lo: nat, hi: nat): nat
    requires lo <= hi <= |events| && |states| == |events| + 1
  {
    if lo == hi then 0
    else Fetches(sql, states, events, lo, hi - 1) + if Contacts(sql, states[hi - 1], events[hi - 1]) then 1 else 0
  }

  lemma ContactIsCounted(sql: Sql, columns: seq<string>, s: State, e: Event, s': State)
    requires Next(sql, columns, s, e, s') && !e.NewQuery?
    ensures s'.numFetches == s.numFetches + if Contacts(sql, s, e) then 1 else 0
  {
  }

  lemma StepIsCounted(sql: Sql, columns: seq<string>, states: seq<State>, events: seq<Event>, i: nat)
    requires IsRun(sql, columns, states, events) && i < |events| && !events[i].NewQuery?
    ensures states[i + 1].numFetches == states[i].numFetches + if Contacts(sql, states[i], events[i]) then 1 else 0
  {
    ContactIsCounted(sql, columns, states[i], events[i], states[i + 1]);
  }

  /** Within one query the counter counts exactly these calls. */
  lemma {:induction false} FetchesAreCounted(
      sql: Sql, columns: seq<string>, states: seq<State>, events: seq<Event>, lo: nat, hi: nat)
    requires IsRun(sql, columns, states, events) && lo <= hi < |states|
    requires forall i :: lo <= i < hi ==> !events[i].NewQuery?
    ensures states[hi].numFetches == states[lo].numFetches + Fetches(sql, states, events, lo, hi)
  {
    if lo < hi {
      FetchesAreCounted(sql, columns, states, events, lo, hi - 1);
      StepIsCounted(sql, columns, states, events, hi - 1);
    }
  }

  /** However many calls are made within one query, the cluster is contacted at
      most MAX_FETCHES + 2 times. */
  lemma FetchBound(sql: Sql, columns: seq<string>, states: seq<State>, events: seq<Event>, lo: nat, hi: nat)
    requires IsRun(sql, columns, states, events) && lo <= hi < |states|
    requires forall i :: lo <= i < hi ==> !events[i].NewQuery?
    ensures Fetches(sql, states, events, lo, hi) <= MAX_FETCHES + 2 == 7
  {
    FetchesAreCounted(sql, columns, states, events, lo, hi);
    RunInv(sql, columns, states, events, hi);
  }

  /** `node_id >= k`, which no index serves. */
  ghost function Probe(k: nat): ConstraintMap {
    map[0 := [Constraint(Ge, Some(Decimal.Digits(k)))]]
  }

  ghost predicate OnlyProbes(s: State, k: nat) {
    forall key :: key in s.cache ==> exists j: nat :: j < k && key == Probe(j)
  }

  lemma ProbesDiffer(j: nat, k: nat)
    requires j != k
    ensures Probe(j) != Probe(k) && Probe(j) != map[]
  {
    Decimal.ValueOfDigits(j);
    Decimal.ValueOfDigits(k);
    assert Probe(j)[0][0] != Probe(k)[0][0];
  }

  lemma ProbeIsNew(s: State, k: nat)
    requires OnlyProbes(s, k)
    ensures Probe(k) !in s.cache && map[] !in s.cache
  {
    forall j: nat | j < k
      ensures Probe(j) != Probe(k) && Probe(j) != map[]
    {
      ProbesDiffer(j, k);
    }
  }

  ghost function EmptyNode(): (c: Cluster)
    ensures ValidCluster(c) && c != []
  {
    var n := Node(0, map[]);
    assert Rect(n.table, 0);
    [n]
  }

  lemma ProbeKey(sql: Sql, k: nat, allow: bool)
    requires sql.Lawful() && k <= INT_MAX
    ensures Selectable(sql, EmptyNode(), Probe(k), allow)
    ensures IsUsedKey(EmptyNode(), Probe(k), allow, if allow then Probe(k) else map[])
  {
    assert UsableAt(Probe(k)[0]) == {0};
  }

  lemma ProbeNext(sql: Sql, columns: seq<string>, s: State, q: ConstraintMap, key: ConstraintMap) returns (e: Event)
    requires Selectable(sql, EmptyNode(), q, s.Allow()) && IsUsedKey(EmptyNode(), q, s.Allow(), key)
    requires MayPick(q, None) && key !in s.cache
    ensures e.GetData? && Next(sql, columns, s, e, Refilled(sql, s, EmptyNode(), key, 0))
  {
    var s' := Refilled(sql, s, EmptyNode(), key, 0);
    var entry := s'.cache[key];
    FetchedOk(sql, columns, key, EmptyNode(), 0);
    e := Event.GetData(EmptyNode(), q, 0, key, Ok(entry.data));
    assert Lookup(q, None) == None;
    assert s'.cache == s'.cache[key := entry];
  }

  /** One more probe of a cluster of one empty node fetches again. */
  lemma ProbeStep(sql: Sql, columns: seq<string>, s: State, k: nat) returns (e: Event, s': State)
    requires sql.Lawful() && s.filtering && k <= MAX_FETCHES + 1 && k == s.numFetches
    requires OnlyProbes(s, k)
    ensures !e.NewQuery? && Next(sql, columns, s, e, s')
    ensures s'.filtering && s'.numFetches == k + 1
    ensures k <= MAX_FETCHES ==> OnlyProbes(s', k + 1)
  {
    var key: ConstraintMap := if s.Allow() then Probe(k) else map[];
    ProbeIsNew(s, k);
    ProbeKey(sql, k, s.Allow());
    e := ProbeNext(sql, columns, s, Probe(k), key);
    s' := Refilled(sql, s, EmptyNode(), key, 0);
  }

  lemma RunAppend(sql: Sql, columns: seq<string>, states: seq<State>, events: seq<Event>, e: Event, s: State)
    requires IsRun(sql, columns, states, events)
    requires Next(sql, columns, states[|events|], e, s)
    ensures IsRun(sql, columns, states + [s], events + [e])
  {
  }

  /** The bound is attained: filtering is only given up after MAX_FETCHES + 1
      fetches, and one unfiltered fetch follows. */
  lemma {:induction false} FetchBoundAttained(sql: Sql, columns: seq<string>, k: nat)
      returns (states: seq<State>, events: seq<Event>)
    requires sql.Lawful() && ValidColumns(columns) && k <= MAX_FETCHES + 2
    ensures IsRun(sql, columns, states, events) && |events| == k
    ensures forall i :: 0 <= i < k ==> !events[i].NewQuery?
    ensures states[k].filtering && states[k].numFetches == k == Fetches(sql, states, events, 0, k)
    ensures k <= MAX_FETCHES + 1 ==> OnlyProbes(states[k], k)
  {
    if k == 0 {
      states, events := [INITIAL], [];
    } else {
      states, events := FetchBoundAttained(sql, columns, k - 1);
      var e, s := ProbeStep(sql, columns, states[k - 1], k - 1);
      RunAppend(sql, columns, states, events, e, s);
      states, events := states + [s], events + [e];
      FetchesAreCounted(sql, columns, states, events, 0, k);
    }
  }

  // ---------------------------------------------------------------- the object

  class AdminCommandTable {
    const sql: Sql
    const columns: seq<string>
    var cache: map<ConstraintMap, Entry>
    var numFetches: nat
    var ttl: nat
    var filtering: bool

    ghost function Abs(): State
      reads this
    {
      State(cache, numFetches, ttl, filtering)
    }

    ghost predicate Valid()
      reads this
    {
      Inv(sql, columns, Abs()) && FetchInv(Abs())
    }

    constructor (sql: Sql, fetchable: seq<string>)
      ensures Valid() && Abs() == INITIAL
      ensures this.sql == sql && columns == [NODE_ID_COLUMN] + fetchable
    {
      this.sql := sql;
      columns := [NODE_ID_COLUMN] + fetchable;
      cache, numFetches, ttl, filtering := map[], 0, 0, true;
    }

    method SetCacheTtl(newTtl: nat)
      requires Valid()
      modifies this
      ensures Valid() && Next(sql, columns, old(Abs()), Event.SetCacheTtl(newTtl), Abs())
      ensures ttl == newTtl && cache == old(cache) && numFetches == old(numFetches) && filtering == old(filtering)
    {
      ttl := newTtl;
    }

    method EnableServerSideFiltering(val: bool)
      requires Valid()
      modifies this
      ensures Valid() && Next(sql, columns, old(Abs()), EnableFiltering(val), Abs())
      ensures filtering == val && cache == old(cache) && numFetches == old(numFetches) && ttl == old(ttl)
    {
      filtering := val;
    }

    method AllowServerSideFiltering() returns (allow: bool)
      ensures allow == Abs().Allow()
    {
      allow := filtering && numFetches <= MAX_FETCHES;
    }

    /** `newQuery`: drops the entries that have outlived the TTL. */
    method NewQuery(now: nat, isValid: (nat, nat, nat) -> bool)
      requires Valid()
      modifies this
      ensures Valid() && Next(sql, columns, old(Abs()), Event.NewQuery(now, isValid), Abs())
      ensures forall k :: k in cache <==> k in old(cache) && isValid(old(cache)[k].created, now, ttl)
      ensures forall k :: k in cache ==> cache[k] == old(cache)[k]
      ensures numFetches == 0 && ttl == old(ttl) && filtering == old(filtering)
    {
      ghost var s := Abs();
      cache := Evict(cache, now, ttl, isValid);
      numFetches := 0;
      NextInv(sql, columns, s, Event.NewQuery(now, isValid), Abs());
    }

    static method Evict(entries: map<ConstraintMap, Entry>, now: nat, ttl: nat, isValid: (nat, nat, nat) -> bool)
        returns (kept: map<ConstraintMap, Entry>)
      ensures kept == map k | k in entries && isValid(entries[k].created, now, ttl) :: entries[k]
    {
      kept := entries;
      var todo := entries.Keys;
      while todo != {}
        invariant todo <= entries.Keys
        invariant forall k :: k in kept <==> k in entries && (k in todo || isValid(entries[k].created, now, ttl))
        invariant forall k :: k in kept ==> kept[k] == entries[k]
      {
        var key := Pick(todo);
        if !isValid(kept[key].created, now, ttl) {
          kept := kept - {key};
        }
        todo := todo - {key};
      }
    }

    /** The answers of the selected nodes with the `node_id` column added. */
    method AddNodeIds(nodes: Cluster) returns (results: seq<Table>)
      requires ValidCluster(nodes)
      ensures results == NodeTables(nodes)
    {
      results := [];
      for i := 0 to |nodes|
        invariant |results| == i
        invariant forall k :: 0 <= k < i ==> results[k] == NodeTable(nodes[k])
      {
        var t := nodes[i].table;
        assert nodes[i] in nodes;
        if t != map[] {
          var rows := CountRows(t);
          t := t[NODE_ID_COLUMN := seq(rows, _ => Some(Decimal.Digits(nodes[i].id)))];
        }
        results := results + [t];
      }
    }

    /** Contacts the selected nodes and merges their answers. */
    method Fetch(nodes: Cluster, ghost key: ConstraintMap, ghost cluster: Cluster) returns (data: Table)
      requires ValidCluster(cluster) && nodes == Selected(sql, key, cluster)
      ensures data == Fetched(sql, key, cluster, 0).data
    {
      SelectedIsValid(sql, key, cluster);
      SelectedTables(sql, key, cluster);
      var results := AddNodeIds(nodes);
      data := Aggregate(results);
    }

    /** `refillCache`: makes sure an entry for the used constraints is present. */
    method RefillCache(cluster: Cluster, q: ConstraintMap, now: nat)
        returns (r: Result<(), Error>, key: ConstraintMap)
      requires Valid() && ValidCluster(cluster)
      modifies this
      ensures r.Ok? <==> Selectable(sql, cluster, q, old(Abs()).Allow())
      ensures r.Err? ==> Abs() == old(Abs()) && r.error == BadNodeId
      ensures r.Ok? ==>
                && IsUsedKey(cluster, q, old(Abs()).Allow(), key)
                && Abs() == Refilled(sql, old(Abs()), cluster, key, now)
    {
      var allow := AllowServerSideFiltering();
      var selected;
      selected, key := SelectNodes(sql, cluster, q, allow);
      if selected.Err? {
        return Err(selected.error), key;
      }
      if key in cache {
        return Ok(()), key;
      }
      var data := Fetch(selected.value, key, cluster);
      cache := cache[key := Entry(data, map[], now, cluster)];
      numFetches := numFetches + 1;
      r := Ok(());
    }

    /** `findIndexableConstraint`, over the columns in hash order. */
    method FindIndexable(q: ConstraintMap) returns (pick: Option<int>)
      ensures MayPick(q, pick)
    {
      var todo := q.Keys;
      while todo != {}
        invariant todo <= q.Keys
        invariant forall col :: col in q && col !in todo ==> FirstEq(q[col]).None?
      {
        var col := Pick(todo);
        if FirstEq(q[col]).Some? {
          return Some(col);
        }
        todo := todo - {col};
      }
      pick := None;
    }

    /** Serves from an entry, building the index first if need be. */
    method ServeFrom(key: ConstraintMap, q: ConstraintMap) returns (r: Result<Table, Error>)
      requires key in cache && IndexesOk(columns, cache[key])
      modifies this`cache
      ensures exists pick ::
                && MayPick(q, pick)
                && cache == old(cache)[key := Served(columns, old(cache)[key], Lookup(q, pick))]
                && r == Answer(columns, old(cache)[key], Lookup(q, pick))
    {
      var e := cache[key];
      assert cache == cache[key := e];
      var pick := FindIndexable(q);
      if pick.None? {
        return Ok(e.data);
      }
      var col := pick.value;
      var c := FirstEq(q[col]).value;
      if c.expr.None? {
        return Ok(e.data);
      }
      var v := c.expr.value;
      if col !in e.indices {
        if !(0 <= col < |columns|) {
          return Err(BadColumn);  // hs_check
        }
        var idx := BuildIndex(e.data, columns[col]);
        e := e.(indices := e.indices[col := idx]);
        cache := cache[key := e];
      }
      IndexedPositions(columns, old(cache)[key], col, v);
      if v !in e.indices[col] {
        return Ok(map[]);
      }
      var t := Gather(e.data, e.indices[col][v]);
      r := Ok(t);
    }

    /** `getData`. */
    method GetData(cluster: Cluster, q: ConstraintMap, now: nat)
        returns (r: Result<Table, Error>, key: ConstraintMap)
      requires Valid() && ValidCluster(cluster)
      modifies this
      ensures Valid()
      ensures Next(sql, columns, old(Abs()), Event.GetData(cluster, q, now, key, r), Abs())
      ensures r.Ok? ==> key in cache
      ensures r.Ok? && sql.Lawful() && SafeIds(cache[key].origin) ==>
                Filter(sql, columns, q, Rows(r.value)) == Filter(sql, columns, q, Scan(cache[key].origin))
      ensures r.Ok? && key !in old(cache) ==> cache[key].origin == cluster
    {
      ghost var s := Abs();
      var refill;
      refill, key := RefillCache(cluster, q, now);
      if refill.Err? {
        return Err(refill.error), key;
      }
      RefilledInv(sql, columns, s, cluster, key, now);
      assert key in cache;  // hs_check
      r := ServeFrom(key, q);
      ghost var e := Event.GetData(cluster, q, now, key, r);
      assert GetDataStep(sql, columns, s, e, Abs());
      NextInv(sql, columns, s, e, Abs());
      NextFetchInv(sql, columns, s, e, Abs());
      if r.Ok? {
        EntryPresent(sql, columns, s, e, Abs());
        if sql.Lawful() && SafeIds(cache[key].origin) {
          GetDataAnswers(sql, columns, s, e, Abs());
        }
      }
    }
  }
}
