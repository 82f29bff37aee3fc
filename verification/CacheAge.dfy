/** How long cached data lives: over whole runs, every entry is as old as the call
    that fetched it, and `newQuery` drops exactly the entries that are too old. */
module CacheAge {
  import opened Wrappers
  import opened Tables
  import opened NodeSelection
  import opened Pushdown
  import opened Indexing
  import opened AdminCache
  import opened AdminTable

  /** The entry is the same apart from indexes built since. */
  ghost predicate SameData(a: Entry, b: Entry) {
    a.data == b.data && a.created == b.created && a.origin == b.origin
  }

  /** The entry under key in state i was fetched by call j, at the time of that call,
      and has been in the cache ever since. */
  ghost predicate FetchedBy(sql: Sql, states: seq<State>, events: seq<Event>, i: nat, key: ConstraintMap, j: nat)
    requires |states| == |events| + 1 && i < |states| && key in states[i].cache
  {
    && j < i && Contacts(sql, states[j], events[j]) && events[j].key == key
    && states[i].cache[key].created == events[j].now && states[i].cache[key].origin == events[j].cluster
    && forall m :: j < m <= i ==> key in states[m].cache && SameData(states[m].cache[key], states[i].cache[key])
  }

  /** A call leaves every cached entry in place and fetches at most the one it asks for. */
  lemma CallKeepsEntries(sql: Sql, columns: seq<string>, s: State, e: Event, s': State, key: ConstraintMap)
    requires Next(sql, columns, s, e, s') && e.GetData?
    ensures key in s.cache ==> key in s'.cache && SameData(s'.cache[key], s.cache[key])
    ensures key in s'.cache && key !in s.cache ==>
              && Contacts(sql, s, e) && e.key == key
              && s'.cache[key].created == e.now && s'.cache[key].origin == e.cluster
    ensures s'.ttl == s.ttl && s'.filtering == s.filtering
  {
  }

  /** Whatever the step, an entry it leaves was there before or has just been fetched. */
  lemma EntryStep(sql: Sql, columns: seq<string>, s: State, e: Event, s': State, key: ConstraintMap)
    requires Next(sql, columns, s, e, s') && key in s'.cache
    ensures key in s.cache ==> SameData(s'.cache[key], s.cache[key])
    ensures key !in s.cache ==>
              && e.GetData? && Contacts(sql, s, e) && e.key == key
              && s'.cache[key].created == e.now && s'.cache[key].origin == e.cluster
  {
    if e.GetData? {
      CallKeepsEntries(sql, columns, s, e, s', key);
    }
  }

  lemma {:induction false} EntryIsFetched(
      sql: Sql, columns: seq<string>, states: seq<State>, events: seq<Event>, i: nat, key: ConstraintMap)
      returns (j: nat)
    requires IsRun(sql, columns, states, events) && i < |states| && key in states[i].cache
    ensures FetchedBy(sql, states, events, i, key, j)
  {
    RunEntryStep(sql, columns, states, events, i, key);
    if key in states[i - 1].cache {
      j := EntryIsFetched(sql, columns, states, events, i - 1, key);
    } else {
      j := i - 1;
    }
  }

  lemma RunEntryStep(sql: Sql, columns: seq<string>, states: seq<State>, events: seq<Event>, i: nat, key: ConstraintMap)
    requires IsRun(sql, columns, states, events) && i < |states| && key in states[i].cache
    ensures i > 0
    ensures key in states[i - 1].cache ==> SameData(states[i].cache[key], states[i - 1].cache[key])
    ensures key !in states[i - 1].cache ==>
              && events[i - 1].GetData? && Contacts(sql, states[i - 1], events[i - 1]) && events[i - 1].key == key
              && states[i].cache[key].created == events[i - 1].now
              && states[i].cache[key].origin == events[i - 1].cluster
  {
    assert states[0].cache == map[];
    EntryStep(sql, columns, states[i - 1], events[i - 1], states[i], key);
  }

  /** Everything a new query does to the cache and the counters. */
  lemma NewQueryEvicts(sql: Sql, columns: seq<string>, s: State, e: Event, s': State, key: ConstraintMap)
    requires Next(sql, columns, s, e, s') && e.NewQuery?
    ensures key in s'.cache <==> key in s.cache && e.isValid(s.cache[key].created, e.now, s.ttl)
    ensures key in s'.cache ==> s'.cache[key] == s.cache[key]
    ensures s'.numFetches == 0 && s'.ttl == s.ttl && s'.filtering == s.filtering
  {
  }

  /** In every run, an entry is in the cache right after a new query if and only if it
      was there before and the time of the call that fetched it is still valid under
      the TTL; it is then unchanged. */
  lemma EvictedIff(sql: Sql, columns: seq<string>, states: seq<State>, events: seq<Event>, i: nat, key: ConstraintMap)
      returns (j: nat)
    requires IsRun(sql, columns, states, events) && i < |events| && events[i].NewQuery? && key in states[i].cache
    ensures FetchedBy(sql, states, events, i, key, j)
    ensures key in states[i + 1].cache <==>
            events[i].isValid(events[j].now, events[i].now, states[i].ttl)
    ensures key in states[i + 1].cache ==> states[i + 1].cache[key] == states[i].cache[key]
  {
    j := EntryIsFetched(sql, columns, states, events, i, key);
    NewQueryEvicts(sql, columns, states[i], events[i], states[i + 1], key);
  }

  /** A new query adds nothing to the cache. */
  lemma NothingAppears(sql: Sql, columns: seq<string>, states: seq<State>, events: seq<Event>, i: nat, key: ConstraintMap)
    requires IsRun(sql, columns, states, events) && i < |events| && events[i].NewQuery?
    requires key in states[i + 1].cache
    ensures key in states[i].cache
  {
    NewQueryEvicts(sql, columns, states[i], events[i], states[i + 1], key);
  }

  /** The TTL set by the last `setCacheTTL` of the first i events, zero without one. */
  function TtlAfter(events: seq<Event>, i: nat): nat
    requires i <= |events|
  {
    if i == 0 then 0
    else if events[i - 1].SetCacheTtl? then events[i - 1].ttl
    else TtlAfter(events, i - 1)
  }

  lemma {:induction false} TtlIsLastSet(sql: Sql, columns: seq<string>, states: seq<State>, events: seq<Event>, i: nat)
    requires IsRun(sql, columns, states, events) && i < |states|
    ensures states[i].ttl == TtlAfter(events, i)
  {
    if i > 0 {
      TtlIsLastSet(sql, columns, states, events, i - 1);
      if events[i - 1].GetData? {
        CallKeepsEntries(sql, columns, states[i - 1], events[i - 1], states[i], map[]);
      }
    }
  }

  /** So an answer is never served from data that was too old when the query began:
      the entry a call is answered from was fetched after the last new query, or was
      valid then under the TTL in force. */
  lemma ServedDataIsFresh(
      sql: Sql, columns: seq<string>, states: seq<State>, events: seq<Event>, i: nat, q: nat) returns (j: nat)
    requires IsRun(sql, columns, states, events) && q < i < |events|
    requires events[q].NewQuery? && forall m :: q < m < i ==> !events[m].NewQuery?
    requires events[i].GetData? && events[i].result.Ok?
    ensures j <= i && events[j].GetData? && events[j].key == events[i].key
    ensures events[i].key in states[i + 1].cache && states[i + 1].cache[events[i].key].created == events[j].now
    ensures j > q || events[q].isValid(events[j].now, events[q].now, TtlAfter(events, q))
  {
    var key := events[i].key;
    EntryPresent(sql, columns, states[i], events[i], states[i + 1]);
    j := EntryIsFetched(sql, columns, states, events, i + 1, key);
    if j <= q {
      assert key in states[q].cache && key in states[q + 1].cache;
      NewQueryEvicts(sql, columns, states[q], events[q], states[q + 1], key);
      TtlIsLastSet(sql, columns, states, events, q);
      assert SameData(states[q + 1].cache[key], states[i + 1].cache[key]);
    }
  }

  // ------------------------------------------------ indexes

  /** A call keeps the indexes of every entry. */
  lemma IndexesStay(sql: Sql, columns: seq<string>, s: State, e: Event, s': State, key: ConstraintMap, col: int)
    requires Next(sql, columns, s, e, s') && e.GetData? && key in s.cache && col in s.cache[key].indices
    ensures key in s'.cache && col in s'.cache[key].indices && s'.cache[key].indices[col] == s.cache[key].indices[col]
  {
  }

  /** Every equality of the query compares a known column with a value. */
  ghost predicate Indexable(columns: seq<string>, q: ConstraintMap) {
    && (exists col :: col in q && FirstEq(q[col]).Some?)
    && forall col :: col in q && FirstEq(q[col]).Some? ==> 0 <= col < |columns| && FirstEq(q[col]).value.expr.Some?
  }

  /** The column a call looked at, and the entry it was served from. */
  lemma LookedAt(sql: Sql, columns: seq<string>, s: State, e: Event, s': State) returns (pick: Option<int>, entry: Entry)
    requires Next(sql, columns, s, e, s') && e.GetData? && e.result.Ok?
    ensures MayPick(e.q, pick) && IndexesOk(columns, entry)
    ensures e.result == Answer(columns, entry, Lookup(e.q, pick))
    ensures e.key in s'.cache && s'.cache[e.key] == Served(columns, entry, Lookup(e.q, pick))
  {
    var s1 := Refilled(sql, s, e.cluster, e.key, e.now);
    entry := s1.cache[e.key];
    pick :| MayPick(e.q, pick) &&
            s' == s1.(cache := s1.cache[e.key := Served(columns, s1.cache[e.key], Lookup(e.q, pick))]) &&
            e.result == Answer(columns, s1.cache[e.key], Lookup(e.q, pick));
  }

  /** Such a query is answered through the index of one of its columns, which is in the
      entry afterwards: every row of the answer has the value in that column. */
  lemma IndexIsUsed(sql: Sql, columns: seq<string>, s: State, e: Event, s': State) returns (col: int)
    requires Next(sql, columns, s, e, s') && e.GetData? && e.result.Ok? && Indexable(columns, e.q)
    ensures col in e.q && FirstEq(e.q[col]).Some? && 0 <= col < |columns|
    ensures e.key in s'.cache && col in s'.cache[e.key].indices
    ensures forall i :: 0 <= i < |Rows(e.result.value)| ==>
              CellOf(Rows(e.result.value)[i], columns[col]) == FirstEq(e.q[col]).value.expr
  {
    var pick, entry := LookedAt(sql, columns, s, e, s');
    col := pick.value;
    AnswerHasValue(columns, entry, col, FirstEq(e.q[col]).value.expr.value);
  }

  lemma AnswerHasValue(columns: seq<string>, e: Entry, col: int, v: string)
    requires IndexesOk(columns, e) && 0 <= col < |columns|
    ensures var r := Answer(columns, e, Some((col, v)));
            r.Ok? && forall i :: 0 <= i < |Rows(r.value)| ==> CellOf(Rows(r.value)[i], columns[col]) == Some(v)
  {
    var idx := WithIndex(columns, e, col).indices[col];
    IndexedPositions(columns, e, col, v);
    if v in idx {
      var t := GatherTable(e.data, idx[v]);
      assert Rect(t, |idx[v]|);
      PositionsExact(e.data[columns[col]], v);
      GatheredValues(e.data[columns[col]], idx[v], v);
    } else {
      assert Rect(map[], 0);
    }
  }

  lemma GatheredValues(cells: seq<Cell>, ps: seq<nat>, v: string)
    requires forall p :: p in ps ==> p < |cells| && cells[p] == Some(v)
    ensures |Gathered(cells, ps)| == |ps| && forall i :: 0 <= i < |ps| ==> Gathered(cells, ps)[i] == Some(v)
  {
    assert forall i :: 0 <= i < |ps| ==> ps[i] in ps;
  }
}
