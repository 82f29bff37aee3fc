/** Time-series queries over the per-thread maps: one key, and all keys at once. */
module TimeSeries {
  import opened Wrappers

  /** A thread's entries; the queried series of an entry may not exist yet. */
  type SeriesMap<S> = map<string, Option<S>>

  /** A rate over an interval at the fixed time of the query, and the addition of
      the result type, about which nothing is assumed. */
  datatype Arithmetic<!S, !D> = Arithmetic(zero: D, plus: (D, D) -> D, rate: (S, int) -> D)

  predicate Has<S>(m: SeriesMap<S>, key: string) {
    key in m && m[key].Some?
  }

  function AddRates<S, D>(a: Arithmetic<S, D>, vals: seq<D>, series: S, intervals: seq<int>): (r: seq<D>)
    requires |vals| == |intervals|
    ensures |r| == |vals|
  {
    seq(|vals|, i requires 0 <= i < |vals| => a.plus(vals[i], a.rate(series, intervals[i])))
  }

  /** Each thread's rates for the key added up in visiting order, from start. */
  function Rates<S, D>(
      a: Arithmetic<S, D>, maps: seq<SeriesMap<S>>, key: string, intervals: seq<int>, start: seq<D>): (r: seq<D>)
    requires |start| == |intervals|
    ensures |r| == |intervals|
  {
    if maps == [] then start
    else
      var n := |maps| - 1;
      var before := Rates(a, maps[..n], key, intervals, start);
      if Has(maps[n], key) then AddRates(a, before, maps[n][key].value, intervals) else before
  }

  ghost predicate Present<S>(maps: seq<SeriesMap<S>>, key: string) {
    exists j :: 0 <= j < |maps| && Has(maps[j], key)
  }

  lemma PresentStep<S>(maps: seq<SeriesMap<S>>, n: nat, key: string)
    requires n < |maps|
    ensures Present(maps[..n + 1], key) <==> Present(maps[..n], key) || Has(maps[n], key)
  {
    if Present(maps[..n], key) {
      var j :| 0 <= j < n && Has(maps[..n][j], key);
      assert Has(maps[..n + 1][j], key);
    }
    if Has(maps[n], key) {
      assert Has(maps[..n + 1][n], key);
    }
  }

  /** The interval loop. */
  method Accumulate<S, D>(a: Arithmetic<S, D>, vals: seq<D>, series: S, intervals: seq<int>) returns (r: seq<D>)
    requires |vals| == |intervals|
    ensures r == AddRates(a, vals, series, intervals)
  {
    r := vals;
    for i := 0 to |intervals|
      invariant |r| == |vals|
      invariant forall k :: 0 <= k < |vals| ==> r[k] == if k < i then AddRates(a, vals, series, intervals)[k] else vals[k]
    {
      r := r[i := a.plus(r[i], a.rate(series, intervals[i]))];
    }
  }

  /** `perXTimeSeriesGet` on one thread's map: entries come in hash order, those
      without the series are passed over, and the key's own entry ends the loop. */
  method GetFromOne<S, D>(a: Arithmetic<S, D>, m: SeriesMap<S>, key: string, intervals: seq<int>, vals: seq<D>)
      returns (hit: bool, r: seq<D>)
    requires |vals| == |intervals|
    ensures hit <==> Has(m, key)
    ensures r == if Has(m, key) then AddRates(a, vals, m[key].value, intervals) else vals
  {
    hit, r := false, vals;
    var todo := m.Keys;
    while todo != {}
      invariant todo <= m.Keys && !hit && r == vals
      invariant Has(m, key) ==> key in todo
    {
      var name := Pick(todo);
      todo := todo - {name};
      var series := m[name];
      if series.None? {
        continue;
      }
      if name == key {
        r := Accumulate(a, vals, series.value, intervals);
        hit := true;
        break;
      }
    }
  }

  /** `perXTimeSeriesGet` over the dead threads' map and every live one. */
  method TimeSeriesGet<S, D>(
      a: Arithmetic<S, D>, maps: seq<SeriesMap<S>>, key: string, intervals: seq<int>, buffer: seq<D>)
      returns (found: bool, vals: seq<D>)
    requires |buffer| == |intervals|
    ensures found <==> Present(maps, key)
    ensures vals == Rates(a, maps, key, intervals, buffer)
  {
    found, vals := false, buffer;
    for n := 0 to |maps|
      invariant found <==> Present(maps[..n], key)
      invariant vals == Rates(a, maps[..n], key, intervals, buffer)
    {
      var hit;
      hit, vals := GetFromOne(a, maps[n], key, intervals, vals);
      if hit {
        found := true;
      }
      PresentStep(maps, n, key);
      assert maps[..n + 1][..n] == maps[..n];
    }
    assert maps[..|maps|] == maps;
  }

  function Zeros<D>(zero: D, n: nat): (r: seq<D>)
    ensures |r| == n
  {
    seq(n, _ => zero)
  }

  /** out holds, for every key present in maps, its rates from zero. */
  ghost predicate IsGetAll<S, D>(a: Arithmetic<S, D>, maps: seq<SeriesMap<S>>, intervals: seq<int>, out: map<string, seq<D>>) {
    && (forall key :: key in out <==> Present(maps, key))
    && (forall key :: key in out ==>
          out[key] == Rates(a, maps, key, intervals, Zeros(a.zero, |intervals|)))
  }

  lemma {:induction false} AbsentRates<S, D>(
      a: Arithmetic<S, D>, maps: seq<SeriesMap<S>>, key: string, intervals: seq<int>, start: seq<D>)
    requires |start| == |intervals| && !Present(maps, key)
    ensures Rates(a, maps, key, intervals, start) == start
  {
    if maps != [] {
      var n := |maps| - 1;
      assert maps[..n + 1] == maps;
      PresentStep(maps, n, key);
      AbsentRates(a, maps[..n], key, intervals, start);
    }
  }

  function EntryOf<D>(zero: D, out: map<string, seq<D>>, key: string, n: nat): seq<D> {
    if key in out then out[key] else Zeros(zero, n)
  }

  /** A key's entry after one thread's map. */
  function Merged<S, D>(
      a: Arithmetic<S, D>, m: SeriesMap<S>, key: string, intervals: seq<int>, before: map<string, seq<D>>): seq<D>
    requires key in before ==> |before[key]| == |intervals|
  {
    var e := EntryOf(a.zero, before, key, |intervals|);
    if Has(m, key) then AddRates(a, e, m[key].value, intervals) else e
  }

  /** `perXTimeSeriesGetall` on one thread's map. */
  method GetAllFromOne<S, D>(a: Arithmetic<S, D>, m: SeriesMap<S>, intervals: seq<int>, before: map<string, seq<D>>)
      returns (out: map<string, seq<D>>)
    requires forall key :: key in before ==> |before[key]| == |intervals|
    ensures forall key :: key in out <==> key in before || Has(m, key)
    ensures forall key :: key in out ==> out[key] == Merged(a, m, key, intervals, before)
  {
    out := before;
    var todo := m.Keys;
    while todo != {}
      invariant todo <= m.Keys
      invariant forall key :: key in out <==> key in before || (Has(m, key) && key !in todo)
      invariant forall key :: key in out ==> |out[key]| == |intervals|
      invariant forall key :: key in out && key in todo ==> out[key] == before[key]
      invariant forall key :: key in out && key !in todo ==> out[key] == Merged(a, m, key, intervals, before)
    {
      var key := Pick(todo);
      todo := todo - {key};
      var series := m[key];
      if series.None? {
        continue;
      }
      var e := EntryOf(a.zero, out, key, |intervals|);
      assert e == EntryOf(a.zero, before, key, |intervals|);
      e := Accumulate(a, e, series.value, intervals);
      out := out[key := e];
    }
  }

  lemma GetAllStep<S, D>(
      a: Arithmetic<S, D>, maps: seq<SeriesMap<S>>, n: nat, intervals: seq<int>,
      before: map<string, seq<D>>, out: map<string, seq<D>>)
    requires n < |maps| && IsGetAll(a, maps[..n], intervals, before)
    requires forall key :: key in before ==> |before[key]| == |intervals|
    requires forall key :: key in out <==> key in before || Has(maps[n], key)
    requires forall key :: key in out ==> out[key] == Merged(a, maps[n], key, intervals, before)
    ensures IsGetAll(a, maps[..n + 1], intervals, out)
  {
    var zeros := Zeros(a.zero, |intervals|);
    assert maps[..n + 1][..n] == maps[..n];
    forall key: string
      ensures key in out <==> Present(maps[..n + 1], key)
      ensures EntryOf(a.zero, before, key, |intervals|) == Rates(a, maps[..n], key, intervals, zeros)
    {
      PresentStep(maps, n, key);
      if key !in before { AbsentRates(a, maps[..n], key, intervals, zeros); }
    }
  }

  /** `perXTimeSeriesGetall`. */
  method TimeSeriesGetAll<S, D>(a: Arithmetic<S, D>, maps: seq<SeriesMap<S>>, intervals: seq<int>)
      returns (out: map<string, seq<D>>)
    ensures IsGetAll(a, maps, intervals, out)
  {
    out := map[];
    for n := 0 to |maps|
      invariant IsGetAll(a, maps[..n], intervals, out)
    {
      var more := GetAllFromOne(a, maps[n], intervals, out);
      GetAllStep(a, maps, n, intervals, out, more);
      out := more;
    }
    assert maps[..|maps|] == maps;
  }

  /** With a zeroed buffer the single-key query succeeds exactly when the get-all
      result has the key, and then returns that key's entry. */
  method SingleMatchesAll<S, D>(a: Arithmetic<S, D>, maps: seq<SeriesMap<S>>, key: string, intervals: seq<int>)
      returns (found: bool, vals: seq<D>, out: map<string, seq<D>>)
    ensures found <==> key in out
    ensures found ==> vals == out[key]
  {
    found, vals := TimeSeriesGet(a, maps, key, intervals, Zeros(a.zero, |intervals|));
    out := TimeSeriesGetAll(a, maps, intervals);
  }

  // ------------------------------------------------ what the queries add up

  /** The key's rates over one interval, of the threads that have the series, in
      visiting order. */
  function RateList<S, D>(rate: (S, int) -> D, maps: seq<SeriesMap<S>>, key: string, interval: int): seq<D> {
    if maps == [] then []
    else
      (if key in maps[0] && maps[0][key].Some? then [rate(maps[0][key].value, interval)] else []) +
      RateList(rate, maps[1..], key, interval)
  }

  function FoldLeft<D>(plus: (D, D) -> D, start: D, xs: seq<D>): D {
    if xs == [] then start else FoldLeft(plus, plus(start, xs[0]), xs[1..])
  }

  lemma {:induction false} FoldLeftLast<D>(plus: (D, D) -> D, start: D, xs: seq<D>, x: D)
    ensures FoldLeft(plus, start, xs + [x]) == plus(FoldLeft(plus, start, xs), x)
  {
    if xs == [] {
      assert xs + [x] == [x];
    } else {
      assert (xs + [x])[1..] == xs[1..] + [x];
      FoldLeftLast(plus, plus(start, xs[0]), xs[1..], x);
    }
  }

  lemma {:induction false} RateListLast<S, D>(
      rate: (S, int) -> D, maps: seq<SeriesMap<S>>, m: SeriesMap<S>, key: string, interval: int)
    ensures RateList(rate, maps + [m], key, interval) ==
            RateList(rate, maps, key, interval) + if key in m && m[key].Some? then [rate(m[key].value, interval)] else []
  {
    if maps == [] {
      assert maps + [m] == [m];
    } else {
      assert (maps + [m])[1..] == maps[1..] + [m];
      RateListLast(rate, maps[1..], m, key, interval);
    }
  }

  /** Each value of the result is its start value with the rates added one by one. */
  lemma {:induction false} RatesAddUp<S, D>(
      a: Arithmetic<S, D>, maps: seq<SeriesMap<S>>, key: string, intervals: seq<int>, start: seq<D>, i: nat)
    requires |start| == |intervals| && i < |intervals|
    ensures Rates(a, maps, key, intervals, start)[i] ==
            FoldLeft(a.plus, start[i], RateList(a.rate, maps, key, intervals[i]))
  {
    if maps != [] {
      var n := |maps| - 1;
      RatesAddUp(a, maps[..n], key, intervals, start, i);
      assert maps == maps[..n] + [maps[n]];
      RateListLast(a.rate, maps[..n], maps[n], key, intervals[i]);
      var before := RateList(a.rate, maps[..n], key, intervals[i]);
      if Has(maps[n], key) {
        FoldLeftLast(a.plus, start[i], before, a.rate(maps[n][key].value, intervals[i]));
      } else {
        assert before + [] == before;
      }
    }
  }

  function Sum(xs: seq<int>): int {
    if xs == [] then 0 else xs[0] + Sum(xs[1..])
  }

  lemma {:induction false} FoldIsSum(start: int, xs: seq<int>)
    ensures FoldLeft((x, y) => x + y, start, xs) == start + Sum(xs)
    decreases xs
  {
    if xs != [] {
      FoldIsSum(start + xs[0], xs[1..]);
    }
  }

  /** Integer rates and their addition. */
  function Integers<S>(rate: (S, int) -> int): Arithmetic<S, int> {
    Arithmetic(0, (x, y) => x + y, rate)
  }

  /** With integers the single-key query adds, to each value of the buffer, the sum of
      the rates of all threads that have the series. */
  lemma SingleIsSum<S>(
      rate: (S, int) -> int, maps: seq<SeriesMap<S>>, key: string, intervals: seq<int>, buffer: seq<int>, i: nat)
    requires |buffer| == |intervals| && i < |intervals|
    ensures Rates(Integers(rate), maps, key, intervals, buffer)[i] ==
            buffer[i] + Sum(RateList(rate, maps, key, intervals[i]))
  {
    RatesAddUp(Integers(rate), maps, key, intervals, buffer, i);
    FoldIsSum(buffer[i], RateList(rate, maps, key, intervals[i]));
  }

  /** And get-all holds the sums themselves. */
  lemma AllAreSums<S>(
      rate: (S, int) -> int, maps: seq<SeriesMap<S>>, intervals: seq<int>, out: map<string, seq<int>>, key: string, i: nat)
    requires IsGetAll(Integers(rate), maps, intervals, out) && key in out && i < |intervals|
    ensures |out[key]| == |intervals| && out[key][i] == Sum(RateList(rate, maps, key, intervals[i]))
  {
    SingleIsSum(rate, maps, key, intervals, Zeros(0, |intervals|), i);
  }
}
