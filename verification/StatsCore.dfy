/** Per-thread counter maps and their aggregation. */
module StatsCore {
  import opened Wrappers

  /** How a stat is combined over threads. */
  datatype Agg = SUM | MAX

  /** The counters of one key, one per declared stat. */
  type Counters = seq<int>

  /** One thread's map from key to counters. */
  type Shard = map<string, Counters>

  ghost predicate Shaped(modes: seq<Agg>, sh: Shard) {
    forall k :: k in sh ==> |sh[k]| == |modes|
  }

  /** `aggregateStat`. */
  function AggregateStat(agg: Agg, out: int, x: int): int {
    match agg
    case SUM => out + x
    case MAX => if x > out then x else out
  }

  function Zeros(n: nat): (r: Counters)
    ensures |r| == n && forall i :: 0 <= i < n ==> r[i] == 0
  {
    seq(n, _ => 0)
  }

  /** The counters of a key, zero-initialised if it is new. */
  function CountersOf(modes: seq<Agg>, sh: Shard, k: string): Counters {
    if k in sh then sh[k] else Zeros(|modes|)
  }

  /** `PerXStats::aggregate`. */
  function AggregateCounters(modes: seq<Agg>, out: Counters, x: Counters): (r: Counters)
    requires |out| == |x| == |modes|
    ensures |r| == |modes|
  {
    seq(|modes|, i requires 0 <= i < |modes| => AggregateStat(modes[i], out[i], x[i]))
  }

  /** What aggregating other into this comes to, key by key. */
  ghost function Aggregated(modes: seq<Agg>, this_: Shard, other: Shard): (r: Shard)
    requires Shaped(modes, this_) && Shaped(modes, other)
    ensures Shaped(modes, r) && r.Keys == this_.Keys + other.Keys
  {
    map k | k in this_.Keys + other.Keys ::
      if k in other then AggregateCounters(modes, CountersOf(modes, this_, k), other[k]) else this_[k]
  }

  /** `aggregateCompoundStats` over a copy of the other map, in hash order. */
  method AggregateCompoundStats(modes: seq<Agg>, this_: Shard, other: Shard) returns (r: Shard)
    requires Shaped(modes, this_) && Shaped(modes, other)
    ensures r == Aggregated(modes, this_, other)
  {
    r := this_;
    var todo := other.Keys;
    while todo != {}
      invariant todo <= other.Keys
      invariant r.Keys == this_.Keys + (other.Keys - todo)
      invariant forall k :: k in r ==>
                  r[k] == if k in other && k !in todo
                          then AggregateCounters(modes, CountersOf(modes, this_, k), other[k])
                          else this_[k]
    {
      var key := Pick(todo);
      assert CountersOf(modes, r, key) == CountersOf(modes, this_, key);
      r := r[key := AggregateCounters(modes, CountersOf(modes, r, key), other[key])];
      todo := todo - {key};
    }
  }

  /** `PER_X_STAT_ADD` on a thread's own map. */
  function AddTo(modes: seq<Agg>, sh: Shard, k: string, i: nat, v: int): Shard
    requires i < |modes| && Shaped(modes, sh)
  {
    var c := CountersOf(modes, sh, k);
    sh[k := c[i := c[i] + v]]
  }

  /** `PER_X_STAT_SET`. */
  function SetIn(modes: seq<Agg>, sh: Shard, k: string, i: nat, v: int): Shard
    requires i < |modes| && Shaped(modes, sh)
  {
    var c := CountersOf(modes, sh, k);
    sh[k := c[i := v]]
  }

  /** What a map contributes to an aggregated counter. The aggregate starts at
      zero, so a MAX never falls below it. */
  function Contribution(modes: seq<Agg>, sh: Shard, k: string, i: nat): int
    requires i < |modes| && Shaped(modes, sh)
  {
    var v := CountersOf(modes, sh, k)[i];
    if modes[i] == MAX && v < 0 then 0 else v
  }

  /** Contributions combine like the counters. */
  lemma AggregatedContribution(modes: seq<Agg>, a: Shard, b: Shard, k: string, i: nat)
    requires i < |modes| && Shaped(modes, a) && Shaped(modes, b)
    ensures Contribution(modes, Aggregated(modes, a, b), k, i) ==
            AggregateStat(modes[i], Contribution(modes, a, k, i), Contribution(modes, b, k, i))
  {
  }

  /** The counter a map holds, zero if it has none. */
  function Counter(sh: Shard, k: string, i: nat): int
    requires k in sh ==> i < |sh[k]|
  {
    if k in sh then sh[k][i] else 0
  }

  /** A contribution is the counter itself, except that a negative MAX counts as zero. */
  lemma ContributionOf(modes: seq<Agg>, sh: Shard, k: string, i: nat)
    requires i < |modes| && Shaped(modes, sh)
    ensures modes[i] == SUM ==> Contribution(modes, sh, k, i) == Counter(sh, k, i)
    ensures modes[i] == MAX ==> Contribution(modes, sh, k, i) >= 0 && Contribution(modes, sh, k, i) >= Counter(sh, k, i)
    ensures modes[i] == MAX ==> Contribution(modes, sh, k, i) == 0 || Contribution(modes, sh, k, i) == Counter(sh, k, i)
  {
  }

  lemma AddedContribution(modes: seq<Agg>, sh: Shard, k: string, i: nat, v: int, k': string, i': nat)
    requires i < |modes| && i' < |modes| && Shaped(modes, sh)
    ensures Shaped(modes, AddTo(modes, sh, k, i, v))
    ensures (k', i') != (k, i) ==>
              Contribution(modes, AddTo(modes, sh, k, i, v), k', i') == Contribution(modes, sh, k', i')
    ensures modes[i] == SUM ==>
              Contribution(modes, AddTo(modes, sh, k, i, v), k, i) == Contribution(modes, sh, k, i) + v
    ensures v >= 0 ==>
              Contribution(modes, AddTo(modes, sh, k, i, v), k, i) >= Contribution(modes, sh, k, i)
  {
  }
}
