/** Combining a vector of contributions, where some entries are left out. */
module Tally {
  import opened StatsCore

  /** Contributions to a MAX are never negative, so zero is neutral. */
  ghost predicate Proper(mode: Agg, xs: seq<int>) {
    mode == MAX ==> forall j :: 0 <= j < |xs| ==> xs[j] >= 0
  }

  /** The combination of the selected entries. */
  ghost function Fold(mode: Agg, xs: seq<int>, sel: seq<bool>): (r: int)
    requires |xs| == |sel|
  {
    if xs == [] then 0
    else
      var n := |xs| - 1;
      var front := Fold(mode, xs[..n], sel[..n]);
      if sel[n] then AggregateStat(mode, front, xs[n]) else front
  }

  ghost function All(n: nat): (r: seq<bool>)
    ensures |r| == n && forall j :: 0 <= j < n ==> r[j]
  {
    seq(n, _ => true)
  }

  ghost function Not(sel: seq<bool>): (r: seq<bool>)
    ensures |r| == |sel|
  {
    seq(|sel|, j requires 0 <= j < |sel| => !sel[j])
  }

  lemma {:induction false} FoldNone(mode: Agg, xs: seq<int>, sel: seq<bool>)
    requires |xs| == |sel| && forall j :: 0 <= j < |sel| ==> !sel[j]
    ensures Fold(mode, xs, sel) == 0
  {
    if xs != [] {
      FoldNone(mode, xs[..|xs| - 1], sel[..|xs| - 1]);
    }
  }

  lemma {:induction false} FoldNonNegative(mode: Agg, xs: seq<int>, sel: seq<bool>)
    requires |xs| == |sel| && Proper(mode, xs)
    ensures mode == MAX ==> Fold(mode, xs, sel) >= 0
  {
    if xs != [] {
      FoldNonNegative(mode, xs[..|xs| - 1], sel[..|xs| - 1]);
    }
  }

  /** Only the selected entries matter. */
  lemma {:induction false} FoldSame(mode: Agg, xs: seq<int>, ys: seq<int>, sel: seq<bool>)
    requires |xs| == |ys| == |sel|
    requires forall j :: 0 <= j < |xs| && sel[j] ==> xs[j] == ys[j]
    ensures Fold(mode, xs, sel) == Fold(mode, ys, sel)
  {
    if xs != [] {
      var n := |xs| - 1;
      FoldSame(mode, xs[..n], ys[..n], sel[..n]);
    }
  }

  lemma {:induction false} FoldMonotone(mode: Agg, xs: seq<int>, ys: seq<int>, sel: seq<bool>)
    requires |xs| == |ys| == |sel|
    requires forall j :: 0 <= j < |xs| && sel[j] ==> xs[j] <= ys[j]
    ensures Fold(mode, xs, sel) <= Fold(mode, ys, sel)
  {
    if xs != [] {
      var n := |xs| - 1;
      FoldMonotone(mode, xs[..n], ys[..n], sel[..n]);
    }
  }

  /** Taking one selected entry out of the fold. */
  lemma {:induction false} FoldDrop(mode: Agg, xs: seq<int>, sel: seq<bool>, j: nat)
    requires |xs| == |sel| && j < |xs| && sel[j]
    ensures Fold(mode, xs, sel) == AggregateStat(mode, Fold(mode, xs, sel[j := false]), xs[j])
  {
    var n := |xs| - 1;
    if j < n {
      FoldDrop(mode, xs[..n], sel[..n], j);
      assert sel[j := false][..n] == sel[..n][j := false];
    } else {
      assert sel[j := false][..n] == sel[..n];
    }
  }

  /** What is selected and what is not make up the whole. */
  lemma {:induction false} FoldSplit(mode: Agg, xs: seq<int>, sel: seq<bool>)
    requires |xs| == |sel| && Proper(mode, xs)
    ensures AggregateStat(mode, Fold(mode, xs, sel), Fold(mode, xs, Not(sel))) == Fold(mode, xs, All(|xs|))
  {
    if xs != [] {
      var n := |xs| - 1;
      FoldSplit(mode, xs[..n], sel[..n]);
      assert Not(sel)[..n] == Not(sel[..n]) && All(|xs|)[..n] == All(n);
      FoldNonNegative(mode, xs[..n], sel[..n]);
      FoldNonNegative(mode, xs[..n], Not(sel[..n]));
    }
  }

  /** Moving an entry's whole contribution to entry 0 changes nothing. */
  lemma FoldMove(mode: Agg, xs: seq<int>, j: nat)
    requires 0 < j < |xs| && Proper(mode, xs)
    ensures Fold(mode, xs[0 := AggregateStat(mode, xs[0], xs[j])][j := 0], All(|xs|)) == Fold(mode, xs, All(|xs|))
  {
    var all := All(|xs|);
    var rest := all[0 := false][j := false];
    var ys := xs[0 := AggregateStat(mode, xs[0], xs[j])][j := 0];
    FoldDrop(mode, xs, all, 0);
    FoldDrop(mode, xs, all[0 := false], j);
    FoldDrop(mode, ys, all, 0);
    FoldDrop(mode, ys, all[0 := false], j);
    FoldSame(mode, xs, ys, rest);
    FoldNonNegative(mode, xs, rest);
  }

  /** Adding to one selected entry of a SUM adds to the fold. */
  lemma FoldAdd(xs: seq<int>, sel: seq<bool>, j: nat, v: int)
    requires |xs| == |sel| && j < |xs|
    ensures Fold(SUM, xs[j := xs[j] + v], sel) == Fold(SUM, xs, sel) + if sel[j] then v else 0
  {
    var ys := xs[j := xs[j] + v];
    if sel[j] {
      FoldDrop(SUM, xs, sel, j);
      FoldDrop(SUM, ys, sel, j);
      FoldSame(SUM, xs, ys, sel[j := false]);
    } else {
      FoldSame(SUM, xs, ys, sel);
    }
  }

  /** An entry of zero may as well not be selected. */
  lemma FoldZero(mode: Agg, xs: seq<int>, sel: seq<bool>, j: nat)
    requires |xs| == |sel| && j < |xs| && sel[j] && xs[j] == 0 && Proper(mode, xs)
    ensures Fold(mode, xs, sel) == Fold(mode, xs, sel[j := false])
  {
    FoldDrop(mode, xs, sel, j);
    FoldNonNegative(mode, xs, sel[j := false]);
  }

  // ------------------------------------------------ what the combination is

  function Sum(xs: seq<int>): int {
    if xs == [] then 0 else xs[0] + Sum(xs[1..])
  }

  lemma {:induction false} SumLast(xs: seq<int>, x: int)
    ensures Sum(xs + [x]) == Sum(xs) + x
  {
    if xs == [] {
      assert xs + [x] == [x];
    } else {
      assert (xs + [x])[1..] == xs[1..] + [x];
      SumLast(xs[1..], x);
    }
  }

  /** m is the largest of xs, or zero if none is larger. */
  ghost predicate IsMaximum(m: int, xs: seq<int>) {
    m >= 0 && (forall j :: 0 <= j < |xs| ==> xs[j] <= m) && (m == 0 || m in xs)
  }

  /** What combining all entries comes to: the sum, or the maximum. */
  ghost predicate IsCombined(mode: Agg, r: int, xs: seq<int>) {
    match mode
    case SUM => r == Sum(xs)
    case MAX => IsMaximum(r, xs)
  }

  lemma MaximumStep(m: int, xs: seq<int>, x: int)
    requires IsMaximum(m, xs)
    ensures IsMaximum(if x > m then x else m, xs + [x])
  {
  }

  lemma {:induction false} FoldIsCombined(mode: Agg, xs: seq<int>)
    ensures IsCombined(mode, Fold(mode, xs, All(|xs|)), xs)
  {
    if xs != [] {
      var n := |xs| - 1;
      FoldIsCombined(mode, xs[..n]);
      assert All(|xs|)[..n] == All(n) && xs == xs[..n] + [xs[n]];
      if mode == SUM {
        SumLast(xs[..n], xs[n]);
      } else {
        MaximumStep(Fold(mode, xs[..n], All(n)), xs[..n], xs[n]);
      }
    }
  }

  // ------------------------------------------------ a pass without interference

  ghost predicate AllShaped(modes: seq<Agg>, shs: seq<Shard>) {
    forall j :: 0 <= j < |shs| ==> Shaped(modes, shs[j])
  }

  ghost function ShardContribs(modes: seq<Agg>, shs: seq<Shard>, k: string, i: nat): (xs: seq<int>)
    requires i < |modes| && AllShaped(modes, shs)
    ensures |xs| == |shs|
  {
    seq(|shs|, j requires 0 <= j < |shs| => Contribution(modes, shs[j], k, i))
  }

  /** An aggregate starts at zero, so its MAX counters are not negative. */
  ghost predicate NoNegativeMax(modes: seq<Agg>, r: Shard)
    requires Shaped(modes, r)
  {
    forall k, i :: k in r && 0 <= i < |modes| && modes[i] == MAX ==> r[k][i] >= 0
  }

  /** r holds every key of shs, each counter combined over all of them. */
  ghost predicate Combines(modes: seq<Agg>, shs: seq<Shard>, r: Shard)
    requires AllShaped(modes, shs)
  {
    && Shaped(modes, r) && NoNegativeMax(modes, r)
    && (forall k :: k in r <==> exists j :: 0 <= j < |shs| && k in shs[j])
    && (forall k, i: nat :: i < |modes| ==>
          Contribution(modes, r, k, i) == Fold(modes[i], ShardContribs(modes, shs, k, i), All(|shs|)))
  }

  lemma MaxStays(modes: seq<Agg>, r: Shard, sh: Shard)
    requires Shaped(modes, r) && Shaped(modes, sh) && NoNegativeMax(modes, r)
    ensures NoNegativeMax(modes, Aggregated(modes, r, sh))
  {
  }

  lemma CombinesStep(modes: seq<Agg>, shs: seq<Shard>, sh: Shard, r: Shard)
    requires Shaped(modes, sh) && AllShaped(modes, shs)
    requires Combines(modes, shs, r)
    ensures AllShaped(modes, shs + [sh])
    ensures Combines(modes, shs + [sh], Aggregated(modes, r, sh))
  {
    assert AllShaped(modes, shs + [sh]);
    var r' := Aggregated(modes, r, sh);
    MaxStays(modes, r, sh);
    forall k: string
      ensures k in r' <==> exists j :: 0 <= j < |shs + [sh]| && k in (shs + [sh])[j]
    {
      KeyStep(shs, sh, k);
    }
    forall k: string, i: nat | i < |modes|
      ensures Contribution(modes, r', k, i) ==
              Fold(modes[i], ShardContribs(modes, shs + [sh], k, i), All(|shs + [sh]|))
    {
      ContribStep(modes, shs, sh, k, i);
      AggregatedContribution(modes, r, sh, k, i);
    }
  }

  lemma KeyStep(shs: seq<Shard>, sh: Shard, k: string)
    ensures (exists j :: 0 <= j < |shs + [sh]| && k in (shs + [sh])[j]) <==>
            (exists j :: 0 <= j < |shs| && k in shs[j]) || k in sh
  {
    var all := shs + [sh];
    if j :| 0 <= j < |shs| && k in shs[j] {
      assert k in all[j];
    }
    if k in sh {
      assert k in all[|shs|];
    }
  }

  lemma ContribStep(modes: seq<Agg>, shs: seq<Shard>, sh: Shard, k: string, i: nat)
    requires i < |modes| && Shaped(modes, sh) && AllShaped(modes, shs)
    ensures AllShaped(modes, shs + [sh])
    ensures Fold(modes[i], ShardContribs(modes, shs + [sh], k, i), All(|shs + [sh]|)) ==
            AggregateStat(modes[i], Fold(modes[i], ShardContribs(modes, shs, k, i), All(|shs|)),
                          Contribution(modes, sh, k, i))
  {
    var all := shs + [sh];
    assert ShardContribs(modes, all, k, i)[..|shs|] == ShardContribs(modes, shs, k, i);
    assert All(|all|)[..|shs|] == All(|shs|);
  }

  /** `StatsHolder::aggregate` when nothing else runs: the dead threads' map and
      then each live thread's are folded into a fresh one. */
  method AggregateHolder(modes: seq<Agg>, dead: Shard, live: seq<Shard>) returns (r: Shard)
    requires Shaped(modes, dead) && AllShaped(modes, live)
    ensures AllShaped(modes, [dead] + live) && Combines(modes, [dead] + live, r)
    ensures forall k, i :: k in r && 0 <= i < |modes| ==>
              IsCombined(modes[i], r[k][i], CountersIn(modes, [dead] + live, k, i))
  {
    CombinesFirst(modes, dead, live);
    r := AggregateCompoundStats(modes, map[], dead);
    for t := 0 to |live|
      invariant AllShaped(modes, Visited(dead, live, t)) && Combines(modes, Visited(dead, live, t), r)
    {
      CombinesNext(modes, dead, live, t, r);
      r := AggregateCompoundStats(modes, r, live[t]);
    }
    assert Visited(dead, live, |live|) == [dead] + live;
    forall k, i | k in r && 0 <= i < |modes|
      ensures IsCombined(modes[i], r[k][i], CountersIn(modes, [dead] + live, k, i))
    {
      AggregateIsCombined(modes, [dead] + live, r, k, i);
    }
  }

  /** The maps a pass has folded in after t live threads. */
  ghost function Visited(dead: Shard, live: seq<Shard>, t: nat): seq<Shard>
    requires t <= |live|
  {
    [dead] + live[..t]
  }

  lemma CombinesFirst(modes: seq<Agg>, dead: Shard, live: seq<Shard>)
    requires Shaped(modes, dead)
    ensures AllShaped(modes, Visited(dead, live, 0))
    ensures Combines(modes, Visited(dead, live, 0), Aggregated(modes, map[], dead))
  {
    CombinesStep(modes, [], dead, map[]);
    assert Visited(dead, live, 0) == [] + [dead];
  }

  lemma CombinesNext(modes: seq<Agg>, dead: Shard, live: seq<Shard>, t: nat, r: Shard)
    requires Shaped(modes, dead) && AllShaped(modes, live)
    requires t < |live| && AllShaped(modes, Visited(dead, live, t)) && Combines(modes, Visited(dead, live, t), r)
    ensures AllShaped(modes, Visited(dead, live, t + 1))
    ensures Combines(modes, Visited(dead, live, t + 1), Aggregated(modes, r, live[t]))
  {
    VisitedNext(dead, live, t);
    CombinesStep(modes, Visited(dead, live, t), live[t], r);
  }

  lemma VisitedNext(dead: Shard, live: seq<Shard>, t: nat)
    requires t < |live|
    ensures Visited(dead, live, t + 1) == Visited(dead, live, t) + [live[t]]
  {
  }

  /** The counters a key has in several maps, zero where it is missing. */
  function CountersIn(modes: seq<Agg>, shs: seq<Shard>, k: string, i: nat): (xs: seq<int>)
    requires i < |modes| && forall j :: 0 <= j < |shs| ==> k in shs[j] ==> i < |shs[j][k]|
    ensures |xs| == |shs|
  {
    seq(|shs|, j requires 0 <= j < |shs| => Counter(shs[j], k, i))
  }

  /** The largest contribution is the largest counter: negative ones never count. */
  lemma ClampedMaximum(m: int, xs: seq<int>, ys: seq<int>)
    requires |xs| == |ys| && IsMaximum(m, ys)
    requires forall j :: 0 <= j < |xs| ==> ys[j] >= xs[j] && ys[j] >= 0 && (ys[j] == 0 || ys[j] == xs[j])
    ensures IsMaximum(m, xs)
  {
    if m != 0 {
      var j :| 0 <= j < |ys| && ys[j] == m;
      assert xs[j] == m;
    }
  }

  lemma CountersCombined(modes: seq<Agg>, shs: seq<Shard>, k: string, i: nat, r: int)
    requires i < |modes| && AllShaped(modes, shs)
    requires r == Fold(modes[i], ShardContribs(modes, shs, k, i), All(|shs|))
    ensures IsCombined(modes[i], r, CountersIn(modes, shs, k, i))
  {
    var xs, ys := CountersIn(modes, shs, k, i), ShardContribs(modes, shs, k, i);
    FoldIsCombined(modes[i], ys);
    forall j | 0 <= j < |shs|
      ensures modes[i] == SUM ==> ys[j] == xs[j]
      ensures modes[i] == MAX ==> ys[j] >= xs[j] && ys[j] >= 0 && (ys[j] == 0 || ys[j] == xs[j])
    {
      ContributionOf(modes, shs[j], k, i);
    }
    if modes[i] == MAX {
      ClampedMaximum(r, xs, ys);
    } else {
      assert xs == ys;
    }
  }

  /** In an undisturbed aggregate a SUM counter is the sum of the maps' counters and a
      MAX counter the largest of them, or zero if none is positive. */
  lemma AggregateIsCombined(modes: seq<Agg>, shs: seq<Shard>, r: Shard, k: string, i: nat)
    requires AllShaped(modes, shs) && Combines(modes, shs, r) && i < |modes| && k in r
    ensures IsCombined(modes[i], r[k][i], CountersIn(modes, shs, k, i))
  {
    CountersCombined(modes, shs, k, i, Contribution(modes, r, k, i));
  }
}
