/** What the aggregated counters are in terms of the threads' own: sums and maxima,
    also for passes that run among other threads' steps. */
module StatsMax {
  import opened Wrappers
  import opened StatsCore
  import opened Tally
  import opened StatsMachine
  import opened StatsLaws
  import opened StatsTotals
  import opened StatsAggregate

  /** The counters of the dead threads' map and of the threads not yet folded into it;
      an ended thread's counts as zero. */
  ghost function LiveCounters(modes: seq<Agg>, s: State, k: string, i: nat): (xs: seq<int>)
    requires Shape(modes, s) && i < |modes|
    ensures |xs| == |s.threads| + 1
  {
    [Counter(s.dead, k, i)] +
    seq(|s.threads|, t requires 0 <= t < |s.threads| =>
      if s.threads[t].phase == Ended then 0 else Counter(s.threads[t].stats, k, i))
  }

  lemma SourceCounter(modes: seq<Agg>, s: State, k: string, i: nat, j: nat)
    requires Shape(modes, s) && i < |modes| && j <= |s.threads|
    ensures var x, y := LiveCounters(modes, s, k, i)[j], Contribs(modes, s, k, i)[j];
            && (modes[i] == SUM ==> y == x)
            && (modes[i] == MAX ==> y >= x && y >= 0 && (y == 0 || y == x))
  {
    ContributionOf(modes, s.StatsOf(j), k, i);
  }

  /** The true value of a SUM counter is the sum of these counters, that of a MAX
      counter the largest of them, or zero if none is positive. */
  lemma TotalIsCombined(modes: seq<Agg>, s: State, k: string, i: nat)
    requires Shape(modes, s) && i < |modes|
    ensures IsCombined(modes[i], Total(modes, s, k, i), LiveCounters(modes, s, k, i))
  {
    var xs, ys := LiveCounters(modes, s, k, i), Contribs(modes, s, k, i);
    FoldIsCombined(modes[i], ys);
    forall j | 0 <= j < |xs|
      ensures modes[i] == SUM ==> ys[j] == xs[j]
      ensures modes[i] == MAX ==> ys[j] >= xs[j] && ys[j] >= 0 && (ys[j] == 0 || ys[j] == xs[j])
    {
      SourceCounter(modes, s, k, i, j);
    }
    if modes[i] == MAX {
      ClampedMaximum(Total(modes, s, k, i), xs, ys);
    } else {
      assert xs == ys;
    }
  }

  // ------------------------------------------------ the result of a pass

  /** The result of a pass under way has no negative MAX counter. */
  ghost predicate ResultOk(modes: seq<Agg>, s: State)
    requires Shape(modes, s)
  {
    s.lock.Aggregating? ==> NoNegativeMax(modes, s.lock.result)
  }

  lemma StepResult(modes: seq<Agg>, s: State, e: Event)
    requires Shape(modes, s) && ResultOk(modes, s)
    ensures ResultOk(modes, Apply(true, modes, s, e))
  {
  }

  lemma {:induction false} RunResult(modes: seq<Agg>, s: State, es: seq<Event>)
    requires Shape(modes, s) && ResultOk(modes, s)
    ensures ResultOk(modes, Run(true, modes, s, es))
  {
    if es != [] {
      var n := |es| - 1;
      RunResult(modes, s, es[..n]);
      StepResult(modes, Run(true, modes, s, es[..n]), es[n]);
    }
  }

  /** A pass during which nobody counts on a counter returns the sum of the sources'
      counters when it began, or the largest of them; whatever else goes on. */
  lemma PassIsCombined(modes: seq<Agg>, s: State, es: seq<Event>, k: string, i: nat)
    requires Shape(modes, s) && Safe(s) && i < |modes| && Enabled(true, modes, s, AggBegin)
    requires forall n :: 0 <= n < |es| ==> !es[n].AggEnd? && !CountsOn(es[n], k, i)
    requires Enabled(true, modes, Run(true, modes, Apply(true, modes, s, AggBegin), es), AggEnd)
    ensures var s' := Run(true, modes, Apply(true, modes, s, AggBegin), es);
            && s'.lock.Aggregating? && (k in s'.lock.result ==> i < |s'.lock.result[k]|)
            && IsCombined(modes[i], Counter(s'.lock.result, k, i), LiveCounters(modes, s, k, i))
  {
    var s' := Run(true, modes, Apply(true, modes, s, AggBegin), es);
    AggregateExact(modes, s, es, k, i);
    TotalIsCombined(modes, s, k, i);
    RunResult(modes, Apply(true, modes, s, AggBegin), es);
    ContributionOf(modes, s'.lock.result, k, i);
  }
}
