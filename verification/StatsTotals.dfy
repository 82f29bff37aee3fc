/** Accounting in the stats holder: every thread is counted exactly once, and a
    concurrent aggregate lies between the true totals at its start and end. */
module StatsTotals {
  import opened Wrappers
  import opened StatsCore
  import opened Tally
  import opened StatsMachine
  import opened StatsLaws

  ghost function SourceContribution(modes: seq<Agg>, s: State, k: string, i: nat, j: nat): int
    requires Shape(modes, s) && i < |modes| && j <= |s.threads|
  {
    if j > 0 && s.threads[j - 1].phase == Ended then 0 else Contribution(modes, s.StatsOf(j), k, i)
  }

  /** What the dead threads' map and each thread not yet folded into it contribute. */
  ghost function Contribs(modes: seq<Agg>, s: State, k: string, i: nat): (xs: seq<int>)
    requires Shape(modes, s) && i < |modes|
    ensures |xs| == |s.threads| + 1 && Proper(modes[i], xs)
  {
    seq(|s.threads| + 1, j requires 0 <= j <= |s.threads| => SourceContribution(modes, s, k, i, j))
  }

  /** The true value of a counter. */
  ghost function Total(modes: seq<Agg>, s: State, k: string, i: nat): int
    requires Shape(modes, s) && i < |modes|
  {
    Fold(modes[i], Contribs(modes, s, k, i), All(|s.threads| + 1))
  }

  predicate CountsOn(e: Event, k: string, i: nat) {
    (e.Add? || e.Set?) && e.k == k && e.i == i
  }

  /** A clearing pass that removes key k. */
  predicate Clears(key: Option<string>, k: string) {
    key == None || key == Some(k)
  }

  // ------------------------------------------------ steps that change no total

  lemma FoldAppendZero(mode: Agg, xs: seq<int>)
    requires Proper(mode, xs)
    ensures Fold(mode, xs + [0], All(|xs| + 1)) == Fold(mode, xs, All(|xs|))
  {
    var ys := xs + [0];
    assert ys[..|xs|] == xs && All(|xs| + 1)[..|xs|] == All(|xs|);
    FoldNonNegative(mode, xs, All(|xs|));
  }

  /** A thread start and a thread exit change no SUM or MAX aggregate: each thread
      is counted exactly once, live or dead. */
  lemma ThreadChangeKeepsTotal(modes: seq<Agg>, s: State, e: Event, k: string, i: nat)
    requires Shape(modes, s) && Safe(s) && s.alive && i < |modes|
    requires e.Start? || e.ExitBegin? || e.ExitEnd?
    requires Enabled(true, modes, s, e)
    ensures Total(modes, Apply(true, modes, s, e), k, i) == Total(modes, s, k, i)
  {
    var xs := Contribs(modes, s, k, i);
    match e
    case Start =>
      StartContribs(modes, s, k, i);
      FoldAppendZero(modes[i], xs);
    case ExitBegin(t) =>
      ExitBeginContribs(modes, s, t, k, i);
    case ExitEnd(t) =>
      ExitEndContribs(modes, s, t, k, i);
      FoldMove(modes[i], xs, t + 1);
  }

  lemma StartContribs(modes: seq<Agg>, s: State, k: string, i: nat)
    requires Shape(modes, s) && i < |modes| && Enabled(true, modes, s, Start)
    ensures Contribs(modes, Apply(true, modes, s, Start), k, i) == Contribs(modes, s, k, i) + [0]
  {
  }

  lemma ExitBeginContribs(modes: seq<Agg>, s: State, t: nat, k: string, i: nat)
    requires Shape(modes, s) && i < |modes| && Enabled(true, modes, s, ExitBegin(t))
    ensures Contribs(modes, Apply(true, modes, s, ExitBegin(t)), k, i) == Contribs(modes, s, k, i)
  {
  }

  /** The exiting thread's contribution moves to the dead threads' map. */
  lemma ExitEndContribs(modes: seq<Agg>, s: State, t: nat, k: string, i: nat)
    requires Shape(modes, s) && Safe(s) && s.alive && i < |modes| && Enabled(true, modes, s, ExitEnd(t))
    ensures var xs := Contribs(modes, s, k, i);
            Contribs(modes, Apply(true, modes, s, ExitEnd(t)), k, i) ==
            xs[0 := AggregateStat(modes[i], xs[0], xs[t + 1])][t + 1 := 0]
  {
    var s' := Apply(true, modes, s, ExitEnd(t));
    ExitEndEffect(modes, s, t);
    AggregatedContribution(modes, s.dead, s.threads[t].stats, k, i);
    forall j | 0 < j <= |s.threads|
      ensures SourceContribution(modes, s', k, i, j) == if j == t + 1 then 0 else SourceContribution(modes, s, k, i, j)
    {
    }
  }

  lemma ExitEndEffect(modes: seq<Agg>, s: State, t: nat)
    requires Shape(modes, s) && Safe(s) && s.alive && Enabled(true, modes, s, ExitEnd(t))
    ensures var s' := Apply(true, modes, s, ExitEnd(t));
            && s'.dead == Aggregated(modes, s.dead, s.threads[t].stats)
            && s'.threads == s.threads[t := s.threads[t].(phase := Ended)]
  {
    assert ThreadSafe(s, t);
  }

  /** Counting on another counter, the steps of passes and the locking leave the
      contributions as they are. */
  lemma QuietStep(modes: seq<Agg>, s: State, e: Event, k: string, i: nat)
    requires Shape(modes, s) && i < |modes| && Enabled(true, modes, s, e)
    requires !(e.Start? || e.ExitBegin? || e.ExitEnd?) && !CountsOn(e, k, i)
    requires e.ClearVisit? ==> !Clears(s.lock.key, k)
    ensures Contribs(modes, Apply(true, modes, s, e), k, i) == Contribs(modes, s, k, i)
  {
    if e.Add? || e.Set? {
      OtherCounter(modes, s, e, k, i);
    } else if e.ClearVisit? {
      OtherKeyCleared(modes, s, e.j, k, i);
    }
  }

  lemma OtherCounter(modes: seq<Agg>, s: State, e: Event, k: string, i: nat)
    requires Shape(modes, s) && i < |modes| && Enabled(true, modes, s, e)
    requires (e.Add? || e.Set?) && !CountsOn(e, k, i)
    ensures Contribs(modes, Apply(true, modes, s, e), k, i) == Contribs(modes, s, k, i)
  {
    if e.Add? {
      AddedContribution(modes, s.threads[e.t].stats, e.k, e.i, e.v, k, i);
    }
  }

  lemma OtherKeyCleared(modes: seq<Agg>, s: State, j: nat, k: string, i: nat)
    requires Shape(modes, s) && i < |modes| && Enabled(true, modes, s, ClearVisit(j))
    requires !Clears(s.lock.key, k)
    ensures Contribs(modes, Apply(true, modes, s, ClearVisit(j)), k, i) == Contribs(modes, s, k, i)
  {
    assert Contribution(modes, Clear(s.lock.key, s.StatsOf(j)), k, i) == Contribution(modes, s.StatsOf(j), k, i);
  }

  lemma AddStep(modes: seq<Agg>, s: State, e: Event, k: string, i: nat)
    requires Shape(modes, s) && i < |modes| && Enabled(true, modes, s, e)
    requires e.Add? && CountsOn(e, k, i)
    ensures var xs, ys := Contribs(modes, s, k, i), Contribs(modes, Apply(true, modes, s, e), k, i);
            && ys == xs[e.t + 1 := ys[e.t + 1]]
            && (modes[i] == SUM ==> ys[e.t + 1] == xs[e.t + 1] + e.v)
            && (e.v >= 0 ==> ys[e.t + 1] >= xs[e.t + 1])
  {
    AddedContribution(modes, s.threads[e.t].stats, k, i, e.v, k, i);
  }

  // ------------------------------------------------ sums over whole runs

  /** The amounts added to a counter along a run. */
  ghost function Added(modes: seq<Agg>, s: State, es: seq<Event>, k: string, i: nat): int
    requires Shape(modes, s)
  {
    if es == [] then 0
    else
      var n := |es| - 1;
      Added(modes, s, es[..n], k, i) +
      if Enabled(true, modes, Run(true, modes, s, es[..n]), es[n]) && es[n].Add? && CountsOn(es[n], k, i)
      then es[n].v else 0
  }

  lemma AliveBefore(modes: seq<Agg>, s: State, e: Event)
    requires Shape(modes, s) && Apply(true, modes, s, e).alive
    ensures s.alive
  {
  }

  /** One step changes a SUM total by exactly what it adds. */
  lemma StepTotal(modes: seq<Agg>, s: State, e: Event, k: string, i: nat)
    requires Shape(modes, s) && Safe(s) && s.alive && i < |modes| && modes[i] == SUM
    requires Enabled(true, modes, s, e)
    requires !(e.Set? && CountsOn(e, k, i)) && !(e.ClearVisit? && Clears(s.lock.key, k))
    ensures Total(modes, Apply(true, modes, s, e), k, i) ==
            Total(modes, s, k, i) + if CountsOn(e, k, i) then e.v else 0
  {
    if e.Start? || e.ExitBegin? || e.ExitEnd? {
      ThreadChangeKeepsTotal(modes, s, e, k, i);
    } else if CountsOn(e, k, i) {
      AddTotal(modes, s, e, k, i);
    } else {
      QuietTotal(modes, s, e, k, i);
    }
  }

  lemma AddTotal(modes: seq<Agg>, s: State, e: Event, k: string, i: nat)
    requires Shape(modes, s) && i < |modes| && modes[i] == SUM
    requires Enabled(true, modes, s, e) && e.Add? && CountsOn(e, k, i)
    ensures Total(modes, Apply(true, modes, s, e), k, i) == Total(modes, s, k, i) + e.v
  {
    AddStep(modes, s, e, k, i);
    FoldAdd(Contribs(modes, s, k, i), All(|s.threads| + 1), e.t + 1, e.v);
  }

  lemma QuietTotal(modes: seq<Agg>, s: State, e: Event, k: string, i: nat)
    requires Shape(modes, s) && i < |modes| && Enabled(true, modes, s, e)
    requires !(e.Start? || e.ExitBegin? || e.ExitEnd?) && !CountsOn(e, k, i)
    requires e.ClearVisit? ==> !Clears(s.lock.key, k)
    ensures Total(modes, Apply(true, modes, s, e), k, i) == Total(modes, s, k, i)
  {
    QuietStep(modes, s, e, k, i);
  }

  /** No step of the run sets or clears the counter. */
  ghost predicate OnlyAdds(modes: seq<Agg>, s: State, es: seq<Event>, k: string, i: nat)
    requires Shape(modes, s)
  {
    forall n :: 0 <= n < |es| ==>
      && !(es[n].Set? && CountsOn(es[n], k, i))
      && !(es[n].ClearVisit? && Run(true, modes, s, es[..n]).lock.Clearing? &&
           Clears(Run(true, modes, s, es[..n]).lock.key, k))
  }

  /** Over every interleaving of counting, thread starts and exits and aggregate
      passes, a SUM counter's true value grows by exactly what was added to it. */
  lemma {:induction false} RunTotal(modes: seq<Agg>, s: State, es: seq<Event>, k: string, i: nat)
    requires Shape(modes, s) && Safe(s) && i < |modes| && modes[i] == SUM
    requires OnlyAdds(modes, s, es, k, i)
    ensures Safe(Run(true, modes, s, es))
    ensures Run(true, modes, s, es).alive ==>
              s.alive && Total(modes, Run(true, modes, s, es), k, i) == Total(modes, s, k, i) + Added(modes, s, es, k, i)
  {
    if es != [] {
      var n := |es| - 1;
      var mid := Run(true, modes, s, es[..n]);
      assert OnlyAdds(modes, s, es[..n], k, i) by {
        assert forall m :: 0 <= m < n ==> es[..n][..m] == es[..m];
      }
      RunTotal(modes, s, es[..n], k, i);
      if Enabled(true, modes, mid, es[n]) {
        EffectSafe(modes, mid, es[n]);
        if Run(true, modes, s, es).alive {
          AliveBefore(modes, mid, es[n]);
          StepTotal(modes, mid, es[n], k, i);
        }
      }
    }
  }

  // ------------------------------------------------ erase and reset

  ghost function Behind(s: State): (sel: seq<bool>)
    requires s.lock.Clearing?
    ensures |sel| == |s.threads| + 1
  {
    seq(|s.threads| + 1, j requires 0 <= j <= |s.threads| => j !in s.lock.todo)
  }

  /** The amounts added, during a clearing pass, to maps it has already visited. */
  ghost function AddedBehind(modes: seq<Agg>, s: State, es: seq<Event>, k: string, i: nat): int
    requires Shape(modes, s)
  {
    if es == [] then 0
    else
      var n := |es| - 1;
      var mid := Run(true, modes, s, es[..n]);
      AddedBehind(modes, s, es[..n], k, i) + BehindBy(modes, mid, es[n], k, i)
  }

  lemma VisitContribs(modes: seq<Agg>, s: State, j: nat, k: string, i: nat)
    requires Shape(modes, s) && i < |modes| && Enabled(true, modes, s, ClearVisit(j)) && Clears(s.lock.key, k)
    ensures Contribs(modes, Apply(true, modes, s, ClearVisit(j)), k, i) == Contribs(modes, s, k, i)[j := 0]
  {
    assert Contribution(modes, Clear(s.lock.key, s.StatsOf(j)), k, i) == 0;
  }

  /** One step during a clearing pass. */
  lemma ClearStep(modes: seq<Agg>, s: State, e: Event, k: string, i: nat)
    requires Shape(modes, s) && Safe(s) && s.lock.Clearing? && Clears(s.lock.key, k)
    requires i < |modes| && modes[i] == SUM && Enabled(true, modes, s, e)
    requires !e.ClearEnd? && !(e.Set? && CountsOn(e, k, i))
    ensures var s' := Apply(true, modes, s, e);
            && s'.lock.Clearing? && s'.lock.key == s.lock.key
            && BehindTotal(modes, s', k, i) ==
               BehindTotal(modes, s, k, i) + if CountsOn(e, k, i) && e.t + 1 !in s.lock.todo then e.v else 0
  {
    match e
    case ClearVisit(j) => VisitStep(modes, s, j, k, i);
    case Add(_, _, _, _) => CountBehind(modes, s, e, k, i);
    case Set(_, _, _, _) => CountBehind(modes, s, e, k, i);
  }

  /** A visit empties a map and counts it as behind, so nothing is added. */
  lemma VisitStep(modes: seq<Agg>, s: State, j: nat, k: string, i: nat)
    requires Shape(modes, s) && s.lock.Clearing? && Clears(s.lock.key, k)
    requires i < |modes| && Enabled(true, modes, s, ClearVisit(j))
    ensures var s' := Apply(true, modes, s, ClearVisit(j));
            && s'.lock.Clearing? && s'.lock.key == s.lock.key
            && BehindTotal(modes, s', k, i) == BehindTotal(modes, s, k, i)
  {
    var s' := Apply(true, modes, s, ClearVisit(j));
    var xs := Contribs(modes, s, k, i);
    VisitContribs(modes, s, j, k, i);
    assert Behind(s') == Behind(s)[j := true];
    FoldZero(SUM, xs[j := 0], Behind(s'), j);
    assert Behind(s')[j := false] == Behind(s);
    FoldSame(SUM, xs[j := 0], xs, Behind(s));
  }

  lemma CountBehind(modes: seq<Agg>, s: State, e: Event, k: string, i: nat)
    requires Shape(modes, s) && s.lock.Clearing? && i < |modes| && modes[i] == SUM && Enabled(true, modes, s, e)
    requires (e.Add? || e.Set?) && !(e.Set? && CountsOn(e, k, i))
    ensures var s' := Apply(true, modes, s, e);
            && s'.lock.Clearing? && s'.lock.key == s.lock.key
            && BehindTotal(modes, s', k, i) ==
               BehindTotal(modes, s, k, i) + if CountsOn(e, k, i) && e.t + 1 !in s.lock.todo then e.v else 0
  {
    assert Behind(Apply(true, modes, s, e)) == Behind(s);
    if CountsOn(e, k, i) {
      AddStep(modes, s, e, k, i);
      FoldAdd(Contribs(modes, s, k, i), Behind(s), e.t + 1, e.v);
    } else {
      QuietStep(modes, s, e, k, i);
    }
  }

  /** What the visited maps contribute. */
  ghost function BehindTotal(modes: seq<Agg>, s: State, k: string, i: nat): int
    requires Shape(modes, s) && s.lock.Clearing? && i < |modes|
  {
    Fold(SUM, Contribs(modes, s, k, i), Behind(s))
  }

  lemma {:induction false} ClearRun(modes: seq<Agg>, s: State, es: seq<Event>, k: string, i: nat)
    requires Shape(modes, s) && Safe(s) && s.lock.Clearing? && Clears(s.lock.key, k)
    requires i < |modes| && modes[i] == SUM
    requires forall n :: 0 <= n < |es| ==> !es[n].ClearEnd? && !(es[n].Set? && CountsOn(es[n], k, i))
    ensures var s' := Run(true, modes, s, es);
            && Safe(s') && s'.lock.Clearing? && s'.lock.key == s.lock.key
            && BehindTotal(modes, s', k, i) == BehindTotal(modes, s, k, i) + AddedBehind(modes, s, es, k, i)
  {
    if es != [] {
      var n := |es| - 1;
      ClearRun(modes, s, es[..n], k, i);
      var mid := Run(true, modes, s, es[..n]);
      assert Run(true, modes, s, es) == Apply(true, modes, mid, es[n]);
      ClearNext(modes, mid, es[n], k, i);
    }
  }

  /** What one step, if it can happen at all, adds behind a clearing pass. */
  ghost function BehindBy(modes: seq<Agg>, s: State, e: Event, k: string, i: nat): int {
    if Enabled(true, modes, s, e) && e.Add? && CountsOn(e, k, i) && s.lock.Clearing? && e.t + 1 !in s.lock.todo
    then e.v else 0
  }

  lemma ClearNext(modes: seq<Agg>, s: State, e: Event, k: string, i: nat)
    requires Shape(modes, s) && Safe(s) && s.lock.Clearing? && Clears(s.lock.key, k)
    requires i < |modes| && modes[i] == SUM && !e.ClearEnd? && !(e.Set? && CountsOn(e, k, i))
    ensures var s' := Apply(true, modes, s, e);
            && Safe(s') && s'.lock.Clearing? && s'.lock.key == s.lock.key
            && BehindTotal(modes, s', k, i) == BehindTotal(modes, s, k, i) + BehindBy(modes, s, e, k, i)
  {
    if Enabled(true, modes, s, e) {
      EffectSafe(modes, s, e);
      ClearStep(modes, s, e, k, i);
    }
  }

  lemma {:induction false} FoldZeros(mode: Agg, xs: seq<int>, sel: seq<bool>)
    requires |xs| == |sel| && forall j :: 0 <= j < |xs| && sel[j] ==> xs[j] == 0
    ensures Fold(mode, xs, sel) == 0
  {
    if xs != [] {
      FoldZeros(mode, xs[..|xs| - 1], sel[..|xs| - 1]);
    }
  }

  lemma NonSourceIsZero(modes: seq<Agg>, s: State, k: string, i: nat, j: nat)
    requires Shape(modes, s) && Safe(s) && s.lock == Free && i < |modes| && j <= |s.threads|
    requires !s.IsSource(j)
    ensures Contribs(modes, s, k, i)[j] == 0
  {
    assert ThreadSafe(s, j - 1);
  }

  /** When an erase or reset pass has visited every map, a SUM counter it clears
      holds exactly what was added behind the pass while it ran. */
  lemma ClearedTotal(modes: seq<Agg>, s: State, key: Option<string>, es: seq<Event>, k: string, i: nat)
    requires Shape(modes, s) && Safe(s) && s.alive && s.lock == Free
    requires Clears(key, k) && i < |modes| && modes[i] == SUM
    requires forall n :: 0 <= n < |es| ==> !es[n].ClearEnd? && !(es[n].Set? && CountsOn(es[n], k, i))
    requires Enabled(true, modes, Run(true, modes, Apply(true, modes, s, ClearBegin(key)), es), ClearEnd)
    ensures var s1 := Apply(true, modes, s, ClearBegin(key));
            Total(modes, Run(true, modes, s1, es), k, i) == AddedBehind(modes, s1, es, k, i)
  {
    var s1 := Apply(true, modes, s, ClearBegin(key));
    EffectSafe(modes, s, ClearBegin(key));
    QuietStep(modes, s, ClearBegin(key), k, i);
    forall j | 0 <= j <= |s.threads| && Behind(s1)[j]
      ensures Contribs(modes, s1, k, i)[j] == 0
    {
      NonSourceIsZero(modes, s, k, i, j);
    }
    FoldZeros(SUM, Contribs(modes, s1, k, i), Behind(s1));
    ClearRun(modes, s1, es, k, i);
    var s2 := Run(true, modes, s1, es);
    assert Behind(s2) == All(|s2.threads| + 1);
  }
}
