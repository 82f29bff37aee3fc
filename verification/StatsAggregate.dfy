/** An aggregate pass that runs while threads keep counting. */
module StatsAggregate {
  import opened Wrappers
  import opened StatsCore
  import opened Tally
  import opened StatsMachine
  import opened StatsLaws
  import opened StatsTotals

  /** Source j's value of the counter has yet to be read by the pass. */
  ghost predicate IsUnread(s: State, k: string, i: nat, j: nat)
    requires s.lock.Aggregating?
  {
    j in s.lock.todo || (j == s.lock.cur && (k, i) in s.lock.pending)
  }

  ghost function Unread(s: State, k: string, i: nat): (sel: seq<bool>)
    requires s.lock.Aggregating?
    ensures |sel| == |s.threads| + 1
  {
    seq(|s.threads| + 1, j requires 0 <= j <= |s.threads| => IsUnread(s, k, i, j))
  }

  /** The pass reads counters of listed sources, one source after the other. */
  ghost predicate PassOk(s: State)
    requires s.lock.Aggregating?
  {
    s.lock.pending != {} ==> s.lock.cur !in s.lock.todo && s.IsSource(s.lock.cur)
  }

  /** The counter's value in the result so far. */
  ghost function Read(modes: seq<Agg>, s: State, k: string, i: nat): int
    requires Shape(modes, s) && s.lock.Aggregating? && i < |modes|
  {
    Contribution(modes, s.lock.result, k, i)
  }

  /** The result so far and what is still unread reach at least lo; the result so
      far is at most what has been read would give now. */
  ghost predicate Bounded(modes: seq<Agg>, s: State, k: string, i: nat, lo: int)
    requires Shape(modes, s) && s.lock.Aggregating? && i < |modes|
  {
    var xs, un := Contribs(modes, s, k, i), Unread(s, k, i);
    && lo <= AggregateStat(modes[i], Read(modes, s, k, i), Fold(modes[i], xs, un))
    && Read(modes, s, k, i) <= Fold(modes[i], xs, Not(un))
  }

  lemma BeginBounded(modes: seq<Agg>, s: State, k: string, i: nat)
    requires Shape(modes, s) && Safe(s) && i < |modes| && Enabled(true, modes, s, AggBegin)
    ensures var s' := Apply(true, modes, s, AggBegin);
            PassOk(s') && TodoListed(s') && Bounded(modes, s', k, i, Total(modes, s, k, i))
  {
    var s' := Apply(true, modes, s, AggBegin);
    QuietStep(modes, s, AggBegin, k, i);
    var xs, un := Contribs(modes, s', k, i), Unread(s', k, i);
    forall j | 0 <= j <= |s.threads| && Not(un)[j]
      ensures xs[j] == 0
    {
      NonSourceIsZero(modes, s, k, i, j);
    }
    FoldZeros(modes[i], xs, Not(un));
    FoldSplit(modes[i], xs, un);
    FoldNonNegative(modes[i], xs, un);
  }

  lemma CopyEmpty(modes: seq<Agg>, s: State, j: nat, k: string, i: nat)
    requires Shape(modes, s) && s.lock.Aggregating? && i < |modes| && Enabled(true, modes, s, AggCopy(j))
    requires k !in s.StatsOf(j)
    ensures Contribs(modes, s, k, i)[j] == 0
  {
  }

  /** Copying a map's entries takes it off the list; if the key is not in the copy
      the map counts as read, with nothing to contribute. */
  lemma CopyBounded(modes: seq<Agg>, s: State, j: nat, k: string, i: nat, lo: int)
    requires Shape(modes, s) && Safe(s) && s.lock.Aggregating? && PassOk(s) && i < |modes|
    requires Enabled(true, modes, s, AggCopy(j)) && s.IsSource(j) && Bounded(modes, s, k, i, lo)
    ensures var s' := Apply(true, modes, s, AggCopy(j));
            PassOk(s') && Bounded(modes, s', k, i, lo)
  {
    var s' := Apply(true, modes, s, AggCopy(j));
    QuietStep(modes, s, AggCopy(j), k, i);
    var xs, un, un' := Contribs(modes, s, k, i), Unread(s, k, i), Unread(s', k, i);
    assert Read(modes, s', k, i) == Read(modes, s, k, i);
    if k in s.StatsOf(j) {
      assert (k, i) in Pairs(modes, s.StatsOf(j));
      assert un' == un;
    } else {
      CopyEmpty(modes, s, j, k, i);
      assert un' == un[j := false];
      FoldZero(modes[i], xs, un, j);
      assert Not(un')[j := false] == Not(un);
      FoldZero(modes[i], xs, Not(un'), j);
    }
  }

  lemma ReadValue(modes: seq<Agg>, s: State, k: string, i: nat)
    requires Shape(modes, s) && s.lock.Aggregating? && PassOk(s) && i < |modes|
    requires Enabled(true, modes, s, AggRead(k, i))
    ensures Read(modes, Apply(true, modes, s, AggRead(k, i)), k, i) ==
            AggregateStat(modes[i], Read(modes, s, k, i), Contribs(modes, s, k, i)[s.lock.cur])
  {
  }

  /** Reading a counter moves its current value from the unread to the read side. */
  lemma ReadBounded(modes: seq<Agg>, s: State, k: string, i: nat, lo: int)
    requires Shape(modes, s) && Safe(s) && s.lock.Aggregating? && PassOk(s) && i < |modes|
    requires Enabled(true, modes, s, AggRead(k, i)) && Bounded(modes, s, k, i, lo)
    ensures var s' := Apply(true, modes, s, AggRead(k, i));
            PassOk(s') && Bounded(modes, s', k, i, lo)
  {
    var s' := Apply(true, modes, s, AggRead(k, i));
    var cur := s.lock.cur;
    QuietStep(modes, s, AggRead(k, i), k, i);
    ReadValue(modes, s, k, i);
    var xs, un, un' := Contribs(modes, s, k, i), Unread(s, k, i), Unread(s', k, i);
    assert un' == un[cur := false];
    FoldDrop(modes[i], xs, un, cur);
    assert Not(un')[cur := false] == Not(un);
    FoldDrop(modes[i], xs, Not(un'), cur);
  }

  lemma ReadOther(modes: seq<Agg>, s: State, k': string, i': nat, k: string, i: nat, lo: int)
    requires Shape(modes, s) && Safe(s) && s.lock.Aggregating? && PassOk(s) && i < |modes|
    requires Enabled(true, modes, s, AggRead(k', i')) && (k', i') != (k, i) && Bounded(modes, s, k, i, lo)
    ensures var s' := Apply(true, modes, s, AggRead(k', i'));
            PassOk(s') && Bounded(modes, s', k, i, lo)
  {
    var s' := Apply(true, modes, s, AggRead(k', i'));
    QuietStep(modes, s, AggRead(k', i'), k, i);
    assert Unread(s', k, i) == Unread(s, k, i);
    assert Read(modes, s', k, i) == Read(modes, s, k, i);
  }

  /** Counting while the pass runs only raises either side. */
  lemma CountBounded(modes: seq<Agg>, s: State, e: Event, k: string, i: nat, lo: int)
    requires Shape(modes, s) && s.lock.Aggregating? && PassOk(s) && i < |modes|
    requires (e.Add? || e.Set?) && Enabled(true, modes, s, e) && Bounded(modes, s, k, i, lo)
    requires CountsOn(e, k, i) ==> e.Add? && e.v >= 0
    ensures var s' := Apply(true, modes, s, e);
            s'.lock == s.lock && PassOk(s') && Bounded(modes, s', k, i, lo)
  {
    var s' := Apply(true, modes, s, e);
    var xs, ys, un := Contribs(modes, s, k, i), Contribs(modes, s', k, i), Unread(s, k, i);
    assert Unread(s', k, i) == un;
    CountRaises(modes, s, e, k, i);
    FoldMonotone(modes[i], xs, ys, un);
    FoldMonotone(modes[i], xs, ys, Not(un));
  }

  lemma CountRaises(modes: seq<Agg>, s: State, e: Event, k: string, i: nat)
    requires Shape(modes, s) && i < |modes| && (e.Add? || e.Set?) && Enabled(true, modes, s, e)
    requires CountsOn(e, k, i) ==> e.Add? && e.v >= 0
    ensures var xs, ys := Contribs(modes, s, k, i), Contribs(modes, Apply(true, modes, s, e), k, i);
            |xs| == |ys| && forall j :: 0 <= j < |xs| ==> xs[j] <= ys[j]
  {
    if CountsOn(e, k, i) {
      AddStep(modes, s, e, k, i);
    } else {
      QuietStep(modes, s, e, k, i);
    }
  }

  /** The sources still to be copied stay listed while the pass holds the mutex. */
  ghost predicate TodoListed(s: State)
    requires s.lock.Aggregating?
  {
    forall j :: j in s.lock.todo ==> s.IsSource(j)
  }

  lemma StepBounded(modes: seq<Agg>, s: State, e: Event, k: string, i: nat, lo: int)
    requires Shape(modes, s) && Safe(s) && s.lock.Aggregating? && PassOk(s) && TodoListed(s) && i < |modes|
    requires Enabled(true, modes, s, e) && Bounded(modes, s, k, i, lo)
    requires !e.AggEnd? && (CountsOn(e, k, i) ==> e.Add? && e.v >= 0)
    ensures var s' := Apply(true, modes, s, e);
            s'.lock.Aggregating? && PassOk(s') && TodoListed(s') && Bounded(modes, s', k, i, lo)
  {
    match e
    case Add(_, _, _, _) => CountBounded(modes, s, e, k, i, lo);
    case Set(_, _, _, _) => CountBounded(modes, s, e, k, i, lo);
    case AggCopy(j) => CopyBounded(modes, s, j, k, i, lo);
    case AggRead(k', i') =>
      if (k', i') == (k, i) {
        ReadBounded(modes, s, k, i, lo);
      } else {
        ReadOther(modes, s, k', i', k, i, lo);
      }
  }

  lemma {:induction false} RunBounded(modes: seq<Agg>, s: State, es: seq<Event>, k: string, i: nat, lo: int)
    requires Shape(modes, s) && Safe(s) && s.lock.Aggregating? && PassOk(s) && TodoListed(s) && i < |modes|
    requires Bounded(modes, s, k, i, lo)
    requires forall n :: 0 <= n < |es| ==> !es[n].AggEnd? && (CountsOn(es[n], k, i) ==> es[n].Add? && es[n].v >= 0)
    ensures var s' := Run(true, modes, s, es);
            && Safe(s') && s'.lock.Aggregating? && PassOk(s') && TodoListed(s')
            && Bounded(modes, s', k, i, lo)
  {
    if es != [] {
      var n := |es| - 1;
      RunBounded(modes, s, es[..n], k, i, lo);
      var mid := Run(true, modes, s, es[..n]);
      if Enabled(true, modes, mid, es[n]) {
        EffectSafe(modes, mid, es[n]);
        StepBounded(modes, mid, es[n], k, i, lo);
      }
    }
  }

  /** Whatever threads add while an aggregate pass runs, each counter it returns
      lies between the true value when it began and the true value when it ended. */
  lemma AggregateBounds(modes: seq<Agg>, s: State, es: seq<Event>, k: string, i: nat)
    requires Shape(modes, s) && Safe(s) && i < |modes| && Enabled(true, modes, s, AggBegin)
    requires forall n :: 0 <= n < |es| ==> !es[n].AggEnd? && (CountsOn(es[n], k, i) ==> es[n].Add? && es[n].v >= 0)
    requires Enabled(true, modes, Run(true, modes, Apply(true, modes, s, AggBegin), es), AggEnd)
    ensures var s' := Run(true, modes, Apply(true, modes, s, AggBegin), es);
            Total(modes, s, k, i) <= Contribution(modes, s'.lock.result, k, i) <= Total(modes, s', k, i)
  {
    var s1 := Apply(true, modes, s, AggBegin);
    EffectSafe(modes, s, AggBegin);
    BeginBounded(modes, s, k, i);
    RunBounded(modes, s1, es, k, i, Total(modes, s, k, i));
    EndBounds(modes, Run(true, modes, s1, es), k, i, Total(modes, s, k, i));
  }

  lemma EndBounds(modes: seq<Agg>, s: State, k: string, i: nat, lo: int)
    requires Shape(modes, s) && s.lock.Aggregating? && i < |modes|
    requires s.lock.todo == {} && s.lock.pending == {} && Bounded(modes, s, k, i, lo)
    ensures lo <= Contribution(modes, s.lock.result, k, i) <= Total(modes, s, k, i)
  {
    var xs, un := Contribs(modes, s, k, i), Unread(s, k, i);
    FoldNone(modes[i], xs, un);
    assert Not(un) == All(|xs|);
  }

  /** While a pass holds the mutex, steps that do not count on the counter leave its
      contributions alone. */
  lemma {:induction false} UncountedRun(modes: seq<Agg>, s: State, es: seq<Event>, k: string, i: nat)
    requires Shape(modes, s) && Safe(s) && s.lock.Aggregating? && i < |modes|
    requires forall n :: 0 <= n < |es| ==> !es[n].AggEnd? && !CountsOn(es[n], k, i)
    ensures var s' := Run(true, modes, s, es);
            && Safe(s') && s'.lock.Aggregating? && |s'.threads| == |s.threads|
            && Contribs(modes, s', k, i) == Contribs(modes, s, k, i)
  {
    if es != [] {
      var n := |es| - 1;
      UncountedRun(modes, s, es[..n], k, i);
      var mid := Run(true, modes, s, es[..n]);
      if Enabled(true, modes, mid, es[n]) {
        EffectSafe(modes, mid, es[n]);
        QuietStep(modes, mid, es[n], k, i);
      }
    }
  }

  /** An aggregate pass during which nobody counts on a counter returns its true
      value, whatever else goes on. */
  lemma AggregateExact(modes: seq<Agg>, s: State, es: seq<Event>, k: string, i: nat)
    requires Shape(modes, s) && Safe(s) && i < |modes| && Enabled(true, modes, s, AggBegin)
    requires forall n :: 0 <= n < |es| ==> !es[n].AggEnd? && !CountsOn(es[n], k, i)
    requires Enabled(true, modes, Run(true, modes, Apply(true, modes, s, AggBegin), es), AggEnd)
    ensures Contribution(modes, Run(true, modes, Apply(true, modes, s, AggBegin), es).lock.result, k, i) ==
            Total(modes, s, k, i)
  {
    AggregateBounds(modes, s, es, k, i);
    EffectSafe(modes, s, AggBegin);
    QuietStep(modes, s, AggBegin, k, i);
    UncountedRun(modes, Apply(true, modes, s, AggBegin), es, k, i);
  }

  lemma InitialTotal(modes: seq<Agg>, k: string, i: nat)
    requires i < |modes|
    ensures Safe(INITIAL) && Total(modes, INITIAL, k, i) == 0
  {
    FoldZeros(modes[i], Contribs(modes, INITIAL, k, i), All(1));
  }

  /** From the start: after any interleaving without erase, reset or set, an
      aggregate of a SUM counter is the sum of everything ever added to it. */
  lemma SumSinceStart(modes: seq<Agg>, es: seq<Event>, s: State, pass: seq<Event>, k: string, i: nat)
    requires i < |modes| && modes[i] == SUM && OnlyAdds(modes, INITIAL, es, k, i)
    requires s == Run(true, modes, INITIAL, es) && Enabled(true, modes, s, AggBegin)
    requires Enabled(true, modes, Run(true, modes, Apply(true, modes, s, AggBegin), pass), AggEnd)
    requires forall n :: 0 <= n < |pass| ==> !pass[n].AggEnd? && !CountsOn(pass[n], k, i)
    ensures Contribution(modes, Run(true, modes, Apply(true, modes, s, AggBegin), pass).lock.result, k, i) ==
            Added(modes, INITIAL, es, k, i)
  {
    InitialTotal(modes, k, i);
    RunTotal(modes, INITIAL, es, k, i);
    AggregateExact(modes, s, pass, k, i);
  }

  /** The run from an erase or reset pass to a later aggregate: clearing events, then
      counting, thread starts and exits. */
  ghost function AfterClear(modes: seq<Agg>, s: State, key: Option<string>, during: seq<Event>, after: seq<Event>): State
    requires Shape(modes, s)
  {
    var cleared := Run(true, modes, Apply(true, modes, s, ClearBegin(key)), during);
    Run(true, modes, Apply(true, modes, cleared, ClearEnd), after)
  }

  /** Since the last erase or reset: the counter's true value is what was added behind
      that pass while it ran, and everything added afterwards. */
  lemma TotalSinceClear(modes: seq<Agg>, s: State, key: Option<string>, during: seq<Event>, after: seq<Event>, k: string, i: nat)
    requires Shape(modes, s) && Safe(s) && s.alive && s.lock == Free
    requires Clears(key, k) && i < |modes| && modes[i] == SUM
    requires forall n :: 0 <= n < |during| ==> !during[n].ClearEnd? && !(during[n].Set? && CountsOn(during[n], k, i))
    requires Enabled(true, modes, Run(true, modes, Apply(true, modes, s, ClearBegin(key)), during), ClearEnd)
    requires var cleared := Run(true, modes, Apply(true, modes, s, ClearBegin(key)), during);
             OnlyAdds(modes, Apply(true, modes, cleared, ClearEnd), after, k, i)
    requires AfterClear(modes, s, key, during, after).alive
    ensures var s1 := Apply(true, modes, s, ClearBegin(key));
            var s3 := Apply(true, modes, Run(true, modes, s1, during), ClearEnd);
            && Safe(AfterClear(modes, s, key, during, after))
            && Total(modes, AfterClear(modes, s, key, during, after), k, i) ==
               AddedBehind(modes, s1, during, k, i) + Added(modes, s3, after, k, i)
  {
    var s1 := Apply(true, modes, s, ClearBegin(key));
    var s2 := Run(true, modes, s1, during);
    ClearedTotal(modes, s, key, during, k, i);
    EffectSafe(modes, s, ClearBegin(key));
    ClearRun(modes, s1, during, k, i);
    EffectSafe(modes, s2, ClearEnd);
    QuietStep(modes, s2, ClearEnd, k, i);
    RunTotal(modes, Apply(true, modes, s2, ClearEnd), after, k, i);
  }

  /** The aggregate an undisturbed pass then returns is what was added since. */
  lemma SumSinceClear(modes: seq<Agg>, s: State, key: Option<string>, during: seq<Event>, after: seq<Event>,
                      pass: seq<Event>, k: string, i: nat)
    requires Shape(modes, s) && Safe(s) && s.alive && s.lock == Free
    requires Clears(key, k) && i < |modes| && modes[i] == SUM
    requires forall n :: 0 <= n < |during| ==> !during[n].ClearEnd? && !(during[n].Set? && CountsOn(during[n], k, i))
    requires Enabled(true, modes, Run(true, modes, Apply(true, modes, s, ClearBegin(key)), during), ClearEnd)
    requires var cleared := Run(true, modes, Apply(true, modes, s, ClearBegin(key)), during);
             OnlyAdds(modes, Apply(true, modes, cleared, ClearEnd), after, k, i)
    requires AfterClear(modes, s, key, during, after).alive
    requires Enabled(true, modes, AfterClear(modes, s, key, during, after), AggBegin)
    requires forall n :: 0 <= n < |pass| ==> !pass[n].AggEnd? && !CountsOn(pass[n], k, i)
    requires var begun := Apply(true, modes, AfterClear(modes, s, key, during, after), AggBegin);
             Enabled(true, modes, Run(true, modes, begun, pass), AggEnd)
    ensures var begun := Apply(true, modes, AfterClear(modes, s, key, during, after), AggBegin);
            var s1 := Apply(true, modes, s, ClearBegin(key));
            var s3 := Apply(true, modes, Run(true, modes, s1, during), ClearEnd);
            Contribution(modes, Run(true, modes, begun, pass).lock.result, k, i) ==
            AddedBehind(modes, s1, during, k, i) + Added(modes, s3, after, k, i)
  {
    TotalSinceClear(modes, s, key, during, after, k, i);
    AggregateExact(modes, AfterClear(modes, s, key, during, after), pass, k, i);
  }

  /** Without strict mode the second race happens: a thread that is off the list but
      not yet folded is missed, and the aggregate falls below the true value. */
  lemma RaceOnAggregate() returns (es: seq<Event>, before: State, after: State)
    ensures Shape([SUM], before) && Run(false, [SUM], INITIAL, es) == after
    ensures Apply(false, [SUM], Apply(false, [SUM], before, AggBegin), AggCopy(0)) == after
    ensures Enabled(false, [SUM], after, AggEnd)
    ensures Contribution([SUM], after.lock.result, "k", 0) < Total([SUM], before, "k", 0)
  {
    before := OffList(map["k" := [1]]);
    es := LeaveList([SUM], map["k" := [1]]);
    MissedSteps();
    es := Extend(false, [SUM], es, before, AggBegin, Passing({0}));
    es := Extend(false, [SUM], es, Passing({0}), AggCopy(0), Passing({}));
    after := Passing({});
    MissedValue();
  }

  /** The thread is off the list and the pass has the given sources left to copy. */
  ghost function Passing(todo: set<nat>): State {
    OffList(map["k" := [1]]).(lock := Aggregating(map[], todo, 0, {}))
  }

  lemma MissedSteps()
    ensures Shape([SUM], OffList(map["k" := [1]])) && Shape([SUM], Passing({0})) && Shape([SUM], Passing({}))
    ensures Apply(false, [SUM], OffList(map["k" := [1]]), AggBegin) == Passing({0})
    ensures Apply(false, [SUM], Passing({0}), AggCopy(0)) == Passing({})
  {
    assert OffList(map["k" := [1]]).Sources() == {0};
    assert Pairs([SUM], map[]) == {};
    assert {0} - {0} == {};
    assert Opened([SUM], map[], map[]) == map[];
  }

  lemma MissedValue()
    requires Shape([SUM], OffList(map["k" := [1]]))
    ensures Total([SUM], OffList(map["k" := [1]]), "k", 0) == 1
  {
    var xs := Contribs([SUM], OffList(map["k" := [1]]), "k", 0);
    assert xs[..1] == [xs[0]] && All(2)[..1] == All(1);
    assert Fold(SUM, xs[..1], All(1)) == xs[0];
  }
}
