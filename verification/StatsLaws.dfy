/** Laws of the stats holder over all interleavings. */
module StatsLaws {
  import opened StatsCore
  import opened StatsMachine

  // ------------------------------------------------ lifetime

  /** A set owner pointer means a live holder, and in strict mode a thread exits
      only under the list mutex. */
  ghost predicate Safe(s: State) {
    && !s.touchedFreed
    && (s.lock.Aggregating? || s.lock.Clearing? || s.lock.Destroying? ==> s.alive)
    && (forall t :: 0 <= t < |s.threads| ==> ThreadSafe(s, t))
  }

  ghost predicate ThreadSafe(s: State, t: nat)
    requires t < |s.threads|
  {
    var th := s.threads[t];
    && (th.phase == Exiting <==> s.lock == ExitLock(t))
    && (th.phase != Ended && th.owner ==> s.alive)
    && (th.phase != Ended && s.alive && !s.lock.Destroying? ==> th.owner)
    && (s.lock.Destroying? && th.phase == Listed && t !in s.lock.todo ==> !th.owner)
  }

  lemma EffectSafe(modes: seq<Agg>, s: State, e: Event)
    requires Shape(modes, s) && Safe(s) && Enabled(true, modes, s, e)
    ensures Safe(Effect(true, modes, s, e))
  {
    var s' := Effect(true, modes, s, e);
    if e.ExitEnd? { assert ThreadSafe(s, e.t); }
    forall t | 0 <= t < |s'.threads|
      ensures ThreadSafe(s', t)
    {
      assert t < |s.threads| ==> ThreadSafe(s, t);
    }
  }

  /** In strict mode, over every interleaving, no exiting thread touches the
      holder after it is gone. */
  lemma {:induction false} RunSafe(modes: seq<Agg>, es: seq<Event>)
    ensures Safe(Run(true, modes, INITIAL, es))
  {
    if es != [] {
      var n := |es| - 1;
      RunSafe(modes, es[..n]);
      var s := Run(true, modes, INITIAL, es[..n]);
      if Enabled(true, modes, s, es[n]) {
        EffectSafe(modes, s, es[n]);
      }
    }
  }

  lemma RunStep(strict: bool, modes: seq<Agg>, s: State, es: seq<Event>, e: Event)
    requires Shape(modes, s)
    ensures Run(strict, modes, s, es + [e]) == Apply(strict, modes, Run(strict, modes, s, es), e)
  {
    assert (es + [e])[..|es|] == es;
  }

  /** Without strict mode the first race happens: a thread leaves the list, the
      holder is destroyed, and the thread then folds into freed memory. */
  lemma RaceOnDestruction(modes: seq<Agg>) returns (es: seq<Event>)
    ensures Run(false, modes, INITIAL, es).touchedFreed
  {
    es := LeaveList(modes, map[]);
    var s := OffList(map[]);
    DestroyOffList(modes);
    es := Extend(false, modes, es, s, DestroyBegin, s.(lock := Destroying({})));
    es := Extend(false, modes, es, s.(lock := Destroying({})), DestroyEnd, s.(alive := false));
    es := Extend(false, modes, es, s.(alive := false), ExitEnd(0), Apply(false, modes, s.(alive := false), ExitEnd(0)));
  }

  lemma DestroyOffList(modes: seq<Agg>)
    ensures var s := OffList(map[]);
            && Apply(false, modes, s, DestroyBegin) == s.(lock := Destroying({}))
            && Apply(false, modes, s.(lock := Destroying({})), DestroyEnd) == s.(alive := false)
            && Apply(false, modes, s.(alive := false), ExitEnd(0)).touchedFreed
  {
    var s := OffList(map[]);
    assert (set t: nat | t < |s.threads| && s.threads[t].phase == Listed) == {};
  }

  /** One thread with the given map, already off the list but not yet destroyed. */
  ghost function OffList(sh: Shard): State {
    INITIAL.(threads := [Thread(sh, true, Exiting)])
  }

  lemma LeaveList(modes: seq<Agg>, sh: Shard) returns (es: seq<Event>)
    requires sh == map[] || (|modes| == 1 && sh == map["k" := [1]])
    ensures Run(false, modes, INITIAL, es) == OffList(sh)
  {
    var th := Thread(map[], true, Listed);
    var s1 := INITIAL.(threads := [th]);
    es := Extend(false, modes, [], INITIAL, Start, s1);
    if sh != map[] {
      var s2 := INITIAL.(threads := [Thread(sh, true, Listed)]);
      assert Zeros(|modes|)[0 := 1] == [1];
      assert AddTo(modes, map[], "k", 0, 1) == sh;
      es := Extend(false, modes, es, s1, Add(0, "k", 0, 1), s2);
      s1 := s2;
    }
    es := Extend(false, modes, es, s1, ExitBegin(0), OffList(sh));
  }

  /** Extends a run that has reached s by a step to s'. */
  lemma Extend(strict: bool, modes: seq<Agg>, es: seq<Event>, s: State, e: Event, s': State) returns (es': seq<Event>)
    requires Shape(modes, s) && Run(strict, modes, INITIAL, es) == s && Apply(strict, modes, s, e) == s'
    ensures Run(strict, modes, INITIAL, es') == s'
  {
    RunStep(strict, modes, INITIAL, es, e);
    es' := es + [e];
  }

  /** Freed memory is never touched exactly when the access mode is strict. */
  lemma SafeIffStrict(strict: bool, modes: seq<Agg>)
    ensures (forall es :: !Run(strict, modes, INITIAL, es).touchedFreed) <==> strict
  {
    if strict {
      forall es
        ensures !Run(strict, modes, INITIAL, es).touchedFreed
      {
        RunSafe(modes, es);
      }
    } else {
      var es := RaceOnDestruction(modes);
    }
  }
}
