/** Nobody waits for ever: counting needs no lock, and whoever holds the thread-list
    mutex can finish and release it. */
module StatsProgress {
  import opened Wrappers
  import opened StatsCore
  import opened StatsMachine
  import opened StatsLaws

  /** A listed thread can count whoever holds the mutex, and the counter then holds
      what was added. */
  lemma CountingNeverWaits(modes: seq<Agg>, s: State, t: nat, k: string, i: nat, v: int)
    requires Shape(modes, s) && s.alive && t < |s.threads| && s.threads[t].phase == Listed && i < |modes|
    ensures Counter(Apply(true, modes, s, Add(t, k, i, v)).threads[t].stats, k, i) ==
            Counter(s.threads[t].stats, k, i) + v
    ensures Counter(Apply(true, modes, s, Set(t, k, i, v)).threads[t].stats, k, i) == v
  {
  }

  /** A lock names existing maps and threads. */
  ghost predicate LockOk(s: State) {
    match s.lock
    case ExitLock(t) => t < |s.threads| && s.threads[t].phase == Exiting
    case Clearing(_, todo) => forall j :: j in todo ==> j <= |s.threads|
    case Destroying(todo) => forall t :: t in todo ==> t < |s.threads|
    case _ => true
  }

  lemma StepLock(modes: seq<Agg>, s: State, e: Event)
    requires Shape(modes, s) && LockOk(s)
    ensures LockOk(Apply(true, modes, s, e))
  {
  }

  lemma {:induction false} RunLock(modes: seq<Agg>, es: seq<Event>)
    ensures LockOk(Run(true, modes, INITIAL, es))
  {
    if es != [] {
      RunLock(modes, es[..|es| - 1]);
      StepLock(modes, Run(true, modes, INITIAL, es[..|es| - 1]), es[|es| - 1]);
    }
  }

  /** How much a holder of the mutex has left to do before it can release it. */
  ghost function Left(modes: seq<Agg>, s: State): (nat, nat) {
    match s.lock
    case Free => (0, 0)
    case ExitLock(_) => (1, 0)
    case Aggregating(_, todo, _, pending) => (1 + |todo|, |pending|)
    case Clearing(_, todo) => (1 + |todo|, 0)
    case Destroying(todo) => (1 + |todo|, 0)
  }

  ghost predicate Less(a: (nat, nat), b: (nat, nat)) {
    a.0 < b.0 || (a.0 == b.0 && a.1 < b.1)
  }

  lemma AggregateSteps(modes: seq<Agg>, s: State) returns (e: Event)
    requires Shape(modes, s) && s.lock.Aggregating?
    ensures e.AggCopy? || e.AggRead? || e.AggEnd?
    ensures Enabled(true, modes, s, e) && Less(Left(modes, Apply(true, modes, s, e)), Left(modes, s))
    ensures !e.AggEnd? ==> Apply(true, modes, s, e).lock.Aggregating?
  {
    if p :| p in s.lock.pending {
      e := AggRead(p.0, p.1);
      assert Apply(true, modes, s, e).lock.pending == s.lock.pending - {p};
    } else if j :| j in s.lock.todo {
      e := AggCopy(j);
      assert s.lock.pending == {};
      assert Apply(true, modes, s, e).lock.todo == s.lock.todo - {j};
    } else {
      assert s.lock.todo == {} && s.lock.pending == {};
      e := AggEnd;
    }
  }

  lemma ClearSteps(modes: seq<Agg>, s: State) returns (e: Event)
    requires Shape(modes, s) && LockOk(s) && s.lock.Clearing?
    ensures Enabled(true, modes, s, e) && Less(Left(modes, Apply(true, modes, s, e)), Left(modes, s))
  {
    if j :| j in s.lock.todo {
      e := ClearVisit(j);
      assert Apply(true, modes, s, e).lock.todo == s.lock.todo - {j};
    } else {
      assert s.lock.todo == {};
      e := ClearEnd;
    }
  }

  lemma DestroySteps(modes: seq<Agg>, s: State) returns (e: Event)
    requires Shape(modes, s) && LockOk(s) && s.lock.Destroying?
    ensures Enabled(true, modes, s, e) && Less(Left(modes, Apply(true, modes, s, e)), Left(modes, s))
  {
    if t :| t in s.lock.todo {
      e := DestroyVisit(t);
      assert Apply(true, modes, s, e).lock.todo == s.lock.todo - {t};
    } else {
      assert s.lock.todo == {};
      e := DestroyEnd;
    }
  }

  /** The holder's next step is never blocked and brings it closer to the release. */
  lemma HolderSteps(modes: seq<Agg>, s: State) returns (e: Event)
    requires Shape(modes, s) && LockOk(s) && s.lock != Free
    ensures Enabled(true, modes, s, e) && Less(Left(modes, Apply(true, modes, s, e)), Left(modes, s))
  {
    match s.lock
    case ExitLock(t) => e := ExitEnd(t);
    case Aggregating(_, _, _, _) => e := AggregateSteps(modes, s);
    case Clearing(_, _) => e := ClearSteps(modes, s);
    case Destroying(_) => e := DestroySteps(modes, s);
  }

  lemma {:induction false} FinishFrom(modes: seq<Agg>, s: State) returns (es: seq<Event>)
    requires Shape(modes, s) && LockOk(s)
    ensures Run(true, modes, s, es).lock == Free
    decreases Left(modes, s).0, Left(modes, s).1
  {
    if s.lock == Free {
      es := [];
    } else {
      var e := HolderSteps(modes, s);
      StepLock(modes, s, e);
      var more := FinishFrom(modes, Apply(true, modes, s, e));
      es := [e] + more;
      RunFirst(modes, s, e, more);
    }
  }

  lemma {:induction false} RunFirst(modes: seq<Agg>, s: State, e: Event, es: seq<Event>)
    requires Shape(modes, s)
    ensures Run(true, modes, s, [e] + es) == Run(true, modes, Apply(true, modes, s, e), es)
  {
    var all := [e] + es;
    if es == [] {
      assert all[..0] == [] && all == [e];
      assert Run(true, modes, s, []) == s;
    } else {
      var n := |es| - 1;
      assert all[..|all| - 1] == [e] + es[..n] && all[|all| - 1] == es[n];
      RunFirst(modes, s, e, es[..n]);
    }
  }

  /** In strict mode, from every reachable state the mutex can be released. */
  lemma LockIsReleased(modes: seq<Agg>, es: seq<Event>) returns (more: seq<Event>)
    ensures Run(true, modes, Run(true, modes, INITIAL, es), more).lock == Free
  {
    RunLock(modes, es);
    more := FinishFrom(modes, Run(true, modes, INITIAL, es));
  }

  /** With the mutex free and the holder alive, every kind of pass and every listed
      thread's exit can begin. */
  lemma FreeLockIsTaken(modes: seq<Agg>, s: State, key: Option<string>, t: nat)
    requires Shape(modes, s) && s.alive && s.lock == Free
    ensures Apply(true, modes, s, AggBegin).lock.Aggregating? && Apply(true, modes, s, DestroyBegin).lock.Destroying?
    ensures Apply(true, modes, s, ClearBegin(key)).lock == Clearing(key, s.Sources())
    ensures Apply(true, modes, s, Start).threads == s.threads + [Thread(map[], true, Listed)]
    ensures t < |s.threads| && s.threads[t].phase == Listed ==> Apply(true, modes, s, ExitBegin(t)).lock == ExitLock(t)
  {
  }

  lemma {:induction false} PassEnds(modes: seq<Agg>, s: State) returns (es: seq<Event>)
    requires Shape(modes, s) && s.lock.Aggregating?
    ensures Enabled(true, modes, Run(true, modes, s, es), AggEnd)
    ensures forall n :: 0 <= n < |es| ==> es[n].AggCopy? || es[n].AggRead?
    decreases Left(modes, s).0, Left(modes, s).1
  {
    var e := AggregateSteps(modes, s);
    if e == AggEnd {
      es := [];
    } else {
      var more := PassEnds(modes, Apply(true, modes, s, e));
      es := [e] + more;
      RunFirst(modes, s, e, more);
    }
  }

  /** An aggregate pass can always be taken, undisturbed, to its end. */
  lemma AggregateCompletes(modes: seq<Agg>, s: State) returns (es: seq<Event>)
    requires Shape(modes, s) && s.alive && s.lock == Free
    ensures Enabled(true, modes, s, AggBegin)
    ensures Enabled(true, modes, Run(true, modes, Apply(true, modes, s, AggBegin), es), AggEnd)
    ensures forall n :: 0 <= n < |es| ==> es[n].AggCopy? || es[n].AggRead?
  {
    es := PassEnds(modes, Apply(true, modes, s, AggBegin));
  }
}
