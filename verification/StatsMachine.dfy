/** The stats holder as a machine of interleaved steps: threads starting, counting
    and exiting while aggregate, erase, reset and destruction passes run. */
module StatsMachine {
  import opened Wrappers
  import opened StatsCore

  /** A thread's wrapper is in the thread-local list, taken off it while the
      thread exits, or destroyed. */
  datatype Phase = Listed | Exiting | Ended

  /** `StatsWrapper`: the thread's map and whether its owner pointer is set. */
  datatype Thread = Thread(stats: Shard, owner: bool, phase: Phase)

  /** Who holds the thread-list mutex, and how far that pass has come. Source 0 is
      the dead threads' map, source t + 1 thread t's. */
  datatype Lock =
    | Free
    | ExitLock(t: nat)
    | Aggregating(result: Shard, todo: set<nat>, cur: nat, pending: set<(string, nat)>)
    | Clearing(key: Option<string>, todo: set<nat>)
    | Destroying(todo: set<nat>)

  /** The holder. touchedFreed records an access to `dead_stats_` after the holder
      was destroyed. */
  datatype State = State(alive: bool, dead: Shard, threads: seq<Thread>, lock: Lock, touchedFreed: bool) {

    predicate IsSource(j: nat) {
      j == 0 || (j <= |threads| && threads[j - 1].phase == Listed)
    }

    function Sources(): set<nat> {
      set j: nat | j <= |threads| && IsSource(j)
    }

    function StatsOf(j: nat): Shard
      requires j <= |threads|
    {
      if j == 0 then dead else threads[j - 1].stats
    }

    function WithStats(j: nat, sh: Shard): State
      requires j <= |threads|
    {
      if j == 0 then this.(dead := sh) else this.(threads := threads[j - 1 := threads[j - 1].(stats := sh)])
    }
  }

  const INITIAL := State(true, map[], [], Free, false)

  datatype Event =
    | Start
    | Add(t: nat, k: string, i: nat, v: int)
    | Set(t: nat, k: string, i: nat, v: int)
    | ExitBegin(t: nat)
    | ExitEnd(t: nat)
    | AggBegin
    | AggCopy(j: nat)
    | AggRead(k: string, i: nat)
    | AggEnd
    | ClearBegin(key: Option<string>)
    | ClearVisit(j: nat)
    | ClearEnd
    | DestroyBegin
    | DestroyVisit(t: nat)
    | DestroyEnd

  ghost predicate Shape(modes: seq<Agg>, s: State) {
    && Shaped(modes, s.dead)
    && (forall t :: 0 <= t < |s.threads| ==> Shaped(modes, s.threads[t].stats))
    && (s.lock.Aggregating? ==>
          && Shaped(modes, s.lock.result)
          && s.lock.cur <= |s.threads|
          && (forall j :: j in s.lock.todo ==> j <= |s.threads|)
          && (forall p :: p in s.lock.pending ==>
                p.0 in s.StatsOf(s.lock.cur) && p.1 < |modes| && p.0 in s.lock.result))
  }

  predicate Counts(modes: seq<Agg>, s: State, t: nat, i: nat) {
    s.alive && t < |s.threads| && s.threads[t].phase == Listed && i < |modes|
  }

  /** When a step can happen. Counting needs no lock; starting, exiting and every
      pass over the threads need the list mutex. */
  predicate Enabled(strict: bool, modes: seq<Agg>, s: State, e: Event) {
    match e
    case Start => s.alive && s.lock == Free
    case Add(t, _, i, _) => Counts(modes, s, t, i)
    case Set(t, _, i, _) => Counts(modes, s, t, i)
    case ExitBegin(t) => s.lock == Free && t < |s.threads| && s.threads[t].phase == Listed
    case ExitEnd(t) =>
      t < |s.threads| && s.threads[t].phase == Exiting && (strict ==> s.lock == ExitLock(t))
    case AggBegin => s.alive && s.lock == Free
    case AggCopy(j) => s.lock.Aggregating? && s.lock.pending == {} && j in s.lock.todo
    case AggRead(k, i) => s.lock.Aggregating? && (k, i) in s.lock.pending
    case AggEnd => s.lock.Aggregating? && s.lock.todo == {} && s.lock.pending == {}
    case ClearBegin(_) => s.alive && s.lock == Free
    case ClearVisit(j) => s.lock.Clearing? && j in s.lock.todo && j <= |s.threads|
    case ClearEnd => s.lock.Clearing? && s.lock.todo == {}
    case DestroyBegin => s.alive && s.lock == Free
    case DestroyVisit(t) => s.lock.Destroying? && t in s.lock.todo && t < |s.threads|
    case DestroyEnd => s.lock.Destroying? && s.lock.todo == {}
  }

  /** The counters a copy of map sh still has to be asked for. */
  function Pairs(modes: seq<Agg>, sh: Shard): set<(string, nat)> {
    set k, i: nat | k in sh && i < |modes| :: (k, i)
  }

  /** New keys of sh enter the result with zero counters. */
  function Opened(modes: seq<Agg>, result: Shard, sh: Shard): Shard {
    map k | k in result.Keys + sh.Keys :: CountersOf(modes, result, k)
  }

  function Clear(key: Option<string>, sh: Shard): Shard {
    match key
    case None => map[]
    case Some(k) => sh - {k}
  }

  /** `~StatsWrapper`. */
  ghost function Destruct(modes: seq<Agg>, s: State, t: nat): State
    requires Shape(modes, s) && t < |s.threads|
  {
    var th := s.threads[t];
    var s1 := s.(threads := s.threads[t := th.(phase := Ended)]);
    if !th.owner then s1
    else if s.alive then s1.(dead := Aggregated(modes, s.dead, th.stats))
    else s1.(touchedFreed := true)
  }

  ghost function Effect(strict: bool, modes: seq<Agg>, s: State, e: Event): State
    requires Shape(modes, s) && Enabled(strict, modes, s, e)
  {
    match e
    case Start => s.(threads := s.threads + [Thread(map[], true, Listed)])
    case Add(t, k, i, v) => s.WithStats(t + 1, AddTo(modes, s.threads[t].stats, k, i, v))
    case Set(t, k, i, v) => s.WithStats(t + 1, SetIn(modes, s.threads[t].stats, k, i, v))
    case ExitBegin(t) =>
      s.(threads := s.threads[t := s.threads[t].(phase := Exiting)],
         lock := if strict then ExitLock(t) else Free)
    case ExitEnd(t) =>
      var s1 := Destruct(modes, s, t);
      if strict then s1.(lock := Free) else s1
    case AggBegin => s.(lock := Aggregating(map[], s.Sources(), 0, {}))
    case AggCopy(j) =>
      var sh := s.StatsOf(j);
      s.(lock := Aggregating(Opened(modes, s.lock.result, sh), s.lock.todo - {j}, j, Pairs(modes, sh)))
    case AggRead(k, i) =>
      var out := s.lock.result[k];
      var x := s.StatsOf(s.lock.cur)[k][i];
      s.(lock := s.lock.(result := s.lock.result[k := out[i := AggregateStat(modes[i], out[i], x)]],
                         pending := s.lock.pending - {(k, i)}))
    case AggEnd => s.(lock := Free)
    case ClearBegin(key) => s.(lock := Clearing(key, s.Sources()))
    case ClearVisit(j) =>
      s.WithStats(j, Clear(s.lock.key, s.StatsOf(j))).(lock := s.lock.(todo := s.lock.todo - {j}))
    case ClearEnd => s.(lock := Free)
    case DestroyBegin => s.(lock := Destroying(set t: nat | t < |s.threads| && s.threads[t].phase == Listed))
    case DestroyVisit(t) =>
      s.(threads := s.threads[t := s.threads[t].(owner := false)], lock := Destroying(s.lock.todo - {t}))
    case DestroyEnd => s.(alive := false, lock := Free)
  }

  lemma PassShape(strict: bool, modes: seq<Agg>, s: State, e: Event)
    requires Shape(modes, s) && Enabled(strict, modes, s, e)
    requires e.AggBegin? || e.AggCopy? || e.AggRead? || e.AggEnd?
    ensures Shape(modes, Effect(strict, modes, s, e))
  {
  }

  lemma CountShape(strict: bool, modes: seq<Agg>, s: State, e: Event)
    requires Shape(modes, s) && Enabled(strict, modes, s, e)
    requires e.Add? || e.Set?
    ensures Shape(modes, Effect(strict, modes, s, e))
  {
    var s' := Effect(strict, modes, s, e);
    assert Shaped(modes, s'.threads[e.t].stats);
    if s.lock.Aggregating? {
      assert s.StatsOf(s.lock.cur).Keys <= s'.StatsOf(s.lock.cur).Keys;
    }
  }

  lemma ExitShape(strict: bool, modes: seq<Agg>, s: State, e: Event)
    requires Shape(modes, s) && Enabled(strict, modes, s, e)
    requires e.ExitBegin? || e.ExitEnd?
    ensures Shape(modes, Effect(strict, modes, s, e))
  {
    var s' := Effect(strict, modes, s, e);
    if s'.lock.Aggregating? {
      assert s.StatsOf(s.lock.cur).Keys <= s'.StatsOf(s.lock.cur).Keys;
    }
  }

  lemma EffectShape(strict: bool, modes: seq<Agg>, s: State, e: Event)
    requires Shape(modes, s) && Enabled(strict, modes, s, e)
    ensures Shape(modes, Effect(strict, modes, s, e))
  {
    match e
    case AggBegin => PassShape(strict, modes, s, e);
    case AggCopy(_) => PassShape(strict, modes, s, e);
    case AggRead(_, _) => PassShape(strict, modes, s, e);
    case AggEnd => PassShape(strict, modes, s, e);
    case Add(_, _, _, _) => CountShape(strict, modes, s, e);
    case Set(_, _, _, _) => CountShape(strict, modes, s, e);
    case ExitBegin(_) => ExitShape(strict, modes, s, e);
    case ExitEnd(_) => ExitShape(strict, modes, s, e);
    case Start =>
    case ClearBegin(_) =>
    case ClearVisit(_) =>
    case ClearEnd =>
    case DestroyBegin =>
    case DestroyVisit(_) =>
    case DestroyEnd =>
  }

  /** A step that is not enabled has to wait: it leaves the state as it is. */
  ghost function Apply(strict: bool, modes: seq<Agg>, s: State, e: Event): (s': State)
    requires Shape(modes, s)
    ensures Shape(modes, s')
  {
    if Enabled(strict, modes, s, e) then
      EffectShape(strict, modes, s, e);
      Effect(strict, modes, s, e)
    else s
  }

  ghost function Run(strict: bool, modes: seq<Agg>, s: State, es: seq<Event>): (s': State)
    requires Shape(modes, s)
    ensures Shape(modes, s')
  {
    if es == [] then s
    else Apply(strict, modes, Run(strict, modes, s, es[..|es| - 1]), es[|es| - 1])
  }
}
