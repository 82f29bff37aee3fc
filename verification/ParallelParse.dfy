/** Parsing the nodes' answers on up to 32 threads. */
module ParallelParse {
  import opened Wrappers
  import opened Tables

  const NUM_THREADS := 32

  datatype Response = Response(text: string, success: bool, reason: string)

  /** A thread's half-open range of answers. */
  datatype Chunk = Chunk(from: nat, to: nat)

  /** The chunks lie end to end from 0 to n and none is empty. */
  ghost predicate Tiles(chunks: seq<Chunk>, n: nat) {
    && (forall i :: 0 <= i < |chunks| ==> chunks[i].from < chunks[i].to)
    && (forall i :: 0 <= i < |chunks| - 1 ==> chunks[i].to == chunks[i + 1].from)
    && (if chunks == [] then n == 0 else chunks[0].from == 0 && chunks[|chunks| - 1].to == n)
  }

  /** The thread-spawning loop of `transformDataParallel`. */
  method Spawn(n: nat) returns (chunks: seq<Chunk>)
    ensures |chunks| <= NUM_THREADS == 32
    ensures Tiles(chunks, n)
  {
    var perThread := n / NUM_THREADS + 1;
    chunks := [];
    var i := 0;
    ghost var next := 0;
    while i < NUM_THREADS && i * perThread < n
      invariant i <= NUM_THREADS && |chunks| == i
      invariant next == i * perThread
      invariant Tiles(chunks, if next < n then next else n)
    {
      var from := i * perThread;
      var to := from + perThread;
      // A thread stops at the end of the answers.
      var chunk := Chunk(from, if to < n then to else n);
      TilesAppend(chunks, chunk);
      chunks := chunks + [chunk];
      MulSucc(i, perThread);
      i, next := i + 1, next + perThread;
    }
  }

  lemma MulSucc(i: nat, p: nat)
    ensures (i + 1) * p == i * p + p
  {
  }

  lemma TilesAppend(chunks: seq<Chunk>, c: Chunk)
    requires Tiles(chunks, c.from) && c.from < c.to
    ensures Tiles(chunks + [c], c.to)
  {
  }

  ghost predicate In(c: Chunk, k: nat) {
    c.from <= k < c.to
  }

  lemma {:induction false} ChunksAscend(chunks: seq<Chunk>, n: nat, i: nat, j: nat)
    requires Tiles(chunks, n) && i < j < |chunks|
    ensures chunks[i].to <= chunks[j].from
  {
    if i + 1 < j {
      ChunksAscend(chunks, n, i, j - 1);
    }
  }

  /** Every answer belongs to exactly one thread. */
  lemma {:induction false} OwnerExists(chunks: seq<Chunk>, n: nat, k: nat, j: nat) returns (t: nat)
    requires Tiles(chunks, n) && j < |chunks| && k < chunks[j].to
    ensures t <= j && In(chunks[t], k)
    ensures forall u :: 0 <= u < |chunks| && In(chunks[u], k) ==> u == t
  {
    if chunks[j].from <= k {
      t := j;
      forall u | 0 <= u < |chunks| && In(chunks[u], k)
        ensures u == t
      {
        if u < t {
          ChunksAscend(chunks, n, u, t);
        } else if t < u {
          ChunksAscend(chunks, n, t, u);
        }
      }
    } else {
      t := OwnerExists(chunks, n, k, j - 1);
    }
  }

  /** What parsing one answer yields: its table and the possibly failed answer. */
  function Parsed(transform: string -> Result<Table, string>, r: Response): (Table, Response) {
    if !r.success then (map[], r)
    else
      match transform(r.text)
      case Ok(t) => (t, r)
      case Err(reason) => (map[], r.(success := false, reason := reason))
  }

  /** The shared vectors and each thread's loop counter. */
  datatype Work = Work(outputs: seq<Table>, responses: seq<Response>, cursor: seq<nat>)

  ghost function Start(responses: seq<Response>, chunks: seq<Chunk>): Work {
    Work(seq(|responses|, _ => map[]), responses, seq(|chunks|, i requires 0 <= i < |chunks| => chunks[i].from))
  }

  /** One loop iteration of thread t, if it has any left. */
  ghost function Step(transform: string -> Result<Table, string>, chunks: seq<Chunk>, w: Work, t: nat): Work {
    if t < |chunks| == |w.cursor| && w.cursor[t] < chunks[t].to && w.cursor[t] < |w.responses| == |w.outputs| then
      var k := w.cursor[t];
      var (table, response) := Parsed(transform, w.responses[k]);
      Work(w.outputs[k := table], w.responses[k := response], w.cursor[t := k + 1])
    else
      w
  }

  /** The threads' iterations in an arbitrary interleaving. */
  ghost function Run(transform: string -> Result<Table, string>, chunks: seq<Chunk>, w: Work, schedule: seq<nat>): Work {
    if schedule == [] then w
    else
      var n := |schedule| - 1;
      Step(transform, chunks, Run(transform, chunks, w, schedule[..n]), schedule[n])
  }

  ghost predicate Joined(chunks: seq<Chunk>, w: Work) {
    |w.cursor| == |chunks| && forall t :: 0 <= t < |chunks| ==> w.cursor[t] == chunks[t].to
  }

  /** An answer is parsed once its owner's counter has passed it, and untouched before. */
  ghost predicate WorkInv(transform: string -> Result<Table, string>, chunks: seq<Chunk>, rs: seq<Response>, w: Work) {
    && |w.outputs| == |w.responses| == |rs| && |w.cursor| == |chunks|
    && (forall t :: 0 <= t < |chunks| ==> chunks[t].from <= w.cursor[t] <= chunks[t].to)
    && forall t, k :: 0 <= t < |chunks| && 0 <= k < |rs| && In(chunks[t], k) ==>
         (w.outputs[k], w.responses[k]) == if k < w.cursor[t] then Parsed(transform, rs[k]) else (map[], rs[k])
  }

  lemma StepInv(transform: string -> Result<Table, string>, chunks: seq<Chunk>, rs: seq<Response>, w: Work, t: nat)
    requires Tiles(chunks, |rs|) && WorkInv(transform, chunks, rs, w)
    ensures WorkInv(transform, chunks, rs, Step(transform, chunks, w, t))
  {
    if t < |chunks| && w.cursor[t] < chunks[t].to && w.cursor[t] < |rs| {
      var k := w.cursor[t];
      assert In(chunks[t], k);
      forall u | 0 <= u < |chunks| && u != t
        ensures !In(chunks[u], k)
      {
        if u < t { ChunksAscend(chunks, |rs|, u, t); } else { ChunksAscend(chunks, |rs|, t, u); }
      }
    }
  }

  lemma {:induction false} RunWorkInv(
      transform: string -> Result<Table, string>, chunks: seq<Chunk>, rs: seq<Response>, schedule: seq<nat>)
    requires Tiles(chunks, |rs|)
    ensures WorkInv(transform, chunks, rs, Run(transform, chunks, Start(rs, chunks), schedule))
  {
    if schedule != [] {
      var n := |schedule| - 1;
      RunWorkInv(transform, chunks, rs, schedule[..n]);
      StepInv(transform, chunks, rs, Run(transform, chunks, Start(rs, chunks), schedule[..n]), schedule[n]);
    }
  }

  /** Whatever the interleaving, once all threads have joined the outputs and
      failure flags are those of one sequential pass. */
  lemma InterleavingIsSequential(
      transform: string -> Result<Table, string>, chunks: seq<Chunk>, rs: seq<Response>, schedule: seq<nat>)
    requires Tiles(chunks, |rs|)
    requires Joined(chunks, Run(transform, chunks, Start(rs, chunks), schedule))
    ensures var w := Run(transform, chunks, Start(rs, chunks), schedule);
            && |w.outputs| == |w.responses| == |rs|
            && forall k :: 0 <= k < |rs| ==> (w.outputs[k], w.responses[k]) == Parsed(transform, rs[k])
    ensures var w := Run(transform, chunks, Start(rs, chunks), schedule);
            forall k :: 0 <= k < |rs| ==>
              && (!rs[k].success ==> w.outputs[k] == map[] && w.responses[k] == rs[k])
              && (rs[k].success && transform(rs[k].text).Ok? ==>
                    w.outputs[k] == transform(rs[k].text).value && w.responses[k] == rs[k])
              && (rs[k].success && transform(rs[k].text).Err? ==>
                    && w.outputs[k] == map[] && !w.responses[k].success
                    && w.responses[k].reason == transform(rs[k].text).error)
  {
    var w := Run(transform, chunks, Start(rs, chunks), schedule);
    RunWorkInv(transform, chunks, rs, schedule);
    forall k | 0 <= k < |rs|
      ensures (w.outputs[k], w.responses[k]) == Parsed(transform, rs[k])
    {
      var t := OwnerExists(chunks, |rs|, k, |chunks| - 1);
      assert In(chunks[t], k);
    }
  }
}
