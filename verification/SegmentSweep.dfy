/** Unmapping the block caches in the fatal signal handler: page alignment and the
    sort-and-merge sweep over the recorded segments. */
module SegmentSweep {
  import opened Decimal

  const PAGE_SIZE: nat := 4096
  /** Where the last page of the address space starts. */
  const LAST_PAGE: nat := SIZE_SPAN - PAGE_SIZE
  /** SEGMAP_SIZE / sizeof(Segment) */
  const MAX_NUM_SEGS: nat := 1024 * 1024 * 1024 / 16

  datatype Segment = Segment(start: nat, end: nat)

  /** A cache entry: where its value lies and how many bytes it is charged. */
  datatype CacheEntry = CacheEntry(addr: nat, charge: nat) {
    /** Address and charge are of type size_t. */
    predicate Sized() {
      addr < SIZE_SPAN && charge < SIZE_SPAN
    }

    /** Rounding up the end does not leave the address space. */
    predicate Fits() {
      addr + charge + PAGE_SIZE - 1 < SIZE_SPAN
    }
  }

  /** `x & PAGE_MASK`. */
  function PageDown(x: nat): (r: nat)
    ensures r % PAGE_SIZE == 0 && r <= x < r + PAGE_SIZE
  {
    x / PAGE_SIZE * PAGE_SIZE
  }

  /** `unmap_callback`'s segment, in size_t arithmetic. */
  function SegmentOf(e: CacheEntry): Segment {
    Segment(PageDown(e.addr), PageDown((e.addr + e.charge + PAGE_SIZE - 1) % SIZE_SPAN))
  }

  /** Both ends are page boundaries of the address space. */
  predicate OnPages(s: Segment) {
    s.start % PAGE_SIZE == 0 && s.end % PAGE_SIZE == 0 && s.start < SIZE_SPAN && s.end < SIZE_SPAN
  }

  /** The end has not wrapped below the start. */
  predicate Forward(s: Segment) {
    s.start <= s.end
  }

  /** Page p lies within s. */
  predicate Has(s: Segment, p: nat) {
    s.start <= p * PAGE_SIZE < s.end
  }

  ghost predicate Covers(segs: seq<Segment>, p: nat) {
    exists i :: 0 <= i < |segs| && Has(segs[i], p)
  }

  /** Some byte of the entry lies on page p. */
  ghost predicate Touches(e: CacheEntry, p: nat) {
    exists b: nat :: e.addr <= b < e.addr + e.charge && b / PAGE_SIZE == p
  }

  /** The segment of a non-empty entry whose end does not wrap holds exactly the pages
      the entry touches. */
  lemma FittingSegment(e: CacheEntry, p: nat)
    requires e.Fits() && e.charge > 0
    ensures SegmentOf(e).start < SegmentOf(e).end
    ensures Has(SegmentOf(e), p) <==> Touches(e, p)
  {
    if Has(SegmentOf(e), p) {
      var b := if p * PAGE_SIZE < e.addr then e.addr else p * PAGE_SIZE;
      assert e.addr <= b < e.addr + e.charge && b / PAGE_SIZE == p;
    }
  }

  /** A wrapped end lies below the last page the entry touches. */
  lemma WrappedSegment(e: CacheEntry)
    requires e.Sized() && !e.Fits() && e.charge > 0
    ensures var p := (e.addr + e.charge - 1) / PAGE_SIZE;
            Touches(e, p) && !Has(SegmentOf(e), p)
  {
    var b := e.addr + e.charge - 1;
    assert Touches(e, b / PAGE_SIZE);
    assert SegmentOf(e).end <= LAST_PAGE;
    assert LAST_PAGE <= b / PAGE_SIZE * PAGE_SIZE;
  }

  /** The segment of a non-empty entry holds exactly the pages the entry touches if
      and only if rounding up its end stays in the address space. */
  lemma SegmentIsTouchedPages(e: CacheEntry)
    requires e.Sized() && e.charge > 0
    ensures (forall p: nat :: Has(SegmentOf(e), p) <==> Touches(e, p)) <==> e.Fits()
  {
    if e.Fits() {
      forall p: nat
        ensures Has(SegmentOf(e), p) <==> Touches(e, p)
      {
        FittingSegment(e, p);
      }
    } else {
      WrappedSegment(e);
    }
  }

  /** An entry charged nothing touches no page, yet its segment holds one unless it
      starts on a page boundary or wraps: the exact condition for every entry. */
  lemma SegmentExactIff(e: CacheEntry)
    requires e.Sized()
    ensures (forall p: nat :: Has(SegmentOf(e), p) <==> Touches(e, p)) <==>
            if e.charge > 0 then e.Fits() else e.addr % PAGE_SIZE == 0 || !e.Fits()
  {
    if e.charge > 0 {
      SegmentIsTouchedPages(e);
    } else {
      assert forall p: nat :: !Touches(e, p);
      if e.Fits() {
        assert Has(SegmentOf(e), e.addr / PAGE_SIZE) <==> e.addr % PAGE_SIZE != 0;
      } else {
        assert SegmentOf(e).end == 0;
      }
    }
  }

  /** The pages a recorded segment holds: those the entry touches and, for an empty
      entry off the page boundary, the one it starts in; if the end wraps, the pages
      from the entry's start to the wrapped end, none unless the charge is as large as
      almost the whole address space. */
  ghost predicate Claims(e: CacheEntry, p: nat) {
    if e.Fits() then Touches(e, p) || (e.charge == 0 && e.addr % PAGE_SIZE != 0 && p == e.addr / PAGE_SIZE)
    else e.addr / PAGE_SIZE <= p < (e.addr + e.charge + PAGE_SIZE - 1) % SIZE_SPAN / PAGE_SIZE
  }

  lemma SegmentIsClaimedPages(e: CacheEntry, p: nat)
    requires e.Sized()
    ensures OnPages(SegmentOf(e)) && (e.Fits() ==> Forward(SegmentOf(e)))
    ensures e.Fits() && e.charge > 0 ==> SegmentOf(e).start < SegmentOf(e).end
    ensures Has(SegmentOf(e), p) <==> Claims(e, p)
  {
    if !e.Fits() {
      BetweenPages(e.addr, (e.addr + e.charge + PAGE_SIZE - 1) % SIZE_SPAN, p);
    } else if e.charge > 0 {
      FittingSegment(e, p);
    }
  }

  lemma BetweenPages(x: nat, y: nat, p: nat)
    ensures PageDown(x) <= p * PAGE_SIZE < PageDown(y) <==> x / PAGE_SIZE <= p < y / PAGE_SIZE
  {
  }

  /** An entry that lies in memory and wraps claims no page. */
  lemma WrappedClaimsNothing(e: CacheEntry, p: nat)
    requires e.Sized() && !e.Fits() && e.addr + e.charge <= SIZE_SPAN
    ensures !Claims(e, p) && SegmentOf(e).end == 0
  {
  }

  // ------------------------------------------------ sorting

  predicate Sorted(segs: seq<Segment>) {
    forall i, j :: 0 <= i < j < |segs| ==> segs[i].start <= segs[j].start
  }

  /** Where s belongs in a sorted sequence. */
  ghost function Place(t: seq<Segment>, s: Segment): (k: nat)
    ensures k <= |t| && (forall i :: 0 <= i < k ==> t[i].start < s.start)
    ensures k < |t| ==> s.start <= t[k].start
  {
    if t == [] || s.start <= t[0].start then 0 else 1 + Place(t[1..], s)
  }

  lemma InsertedIsSorted(t: seq<Segment>, s: Segment, k: nat)
    requires Sorted(t) && k <= |t| && (forall i :: 0 <= i < k ==> t[i].start < s.start)
    requires k < |t| ==> s.start <= t[k].start
    ensures Sorted(t[..k] + [s] + t[k..])
  {
    var r := t[..k] + [s] + t[k..];
    forall i | k <= i < |t|
      ensures s.start <= t[i].start
    {
      assert t[k].start <= t[i].start;
    }
    assert forall i :: 0 <= i < |r| ==> r[i] == if i < k then t[i] else if i == k then s else t[i - 1];
  }

  lemma InsertedIsPermutation(t: seq<Segment>, s: Segment, k: nat)
    requires k <= |t|
    ensures multiset(t[..k] + [s] + t[k..]) == multiset(t) + multiset{s}
  {
    assert t == t[..k] + t[k..];
  }

  /** A sorted permutation always exists, so there is something for `std::sort`
      to produce. */
  lemma {:induction false} SortedExists(segs: seq<Segment>) returns (r: seq<Segment>)
    ensures Sorted(r) && multiset(r) == multiset(segs)
  {
    if segs == [] {
      r := [];
    } else {
      var t := SortedExists(segs[1..]);
      var k := Place(t, segs[0]);
      InsertedIsSorted(t, segs[0], k);
      InsertedIsPermutation(t, segs[0], k);
      r := t[..k] + [segs[0]] + t[k..];
      assert segs == [segs[0]] + segs[1..];
    }
  }

  lemma FirstIsLeast(segs: seq<Segment>)
    requires Sorted(segs) && segs != []
    ensures forall k :: 0 <= k < |segs| ==> segs[0].start <= segs[k].start
  {
    forall k | 1 <= k < |segs|
      ensures segs[0].start <= segs[k].start
    {
    }
  }

  lemma SameSegments(a: seq<Segment>, b: seq<Segment>, p: nat)
    requires multiset(a) == multiset(b)
    ensures Covers(a, p) ==> Covers(b, p)
  {
    if Covers(a, p) {
      var i :| 0 <= i < |a| && Has(a[i], p);
      assert a[i] in multiset(b);
      var j :| 0 <= j < |b| && b[j] == a[i];
    }
  }

  // ------------------------------------------------ what a sweep leaves

  /** Ascending, with a gap of at least one page between neighbours. */
  ghost predicate Separated(segs: seq<Segment>) {
    && (forall i :: 0 <= i < |segs| ==> OnPages(segs[i]))
    && forall i, j :: 0 <= i < j < |segs| ==> segs[i].end < segs[j].start
  }

  ghost predicate NonEmpty(segs: seq<Segment>) {
    forall i :: 0 <= i < |segs| ==> segs[i].start < segs[i].end
  }

  ghost predicate AllForward(segs: seq<Segment>) {
    forall i :: 0 <= i < |segs| ==> Forward(segs[i])
  }

  ghost predicate SamePages(a: seq<Segment>, b: seq<Segment>) {
    forall p: nat :: Covers(a, p) <==> Covers(b, p)
  }

  /** s starts in a forward interval or right behind it. */
  ghost predicate Absorbs(u: Segment, s: Segment) {
    Forward(u) && u.start <= s.start <= u.end
  }

  ghost predicate Absorbed(calls: seq<Segment>, s: Segment) {
    exists i :: 0 <= i < |calls| && Absorbs(calls[i], s)
  }

  /** A call whose end has wrapped is for one segment alone, and a segment whose end
      has wrapped is either called for or absorbed. */
  ghost predicate WrappedAlone(calls: seq<Segment>, segs: seq<Segment>) {
    && (forall i :: 0 <= i < |calls| && !Forward(calls[i]) ==> calls[i] in segs)
    && (forall i :: 0 <= i < |segs| && !Forward(segs[i]) ==> segs[i] in calls || Absorbed(calls, segs[i]))
  }

  /** What sweeping segs comes to. */
  ghost predicate IsSweep(calls: seq<Segment>, segs: seq<Segment>) {
    Separated(calls) && SamePages(calls, segs) && WrappedAlone(calls, segs) && (NonEmpty(segs) ==> NonEmpty(calls))
  }

  lemma CoversAppend(segs: seq<Segment>, s: Segment, p: nat)
    ensures Covers(segs + [s], p) <==> Covers(segs, p) || Has(s, p)
  {
    if Covers(segs, p) {
      var i :| 0 <= i < |segs| && Has(segs[i], p);
      assert Has((segs + [s])[i], p);
    }
    if Has(s, p) {
      assert Has((segs + [s])[|segs|], p);
    }
  }

  lemma AppendedAt(segs: seq<Segment>, s: Segment)
    ensures (segs + [s])[|segs|] == s && |segs + [s]| == |segs| + 1
    ensures forall i :: 0 <= i < |segs| ==> (segs + [s])[i] == segs[i]
  {
  }

  // ------------------------------------------------ closing an interval

  lemma CloseSeparated(calls: seq<Segment>, s: Segment)
    requires calls != [] && Separated(calls) && OnPages(s)
    requires calls[|calls| - 1].end < s.start && calls[|calls| - 1].start <= s.start
    ensures Separated(calls + [s])
  {
    AppendedAt(calls, s);
    forall i | 0 <= i < |calls|
      ensures calls[i].end < s.start
    {
      assert i < |calls| - 1 ==> calls[i].end < calls[|calls| - 1].start;
    }
  }

  lemma ClosePages(calls: seq<Segment>, segs: seq<Segment>, s: Segment)
    requires SamePages(calls, segs)
    ensures SamePages(calls + [s], segs + [s])
  {
    forall p: nat
      ensures Covers(calls + [s], p) <==> Covers(segs + [s], p)
    {
      CoversAppend(calls, s, p);
      CoversAppend(segs, s, p);
    }
  }

  lemma AbsorbedLater(calls: seq<Segment>, s: Segment, t: Segment)
    requires Absorbed(calls, t)
    ensures Absorbed(calls + [s], t)
  {
    var i :| 0 <= i < |calls| && Absorbs(calls[i], t);
    assert (calls + [s])[i] == calls[i];
  }

  lemma CloseWrapped(calls: seq<Segment>, segs: seq<Segment>, s: Segment)
    requires WrappedAlone(calls, segs)
    ensures WrappedAlone(calls + [s], segs + [s])
  {
    AppendedAt(calls, s);
    AppendedAt(segs, s);
    forall i | 0 <= i < |segs + [s]| && !Forward((segs + [s])[i])
      ensures (segs + [s])[i] in calls + [s] || Absorbed(calls + [s], (segs + [s])[i])
    {
      if i < |segs| && Absorbed(calls, segs[i]) {
        AbsorbedLater(calls, s, segs[i]);
      }
    }
  }

  lemma NonEmptyAppend(segs: seq<Segment>, s: Segment)
    ensures NonEmpty(segs + [s]) <==> NonEmpty(segs) && s.start < s.end
  {
    AppendedAt(segs, s);
  }

  lemma CloseInterval(calls: seq<Segment>, segs: seq<Segment>, s: Segment)
    requires calls != [] && IsSweep(calls, segs) && OnPages(s)
    requires calls[|calls| - 1].end < s.start && calls[|calls| - 1].start <= s.start
    ensures IsSweep(calls + [s], segs + [s])
  {
    CloseSeparated(calls, s);
    ClosePages(calls, segs, s);
    CloseWrapped(calls, segs, s);
    NonEmptyAppend(calls, s);
    NonEmptyAppend(segs, s);
  }

  // ------------------------------------------------ extending the open interval

  function Extended(cur: Segment, s: Segment): Segment {
    Segment(cur.start, if cur.end < s.end then s.end else cur.end)
  }

  lemma ExtendSeparated(done: seq<Segment>, cur: Segment, s: Segment)
    requires Separated(done + [cur]) && OnPages(s)
    ensures Separated(done + [Extended(cur, s)])
  {
    AppendedAt(done, cur);
    AppendedAt(done, Extended(cur, s));
    var all, more := done + [cur], done + [Extended(cur, s)];
    forall i, j | 0 <= i < j < |more|
      ensures more[i].end < more[j].start
    {
      assert all[i].end < all[j].start;
    }
  }

  lemma ExtendedHas(cur: Segment, s: Segment, p: nat)
    requires cur.start <= s.start <= cur.end
    ensures Has(Extended(cur, s), p) <==> Has(cur, p) || Has(s, p)
  {
  }

  lemma ExtendPages(done: seq<Segment>, cur: Segment, segs: seq<Segment>, s: Segment)
    requires SamePages(done + [cur], segs) && cur.start <= s.start <= cur.end
    ensures SamePages(done + [Extended(cur, s)], segs + [s])
  {
    forall p: nat
      ensures Covers(done + [Extended(cur, s)], p) <==> Covers(segs + [s], p)
    {
      CoversAppend(done, cur, p);
      CoversAppend(done, Extended(cur, s), p);
      CoversAppend(segs, s, p);
      ExtendedHas(cur, s, p);
    }
  }

  lemma ExtendAbsorbs(done: seq<Segment>, cur: Segment, s: Segment, t: Segment)
    requires Forward(cur) && Absorbed(done + [cur], t)
    ensures Absorbed(done + [Extended(cur, s)], t)
  {
    AppendedAt(done, cur);
    AppendedAt(done, Extended(cur, s));
    var i :| 0 <= i < |done + [cur]| && Absorbs((done + [cur])[i], t);
    assert Absorbs((done + [Extended(cur, s)])[i], t);
  }

  lemma ExtendWrapped(done: seq<Segment>, cur: Segment, segs: seq<Segment>, s: Segment)
    requires WrappedAlone(done + [cur], segs) && cur.start <= s.start <= cur.end
    ensures WrappedAlone(done + [Extended(cur, s)], segs + [s])
  {
    AppendedAt(done, cur);
    AppendedAt(done, Extended(cur, s));
    AppendedAt(segs, s);
    assert Absorbs((done + [Extended(cur, s)])[|done|], s);
    forall i | 0 <= i < |segs| && !Forward(segs[i])
      ensures segs[i] in done + [Extended(cur, s)] || Absorbed(done + [Extended(cur, s)], segs[i])
    {
      if segs[i] !in done {
        assert segs[i] != cur;
        ExtendAbsorbs(done, cur, s, segs[i]);
      }
    }
  }

  lemma ExtendInterval(done: seq<Segment>, cur: Segment, segs: seq<Segment>, s: Segment)
    requires IsSweep(done + [cur], segs) && OnPages(s) && cur.start <= s.start <= cur.end
    ensures IsSweep(done + [Extended(cur, s)], segs + [s])
  {
    ExtendSeparated(done, cur, s);
    ExtendPages(done, cur, segs, s);
    ExtendWrapped(done, cur, segs, s);
    NonEmptyAppend(done, cur);
    NonEmptyAppend(done, Extended(cur, s));
    NonEmptyAppend(segs, s);
  }

  // ------------------------------------------------ counting pages

  /** `cur_end - cur_start` in size_t arithmetic, in pages. */
  function Pages(s: Segment): nat
    requires OnPages(s)
  {
    (if Forward(s) then s.end - s.start else s.end + SIZE_SPAN - s.start) / PAGE_SIZE
  }

  function TotalPages(segs: seq<Segment>): nat
    requires forall i :: 0 <= i < |segs| ==> OnPages(segs[i])
  {
    if segs == [] then 0
    else
      var s := segs[|segs| - 1];
      assert OnPages(s);
      TotalPages(segs[..|segs| - 1]) + Pages(s)
  }

  /** The pages counted for calls whose end has wrapped. */
  function WrappedPages(segs: seq<Segment>): nat
    requires forall i :: 0 <= i < |segs| ==> OnPages(segs[i])
  {
    if segs == [] then 0
    else
      var s := segs[|segs| - 1];
      assert OnPages(s);
      WrappedPages(segs[..|segs| - 1]) + if Forward(s) then 0 else Pages(s)
  }

  ghost function Range(lo: nat, hi: nat): (ps: set<nat>)
    ensures forall p :: p in ps <==> lo <= p < hi
    ensures |ps| == if lo <= hi then hi - lo else 0
  {
    if lo >= hi then {} else Range(lo, hi - 1) + {hi - 1}
  }

  ghost function PageSet(s: Segment): (ps: set<nat>)
    requires OnPages(s)
    ensures forall p :: p in ps <==> Has(s, p)
    ensures |ps| == if Forward(s) then Pages(s) else 0
  {
    Range(s.start / PAGE_SIZE, s.end / PAGE_SIZE)
  }

  ghost function AllPages(segs: seq<Segment>): (ps: set<nat>)
    requires forall i :: 0 <= i < |segs| ==> OnPages(segs[i])
    ensures forall p :: p in ps <==> Covers(segs, p)
  {
    if segs == [] then {}
    else
      var front, s := segs[..|segs| - 1], segs[|segs| - 1];
      assert segs == front + [s];
      forall p: nat ensures Covers(segs, p) <==> Covers(front, p) || Has(s, p) { CoversAppend(front, s, p); }
      assert OnPages(s);
      AllPages(front) + PageSet(s)
  }

  /** The counted pages are the distinct pages covered and those of wrapped calls. */
  lemma {:induction false} PageCountIsExact(segs: seq<Segment>)
    requires Separated(segs)
    ensures TotalPages(segs) == |AllPages(segs)| + WrappedPages(segs)
  {
    if segs != [] {
      var front, s := segs[..|segs| - 1], segs[|segs| - 1];
      PageCountIsExact(front);
      assert OnPages(s);
      assert AllPages(front) !! PageSet(s);
    }
  }

  lemma {:induction false} NothingWrapped(segs: seq<Segment>)
    requires Separated(segs) && AllForward(segs)
    ensures WrappedPages(segs) == 0
  {
    if segs != [] {
      NothingWrapped(segs[..|segs| - 1]);
    }
  }

  /** The counters after these calls. */
  ghost predicate Counted(calls: seq<Segment>, unmapCount: nat, pageCount: nat) {
    && (forall i :: 0 <= i < |calls| ==> OnPages(calls[i]))
    && unmapCount == |calls| && pageCount == TotalPages(calls)
  }

  /** The page counter is the number of distinct pages covered plus the pages counted
      for calls whose end has wrapped. */
  ghost predicate CountsPages(calls: seq<Segment>, pageCount: nat) {
    && (forall i :: 0 <= i < |calls| ==> OnPages(calls[i]))
    && pageCount == |AllPages(calls)| + WrappedPages(calls)
  }

  /** No call has wrapped and the page counter is the number of distinct pages. */
  ghost predicate CountsExactly(calls: seq<Segment>, pageCount: nat) {
    && (forall i :: 0 <= i < |calls| ==> OnPages(calls[i]))
    && AllForward(calls) && pageCount == |AllPages(calls)|
  }

  lemma PagesAreCounted(calls: seq<Segment>, unmapCount: nat, pageCount: nat)
    requires Separated(calls) && Counted(calls, unmapCount, pageCount)
    ensures CountsPages(calls, pageCount)
  {
    PageCountIsExact(calls);
  }

  lemma CountCall(calls: seq<Segment>, s: Segment, unmapCount: nat, pageCount: nat)
    requires Counted(calls, unmapCount, pageCount) && OnPages(s)
    ensures Counted(calls + [s], unmapCount + 1, pageCount + Pages(s))
  {
    AppendedAt(calls, s);
    assert (calls + [s])[..|calls|] == calls;
  }

  // ------------------------------------------------ the handler

  /** The handler's static variables, and the munmap calls it makes. */
  class SegmentMap {
    var sarray: seq<Segment>
    var unmapCount: nat
    var pageCount: nat
    var unmapped: seq<Segment>

    constructor ()
      ensures sarray == [] && unmapCount == 0 && pageCount == 0 && unmapped == []
    {
      sarray, unmapCount, pageCount, unmapped := [], 0, 0, [];
    }

    /** `unmap_callback`: entries beyond the map's capacity are dropped. */
    method UnmapCallback(e: CacheEntry)
      requires |sarray| <= MAX_NUM_SEGS
      modifies this`sarray
      ensures sarray == if |old(sarray)| < MAX_NUM_SEGS then old(sarray) + [SegmentOf(e)] else old(sarray)
      ensures |sarray| <= MAX_NUM_SEGS
    {
      if |sarray| >= MAX_NUM_SEGS {
        return;
      }
      sarray := sarray + [SegmentOf(e)];
    }

    /** The sort and the sweep of `handle_fatal_signal`. */
    method Sweep()
      requires unmapCount == 0 && pageCount == 0 && unmapped == []
      requires forall i :: 0 <= i < |sarray| ==> OnPages(sarray[i])
      modifies this
      ensures IsSweep(unmapped, old(sarray)) && unmapCount == |unmapped| && CountsPages(unmapped, pageCount)
    {
      if |sarray| == 0 {
        return;
      }
      ghost var input := sarray;
      sarray := Sort(sarray);
      unmapped, unmapCount, pageCount := MergeSorted(sarray);
      SweepOfPermutation(unmapped, sarray, input);
      PagesAreCounted(unmapped, unmapCount, pageCount);
    }

    /** The handler's work on the entries the caches report. */
    method UnmapAll(entries: seq<CacheEntry>)
      requires sarray == [] && unmapCount == 0 && pageCount == 0 && unmapped == []
      requires forall i :: 0 <= i < |entries| ==> entries[i].Sized()
      modifies this
      ensures IsUnmapping(unmapped, Recorded(entries))
      ensures unmapCount == |unmapped| && CountsPages(unmapped, pageCount)
      ensures AllFit(Recorded(entries)) ==> CountsExactly(unmapped, pageCount)
    {
      for i := 0 to |entries|
        invariant sarray == Segments(Recorded(entries[..i]))
        invariant unmapCount == 0 && pageCount == 0 && unmapped == []
      {
        RecordNext(entries, i);
        UnmapCallback(entries[i]);
      }
      assert entries[..|entries|] == entries;
      SegmentsOnPages(Recorded(entries));
      Sweep();
      SweepUnmaps(unmapped, Recorded(entries));
      if AllFit(Recorded(entries)) {
        FittingCalls(unmapped, Recorded(entries));
        CountIsExact(unmapped, pageCount);
      }
    }
  }

  /** The entries there is room for. */
  function Recorded(entries: seq<CacheEntry>): seq<CacheEntry> {
    if |entries| <= MAX_NUM_SEGS then entries else entries[..MAX_NUM_SEGS]
  }

  function Segments(entries: seq<CacheEntry>): seq<Segment> {
    seq(|entries|, i requires 0 <= i < |entries| => SegmentOf(entries[i]))
  }

  lemma RecordNext(entries: seq<CacheEntry>, i: nat)
    requires i < |entries|
    ensures Segments(Recorded(entries[..i + 1])) ==
            if i < MAX_NUM_SEGS then Segments(Recorded(entries[..i])) + [SegmentOf(entries[i])]
            else Segments(Recorded(entries[..i]))
    ensures |Segments(Recorded(entries[..i]))| == if i < MAX_NUM_SEGS then i else MAX_NUM_SEGS
  {
    if i >= MAX_NUM_SEGS {
      assert Recorded(entries[..i + 1]) == entries[..MAX_NUM_SEGS] == Recorded(entries[..i]);
    }
  }

  ghost predicate AllFit(entries: seq<CacheEntry>) {
    forall i :: 0 <= i < |entries| ==> entries[i].Fits()
  }

  ghost predicate Charged(entries: seq<CacheEntry>) {
    forall i :: 0 <= i < |entries| ==> entries[i].charge > 0
  }

  ghost predicate Touched(entries: seq<CacheEntry>, p: nat) {
    exists i :: 0 <= i < |entries| && Touches(entries[i], p)
  }

  ghost predicate Claimed(entries: seq<CacheEntry>, p: nat) {
    exists i :: 0 <= i < |entries| && Claims(entries[i], p)
  }

  lemma SegmentsOnPages(entries: seq<CacheEntry>)
    requires forall i :: 0 <= i < |entries| ==> entries[i].Sized()
    ensures forall i :: 0 <= i < |entries| ==> OnPages(Segments(entries)[i])
    ensures AllFit(entries) ==> AllForward(Segments(entries))
    ensures AllFit(entries) && Charged(entries) ==> NonEmpty(Segments(entries))
  {
    forall i | 0 <= i < |entries|
      ensures var s := Segments(entries)[i];
              && OnPages(s) && (entries[i].Fits() ==> Forward(s))
              && (entries[i].Fits() && entries[i].charge > 0 ==> s.start < s.end)
    {
      SegmentIsClaimedPages(entries[i], 0);
    }
  }

  lemma ClaimedIsSwept(calls: seq<Segment>, entries: seq<CacheEntry>)
    requires forall i :: 0 <= i < |entries| ==> entries[i].Sized()
    requires SamePages(calls, Segments(entries))
    ensures forall p: nat :: Covers(calls, p) <==> Claimed(entries, p)
  {
    forall p: nat
      ensures Covers(Segments(entries), p) <==> Claimed(entries, p)
    {
      forall i | 0 <= i < |entries|
        ensures Has(Segments(entries)[i], p) <==> Claims(entries[i], p)
      {
        SegmentIsClaimedPages(entries[i], p);
      }
    }
  }

  /** The calls are separate and cover exactly the pages the entries claim; one whose
      end has wrapped is for one entry alone. */
  ghost predicate IsUnmapping(calls: seq<Segment>, entries: seq<CacheEntry>) {
    && Separated(calls) && WrappedAlone(calls, Segments(entries))
    && (forall p: nat :: Covers(calls, p) <==> Claimed(entries, p))
    && (AllFit(entries) && Charged(entries) ==> NonEmpty(calls))
  }

  lemma SweepUnmaps(calls: seq<Segment>, entries: seq<CacheEntry>)
    requires forall i :: 0 <= i < |entries| ==> entries[i].Sized()
    requires IsSweep(calls, Segments(entries))
    ensures IsUnmapping(calls, entries)
  {
    ClaimedIsSwept(calls, entries);
    SegmentsOnPages(entries);
  }

  lemma ForwardStays(calls: seq<Segment>, segs: seq<Segment>)
    requires WrappedAlone(calls, segs) && AllForward(segs)
    ensures AllForward(calls)
  {
    forall i | 0 <= i < |calls|
      ensures Forward(calls[i])
    {
      if calls[i] in segs {
        ElementIsForward(segs, calls[i]);
      }
    }
  }

  lemma ElementIsForward(segs: seq<Segment>, s: Segment)
    requires AllForward(segs) && s in segs
    ensures Forward(s)
  {
    var k :| 0 <= k < |segs| && segs[k] == s;
  }

  /** If no entry wraps, no call does. */
  lemma FittingCalls(calls: seq<Segment>, entries: seq<CacheEntry>)
    requires WrappedAlone(calls, Segments(entries)) && AllFit(entries)
    ensures AllForward(calls)
  {
    SegmentsOnPages(entries);
    ForwardStays(calls, Segments(entries));
  }

  /** If no call wraps, the pages are counted exactly. */
  lemma CountIsExact(calls: seq<Segment>, pageCount: nat)
    requires Separated(calls) && AllForward(calls) && CountsPages(calls, pageCount)
    ensures CountsExactly(calls, pageCount)
  {
    NothingWrapped(calls);
  }

  ghost predicate UnalignedEmpty(e: CacheEntry) {
    e.charge == 0 && e.addr % PAGE_SIZE != 0
  }

  /** No segment reaches the last page of the address space. */
  lemma LastPageIsUnclaimed(e: CacheEntry, p: nat)
    requires e.Sized() && LAST_PAGE <= p * PAGE_SIZE
    ensures !Claims(e, p)
  {
    SegmentIsClaimedPages(e, p);
    assert SegmentOf(e).end <= LAST_PAGE;
  }

  /** The touched pages are claimed unless an entry with a charge wraps. */
  lemma TouchedIsClaimed(entries: seq<CacheEntry>, p: nat)
    requires Touched(entries, p) && forall e :: e in entries && e.charge > 0 ==> e.Fits()
    ensures Claimed(entries, p)
  {
    var i :| 0 <= i < |entries| && Touches(entries[i], p);
    assert entries[i] in entries && entries[i].charge > 0;
    assert Claims(entries[i], p);
  }

  lemma WrapLosesAPage(entries: seq<CacheEntry>, e: CacheEntry) returns (p: nat)
    requires (forall i :: 0 <= i < |entries| ==> entries[i].Sized())
    requires e in entries && e.charge > 0 && !e.Fits()
    ensures Touched(entries, p) && !Claimed(entries, p)
  {
    p := (e.addr + e.charge - 1) / PAGE_SIZE;
    WrappedSegment(e);
    forall i | 0 <= i < |entries|
      ensures !Claims(entries[i], p)
    {
      LastPageIsUnclaimed(entries[i], p);
    }
  }

  lemma EmptyClaims(e: CacheEntry, p: nat)
    requires e.Sized() && e.charge == 0
    ensures Claims(e, p) <==> e.Fits() && UnalignedEmpty(e) && p == e.addr / PAGE_SIZE
  {
    if !e.Fits() {
      WrappedClaimsNothing(e, p);
    }
  }

  /** What is unmapped is what the entries touch if and only if no entry with a charge
      wraps and every empty one off the page boundary that does not wrap lies in a page
      that some entry touches. */
  lemma ClaimedIsTouchedIff(entries: seq<CacheEntry>)
    requires forall i :: 0 <= i < |entries| ==> entries[i].Sized()
    ensures (forall p: nat :: Claimed(entries, p) <==> Touched(entries, p)) <==>
            && (forall e :: e in entries && e.charge > 0 ==> e.Fits())
            && (forall e :: e in entries && UnalignedEmpty(e) && e.Fits() ==> Touched(entries, e.addr / PAGE_SIZE))
  {
    if e :| e in entries && e.charge > 0 && !e.Fits() {
      var p := WrapLosesAPage(entries, e);
    } else {
      forall p: nat | Touched(entries, p)
        ensures Claimed(entries, p)
      {
        TouchedIsClaimed(entries, p);
      }
      EmptyEntriesDecide(entries);
    }
  }

  lemma EmptyEntriesDecide(entries: seq<CacheEntry>)
    requires forall i :: 0 <= i < |entries| ==> entries[i].Sized()
    requires forall e :: e in entries && e.charge > 0 ==> e.Fits()
    ensures (forall p: nat :: Claimed(entries, p) ==> Touched(entries, p)) <==>
            forall e :: e in entries && UnalignedEmpty(e) && e.Fits() ==> Touched(entries, e.addr / PAGE_SIZE)
  {
    forall e | e in entries && UnalignedEmpty(e) && e.Fits()
      ensures Claimed(entries, e.addr / PAGE_SIZE)
    {
      EmptyClaims(e, e.addr / PAGE_SIZE);
      var i :| 0 <= i < |entries| && entries[i] == e;
    }
    if forall e :: e in entries && UnalignedEmpty(e) && e.Fits() ==> Touched(entries, e.addr / PAGE_SIZE) {
      forall p: nat | Claimed(entries, p)
        ensures Touched(entries, p)
      {
        var i :| 0 <= i < |entries| && Claims(entries[i], p);
        assert entries[i] in entries;
        if entries[i].charge == 0 {
          EmptyClaims(entries[i], p);
        }
      }
    }
  }

  /** `std::sort` by start: any sorted permutation, ties in any order. */
  method Sort(segs: seq<Segment>) returns (sorted: seq<Segment>)
    requires forall i :: 0 <= i < |segs| ==> OnPages(segs[i])
    ensures Sorted(sorted) && multiset(sorted) == multiset(segs)
    ensures |sorted| == |segs| && forall i :: 0 <= i < |sorted| ==> OnPages(sorted[i])
  {
    ghost var some := SortedExists(segs);
    sorted :| Sorted(sorted) && multiset(sorted) == multiset(segs);
    PagesOfPermutation(segs, sorted);
  }

  lemma PagesOfPermutation(a: seq<Segment>, b: seq<Segment>)
    requires multiset(a) == multiset(b)
    requires forall i :: 0 <= i < |a| ==> OnPages(a[i])
    ensures |a| == |b| && forall i :: 0 <= i < |b| ==> OnPages(b[i])
  {
    assert |multiset(a)| == |a| && |multiset(b)| == |b|;
    forall i | 0 <= i < |b|
      ensures OnPages(b[i])
    {
      assert b[i] in multiset(a);
    }
  }

  /** A sweep of the sorted segments is one of the segments as they were recorded. */
  lemma SweepOfPermutation(calls: seq<Segment>, a: seq<Segment>, b: seq<Segment>)
    requires IsSweep(calls, a) && multiset(a) == multiset(b)
    ensures IsSweep(calls, b)
  {
    forall p: nat
      ensures Covers(a, p) <==> Covers(b, p)
    {
      SameSegments(a, b, p);
      SameSegments(b, a, p);
    }
    WrappedOfPermutation(calls, a, b);
    if NonEmpty(b) {
      forall i | 0 <= i < |a|
        ensures a[i].start < a[i].end
      {
        var j := SameElement(a, b, i);
      }
    }
  }

  lemma SameElement(a: seq<Segment>, b: seq<Segment>, i: nat) returns (j: nat)
    requires multiset(a) == multiset(b) && i < |a|
    ensures j < |b| && b[j] == a[i]
  {
    assert a[i] in multiset(b);
    j :| 0 <= j < |b| && b[j] == a[i];
  }

  lemma WrappedOfPermutation(calls: seq<Segment>, a: seq<Segment>, b: seq<Segment>)
    requires WrappedAlone(calls, a) && multiset(a) == multiset(b)
    ensures WrappedAlone(calls, b)
  {
    forall i | 0 <= i < |b| && !Forward(b[i])
      ensures b[i] in calls || Absorbed(calls, b[i])
    {
      var j := SameElement(b, a, i);
    }
    forall i | 0 <= i < |calls| && !Forward(calls[i])
      ensures calls[i] in b
    {
      var k :| 0 <= k < |a| && a[k] == calls[i];
      var j := SameElement(a, b, k);
    }
  }

  /** cur is the open interval after the first i of the sorted segments. */
  ghost predicate Swept(sorted: seq<Segment>, i: nat, done: seq<Segment>, cur: Segment)
    requires i <= |sorted|
  {
    && IsSweep(done + [cur], sorted[..i]) && OnPages(cur)
    && forall k :: i <= k < |sorted| ==> cur.start <= sorted[k].start
  }

  lemma SweepFirst(sorted: seq<Segment>)
    requires Sorted(sorted) && sorted != [] && OnPages(sorted[0])
    ensures Swept(sorted, 1, [], sorted[0])
  {
    FirstIsLeast(sorted);
    assert sorted[..1] == [] + [sorted[0]];
  }

  lemma SweepNext(sorted: seq<Segment>, i: nat, done: seq<Segment>, cur: Segment)
    requires Sorted(sorted) && i < |sorted| && OnPages(sorted[i])
    requires Swept(sorted, i, done, cur) && sorted[i].start > cur.end
    ensures Swept(sorted, i + 1, done + [cur], sorted[i])
  {
    assert sorted[..i + 1] == sorted[..i] + [sorted[i]];
    AppendedAt(done, cur);
    CloseInterval(done + [cur], sorted[..i], sorted[i]);
  }

  lemma SweepMerge(sorted: seq<Segment>, i: nat, done: seq<Segment>, cur: Segment)
    requires Sorted(sorted) && i < |sorted| && OnPages(sorted[i])
    requires Swept(sorted, i, done, cur) && sorted[i].start <= cur.end
    ensures Swept(sorted, i + 1, done, Extended(cur, sorted[i]))
  {
    assert sorted[..i + 1] == sorted[..i] + [sorted[i]];
    ExtendInterval(done, cur, sorted[..i], sorted[i]);
  }

  lemma SweepLast(sorted: seq<Segment>, done: seq<Segment>, cur: Segment)
    requires Swept(sorted, |sorted|, done, cur)
    ensures IsSweep(done + [cur], sorted)
  {
    assert sorted[..|sorted|] == sorted;
  }

  /** The sweep loop over the sorted segments. */
  method MergeSorted(segs: seq<Segment>) returns (unmapped: seq<Segment>, unmapCount: nat, pageCount: nat)
    requires Sorted(segs) && segs != []
    requires forall i :: 0 <= i < |segs| ==> OnPages(segs[i])
    ensures IsSweep(unmapped, segs) && Counted(unmapped, unmapCount, pageCount)
  {
    var n := |segs|;
    unmapped, unmapCount, pageCount := [], 0, 0;
    var cur := segs[0];
    SweepFirst(segs);
    for i := 1 to n + 1
      invariant if i <= n then Swept(segs, i, unmapped, cur) else IsSweep(unmapped, segs)
      invariant Counted(unmapped, unmapCount, pageCount)
    {
      if i == n || segs[i].start > cur.end {
        CountCall(unmapped, cur, unmapCount, pageCount);
        if i < n {
          SweepNext(segs, i, unmapped, cur);
        } else {
          SweepLast(segs, unmapped, cur);
        }
        unmapped, unmapCount, pageCount := unmapped + [cur], unmapCount + 1, pageCount + Pages(cur);
        if i < n {
          cur := segs[i];
        }
      } else {
        SweepMerge(segs, i, unmapped, cur);
        cur := Extended(cur, segs[i]);
      }
    }
  }

  // ------------------------------------------------ the result is determined

  lemma LastPage(segs: seq<Segment>, p: nat)
    requires Separated(segs) && NonEmpty(segs) && segs != []
    ensures Covers(segs, p) ==> p * PAGE_SIZE < segs[|segs| - 1].end
  {
    if Covers(segs, p) {
      var i :| 0 <= i < |segs| && Has(segs[i], p);
      assert i < |segs| - 1 ==> segs[i].end < segs[|segs| - 1].start;
    }
  }

  /** The page that ends where the last segment ends. */
  lemma LastPageOf(segs: seq<Segment>) returns (p: nat)
    requires Separated(segs) && NonEmpty(segs) && segs != []
    ensures (p + 1) * PAGE_SIZE == segs[|segs| - 1].end && Covers(segs, p)
  {
    var s := segs[|segs| - 1];
    assert OnPages(s);
    p := PageBefore(s.start, s.end);
    assert Has(s, p);
  }

  lemma PageBefore(x: nat, y: nat) returns (p: nat)
    requires x % PAGE_SIZE == 0 && y % PAGE_SIZE == 0 && x < y
    ensures (p + 1) * PAGE_SIZE == y && x <= p * PAGE_SIZE
  {
    p := y / PAGE_SIZE - 1;
  }

  /** The page before the last segment is a gap. */
  lemma GapBeforeLast(segs: seq<Segment>, p: nat)
    requires Separated(segs) && segs != []
    requires (p + 1) * PAGE_SIZE == segs[|segs| - 1].start
    ensures !Covers(segs, p)
  {
    forall i | 0 <= i < |segs|
      ensures !Has(segs[i], p)
    {
      assert i < |segs| - 1 ==> segs[i].end < segs[|segs| - 1].start;
    }
  }

  lemma LastEnds(a: seq<Segment>, b: seq<Segment>)
    requires Separated(a) && Separated(b) && NonEmpty(a) && NonEmpty(b) && a != [] && b != []
    requires SamePages(a, b)
    ensures a[|a| - 1].end <= b[|b| - 1].end
  {
    var p := LastPageOf(a);
    LastPage(b, p);
    assert OnPages(b[|b| - 1]);
    PageUpTo(p, b[|b| - 1].end);
  }

  lemma PageUpTo(p: nat, y: nat)
    requires p * PAGE_SIZE < y && y % PAGE_SIZE == 0
    ensures (p + 1) * PAGE_SIZE <= y
  {
    var q := y / PAGE_SIZE;
    assert y == q * PAGE_SIZE && p < q;
  }

  lemma LastStarts(a: seq<Segment>, b: seq<Segment>)
    requires Separated(a) && Separated(b) && NonEmpty(a) && NonEmpty(b) && a != [] && b != []
    requires SamePages(a, b) && a[|a| - 1].end == b[|b| - 1].end
    ensures a[|a| - 1].start >= b[|b| - 1].start
  {
    var x, y := a[|a| - 1], b[|b| - 1];
    assert OnPages(x) && OnPages(y);
    if x.start < y.start {
      var p := PageBefore(x.start, y.start);
      GapIsCovered(a, b, p);
    }
  }

  /** The page before the last interval of b would be covered by the last one of a. */
  lemma GapIsCovered(a: seq<Segment>, b: seq<Segment>, p: nat)
    requires Separated(b) && a != [] && b != [] && (p + 1) * PAGE_SIZE == b[|b| - 1].start
    requires a[|a| - 1].start <= p * PAGE_SIZE < a[|a| - 1].end
    ensures Covers(a, p) && !Covers(b, p)
  {
    assert Has(a[|a| - 1], p);
    GapBeforeLast(b, p);
  }

  lemma CoversFront(segs: seq<Segment>, p: nat)
    requires Separated(segs) && segs != []
    ensures Covers(segs[..|segs| - 1], p) <==> Covers(segs, p) && !Has(segs[|segs| - 1], p)
  {
    var front, s := segs[..|segs| - 1], segs[|segs| - 1];
    assert segs == front + [s];
    CoversAppend(front, s, p);
    if Covers(front, p) {
      var i :| 0 <= i < |front| && Has(front[i], p);
      assert segs[i].end < segs[|segs| - 1].start;
    }
  }

  lemma SameFronts(a: seq<Segment>, b: seq<Segment>)
    requires Separated(a) && Separated(b) && a != [] && b != [] && SamePages(a, b)
    requires a[|a| - 1] == b[|b| - 1]
    ensures Separated(a[..|a| - 1]) && Separated(b[..|b| - 1]) && SamePages(a[..|a| - 1], b[..|b| - 1])
  {
    var a', b' := a[..|a| - 1], b[..|b| - 1];
    forall p: nat
      ensures Covers(a', p) <==> Covers(b', p)
    {
      CoversFront(a, p);
      CoversFront(b, p);
    }
  }

  /** Whatever order `std::sort` leaves ties in, the intervals unmapped are the
      same: non-empty separated segments are determined by their pages. */
  lemma {:induction false} SweepIsDetermined(a: seq<Segment>, b: seq<Segment>)
    requires Separated(a) && Separated(b) && NonEmpty(a) && NonEmpty(b) && SamePages(a, b)
    ensures a == b
  {
    if a == [] {
      if b != [] {
        var p := LastPageOf(b);
      }
    } else if b == [] {
      var p := LastPageOf(a);
    } else {
      LastEnds(a, b);
      LastEnds(b, a);
      LastStarts(a, b);
      LastStarts(b, a);
      SameFronts(a, b);
      SweepIsDetermined(a[..|a| - 1], b[..|b| - 1]);
      assert a == a[..|a| - 1] + [a[|a| - 1]] && b == b[..|b| - 1] + [b[|b| - 1]];
    }
  }
}
