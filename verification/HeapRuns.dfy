/** The heap rows that come out of the reorder buffer: those of the stream in time order
    (trace_streamer/src/filter/native_hook_filter.cpp:186-274 and 421-461). */
module HeapRuns {
  import opened Words
  import opened ReorderBuffer
  import opened NativeHook
  import opened NativeHookTheorems
  import HeapPairing

  /** The allocations and frees of a sequence of main events, as FilterNativeHookMainEvent
      passes them on. */
  function HeapEvents(s: seq<MainEvent>): (r: seq<HeapPairing.Event>) {
    if s == [] then [] else
    var rest, e := HeapEvents(s[..|s| - 1]), s[|s| - 1];
    match e.body
    case AllocBody(addr, size) => rest + [HeapPairing.Alloc(e.ts, addr, size)]
    case FreeBody(addr) => rest + [HeapPairing.Free(e.ts, addr)]
    case OtherBody => rest
  }

  /** The allocations and frees among main events, by position. */
  function HeapPositions(s: seq<MainEvent>, n: nat): (r: seq<nat>)
    requires n <= |s|
    ensures forall k :: 0 <= k < |r| ==> r[k] < n && !s[r[k]].body.OtherBody?
    ensures forall k, l :: 0 <= k < l < |r| ==> r[k] < r[l]
    ensures forall i :: 0 <= i < n && !s[i].body.OtherBody? ==> i in r
  {
    if n == 0 then []
    else if s[n - 1].body.OtherBody? then HeapPositions(s, n - 1)
    else HeapPositions(s, n - 1) + [n - 1]
  }

  ghost predicate Reports(e: MainEvent, h: HeapPairing.Event) {
    && h.ts == e.ts
    && match h
       case Alloc(_, addr, size) => e.body == AllocBody(addr, size)
       case Free(_, addr) => e.body == FreeBody(addr)
  }

  /** Every allocation and free is passed on, once, in order, with its time. */
  lemma {:induction false} HeapEventsReported(s: seq<MainEvent>)
    ensures var from := HeapPositions(s, |s|);
            |HeapEvents(s)| == |from| && forall k :: 0 <= k < |from| ==> Reports(s[from[k]], HeapEvents(s)[k])
  {
    if s != [] {
      var n := |s| - 1;
      HeapEventsReported(s[..n]);
      PositionsOfPrefix(s, n);
      var from := HeapPositions(s, n);
      assert HeapPositions(s, |s|) == if s[n].body.OtherBody? then from else from + [n];
      assert s[n].body.OtherBody? ==> HeapEvents(s) == HeapEvents(s[..n]);
      assert !s[n].body.OtherBody? ==> HeapEvents(s)[..|from|] == HeapEvents(s[..n]) && Reports(s[n], HeapEvents(s)[|from|]);
      hide HeapEvents, HeapPositions, Reports;
      forall k | 0 <= k < |from| ensures Reports(s[from[k]], HeapEvents(s)[k]) {
        assert s[..n][from[k]] == s[from[k]];
        assert HeapEvents(s)[k] == HeapEvents(s[..n])[k];
      }
    }
  }

  lemma {:induction false} PositionsOfPrefix(s: seq<MainEvent>, n: nat)
    requires n < |s|
    ensures HeapPositions(s[..|s| - 1], n) == HeapPositions(s, n)
  {
    if n > 0 {
      PositionsOfPrefix(s, n - 1);
    }
  }

  /** The heap table after a run and the end of the data. */
  function FinalHeap(events: seq<Event>, cap: nat): (h: HeapPairing.Heap) {
    HeapPairing.Run(HeapEvents(EventsOf(Step(Run(events, cap), FinishEvent, cap).handled)))
  }

  // ---------------------------------------------------------------------------
  // Time order in the heap table
  // ---------------------------------------------------------------------------

  predicate InTimeOrder(events: seq<HeapPairing.Event>) {
    forall i, j :: 0 <= i < j < |events| ==> events[i].ts <= events[j].ts
  }

  predicate Ended(row: HeapPairing.HookRow) {
    row.kind == HeapPairing.AllocEvent && row.endTs != 0
  }

  predicate Disjoint(a: HeapPairing.HookRow, b: HeapPairing.HookRow) {
    a.endTs <= b.ts || b.endTs <= a.ts
  }

  predicate RowsInOrder(rows: seq<HeapPairing.HookRow>) {
    forall i, j :: 0 <= i < j < |rows| ==> rows[i].ts <= rows[j].ts
  }

  /** No address is allocated twice at a time. */
  predicate LifetimesDisjoint(rows: seq<HeapPairing.HookRow>) {
    forall a, b :: 0 <= a < b < |rows| && Ended(rows[a]) && Ended(rows[b]) && rows[a].addr == rows[b].addr ==>
      Disjoint(rows[a], rows[b])
  }

  /** The open allocation of an address starts after all ended ones of that address. */
  predicate OpenIsLast(s: HeapPairing.Heap) {
    forall addr, a :: addr in s.open && s.open[addr] < |s.rows| && 0 <= a < |s.rows| && Ended(s.rows[a]) && s.rows[a].addr == addr ==>
      s.rows[a].endTs <= s.rows[s.open[addr]].ts
  }

  predicate UpTo(rows: seq<HeapPairing.HookRow>, now: u64) {
    forall i :: 0 <= i < |rows| ==> rows[i].ts <= now && rows[i].endTs <= now
  }

  predicate Timed(s: HeapPairing.Heap, now: u64) {
    RowsInOrder(s.rows) && LifetimesDisjoint(s.rows) && OpenIsLast(s) && UpTo(s.rows, now)
  }

  lemma AllocTimed(s: HeapPairing.Heap, ts: u64, addr: u64, size: u32, now: u64)
    requires HeapPairing.Valid(s) && Timed(s, now) && now <= ts
    ensures Timed(HeapPairing.OnAlloc(s, ts, addr, size), ts)
  {
  }

  lemma FreeTimed(s: HeapPairing.Heap, ts: u64, addr: u64, now: u64)
    requires HeapPairing.Valid(s) && Timed(s, now) && now <= ts && HeapPairing.Matches(s, ts, addr)
    ensures Timed(HeapPairing.OnFree(s, ts, addr), ts)
  {
    var i, r := s.open[addr], HeapPairing.OnFree(s, ts, addr);
    assert r.open == s.open - {addr} && |r.rows| == |s.rows| + 1;
    assert forall k :: 0 <= k < |s.rows| && k != i ==> r.rows[k] == s.rows[k];
    assert r.rows[i].ts == s.rows[i].ts && r.rows[i].endTs == ts && r.rows[i].addr == addr;
    assert r.rows[|s.rows|].ts == ts && r.rows[|s.rows|].endTs == 0 && !Ended(r.rows[|s.rows|]);
    assert forall x :: x in s.open ==> s.open[x] < |s.rows| && s.rows[s.open[x]].addr == x;
    hide HeapPairing.OnFree, HeapPairing.Matches, HeapPairing.Valid;
    FreeLifetimes(s, r, i, ts);
  }

  lemma FreeLifetimes(s: HeapPairing.Heap, r: HeapPairing.Heap, i: nat, ts: u64)
    requires LifetimesDisjoint(s.rows) && OpenIsLast(s) && i < |s.rows|
    requires s.rows[i].addr in s.open && s.open[s.rows[i].addr] == i
    requires |r.rows| == |s.rows| + 1 && forall k :: 0 <= k < |s.rows| && k != i ==> r.rows[k] == s.rows[k]
    requires r.rows[i].ts == s.rows[i].ts && r.rows[i].addr == s.rows[i].addr && !Ended(r.rows[|s.rows|])
    ensures LifetimesDisjoint(r.rows)
  {
    forall a, b | 0 <= a < b < |r.rows| && Ended(r.rows[a]) && Ended(r.rows[b]) && r.rows[a].addr == r.rows[b].addr
      ensures Disjoint(r.rows[a], r.rows[b])
    {
      assert b < |s.rows|;
      if a != i && b != i {
        assert Disjoint(s.rows[a], s.rows[b]);
      }
    }
  }

  /** In a time-ordered stream the rows are in time order and no address is allocated twice at a
      time. */
  lemma {:induction false} TimedRun(events: seq<HeapPairing.Event>, now: u64)
    requires InTimeOrder(events) && forall i :: 0 <= i < |events| ==> events[i].ts <= now
    ensures Timed(HeapPairing.Run(events), now)
  {
    if events != [] {
      var n := |events| - 1;
      var s, e := HeapPairing.Run(events[..n]), events[n];
      TimedRun(events[..n], e.ts);
      HeapPairing.HeapConservation(events[..n]);
      HeapPairing.ValidOf(s);
      hide Timed, HeapPairing.Valid;
      match e {
        case Alloc(ts, addr, size) => AllocTimed(s, ts, addr, size, ts);
        case Free(ts, addr) =>
          if HeapPairing.Matches(s, ts, addr) {
            FreeTimed(s, ts, addr, ts);
          }
      }
      TimedLater(HeapPairing.Run(events), e.ts, now);
    }
  }

  lemma TimedLater(s: HeapPairing.Heap, now: u64, later: u64)
    requires Timed(s, now) && now <= later
    ensures Timed(s, later)
  {
  }

  lemma {:induction false} SortedHeapEvents(s: seq<MainEvent>)
    requires TimeSorted(s)
    ensures InTimeOrder(HeapEvents(s)) && (s == [] ==> HeapEvents(s) == [])
    ensures forall i :: 0 <= i < |HeapEvents(s)| ==> HeapEvents(s)[i].ts <= s[|s| - 1].ts
  {
    if s != [] {
      SortedHeapEvents(s[..|s| - 1]);
    }
  }

  // ---------------------------------------------------------------------------
  // Runs
  // ---------------------------------------------------------------------------

  lemma {:induction false} FinishedOutput(events: seq<Event>, cap: nat)
    requires Unforced(events, cap)
    ensures EventsOf(Step(Run(events, cap), FinishEvent, cap).handled) == Feed(Arrivals(events), cap).Output()
  {
    RunTracked(events, cap);
    StepHandles(Run(events, cap), FinishEvent, cap);
    UnforcedRunIsBuffer(events, cap);
  }

  /** Main result: for an unforced run within the buffer the heap table is that of the stream in time
      order, its rows are in time order, and no address is allocated twice at a time. */
  lemma {:induction false} HeapIsSorted(events: seq<Event>, cap: nat)
    requires Unforced(events, cap) && Numbered(Arrivals(events)) && BoundedDisorder(Arrivals(events), cap)
    ensures FinalHeap(events, cap) == HeapPairing.Run(HeapEvents(Sort(Arrivals(events))))
    ensures RowsInOrder(FinalHeap(events, cap).rows) && LifetimesDisjoint(FinalHeap(events, cap).rows)
  {
    var s := Arrivals(events);
    hide Arrivals, Numbered, BoundedDisorder, Unforced, Feed, Sort, Run, Step, EventsOf, HeapEvents, HeapPairing.Run, InTimeOrder,
         TimeSorted, StablySorted;
    FinishedOutput(events, cap);
    BoundedRunSorts(s, cap);
    SortIsStableSort(s);
    StablySortedIsTimeSorted(Sort(s));
    SortedHeapEvents(Sort(s));
    TimedRun(HeapEvents(Sort(s)), if Sort(s) == [] then 0 else Sort(s)[|Sort(s)| - 1].ts);
  }

  // ---------------------------------------------------------------------------
  // The order of arrival does not matter
  // ---------------------------------------------------------------------------

  /** The events without their arrival numbers and stacks. */
  function Contents(s: seq<MainEvent>): (r: seq<(u64, Body)>)
    ensures |r| == |s| && forall i :: 0 <= i < |r| ==> r[i] == (s[i].ts, s[i].body)
  {
    seq(|s|, i requires 0 <= i < |s| => (s[i].ts, s[i].body))
  }

  predicate DistinctTimes(s: seq<MainEvent>) {
    forall i, j :: 0 <= i < j < |s| ==> s[i].ts != s[j].ts
  }

  predicate Ascending(s: seq<(u64, Body)>) {
    forall i, j :: 0 <= i < j < |s| ==> s[i].0 < s[j].0
  }

  lemma {:induction false} SameContentsSameHeap(a: seq<MainEvent>, b: seq<MainEvent>)
    requires Contents(a) == Contents(b)
    ensures HeapEvents(a) == HeapEvents(b)
  {
    if a != [] {
      var n := |a| - 1;
      assert |b| == |a| && Contents(a)[n] == Contents(b)[n];
      assert Contents(a[..n]) == Contents(a)[..n] && Contents(b[..n]) == Contents(b)[..n];
      SameContentsSameHeap(a[..n], b[..n]);
    }
  }

  lemma ContentsAppend(s: seq<MainEvent>, e: MainEvent)
    ensures Contents(s + [e]) == Contents(s) + [(e.ts, e.body)]
  {
  }

  lemma {:induction false} ContentsInsert(s: seq<MainEvent>, e: MainEvent)
    ensures multiset(Contents(Insert(s, e))) == multiset(Contents(s)) + multiset{(e.ts, e.body)}
  {
    hide Contents;
    if s == [] || s[|s| - 1].ts <= e.ts {
      ContentsAppend(s, e);
    } else {
      var n := |s| - 1;
      ContentsInsert(s[..n], e);
      ContentsAppend(Insert(s[..n], e), s[n]);
      ContentsAppend(s[..n], s[n]);
      assert s[..n] + [s[n]] == s;
    }
  }

  lemma {:induction false} ContentsSort(s: seq<MainEvent>)
    ensures multiset(Contents(Sort(s))) == multiset(Contents(s))
  {
    hide Contents, Insert;
    if s != [] {
      var n := |s| - 1;
      ContentsSort(s[..n]);
      ContentsInsert(Sort(s[..n]), s[n]);
      ContentsAppend(s[..n], s[n]);
      assert s[..n] + [s[n]] == s;
    }
  }

  /** Strictly ascending sequences with the same elements are the same. */
  lemma {:induction false} OneOrder(x: seq<(u64, Body)>, y: seq<(u64, Body)>)
    requires Ascending(x) && Ascending(y) && multiset(x) == multiset(y)
    ensures x == y
  {
    SameElements(x, y);
    if x != [] {
      var n := |x| - 1;
      SameLast(x, y);
      WithoutLast(x, y);
      AscendingPrefix(x);
      AscendingPrefix(y);
      hide Ascending;
      OneOrder(x[..n], y[..n]);
      assert x == x[..n] + [x[n]] && y == y[..n] + [y[n]];
    }
  }

  lemma SameElements(x: seq<(u64, Body)>, y: seq<(u64, Body)>)
    requires multiset(x) == multiset(y)
    ensures |x| == |y| && (x != [] ==> x[|x| - 1] in y && y[|y| - 1] in x)
  {
    assert |x| == |multiset(x)| == |multiset(y)| == |y|;
    if x != [] {
      assert x[|x| - 1] in multiset(y) && y[|y| - 1] in multiset(x);
    }
  }

  lemma AscendingPrefix(x: seq<(u64, Body)>)
    requires Ascending(x) && x != []
    ensures Ascending(x[..|x| - 1])
  {
  }

  lemma SameLast(x: seq<(u64, Body)>, y: seq<(u64, Body)>)
    requires Ascending(x) && Ascending(y) && |x| == |y| > 0
    requires x[|x| - 1] in y && y[|y| - 1] in x
    ensures x[|x| - 1] == y[|y| - 1]
  {
    var n := |x| - 1;
    var i :| 0 <= i < |x| && x[i] == y[n];
    var j :| 0 <= j < |y| && y[j] == x[n];
  }

  lemma WithoutLast(x: seq<(u64, Body)>, y: seq<(u64, Body)>)
    requires |x| == |y| > 0 && x[|x| - 1] == y[|y| - 1] && multiset(x) == multiset(y)
    ensures multiset(x[..|x| - 1]) == multiset(y[..|y| - 1])
  {
    var n := |x| - 1;
    assert x == x[..n] + [x[n]] && y == y[..n] + [y[n]];
    assert multiset(x[..n]) == multiset(x) - multiset{x[n]};
    assert multiset(y[..n]) == multiset(y) - multiset{y[n]};
  }

  /** With distinct times the sorted stream ascends strictly. */
  lemma {:induction false} SortAscends(s: seq<MainEvent>)
    requires Numbered(s) && DistinctTimes(s)
    ensures Ascending(Contents(Sort(s)))
  {
    SortIsStableSort(s);
    var r := Sort(s);
    forall i, j | 0 <= i < j < |r| ensures r[i].ts < r[j].ts {
      assert Before(r[i], r[j]);
      assert r[i] in multiset(r) && r[j] in multiset(r);
      assert r[i] in multiset(s) && r[j] in multiset(s);
      var a :| 0 <= a < |s| && s[a] == r[i];
      var b :| 0 <= b < |s| && s[b] == r[j];
    }
  }

  lemma {:induction false} SameSortedHeap(s: seq<MainEvent>, t: seq<MainEvent>)
    requires Numbered(s) && DistinctTimes(s) && Numbered(t) && DistinctTimes(t)
    requires multiset(Contents(s)) == multiset(Contents(t))
    ensures HeapEvents(Sort(s)) == HeapEvents(Sort(t))
  {
    hide *;
    SortAscends(s);
    SortAscends(t);
    ContentsSort(s);
    ContentsSort(t);
    OneOrder(Contents(Sort(s)), Contents(Sort(t)));
    SameContentsSameHeap(Sort(s), Sort(t));
  }

  /** Whatever the order in which the same events arrive, within the buffer they leave the same heap
      table. */
  lemma {:induction false} ArrivalOrderIrrelevant(events: seq<Event>, cap: nat, others: seq<Event>, otherCap: nat)
    requires Unforced(events, cap) && Numbered(Arrivals(events)) && BoundedDisorder(Arrivals(events), cap)
    requires Unforced(others, otherCap) && Numbered(Arrivals(others)) && BoundedDisorder(Arrivals(others), otherCap)
    requires DistinctTimes(Arrivals(events)) && DistinctTimes(Arrivals(others))
    requires multiset(Contents(Arrivals(events))) == multiset(Contents(Arrivals(others)))
    ensures FinalHeap(events, cap) == FinalHeap(others, otherCap)
  {
    hide *;
    HeapIsSorted(events, cap);
    HeapIsSorted(others, otherCap);
    SameSortedHeap(Arrivals(events), Arrivals(others));
  }
}
