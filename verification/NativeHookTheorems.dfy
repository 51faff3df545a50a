/** What every run of the native-hook state machine keeps. */
module NativeHookTheorems {
  import opened Words
  import opened AddressMaps
  import opened Symbolization
  import opened ReorderBuffer
  import opened NativeHook

  // ---------------------------------------------------------------------------
  // Every registered stack is pending, awaiting re-parse, or mapped to a chain
  // ---------------------------------------------------------------------------

  predicate StacksTracked(s: Hook) {
    && (forall id :: HasId(s.all, id) ==> HasId(s.pending, id) || HasId(s.reparse, id) || id in s.chains)
    && (forall id :: HasId(s.pending, id) || HasId(s.reparse, id) || id in s.chains ==> HasId(s.all, id))
  }

  /** Every registered stack has a chain, and no other. */
  ghost predicate AllChained(s: Hook) {
    forall id :: HasId(s.all, id) <==> id in s.chains
  }

  predicate ChainsExtend(a: map<u32, nat>, b: map<u32, nat>) {
    forall id :: id in a ==> id in b && b[id] == a[id]
  }

  /** Parsing stacks touches only the cache, the chains and the frame rows, keeps every
      chain there was, and gives every parsed stack one. */
  lemma {:induction false} FillAllEffect(s: Hook, stacks: seq<Stack>)
    requires Sorted(s.maps)
    ensures var r := FillAll(s, stacks);
            && r == s.(cache := r.cache, chains := r.chains, lastChain := r.lastChain, rows := r.rows)
            && ChainsExtend(s.chains, r.chains)
            && forall id :: id in r.chains <==> id in s.chains || HasId(stacks, id)
  {
    if stacks != [] {
      var n := |stacks| - 1;
      FillAllEffect(s, stacks[..n]);
      forall id ensures id in FillAll(s, stacks).chains <==> id in s.chains || HasId(stacks, id) {
        HasIdAppend(stacks[..n], stacks[n], id);
        assert stacks == stacks[..n] + [stacks[n]];
      }
    }
  }

  /** Once both waiting maps are parsed they are empty and every registered stack has a chain. */
  lemma BothParsed(s: Hook)
    requires Sorted(s.maps) && StacksTracked(s)
    ensures var a := ParseAgain(ParsePending(s));
            && a == s.(cache := a.cache, chains := a.chains, lastChain := a.lastChain, rows := a.rows,
                       pending := [], reparse := [])
            && ChainsExtend(s.chains, a.chains)
            && StacksTracked(a) && AllChained(a)
  {
    FillAllEffect(s, s.pending);
    var p := ParsePending(s);
    FillAllEffect(p, p.reparse);
  }

  lemma PendingParsed(s: Hook)
    requires Sorted(s.maps) && StacksTracked(s)
    ensures var p := ParsePending(s);
            && p == s.(cache := p.cache, chains := p.chains, lastChain := p.lastChain, rows := p.rows,
                       pending := [])
            && ChainsExtend(s.chains, p.chains)
            && StacksTracked(p)
  {
    FillAllEffect(s, s.pending);
  }

  lemma FlushTracked(s: Hook)
    requires Sorted(s.maps) && StacksTracked(s)
    ensures var f := Flush(s);
            && StacksTracked(f) && f.pending == [] && f.waiting == []
            && f.all == s.all && f.tables == s.tables
            && ChainsExtend(s.chains, f.chains)
            && f.handled == s.handled + Resolved(s.waiting, f.chains)
            && (s.waiting != [] ==> AllChained(f))
  {
    PendingParsed(s);
    BothParsed(s);
    var a := ParseAgain(ParsePending(s));
    assert a.waiting[..|a.waiting|] == s.waiting;
    assert s.waiting == [] ==> s.handled + Resolved(s.waiting, Flush(s).chains) == s.handled;
  }

  /** Marking moves stacks from the chains to the re-parse map. */
  lemma {:induction false} MarkTracked(s: Hook, n: nat, start: u64, end: u64)
    requires StacksTracked(s) && n <= |s.all|
    ensures StacksTracked(MarkFirst(s, n, start, end))
  {
    if n > 0 {
      var m, st := MarkFirst(s, n - 1, start, end), s.all[n - 1];
      MarkTracked(s, n - 1, start, end);
      if Hits(st.ips, start, end) {
        forall id ensures HasId(Emplace(m.reparse, st), id) <==> HasId(m.reparse, id) || id == st.id {
          EmplaceIds(m.reparse, st, id);
        }
      }
    }
  }

  /** Exactly the stacks with an ip in the range, and not about to be parsed anyway, are queued. */
  lemma {:induction false} MarkQueues(s: Hook, n: nat, start: u64, end: u64, id: u32)
    requires n <= |s.all|
    ensures HasId(MarkFirst(s, n, start, end).reparse, id) <==>
            HasId(s.reparse, id)
            || (!HasId(s.pending, id) && exists i :: 0 <= i < n && s.all[i].id == id && Hits(s.all[i].ips, start, end))
  {
    if n > 0 {
      var m, st := MarkFirst(s, n - 1, start, end), s.all[n - 1];
      MarkQueues(s, n - 1, start, end, id);
      EmplaceIds(m.reparse, st, id);
      hide HasId, Hits, Emplace;
    }
  }

  lemma StepTracked(s: Hook, e: Event, cap: nat)
    requires Sorted(s.maps) && StacksTracked(s)
    ensures StacksTracked(Step(s, e, cap))
  {
    match e {
      case StackEvent(st) =>
        forall id
          ensures HasId(Emplace(s.all, st), id) <==> HasId(s.all, id) || id == st.id
          ensures HasId(Emplace(s.pending, st), id) <==> HasId(s.pending, id) || id == st.id
        {
          EmplaceIds(s.all, st, id);
          EmplaceIds(s.pending, st, id);
        }
      case MapsEvent(m) =>
        var (start, end) := ConflictRange(s.maps, m.start, m.end);
        if Conflicting((start, end)) {
          FlushTracked(s);
          var f := Flush(s);
          var cache := WithoutRange(f.cache, start, end);
          MarkTracked(f.(cache := cache), |f.all|, start, end);
        }
      case TableEvent(file, table) =>
        if file in s.tables {
          FlushTracked(s);
          var f := Flush(s);
          var cache := WithoutFile(f.cache, file);
          var (start, end) := TableRange(s.maps, file, 0, INVALID_UINT32, 0);
          MarkTracked(f.(cache := cache), |f.all|, start, end);
        }
      case ArrivalEvent(ev) => BothParsed(s.(waiting := Insert(s.waiting, ev)));
      case FinishEvent => BothParsed(s);
    }
  }

  /** Over every run, from the empty filter on. */
  lemma {:induction false} RunTracked(events: seq<Event>, cap: nat)
    ensures StacksTracked(Run(events, cap))
  {
    if events != [] {
      var n := |events| - 1;
      RunTracked(events[..n], cap);
      StepTracked(Run(events[..n], cap), events[n], cap);
    }
  }

  // ---------------------------------------------------------------------------
  // The maps from stack id to frames
  // ---------------------------------------------------------------------------

  ghost predicate ById(stacks: seq<Stack>) {
    forall i, j :: 0 <= i < j < |stacks| ==> stacks[i].id < stacks[j].id
  }

  /** An id that is present keeps its frames; a new one is added in its place. */
  lemma {:induction false} EmplaceExact(stacks: seq<Stack>, st: Stack)
    requires ById(stacks)
    ensures var r := Emplace(stacks, st);
            && ById(r) && (HasId(stacks, st.id) ==> r == stacks)
            && (!HasId(stacks, st.id) ==> forall x :: x in r <==> x in stacks || x == st)
  {
    if stacks == [] || stacks[|stacks| - 1].id < st.id {
      AppendById(stacks, st);
    } else {
      var n := |stacks| - 1;
      var front, last := stacks[..n], stacks[n];
      assert stacks == front + [last] && ById(front);
      HasIdAppend(front, last, st.id);
      if last.id > st.id {
        EmplaceExact(front, st);
        var r := Emplace(front, st);
        assert forall x :: x in front ==> x.id < last.id;
        assert forall x :: x in r ==> x.id < last.id;
        assert HasId(front, st.id) ==> r + [last] == stacks;
        hide HasId, Emplace;
        AppendById(r, last);
      }
    }
  }

  lemma AppendById(stacks: seq<Stack>, st: Stack)
    requires ById(stacks) && (stacks == [] || stacks[|stacks| - 1].id < st.id || forall x :: x in stacks ==> x.id < st.id)
    ensures ById(stacks + [st]) && !HasId(stacks, st.id)
  {
    forall i | 0 <= i < |stacks| ensures stacks[i].id < st.id {
      assert stacks[i] in stacks;
      assert i == |stacks| - 1 || stacks[i].id < stacks[|stacks| - 1].id;
    }
  }

  ghost predicate AllById(s: Hook) {
    ById(s.all) && ById(s.pending) && ById(s.reparse)
  }

  lemma {:induction false} MarkById(s: Hook, n: nat, start: u64, end: u64)
    requires AllById(s) && n <= |s.all|
    ensures AllById(MarkFirst(s, n, start, end))
  {
    if n > 0 {
      MarkById(s, n - 1, start, end);
      EmplaceExact(MarkFirst(s, n - 1, start, end).reparse, s.all[n - 1]);
      hide Emplace, ById;
    }
  }

  lemma ParsedById(s: Hook)
    requires Sorted(s.maps) && AllById(s)
    ensures AllById(ParsePending(s)) && AllById(ParseAgain(ParsePending(s))) && AllById(Flush(s))
  {
    FillAllEffect(s, s.pending);
    var p := ParsePending(s);
    FillAllEffect(p, p.reparse);
  }

  lemma StepById(s: Hook, e: Event, cap: nat)
    requires Sorted(s.maps) && AllById(s)
    ensures AllById(Step(s, e, cap))
  {
    hide ById, Emplace, OnMaps, OnTable, ParsePending, ParseAgain, Insert, Sorted;
    match e {
      case StackEvent(st) =>
        EmplaceExact(s.all, st);
        EmplaceExact(s.pending, st);
      case MapsEvent(m) => MapsById(s, m);
      case TableEvent(file, table) => TableById(s, file, table);
      case ArrivalEvent(ev) => ParsedById(s.(waiting := Insert(s.waiting, ev)));
      case FinishEvent => ParsedById(s);
    }
  }

  lemma MapsById(s: Hook, m: MapsInfo)
    requires Sorted(s.maps) && AllById(s)
    ensures AllById(OnMaps(s, m))
  {
    hide ById, Flush, ConflictRange, UpdateMaps, WithoutRange, Sorted, MarkFirst;
    ParsedById(s);
    var (start, end) := ConflictRange(s.maps, m.start, m.end);
    var f := Flush(s);
    MarkById(f.(cache := WithoutRange(f.cache, start, end)), |f.all|, start, end);
  }

  lemma TableById(s: Hook, file: u32, table: SymbolTable)
    requires Sorted(s.maps) && AllById(s)
    ensures AllById(OnTable(s, file, table))
  {
    hide ById, Flush, TableRange, WithoutFile, Sorted, MarkFirst;
    ParsedById(s);
    var (start, end) := TableRange(s.maps, file, 0, INVALID_UINT32, 0);
    var f := Flush(s);
    MarkById(f.(cache := WithoutFile(f.cache, file)), |f.all|, start, end);
  }

  lemma {:induction false} RunById(events: seq<Event>, cap: nat)
    ensures AllById(Run(events, cap))
  {
    hide Step, AllById;
    if events != [] {
      RunById(events[..|events| - 1], cap);
      StepById(Run(events[..|events| - 1], cap), events[|events| - 1], cap);
    } else {
      NoneById();
    }
  }

  lemma NoneById()
    ensures AllById(EMPTY)
  {
  }

  /** Over every run a stack event registers the stack, unless its id is taken, and has it parsed next,
      unless its id already waits for that. */
  lemma {:induction false} StackQueued(events: seq<Event>, cap: nat, st: Stack)
    ensures var s := Run(events, cap);
            var r := Step(s, StackEvent(st), cap);
            && (if HasId(s.all, st.id) then r.all == s.all else forall x :: x in r.all <==> x in s.all || x == st)
            && (if HasId(s.pending, st.id) then r.pending == s.pending else forall x :: x in r.pending <==> x in s.pending || x == st)
  {
    RunById(events, cap);
    var s := Run(events, cap);
    hide Run, Emplace, HasId;
    EmplaceExact(s.all, st);
    EmplaceExact(s.pending, st);
  }

  // ---------------------------------------------------------------------------
  // Main events
  // ---------------------------------------------------------------------------

  function EventsOf(hs: seq<Handled>): (r: seq<MainEvent>)
    ensures |r| == |hs|
    ensures forall i :: 0 <= i < |r| ==> r[i] == hs[i].event
  {
    seq(|hs|, i requires 0 <= i < |hs| => hs[i].event)
  }

  /** The state seen as a reorder buffer. */
  function View(s: Hook): (b: Buffer) {
    Buffer(EventsOf(s.handled), s.waiting)
  }

  /** The events that force everything waiting to be handled. */
  predicate Flushes(s: Hook, e: Event)
    requires Sorted(s.maps)
  {
    match e
    case MapsEvent(m) => Conflicting(ConflictRange(s.maps, m.start, m.end))
    case TableEvent(file, _) => file in s.tables
    case FinishEvent => true
    case _ => false
  }

  predicate Extends(s: Hook, r: Hook) {
    |s.handled| <= |r.handled| && r.handled[..|s.handled|] == s.handled
  }

  /** The entries of `r` beyond those of `s`: an event has a chain if and only if its stack id is not
      0 and is registered. */
  predicate NewlyResolved(s: Hook, r: Hook) {
    forall i :: |s.handled| <= i < |r.handled| ==>
      var id := r.handled[i].event.stackId;
      r.handled[i].chain.Some? <==> id != 0 && HasId(s.all, id)
  }

  lemma FilterEffect(s: Hook, num: nat)
    requires num <= |s.waiting|
    ensures var r := Filter(s, num);
            && Extends(s, r)
            && View(r) == Buffer(View(s).handled + s.waiting[..num], s.waiting[num..])
            && (AllChained(s) ==> NewlyResolved(s, r))
  {
    var r := Filter(s, num);
    assert EventsOf(r.handled) == EventsOf(s.handled) + s.waiting[..num];
  }

  lemma FlushView(s: Hook)
    requires Sorted(s.maps) && StacksTracked(s)
    ensures var f := Flush(s);
            Extends(s, f) && NewlyResolved(s, f) && View(f) == Buffer(View(s).Output(), [])
  {
    PendingParsed(s);
    BothParsed(s);
    var a := ParseAgain(ParsePending(s));
    if s.waiting == [] {
      assert View(s).Output() == View(s).handled;
    } else {
      FilterEffect(a, |a.waiting|);
      assert a.waiting[..|a.waiting|] == a.waiting;
    }
  }

  lemma ArrivalView(s: Hook, e: MainEvent, cap: nat)
    requires Sorted(s.maps) && StacksTracked(s)
    ensures var r := OnArrival(s, e, cap);
            Extends(s, r) && NewlyResolved(s, r) && View(r) == Arrive(View(s), e, cap)
  {
    var w := s.(waiting := Insert(s.waiting, e));
    assert StacksTracked(w);
    hide AllChained, StacksTracked, ParseAgain, ParsePending, Insert, Sorted, EventsOf, HasId, ChainsExtend;
    if |w.waiting| > cap {
      BothParsed(w);
      var a := ParseAgain(ParsePending(w));
      FilterEffect(a, |a.waiting| - cap);
      hide Filter;
    }
  }

  lemma FinishView(s: Hook)
    requires Sorted(s.maps) && StacksTracked(s)
    ensures var r := OnFinish(s);
            Extends(s, r) && NewlyResolved(s, r) && View(r) == Buffer(View(s).Output(), [])
  {
    BothParsed(s);
    var a := ParseAgain(ParsePending(s));
    FilterEffect(a, |a.waiting|);
    assert a.waiting[..|a.waiting|] == a.waiting;
  }

  /** What a step does to the main events: exactly what the reorder buffer does. */
  function ViewAfter(s: Hook, e: Event, cap: nat): (b: Buffer)
    requires Sorted(s.maps)
  {
    if e.ArrivalEvent? then Arrive(View(s), e.event, cap)
    else if Flushes(s, e) then Buffer(View(s).Output(), [])
    else View(s)
  }

  lemma SameView(s: Hook, f: Hook, r: Hook)
    requires Extends(s, f) && NewlyResolved(s, f) && r.handled == f.handled && r.waiting == f.waiting
    ensures Extends(s, r) && NewlyResolved(s, r) && View(r) == View(f)
  {
  }

  lemma UnchangedView(s: Hook, r: Hook)
    requires r.handled == s.handled && r.waiting == s.waiting
    ensures Extends(s, r) && NewlyResolved(s, r) && View(r) == View(s)
  {
  }

  lemma MapsView(s: Hook, m: MapsInfo)
    requires Sorted(s.maps) && StacksTracked(s)
    ensures var r := OnMaps(s, m);
            && Extends(s, r) && NewlyResolved(s, r)
            && View(r) == if Conflicting(ConflictRange(s.maps, m.start, m.end)) then Buffer(View(s).Output(), []) else View(s)
  {
    hide Flush, ConflictRange, UpdateMaps, WithoutRange, Sorted, StacksTracked, Extends, NewlyResolved, View;
    FlushView(s);
    if Conflicting(ConflictRange(s.maps, m.start, m.end)) {
      SameView(s, Flush(s), OnMaps(s, m));
    } else {
      UnchangedView(s, OnMaps(s, m));
    }
  }

  lemma TableView(s: Hook, file: u32, table: SymbolTable)
    requires Sorted(s.maps) && StacksTracked(s)
    ensures var r := OnTable(s, file, table);
            && Extends(s, r) && NewlyResolved(s, r)
            && View(r) == if file in s.tables then Buffer(View(s).Output(), []) else View(s)
  {
    hide Flush, TableRange, WithoutFile, Sorted, StacksTracked, Extends, NewlyResolved, View;
    FlushView(s);
    if file in s.tables {
      SameView(s, Flush(s), OnTable(s, file, table));
    } else {
      UnchangedView(s, OnTable(s, file, table));
    }
  }

  /** An event is handled with a chain exactly if its stack is registered, and each step
      moves main events exactly as the reorder buffer does. */
  lemma StepHandles(s: Hook, e: Event, cap: nat)
    requires Sorted(s.maps) && StacksTracked(s)
    ensures Extends(s, Step(s, e, cap)) && NewlyResolved(s, Step(s, e, cap))
    ensures View(Step(s, e, cap)) == ViewAfter(s, e, cap)
  {
    hide OnMaps, OnTable, OnArrival, OnFinish, ConflictRange, Extends, NewlyResolved, View, StacksTracked, Sorted;
    match e {
      case StackEvent(st) => UnchangedView(s, OnStack(s, st));
      case MapsEvent(m) => MapsView(s, m);
      case TableEvent(file, table) => TableView(s, file, table);
      case ArrivalEvent(ev) => ArrivalView(s, ev, cap);
      case FinishEvent => FinishView(s);
    }
  }

  /** The main events of a run in arrival order. */
  function Arrivals(events: seq<Event>): (r: seq<MainEvent>) {
    if events == [] then [] else
    var rest, e := Arrivals(events[..|events| - 1]), events[|events| - 1];
    if e.ArrivalEvent? then rest + [e.event] else rest
  }

  /** Every main event is handled exactly once or still waits, whatever maps and symbol
      tables force out early. */
  lemma {:induction false} RunHandlesOnce(events: seq<Event>, cap: nat)
    ensures multiset(View(Run(events, cap)).Output()) == multiset(Arrivals(events))
  {
    if events != [] {
      var n := |events| - 1;
      var s, e := Run(events[..n], cap), events[n];
      RunHandlesOnce(events[..n], cap);
      RunTracked(events[..n], cap);
      StepHandles(s, e, cap);
      if e.ArrivalEvent? {
        ArriveConserves(View(s), e.event, cap);
      } else {
        assert Buffer(View(s).Output(), []).Output() == View(s).Output();
      }
    }
  }

  /** No event of the run forces main events out. */
  predicate Unforced(events: seq<Event>, cap: nat) {
    events == [] ||
    var n := |events| - 1;
    Unforced(events[..n], cap) && !Flushes(Run(events[..n], cap), events[n])
  }

  lemma {:induction false} UnforcedRunIsBuffer(events: seq<Event>, cap: nat)
    requires Unforced(events, cap)
    ensures View(Run(events, cap)) == Feed(Arrivals(events), cap)
  {
    if events != [] {
      var n := |events| - 1;
      var s, e := Run(events[..n], cap), events[n];
      UnforcedRunIsBuffer(events[..n], cap);
      RunTracked(events[..n], cap);
      StepHandles(s, e, cap);
      var rest := Arrivals(events[..n]);
      if e.ArrivalEvent? {
        assert (rest + [e.event])[..|rest|] == rest;
      }
    }
  }

  /** Ending an unforced run: what has been handled is the stable timestamp sort of all main
      events exactly when each is preceded in arrival by at most `cap` later ones. */
  lemma {:induction false} FinishedRunSortsIff(events: seq<Event>, cap: nat)
    requires Unforced(events, cap) && Numbered(Arrivals(events))
    ensures IsStableSortOf(EventsOf(Step(Run(events, cap), FinishEvent, cap).handled), Arrivals(events))
            <==> BoundedDisorder(Arrivals(events), cap)
  {
    RunTracked(events, cap);
    StepHandles(Run(events, cap), FinishEvent, cap);
    UnforcedRunIsBuffer(events, cap);
    BufferSortsIff(Arrivals(events), cap);
  }

  /** With the capacity of the source. */
  lemma {:induction false} CachedRunSortsIff(events: seq<Event>)
    requires Unforced(events, MAX_CACHE_SIZE) && Numbered(Arrivals(events))
    ensures IsStableSortOf(EventsOf(Step(Run(events, MAX_CACHE_SIZE), FinishEvent, MAX_CACHE_SIZE).handled), Arrivals(events))
            <==> BoundedDisorder(Arrivals(events), MAX_CACHE_SIZE)
  {
    FinishedRunSortsIff(events, MAX_CACHE_SIZE);
  }
}
