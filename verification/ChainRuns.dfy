/** Exactly when call chains stay up to date over maps and symbol-table events, and what every run
    keeps (trace_streamer/src/filter/native_hook_filter.cpp:541-695). */
module ChainRuns {
  import opened Words
  import opened AddressMaps
  import opened Symbolization
  import opened ReorderBuffer
  import opened NativeHook
  import opened NativeHookTheorems
  import opened CacheCoherence
  import opened TableScan
  import opened ChainFreshness

  // ---------------------------------------------------------------------------
  // When the fresh frames of a stack change
  // ---------------------------------------------------------------------------

  /** No map gives this ip a file. */
  predicate Blind(ms: seq<MapsInfo>, ip: u64)
    requires Sorted(ms)
  {
    Covering(ms, ip).None? || Covering(ms, ip).value.file == INVALID_UINT32
  }

  /** How many ips of a stack are symbolized: those before the first blind one. */
  function Gap(ms: seq<MapsInfo>, ips: seq<u64>): (g: nat)
    requires Sorted(ms)
    ensures g <= |ips| && (g < |ips| ==> Blind(ms, ips[g]))
    ensures forall i :: 0 <= i < g ==> !Blind(ms, ips[i])
  {
    if ips == [] || Blind(ms, ips[0]) then 0 else 1 + Gap(ms, ips[1..])
  }

  /** The symbolized ips resolve as before, and the stack still ends at the same one. */
  ghost predicate Unaffected(ms: seq<MapsInfo>, tables: map<u32, SymbolTable>,
                             ms': seq<MapsInfo>, tables': map<u32, SymbolTable>, ips: seq<u64>)
    requires Sorted(ms) && Sorted(ms')
  {
    var g := Gap(ms, ips);
    && (forall i :: 0 <= i < g ==> Lookup(ms', tables', ips[i]) == Lookup(ms, tables, ips[i]))
    && (g < |ips| ==> Blind(ms', ips[g]))
  }

  lemma {:induction false} FreshFramesSameIff(ms: seq<MapsInfo>, tables: map<u32, SymbolTable>,
                                              ms': seq<MapsInfo>, tables': map<u32, SymbolTable>, ips: seq<u64>)
    requires Sorted(ms) && Sorted(ms')
    ensures FreshFrames(ms', tables', ips) == FreshFrames(ms, tables, ips) <==> Unaffected(ms, tables, ms', tables', ips)
  {
    if ips == [] {
      return;
    }
    var rest := ips[1..];
    FramesFirst(ms, tables, ips);
    FramesFirst(ms', tables', ips);
    hide FreshFrames, Lookup, Covering, Sorted;
    if Blind(ms, ips[0]) {
      assert Gap(ms, ips) == 0;
    } else {
      hide Unaffected, Blind, Gap;
      FreshFramesSameIff(ms, tables, ms', tables', rest);
      UnaffectedFirst(ms, tables, ms', tables', ips);
      SameHead(Lookup(ms', tables', ips[0]), FreshFrames(ms', tables', rest), Lookup(ms, tables, ips[0]).value,
               FreshFrames(ms, tables, rest));
    }
  }

  lemma SameHead<T>(a: Option<T>, x: seq<T>, b: T, y: seq<T>)
    ensures a.Some? ==> ([a.value] + x == [b] + y <==> a.value == b && x == y)
  {
    if a.Some? && [a.value] + x == [b] + y {
      assert ([a.value] + x)[0] == ([b] + y)[0];
      assert ([a.value] + x)[1..] == x && ([b] + y)[1..] == y;
    }
  }

  lemma UnaffectedFirst(ms: seq<MapsInfo>, tables: map<u32, SymbolTable>,
                        ms': seq<MapsInfo>, tables': map<u32, SymbolTable>, ips: seq<u64>)
    requires Sorted(ms) && Sorted(ms') && ips != [] && !Blind(ms, ips[0])
    ensures Unaffected(ms, tables, ms', tables', ips) <==>
            Lookup(ms', tables', ips[0]) == Lookup(ms, tables, ips[0]) && Unaffected(ms, tables, ms', tables', ips[1..])
  {
    hide Sorted, Covering, Blind;
    var g, rest := Gap(ms, ips), ips[1..];
    assert g == 1 + Gap(ms, rest);
    if Unaffected(ms, tables, ms', tables', ips) {
      forall i | 0 <= i < g - 1 ensures Lookup(ms', tables', rest[i]) == Lookup(ms, tables, rest[i]) {
        assert rest[i] == ips[i + 1];
      }
    }
    if Lookup(ms', tables', ips[0]) == Lookup(ms, tables, ips[0]) && Unaffected(ms, tables, ms', tables', rest) {
      forall i | 0 <= i < g ensures Lookup(ms', tables', ips[i]) == Lookup(ms, tables, ips[i]) {
        if i > 0 {
          assert rest[i - 1] == ips[i];
        }
      }
    }
  }

  lemma {:induction false} FramesFirst(ms: seq<MapsInfo>, tables: map<u32, SymbolTable>, ips: seq<u64>)
    requires Sorted(ms) && ips != []
    ensures if Blind(ms, ips[0]) then FreshFrames(ms, tables, ips) == [] && Lookup(ms, tables, ips[0]) == None
            else Lookup(ms, tables, ips[0]).Some?
                 && FreshFrames(ms, tables, ips) == [Lookup(ms, tables, ips[0]).value] + FreshFrames(ms, tables, ips[1..])
  {
  }

  // ---------------------------------------------------------------------------
  // Chains over an update
  // ---------------------------------------------------------------------------

  lemma RowsOfInjective(chain: nat, a: seq<FrameInfo>, b: seq<FrameInfo>)
    ensures RowsOf(chain, a) == RowsOf(chain, b) <==> a == b
  {
    var x, y := RowsOf(chain, a), RowsOf(chain, b);
    if x == y {
      forall i | 0 <= i < |a| ensures a[i] == b[i] {
        assert x[|a| - 1 - i].frame == a[i] && y[|a| - 1 - i].frame == b[i];
      }
    }
  }

  /** A chain that held the fresh frames before an update still does if and only if the stack is
      unaffected. */
  lemma FreshAfterIff(s: Hook, r: Hook, st: Stack)
    requires Sorted(s.maps) && Sorted(r.maps) && st in r.all && st.id in r.chains
    requires RowsFor(r.rows, r.chains[st.id]) == RowsOf(r.chains[st.id], FreshFrames(s.maps, s.tables, st.ips))
    ensures FreshFor(r, st) <==> Unaffected(s.maps, s.tables, r.maps, r.tables, st.ips)
  {
    hide Unaffected, Sorted, RowsFor;
    FreshFramesSameIff(s.maps, s.tables, r.maps, r.tables, st.ips);
    RowsOfInjective(r.chains[st.id], FreshFrames(s.maps, s.tables, st.ips), FreshFrames(r.maps, r.tables, st.ips));
  }

  /** The stack has a chain once what an update parses first has been parsed. */
  predicate Chained(s: Hook, id: u32) {
    id in s.chains || HasId(s.pending, id) || (s.waiting != [] && HasId(s.reparse, id))
  }

  lemma FlushKeys(s: Hook, id: u32)
    requires Sorted(s.maps)
    ensures id in Flush(s).chains <==> Chained(s, id)
  {
    FillAllEffect(s, s.pending);
    var p := ParsePending(s);
    FillAllEffect(p, p.reparse);
  }

  /** The state after the flush and the marking that come before an update. */
  function Marked(s: Hook, cache: map<u64, FrameInfo>, start: u64, end: u64): (r: Hook)
    requires Sorted(s.maps)
  {
    Mark(Flush(s).(cache := cache), start, end)
  }

  lemma MarkedTidy(s: Hook, cache: map<u64, FrameInfo>, start: u64, end: u64)
    requires Orderly(s) && StacksTracked(s)
    ensures var r := Marked(s, cache, start, end);
            Tidy(r) && r.all == s.all && r.tables == s.tables && r.maps == s.maps
  {
    FlushFresh(s, Stack(0, []));
    assert Tidy(Flush(s)) && Sorted(s.maps);
    hide *;
    var g := Flush(s).(cache := cache);
    CacheTidy(Flush(s), cache);
    MarkTidy(g, |g.all|, start, end);
    MarkedIs(s, cache, start, end);
    MarkIs(g, start, end);
  }

  lemma {:induction false} MarkIs(s: Hook, start: u64, end: u64)
    ensures Mark(s, start, end) == MarkFirst(s, |s.all|, start, end)
  {
  }

  /** Which stacks keep their chain, and that it is as fresh as before. */
  lemma MarkedChain(s: Hook, cache: map<u64, FrameInfo>, start: u64, end: u64, st: Stack)
    requires Orderly(s) && StacksTracked(s) && st in s.all
    ensures var r := Marked(s, cache, start, end);
            && NewlyFreshIff(s, r, st)
            && (st.id in r.chains <==> Chained(s, st.id) && Clear(st.ips, start, end))
            && (st.id in r.chains && FreshFor(s, st) ==>
                RowsFor(r.rows, r.chains[st.id]) == RowsOf(r.chains[st.id], FreshFrames(s.maps, s.tables, st.ips)))
  {
    FlushFresh(s, st);
    FlushKeys(s, st.id);
    assert Tidy(Flush(s)) && Sorted(s.maps);
    hide *;
    var f := Flush(s);
    var g := f.(cache := cache);
    CacheTidy(f, cache);
    MarkEffect(g, start, end, st);
    MarkedIs(s, cache, start, end);
    SameRowsFresh(s, f, Mark(g, start, end), st);
    if st.id in Marked(s, cache, start, end).chains && FreshFor(s, st) {
      FreshRows(f, st);
    }
  }

  lemma MarkedIs(s: Hook, cache: map<u64, FrameInfo>, start: u64, end: u64)
    requires Sorted(s.maps)
    ensures var f, r := Flush(s), Marked(s, cache, start, end);
            && r == Mark(f.(cache := cache), start, end)
            && r == f.(cache := cache, chains := r.chains, reparse := r.reparse)
  {
    hide Flush, MarkFirst;
  }

  lemma CacheTidy(f: Hook, cache: map<u64, FrameInfo>)
    requires Tidy(f)
    ensures Tidy(f.(cache := cache))
  {
  }

  lemma FreshRows(s: Hook, st: Stack)
    requires Sorted(s.maps) && st in s.all && st.id in s.chains && FreshFor(s, st)
    ensures RowsFor(s.rows, s.chains[st.id]) == RowsOf(s.chains[st.id], FreshFrames(s.maps, s.tables, st.ips))
  {
  }

  // ---------------------------------------------------------------------------
  // A new map
  // ---------------------------------------------------------------------------

  /** The new map brings symbols to the ip at which the stack ended. */
  ghost predicate Revives(ms: seq<MapsInfo>, m: MapsInfo, ips: seq<u64>)
    requires Sorted(ms)
  {
    var g := Gap(ms, ips);
    g < |ips| && m.start <= ips[g] < m.end && m.file != INVALID_UINT32 && Covering(ms, ips[g]).None?
  }

  /** Outside the invalidation range a new map only covers what was not covered. */
  lemma CoveringExact(ms: seq<MapsInfo>, m: MapsInfo, ip: u64)
    requires WellFormed(ms) && Sorted(ms) && m.start < m.end
    requires var range := ConflictRange(ms, m.start, m.end);
             Conflicting(range) ==> !(range.0 <= ip < range.1)
    ensures Covering(UpdateMaps(ms, m), ip) ==
            if m.start <= ip < m.end && Covering(ms, ip).None? then Some(m) else Covering(ms, ip)
  {
    if m.start <= ip < m.end && Covering(ms, ip).None? {
      MapsStayDisjoint(ms, m);
      CoveringContains(UpdateMaps(ms, m), ip, m);
    } else {
      CoveringAfterMaps(ms, m, ip);
    }
  }

  lemma MapsUnaffectedIff(ms: seq<MapsInfo>, tables: map<u32, SymbolTable>, m: MapsInfo, ips: seq<u64>)
    requires WellFormed(ms) && Sorted(ms) && m.start < m.end
    requires var range := ConflictRange(ms, m.start, m.end);
             Conflicting(range) ==> forall i :: 0 <= i < |ips| ==> !(range.0 <= ips[i] < range.1)
    ensures Unaffected(ms, tables, UpdateMaps(ms, m), tables, ips) <==> !Revives(ms, m, ips)
  {
    hide WellFormed, Sorted, ConflictRange, UpdateMaps, Covering, Gap, Resolve;
    var g, ms' := Gap(ms, ips), UpdateMaps(ms, m);
    forall i | 0 <= i < g ensures Lookup(ms', tables, ips[i]) == Lookup(ms, tables, ips[i]) {
      CoveringExact(ms, m, ips[i]);
    }
    if g < |ips| {
      CoveringExact(ms, m, ips[g]);
    }
  }

  /** Whether a registered stack has a chain behind a maps event, from the state before it. */
  predicate KeepsOverMap(s: Hook, m: MapsInfo, st: Stack)
    requires Sorted(s.maps)
  {
    var (start, end) := ConflictRange(s.maps, m.start, m.end);
    if Conflicting((start, end)) then Chained(s, st.id) && Clear(st.ips, start, end) else st.id in s.chains
  }

  /** If the stack keeps a chain, it ends where it ended. */
  ghost predicate TimelyMap(s: Hook, m: MapsInfo, st: Stack)
    requires Sorted(s.maps)
  {
    st in s.all && KeepsOverMap(s, m, st) ==> !Revives(s.maps, m, st.ips)
  }

  lemma MapsTidy(s: Hook, m: MapsInfo)
    requires Orderly(s) && StacksTracked(s)
    ensures Tidy(OnMaps(s, m)) && OnMaps(s, m).all == s.all && OnMaps(s, m).tables == s.tables
  {
    var (start, end) := ConflictRange(s.maps, m.start, m.end);
    var cache := WithoutRange(Flush(s).cache, start, end);
    MarkedTidy(s, cache, start, end);
    assert Conflicting((start, end)) ==> OnMaps(s, m) == Marked(s, cache, start, end).(maps := UpdateMaps(s.maps, m));
  }

  lemma MapsChain(s: Hook, m: MapsInfo, st: Stack)
    requires Orderly(s) && StacksTracked(s) && st in s.all
    ensures var r := OnMaps(s, m);
            && NewlyFreshIff(s, r, st)
            && (st.id in r.chains <==> KeepsOverMap(s, m, st))
            && (st.id in r.chains && FreshFor(s, st) ==>
                RowsFor(r.rows, r.chains[st.id]) == RowsOf(r.chains[st.id], FreshFrames(s.maps, s.tables, st.ips)))
  {
    assert Sorted(s.maps);
    hide Orderly, StacksTracked, Clear, Chained, Flush, Mark, UpdateMaps, ConflictRange, Sorted;
    var (start, end) := ConflictRange(s.maps, m.start, m.end);
    var r := OnMaps(s, m);
    if Conflicting((start, end)) {
      var cache := WithoutRange(Flush(s).cache, start, end);
      var g := Marked(s, cache, start, end);
      assert r == g.(maps := UpdateMaps(s.maps, m));
      hide Marked, OnMaps, WithoutRange;
      MarkedChain(s, cache, start, end, st);
      SameRowsFresh(s, g, r, st);
    } else {
      NoneHandled(s, r, st);
    }
  }

  /** A map with start < end keeps the chain of a stack up to date if and only if the stack loses
      its chain or did not end, for want of a map, inside the new one. */
  lemma MapsFreshIff(s: Hook, m: MapsInfo, st: Stack)
    requires Orderly(s) && StacksTracked(s) && m.start < m.end && FreshFor(s, st)
    ensures FreshFor(OnMaps(s, m), st) <==> TimelyMap(s, m, st)
  {
    MapsTidy(s, m);
    var r := OnMaps(s, m);
    if st in s.all {
      MapsChain(s, m, st);
      if st.id in r.chains {
        FreshAfterIff(s, r, st);
        NoIpInRange(s, m, st);
        assert WellFormed(s.maps) && Sorted(s.maps);
        hide OnMaps, UpdateMaps, ConflictRange, Orderly, FreshFor, RowsFor, RowsOf, FreshFrames;
        MapsUnaffectedIff(s.maps, s.tables, m, st.ips);
      }
    }
  }

  lemma NoIpInRange(s: Hook, m: MapsInfo, st: Stack)
    requires Sorted(s.maps) && KeepsOverMap(s, m, st)
    ensures var range := ConflictRange(s.maps, m.start, m.end);
            Conflicting(range) ==> forall i :: 0 <= i < |st.ips| ==> !(range.0 <= st.ips[i] < range.1)
  {
    hide ConflictRange, Chained, Sorted;
  }

  // ---------------------------------------------------------------------------
  // A new table
  // ---------------------------------------------------------------------------

  /** The symbolized ips of the file resolve as before. */
  ghost predicate Steady(ms: seq<MapsInfo>, tables: map<u32, SymbolTable>, file: u32, table: SymbolTable, ips: seq<u64>)
    requires Sorted(ms)
  {
    forall i :: 0 <= i < Gap(ms, ips) && Covering(ms, ips[i]).value.file == file ==>
      Lookup(ms, tables[file := table], ips[i]) == Lookup(ms, tables, ips[i])
  }

  lemma TableUnaffectedIff(ms: seq<MapsInfo>, tables: map<u32, SymbolTable>, file: u32, table: SymbolTable, ips: seq<u64>)
    requires Sorted(ms)
    ensures Unaffected(ms, tables, ms, tables[file := table], ips) <==> Steady(ms, tables, file, table, ips)
  {
    hide Gap, Covering, Resolve, Sorted;
    forall i | 0 <= i < Gap(ms, ips) && Covering(ms, ips[i]).value.file != file
      ensures Lookup(ms, tables[file := table], ips[i]) == Lookup(ms, tables, ips[i])
    {
      LookupOtherFile(ms, tables, file, table, ips[i]);
    }
  }

  /** Whether a registered stack has a chain behind a table event, from the state before it. */
  predicate KeepsOverTable(s: Hook, file: u32, st: Stack) {
    var (start, end) := TableRange(s.maps, file, 0, INVALID_UINT32, 0);
    if file in s.tables then Chained(s, st.id) && Clear(st.ips, start, end) else st.id in s.chains
  }

  /** If the stack keeps a chain, the table moves none of its symbolized ips. */
  ghost predicate TimelyTable(s: Hook, file: u32, table: SymbolTable, st: Stack)
    requires Sorted(s.maps)
  {
    st in s.all && KeepsOverTable(s, file, st) ==> Steady(s.maps, s.tables, file, table, st.ips)
  }

  lemma TableTidy(s: Hook, file: u32, table: SymbolTable)
    requires Orderly(s) && StacksTracked(s)
    ensures var r := OnTable(s, file, table);
            Tidy(r) && r.all == s.all && r.tables == s.tables[file := table]
  {
    var (start, end) := TableRange(s.maps, file, 0, INVALID_UINT32, 0);
    var cache := WithoutFile(Flush(s).cache, file);
    MarkedTidy(s, cache, start, end);
    assert file in s.tables ==> OnTable(s, file, table) == Marked(s, cache, start, end).(tables := s.tables[file := table]);
  }

  lemma TableChain(s: Hook, file: u32, table: SymbolTable, st: Stack)
    requires Orderly(s) && StacksTracked(s) && st in s.all
    ensures var r := OnTable(s, file, table);
            && NewlyFreshIff(s, r, st)
            && (st.id in r.chains <==> KeepsOverTable(s, file, st))
            && (st.id in r.chains && FreshFor(s, st) ==>
                RowsFor(r.rows, r.chains[st.id]) == RowsOf(r.chains[st.id], FreshFrames(s.maps, s.tables, st.ips)))
  {
    assert Sorted(s.maps);
    hide Orderly, StacksTracked, Clear, Chained, Flush, Mark, TableRange, Sorted;
    var (start, end) := TableRange(s.maps, file, 0, INVALID_UINT32, 0);
    var r := OnTable(s, file, table);
    if file in s.tables {
      var cache := WithoutFile(Flush(s).cache, file);
      var g := Marked(s, cache, start, end);
      assert r == g.(tables := s.tables[file := table]);
      hide Marked, OnTable, WithoutFile;
      MarkedChain(s, cache, start, end, st);
      SameRowsFresh(s, g, r, st);
    } else {
      NoneHandled(s, r, st);
    }
  }

  /** A symbol table, first or not, keeps the chain of a stack up to date if and only if the stack
      loses its chain or the table moves none of its symbolized ips. */
  lemma TableFreshIff(s: Hook, file: u32, table: SymbolTable, st: Stack)
    requires Orderly(s) && StacksTracked(s) && FreshFor(s, st)
    ensures FreshFor(OnTable(s, file, table), st) <==> TimelyTable(s, file, table, st)
  {
    TableTidy(s, file, table);
    var r := OnTable(s, file, table);
    if st in s.all {
      TableChain(s, file, table, st);
      if st.id in r.chains {
        FreshAfterIff(s, r, st);
        assert Sorted(s.maps);
        hide OnTable, Orderly, FreshFor, RowsFor, RowsOf, FreshFrames;
        TableUnaffectedIff(s.maps, s.tables, file, table, st.ips);
      }
    }
  }

  /** For the first table of a file: it must leave every symbolized ip of the file where it is. */
  lemma {:induction false} FirstTableSteadyIff(s: Hook, file: u32, table: SymbolTable, ips: seq<u64>)
    requires Sorted(s.maps) && file !in s.tables
    ensures Steady(s.maps, s.tables, file, table, ips) <==>
            forall i :: 0 <= i < Gap(s.maps, ips) && Covering(s.maps, ips[i]).value.file == file ==> Unmoved(s, table, ips[i])
  {
    hide Gap;
    forall i | 0 <= i < Gap(s.maps, ips) && Covering(s.maps, ips[i]).value.file == file
      ensures Lookup(s.maps, s.tables[file := table], ips[i]) == Lookup(s.maps, s.tables, ips[i]) <==>
              Unmoved(s, table, ips[i])
    {
      FirstTableMovesFrame(s, file, table, ips[i]);
    }
  }

  /** A replaced table whose scan reaches all maps of the file is timely: every stack with an ip of
      the file is parsed again. */
  lemma CoveredScanIsTimely(s: Hook, file: u32, table: SymbolTable, st: Stack)
    requires Sorted(s.maps) && file in s.tables && ScanCovers(s.maps, file)
    ensures TimelyTable(s, file, table, st)
  {
    hide TableRange, Sorted, Chained;
    var (start, end) := TableRange(s.maps, file, 0, INVALID_UINT32, 0);
    if Clear(st.ips, start, end) {
      NoIpOfFile(s.maps, file, st.ips, start, end);
    }
  }

  /** Ips outside a range that holds all maps of the file are not of the file. */
  lemma {:induction false} NoIpOfFile(ms: seq<MapsInfo>, file: u32, ips: seq<u64>, start: u64, end: u64)
    requires Sorted(ms) && forall i :: 0 <= i < |ms| && ms[i].file == file ==> start <= ms[i].start && ms[i].end <= end
    requires forall i :: 0 <= i < |ips| ==> !(start <= ips[i] < end)
    ensures forall i :: 0 <= i < Gap(ms, ips) ==> Covering(ms, ips[i]).value.file != file
  {
    hide Sorted, Gap;
    forall i | 0 <= i < Gap(ms, ips) ensures Covering(ms, ips[i]).value.file != file {
      var x := Covering(ms, ips[i]).value;
      var k :| 0 <= k < |ms| && ms[k] == x;
    }
  }

  // ---------------------------------------------------------------------------
  // Steps
  // ---------------------------------------------------------------------------

  /** The assumptions of cache coherence, and a stack id that names one stack. */
  predicate Proper(s: Hook, e: Event) {
    Admissible(s, e) && (e.StackEvent? ==> !HasId(s.all, e.stack.id))
  }

  /** What an event must meet to keep the chain of a stack up to date. */
  ghost predicate TimelyFor(s: Hook, e: Event, st: Stack)
    requires Sorted(s.maps)
  {
    match e
    case MapsEvent(m) => TimelyMap(s, m, st)
    case TableEvent(file, table) => TimelyTable(s, file, table, st)
    case _ => true
  }

  lemma StepOrderly(s: Hook, e: Event, cap: nat)
    requires Orderly(s) && StacksTracked(s) && Proper(s, e)
    ensures Orderly(Step(s, e, cap))
  {
    hide OnMaps, OnTable, OnArrival, OnFinish, StacksTracked, Tidy;
    StepSound(s, e, cap);
    match e {
      case StackEvent(st) => OnStackTidy(s, st);
      case MapsEvent(m) => MapsTidy(s, m);
      case TableEvent(file, table) => TableTidy(s, file, table);
      case ArrivalEvent(ev) => ArrivalFresh(s, ev, cap, Stack(0, []));
      case FinishEvent => FinishFresh(s, Stack(0, []));
    }
  }

  /** A fresh stack stays fresh if and only if the event is timely for it. */
  lemma StepFreshIff(s: Hook, e: Event, cap: nat, st: Stack)
    requires Orderly(s) && StacksTracked(s) && Proper(s, e) && FreshFor(s, st)
    ensures FreshFor(Step(s, e, cap), st) <==> TimelyFor(s, e, st)
  {
    assert Sorted(s.maps);
    hide Orderly, OnStack, OnMaps, OnTable, OnArrival, OnFinish, StacksTracked, FreshFor, TimelyMap, TimelyTable, Sorted;
    match e {
      case StackEvent(x) => OnStackFresh(s, x, st);
      case MapsEvent(m) => MapsFreshIff(s, m, st);
      case TableEvent(file, table) => TableFreshIff(s, file, table, st);
      case ArrivalEvent(ev) => ArrivalFresh(s, ev, cap, st);
      case FinishEvent => FinishFresh(s, st);
    }
  }

  /** Whatever a step handles is resolved to a chain, with the fresh frames of the stack if and
      only if the stack was fresh. */
  lemma StepHandlesIff(s: Hook, e: Event, cap: nat, st: Stack)
    requires Orderly(s) && StacksTracked(s) && st in s.all
    ensures NewlyFreshIff(s, Step(s, e, cap), st)
  {
    assert Sorted(s.maps);
    hide Orderly, OnMaps, OnTable, OnArrival, OnFinish, StacksTracked, FreshFor, NewlyFreshIff, Sorted;
    match e {
      case StackEvent(x) => NoneHandled(s, OnStack(s, x), st);
      case MapsEvent(m) => MapsChain(s, m, st);
      case TableEvent(file, table) => TableChain(s, file, table, st);
      case ArrivalEvent(ev) => ArrivalFresh(s, ev, cap, st);
      case FinishEvent => FinishFresh(s, st);
    }
  }

  // ---------------------------------------------------------------------------
  // Runs
  // ---------------------------------------------------------------------------

  ghost predicate ProperRun(events: seq<Event>, cap: nat) {
    events == [] ||
    var n := |events| - 1;
    ProperRun(events[..n], cap) && Proper(Run(events[..n], cap), events[n])
  }

  lemma {:induction false} RunOrderly(events: seq<Event>, cap: nat)
    requires ProperRun(events, cap)
    ensures Orderly(Run(events, cap)) && StacksTracked(Run(events, cap))
  {
    hide Step, StacksTracked, Proper;
    RunTracked(events, cap);
    if events != [] {
      var n := |events| - 1;
      RunOrderly(events[..n], cap);
      hide Orderly;
      StepOrderly(Run(events[..n], cap), events[n], cap);
    }
  }

  lemma {:induction false} ProperPrefix(events: seq<Event>, cap: nat, n: nat)
    requires ProperRun(events, cap) && n <= |events|
    ensures ProperRun(events[..n], cap)
    ensures n < |events| ==> Proper(Run(events[..n], cap), events[n])
    ensures n < |events| ==> Run(events[..n + 1], cap) == Step(Run(events[..n], cap), events[n], cap)
  {
    hide Step, Proper;
    var k := |events| - 1;
    if n == |events| {
      assert events[..n] == events;
    } else if n < k {
      ProperPrefix(events[..k], cap, n);
      assert events[..k][..n] == events[..n] && events[..k][..n + 1] == events[..n + 1];
    } else {
      assert events[..n + 1] == events;
    }
  }

  /** After each event from k on the stack is fresh. */
  ghost predicate FreshSince(events: seq<Event>, cap: nat, k: nat, st: Stack) {
    forall j :: k <= j <= |events| ==> FreshFor(Run(events[..j], cap), st)
  }

  /** Each event from k on is timely for the stack. */
  ghost predicate TimelySince(events: seq<Event>, cap: nat, k: nat, st: Stack) {
    forall j :: k <= j < |events| ==> TimelyFor(Run(events[..j], cap), events[j], st)
  }

  lemma {:induction false} PrefixStepIff(events: seq<Event>, cap: nat, j: nat, st: Stack)
    requires ProperRun(events, cap) && j < |events| && FreshFor(Run(events[..j], cap), st)
    ensures FreshFor(Run(events[..j + 1], cap), st) <==> TimelyFor(Run(events[..j], cap), events[j], st)
  {
    hide *;
    ProperPrefix(events, cap, j);
    RunOrderly(events[..j], cap);
    StepFreshIff(Run(events[..j], cap), events[j], cap, st);
  }

  lemma {:induction false} TimelyStaysFresh(events: seq<Event>, cap: nat, k: nat, j: nat, st: Stack)
    requires ProperRun(events, cap) && k <= j <= |events| && FreshFor(Run(events[..k], cap), st)
    requires TimelySince(events, cap, k, st)
    ensures FreshFor(Run(events[..j], cap), st)
    decreases j
  {
    hide FreshFor, TimelyFor, Run, ProperRun;
    if j > k {
      TimelyStaysFresh(events, cap, k, j - 1, st);
      PrefixStepIff(events, cap, j - 1, st);
    }
  }

  /** Main result, for one stack: from any point of a proper run at which it is fresh, for instance
      because it has no chain, it stays fresh if and only if every later event is timely for it. */
  lemma {:induction false} StackFreshIff(events: seq<Event>, cap: nat, k: nat, st: Stack)
    requires ProperRun(events, cap) && k <= |events| && FreshFor(Run(events[..k], cap), st)
    ensures FreshSince(events, cap, k, st) <==> TimelySince(events, cap, k, st)
  {
    hide FreshFor, TimelyFor, Run, ProperRun;
    if TimelySince(events, cap, k, st) {
      forall j | k <= j <= |events| ensures FreshFor(Run(events[..j], cap), st) {
        TimelyStaysFresh(events, cap, k, j, st);
      }
    }
    if FreshSince(events, cap, k, st) {
      forall j | k <= j < |events| ensures TimelyFor(Run(events[..j], cap), events[j], st) {
        assert FreshFor(Run(events[..j], cap), st) && FreshFor(Run(events[..j + 1], cap), st);
        PrefixStepIff(events, cap, j, st);
      }
    }
  }

  /** Every event is timely for every stack. */
  ghost predicate TimelyRun(events: seq<Event>, cap: nat) {
    forall st :: TimelySince(events, cap, 0, st)
  }

  /** After every event the cache is coherent and the chains in use are current. */
  ghost predicate GoodThroughout(events: seq<Event>, cap: nat) {
    forall j :: 0 <= j <= |events| ==> Good(Run(events[..j], cap))
  }

  lemma {:induction false} NoneFresh(events: seq<Event>, cap: nat, st: Stack)
    ensures FreshFor(Run(events[..0], cap), st)
  {
  }

  /** Main result: over every proper run, the chains in use hold the fresh symbolization of their
      stacks throughout if and only if every maps and table event is timely. */
  lemma {:induction false} RunGoodIff(events: seq<Event>, cap: nat)
    requires ProperRun(events, cap)
    ensures GoodThroughout(events, cap) <==> TimelyRun(events, cap)
  {
    hide FreshFor, TimelySince, Run, ProperRun, Orderly;
    forall st ensures FreshSince(events, cap, 0, st) <==> TimelySince(events, cap, 0, st) {
      NoneFresh(events, cap, st);
      StackFreshIff(events, cap, 0, st);
    }
    forall j | 0 <= j <= |events| ensures Orderly(Run(events[..j], cap)) {
      ProperPrefix(events, cap, j);
      RunOrderly(events[..j], cap);
    }
    if GoodThroughout(events, cap) {
      forall st ensures FreshSince(events, cap, 0, st) {
        forall j | 0 <= j <= |events| ensures FreshFor(Run(events[..j], cap), st) {
          assert Good(Run(events[..j], cap));
        }
      }
    }
    if TimelyRun(events, cap) {
      forall j, st | 0 <= j <= |events| ensures FreshFor(Run(events[..j], cap), st) {
        assert FreshSince(events, cap, 0, st);
      }
    }
  }

  // ---------------------------------------------------------------------------
  // Rows and handled events stay
  // ---------------------------------------------------------------------------

  /** Parsing gives rows to new chains only. */
  lemma {:induction false} FillAllRows(s: Hook, stacks: seq<Stack>, chain: nat)
    requires Sorted(s.maps) && chain <= s.lastChain
    ensures var r := FillAll(s, stacks);
            RowsFor(r.rows, chain) == RowsFor(s.rows, chain) && s.lastChain <= r.lastChain
  {
    hide Fill, RowsFor, Sorted;
    if stacks != [] {
      var n := |stacks| - 1;
      FillAllRows(s, stacks[..n], chain);
      FillRowsStay(FillAll(s, stacks[..n]), stacks[n], chain);
    }
  }

  lemma {:induction false} FillRowsStay(s: Hook, st: Stack, chain: nat)
    requires Sorted(s.maps) && chain <= s.lastChain
    ensures var r := Fill(s, st);
            RowsFor(r.rows, chain) == RowsFor(s.rows, chain) && s.lastChain < r.lastChain
  {
    var added := RowsOf(s.lastChain + 1, SymbolizeStack(s.maps, s.tables, s.cache, st.ips).1);
    assert Fill(s, st).rows == s.rows + added && Fill(s, st).lastChain == s.lastChain + 1;
    hide Fill, RowsFor, SymbolizeStack;
    RowsForConcat(s.rows, added, chain);
    RowsForAbsent(added, chain);
  }

  lemma {:induction false} ParsedRows(s: Hook, chain: nat)
    requires Sorted(s.maps) && chain <= s.lastChain
    ensures var p := ParsePending(s);
            RowsFor(p.rows, chain) == RowsFor(s.rows, chain) && s.lastChain <= p.lastChain
    ensures var a := ParseAgain(ParsePending(s));
            RowsFor(a.rows, chain) == RowsFor(s.rows, chain) && s.lastChain <= a.lastChain
  {
    FillAllRows(s, s.pending, chain);
    var p := ParsePending(s);
    FillAllRows(p, p.reparse, chain);
  }

  /** Marking changes neither rows nor chain ids. */
  lemma {:induction false} MarkRows(s: Hook, n: nat, start: u64, end: u64)
    requires n <= |s.all|
    ensures var r := MarkFirst(s, n, start, end);
            r.rows == s.rows && r.lastChain == s.lastChain && r.handled == s.handled
  {
    if n > 0 {
      MarkRows(s, n - 1, start, end);
    }
  }

  /** Rows, chain ids and handled events after an update are those before it or after its flush. */
  predicate SameTables(s: Hook, r: Hook) {
    r.rows == s.rows && r.lastChain == s.lastChain && r.handled == s.handled
  }

  lemma MapsTables(s: Hook, m: MapsInfo)
    requires Sorted(s.maps)
    ensures SameTables(s, OnMaps(s, m)) || SameTables(Flush(s), OnMaps(s, m))
  {
    hide Sorted, ConflictRange, Flush, UpdateMaps, WithoutRange;
    var (start, end) := ConflictRange(s.maps, m.start, m.end);
    var f := Flush(s);
    MarkRows(f.(cache := WithoutRange(f.cache, start, end)), |f.all|, start, end);
  }

  lemma TableTables(s: Hook, file: u32, table: SymbolTable)
    requires Sorted(s.maps)
    ensures SameTables(s, OnTable(s, file, table)) || SameTables(Flush(s), OnTable(s, file, table))
  {
    hide Sorted, TableRange, Flush, WithoutFile;
    var (start, end) := TableRange(s.maps, file, 0, INVALID_UINT32, 0);
    var f := Flush(s);
    MarkRows(f.(cache := WithoutFile(f.cache, file)), |f.all|, start, end);
  }

  /** The rows of a chain never change once it exists. */
  lemma {:induction false} RowsStay(s: Hook, e: Event, cap: nat, chain: nat)
    requires Sorted(s.maps) && chain <= s.lastChain
    ensures var r := Step(s, e, cap);
            RowsFor(r.rows, chain) == RowsFor(s.rows, chain) && s.lastChain <= r.lastChain
  {
    ParsedRows(s, chain);
    match e {
      case StackEvent(st) =>
      case MapsEvent(m) => MapsTables(s, m);
      case TableEvent(file, table) => TableTables(s, file, table);
      case ArrivalEvent(ev) => ParsedRows(s.(waiting := Insert(s.waiting, ev)), chain);
      case FinishEvent =>
    }
    hide OnMaps, OnTable, RowsFor, ParsePending, ParseAgain, Insert, Sorted;
  }

  /** The chain of entry i exists. */
  predicate Issued(r: Hook, i: nat)
    requires i < |r.handled|
  {
    r.handled[i].chain.Some? ==> r.handled[i].chain.value <= r.lastChain
  }

  ghost predicate NewlyIssued(s: Hook, r: Hook) {
    forall i :: |s.handled| <= i < |r.handled| ==> Issued(r, i)
  }

  lemma FilterIssued(s: Hook, a: Hook, num: nat)
    requires Tidy(a) && a.handled == s.handled && num <= |a.waiting|
    ensures NewlyIssued(s, Filter(a, num))
  {
  }

  lemma FlushIssued(s: Hook)
    requires Orderly(s) && StacksTracked(s)
    ensures NewlyIssued(s, Flush(s))
  {
    var none := Stack(0, []);
    ParsingFresh(s, none);
    PendingParsed(s);
    BothParsed(s);
    var a := ParseAgain(ParsePending(s));
    assert Tidy(a);
    hide Orderly, StacksTracked, Tidy;
    FilterIssued(s, a, |a.waiting|);
  }

  lemma ArrivalIssued(s: Hook, e: MainEvent, cap: nat)
    requires Orderly(s) && StacksTracked(s)
    ensures NewlyIssued(s, OnArrival(s, e, cap))
  {
    var w, none := s.(waiting := Insert(s.waiting, e)), Stack(0, []);
    QueueingSame(s, w.waiting, none);
    if |w.waiting| > cap {
      BothParsed(w);
      ParsingFresh(w, none);
      var a := ParseAgain(ParsePending(w));
      assert Tidy(a);
      hide Orderly, StacksTracked, Tidy, Insert;
      FilterIssued(s, a, |a.waiting| - cap);
    }
  }

  lemma SameIssued(s: Hook, f: Hook, r: Hook)
    requires NewlyIssued(s, f) && (SameTables(s, r) || SameTables(f, r))
    ensures NewlyIssued(s, r)
  {
    forall i | |s.handled| <= i < |r.handled| ensures Issued(r, i) {
      assert Issued(f, i);
    }
  }

  lemma MapsIssued(s: Hook, m: MapsInfo)
    requires Orderly(s) && StacksTracked(s)
    ensures NewlyIssued(s, OnMaps(s, m))
  {
    assert Sorted(s.maps);
    hide Orderly, StacksTracked, Tidy, Flush, OnMaps, NewlyIssued, SameTables, Sorted;
    FlushIssued(s);
    MapsTables(s, m);
    SameIssued(s, Flush(s), OnMaps(s, m));
  }

  lemma TableIssued(s: Hook, file: u32, table: SymbolTable)
    requires Orderly(s) && StacksTracked(s)
    ensures NewlyIssued(s, OnTable(s, file, table))
  {
    assert Sorted(s.maps);
    hide Orderly, StacksTracked, Tidy, Flush, OnTable, NewlyIssued, SameTables, Sorted;
    FlushIssued(s);
    TableTables(s, file, table);
    SameIssued(s, Flush(s), OnTable(s, file, table));
  }

  lemma FinishIssued(s: Hook)
    requires Orderly(s) && StacksTracked(s)
    ensures NewlyIssued(s, OnFinish(s))
  {
    BothParsed(s);
    ParsingFresh(s, Stack(0, []));
    var a := ParseAgain(ParsePending(s));
    assert Tidy(a);
    hide Orderly, StacksTracked, Tidy;
    FilterIssued(s, a, |a.waiting|);
  }

  lemma StepIssued(s: Hook, e: Event, cap: nat)
    requires Orderly(s) && StacksTracked(s)
    ensures NewlyIssued(s, Step(s, e, cap))
  {
    assert Sorted(s.maps);
    hide Orderly, StacksTracked, OnMaps, OnTable, OnArrival, OnFinish, Sorted;
    match e {
      case StackEvent(st) =>
      case MapsEvent(m) => MapsIssued(s, m);
      case TableEvent(file, table) => TableIssued(s, file, table);
      case ArrivalEvent(ev) => ArrivalIssued(s, ev, cap);
      case FinishEvent => FinishIssued(s);
    }
  }

  /** Entry i was handled by event n. */
  ghost predicate HandledBy(events: seq<Event>, cap: nat, n: nat, i: nat) {
    n < |events| && |Run(events[..n], cap).handled| <= i < |Run(events[..n + 1], cap).handled|
  }

  lemma {:induction false} NothingHandled(cap: nat)
    ensures Run([], cap).handled == []
  {
  }

  /** Every handled entry was handled by some event. */
  lemma {:induction false} HandlerExists(events: seq<Event>, cap: nat, i: nat) returns (n: nat)
    requires i < |Run(events, cap).handled|
    ensures HandledBy(events, cap, n, i)
  {
    hide Run;
    assert events[..|events|] == events;
    if events == [] {
      NothingHandled(cap);
    }
    var k := |events| - 1;
    if i < |Run(events[..k], cap).handled| {
      n := HandlerExists(events[..k], cap, i);
      assert events[..k][..n] == events[..n] && events[..k][..n + 1] == events[..n + 1];
    } else {
      n := k;
    }
  }

  /** A later step leaves the entry, its chain and the rows of the chain. */
  lemma EntryStays(s: Hook, e: Event, cap: nat, i: nat)
    requires Sorted(s.maps) && StacksTracked(s) && i < |s.handled| && Issued(s, i)
    ensures var r := Step(s, e, cap);
            && i < |r.handled| && r.handled[i] == s.handled[i] && Issued(r, i)
            && (r.handled[i].chain.Some? ==>
                RowsFor(r.rows, r.handled[i].chain.value) == RowsFor(s.rows, s.handled[i].chain.value))
  {
    StepHandles(s, e, cap);
    var r := Step(s, e, cap);
    assert r.handled[i] == r.handled[..|s.handled|][i] == s.handled[i];
    hide Step, Sorted, StacksTracked;
    if s.handled[i].chain.Some? {
      RowsStay(s, e, cap, s.handled[i].chain.value);
    }
  }

  /** So does every later event of the run. */
  lemma {:induction false} EntryStaysOver(events: seq<Event>, cap: nat, n: nat, i: nat)
    requires ProperRun(events, cap) && HandledBy(events, cap, n, i)
    ensures var s, r := Run(events[..n + 1], cap), Run(events, cap);
            && i < |r.handled| && r.handled[i] == s.handled[i] && Issued(r, i)
            && (r.handled[i].chain.Some? ==>
                RowsFor(r.rows, r.handled[i].chain.value) == RowsFor(s.rows, s.handled[i].chain.value))
  {
    hide Run, ProperRun, Step, Orderly, Proper, StacksTracked, Issued, RowsFor, Sorted;
    var k := |events| - 1;
    assert events[..|events|] == events;
    if n == k {
      NewEntryIssued(events, cap, i);
    } else {
      var before := events[..k];
      assert before[..n] == events[..n] && before[..n + 1] == events[..n + 1];
      ProperPrefix(events, cap, k);
      EntryStaysOver(before, cap, n, i);
      RunTracked(before, cap);
      EntryStays(Run(before, cap), events[k], cap, i);
    }
  }

  lemma {:induction false} NewEntryIssued(events: seq<Event>, cap: nat, i: nat)
    requires ProperRun(events, cap) && events != [] && HandledBy(events, cap, |events| - 1, i)
    ensures i < |Run(events, cap).handled| && Issued(Run(events, cap), i)
  {
    hide Run, ProperRun, Step, Orderly, Proper, StacksTracked, Issued;
    var k := |events| - 1;
    assert events[..k + 1] == events;
    ProperPrefix(events, cap, k);
    RunOrderly(events[..k], cap);
    StepIssued(Run(events[..k], cap), events[k], cap);
  }

  /** Over every proper run: the chain of an entry holds, in the final table, the fresh frames of its
      stack under the maps and tables in force when it was handled, if and only if the stack was
      fresh then. */
  lemma {:induction false} HandledFreshIff(events: seq<Event>, cap: nat, n: nat, i: nat, st: Stack)
    requires ProperRun(events, cap) && HandledBy(events, cap, n, i) && st in Run(events[..n], cap).all
    requires Run(events[..n + 1], cap).handled[i].event.stackId == st.id != 0
    ensures i < |Run(events, cap).handled| && Run(events, cap).handled[i].event.stackId == st.id
    ensures Run(events, cap).handled[i].chain.Some?
    ensures ResolvedFresh(Run(events[..n], cap), Run(events, cap), i, st) <==> FreshFor(Run(events[..n], cap), st)
  {
    hide Run, ProperRun, Step, Orderly, Proper, StacksTracked, FreshFor, RowsFor, FreshFrames, RowsOf, Sorted, Issued;
    var s := Run(events[..n], cap);
    ProperPrefix(events, cap, n);
    RunOrderly(events[..n], cap);
    StepHandlesIff(s, events[n], cap, st);
    EntryStaysOver(events, cap, n, i);
  }

  /** Hence: if from a point at which the stack was fresh every event up to the handling one was
      timely for it, the entry has the fresh frames. */
  lemma {:induction false} HandledFresh(events: seq<Event>, cap: nat, k: nat, n: nat, i: nat, st: Stack)
    requires ProperRun(events, cap) && HandledBy(events, cap, n, i) && st in Run(events[..n], cap).all
    requires Run(events[..n + 1], cap).handled[i].event.stackId == st.id != 0
    requires k <= n && FreshFor(Run(events[..k], cap), st) && TimelySince(events[..n], cap, k, st)
    ensures i < |Run(events, cap).handled| && ResolvedFresh(Run(events[..n], cap), Run(events, cap), i, st)
  {
    hide Run, ProperRun, FreshFor, ResolvedFresh, TimelySince;
    ProperPrefix(events, cap, n);
    var before := events[..n];
    assert before[..k] == events[..k] && before[..n] == before;
    TimelyStaysFresh(before, cap, k, n, st);
    HandledFreshIff(events, cap, n, i, st);
  }
}
