/** Short runs that show what happens outside the conditions of the symbolization theorems. */
module StaleRuns {
  import opened Words
  import opened AddressMaps
  import opened Symbolization
  import opened NativeHook
  import opened NativeHookTheorems
  import opened CacheCoherence
  import opened TableScan
  import opened ChainFreshness
  import opened ChainRuns

  const LIBRARY := MapsInfo(0x1000, 0x3000, 0, 7)
  const CALLER := Stack(1, [0x2500])
  const TABLE := SymbolTable(false, 0, 0, [], [])

  /** The frame of the caller while its library has no symbol table. */
  const PLAIN := FrameInfo(7, 0x2500, None, INVALID_UINT64, INVALID_UINT64, INVALID_UINT64)

  /** A table of another file, and the same again: replacing it parses the stacks that wait. */
  const OTHER := TableEvent(8, TABLE)

  lemma {:induction false} RunNext(events: seq<Event>, e: Event, cap: nat)
    ensures Run(events + [e], cap) == Step(Run(events, cap), e, cap)
    ensures ProperRun(events, cap) && Proper(Run(events, cap), e) ==> ProperRun(events + [e], cap)
  {
    assert (events + [e])[..|events|] == events;
    hide Proper, Step;
  }

  /** The empty run and a first event. */
  lemma {:induction false} RunFirst(e: Event, cap: nat)
    ensures Run([e], cap) == Step(EMPTY, e, cap)
    ensures Proper(EMPTY, e) ==> ProperRun([e], cap)
  {
    hide Proper, Step;
    assert Run([], cap) == EMPTY && ProperRun([], cap);
    RunNext([], e, cap);
    assert [] + [e] == [e];
  }

  // ---------------------------------------------------------------------------
  // A cached frame
  // ---------------------------------------------------------------------------

  /** A map, a stack inside it, and the events that parse the stack. */
  const MAPPED := [MapsEvent(LIBRARY), StackEvent(CALLER), OTHER, OTHER]

  lemma LookupInLibrary(ms: seq<MapsInfo>, tables: map<u32, SymbolTable>)
    requires ms == [LIBRARY] && 7 !in tables
    ensures Sorted(ms) && WellFormed(ms) && Covering(ms, 0x2500) == Some(LIBRARY)
    ensures Lookup(ms, tables, 0x2500) == Some(PLAIN)
  {
    assert LIBRARY in ms;
    CoveringContains(ms, 0x2500, LIBRARY);
  }

  lemma FirstMap(s: Hook)
    requires s.maps == []
    ensures OnMaps(s, LIBRARY) == s.(maps := [LIBRARY])
  {
    assert UpdateMaps([], LIBRARY) == [LIBRARY];
  }

  /** The state in which one stack waits to be parsed. */
  function Waits(ms: seq<MapsInfo>, tables: map<u32, SymbolTable>, st: Stack): (s: Hook) {
    EMPTY.(maps := ms, tables := tables, all := [st], pending := [st])
  }

  /** Replacing the table of a file without maps parses the stack and changes nothing else. */
  lemma OtherReplaced(s: Hook, frames: seq<FrameInfo>)
    requires s == Waits(s.maps, map[8 := TABLE], CALLER) && Sorted(s.maps)
    requires TableRange(s.maps, 8, 0, INVALID_UINT32, 0) == (INVALID_UINT32, 0)
    requires SymbolizeStack(s.maps, s.tables, map[], CALLER.ips).1 == frames
    ensures var r := OnTable(s, 8, TABLE);
            && r.maps == s.maps && r.tables == s.tables && r.all == [CALLER]
            && r.chains == map[1 := 1] && r.rows == RowsOf(1, frames)
            && r.cache == WithoutFile(SymbolizeStack(s.maps, s.tables, map[], CALLER.ips).0, 8)
  {
    hide SymbolizeStack, TableRange, RowsOf, WithoutFile;
    assert s.pending[..0] == [];
    assert FillAll(s, s.pending) == Fill(s, CALLER);
    var f := Flush(s);
    assert f.all == [CALLER] && f.chains == map[1 := 1] && f.tables[8 := TABLE] == s.tables;
    MarkedNone(f.(cache := WithoutFile(f.cache, 8)));
  }

  lemma MarkedNone(s: Hook)
    requires |s.all| == 1
    ensures Mark(s, INVALID_UINT32, 0) == s
  {
    assert MarkFirst(s, 0, INVALID_UINT32, 0) == s;
  }

  lemma {:induction false} CallerSymbolized(ms: seq<MapsInfo>, tables: map<u32, SymbolTable>)
    requires Sorted(ms)
    ensures SymbolizeStack(ms, tables, map[], CALLER.ips) ==
            match Lookup(ms, tables, 0x2500) case None => (map[], []) case Some(f) => (map[0x2500 := f], [f])
  {
    hide Lookup, Sorted;
    assert CALLER.ips[1..] == [];
    match Lookup(ms, tables, 0x2500) {
      case None =>
      case Some(f) =>
        var cache := map[][0x2500 := f];
        assert SymbolizeIp(ms, tables, map[], 0x2500) == (cache, Some(f)) && cache == map[0x2500 := f];
        assert SymbolizeStack(ms, tables, cache, CALLER.ips[1..]) == (cache, []);
        assert [f] + [] == [f];
    }
  }

  lemma {:induction false} RegisteredRun(cap: nat)
    ensures Run([MapsEvent(LIBRARY), StackEvent(CALLER)], cap) == Waits([LIBRARY], map[], CALLER)
  {
    var a := [MapsEvent(LIBRARY)];
    RunFirst(MapsEvent(LIBRARY), cap);
    FirstMap(EMPTY);
    RunNext(a, StackEvent(CALLER), cap);
    assert a + [StackEvent(CALLER)] == [MapsEvent(LIBRARY), StackEvent(CALLER)];
    hide OnMaps, Run, ProperRun;
  }

  lemma {:induction false} WaitingRun(cap: nat)
    ensures Run([MapsEvent(LIBRARY), StackEvent(CALLER), OTHER], cap) == Waits([LIBRARY], map[8 := TABLE], CALLER)
  {
    var b := [MapsEvent(LIBRARY), StackEvent(CALLER)];
    hide Run, ProperRun;
    RegisteredRun(cap);
    RunNext(b, OTHER, cap);
    assert b + [OTHER] == [MapsEvent(LIBRARY), StackEvent(CALLER), OTHER];
  }

  lemma {:induction false} MappedRun(cap: nat)
    ensures var s := Run(MAPPED, cap);
            s.maps == [LIBRARY] && s.tables == map[8 := TABLE] && s.cache == map[0x2500 := PLAIN] && Sound(s)
  {
    var c := [MapsEvent(LIBRARY), StackEvent(CALLER), OTHER];
    WaitingRun(cap);
    RunNext(c, OTHER, cap);
    assert c + [OTHER] == MAPPED;
    hide Run, OnTable, Sound, SymbolizeStack, Sorted;
    CallerParsed(Run(c, cap));
    LibrarySound(Run(MAPPED, cap));
  }

  lemma CallerParsed(s: Hook)
    requires s == Waits([LIBRARY], map[8 := TABLE], CALLER)
    ensures Sorted(s.maps)
    ensures var r := OnTable(s, 8, TABLE);
            r.maps == s.maps && r.tables == s.tables && r.cache == map[0x2500 := PLAIN]
  {
    LookupInLibrary(s.maps, s.tables);
    hide OnTable, SymbolizeStack, Sorted, Lookup;
    CallerSymbolized(s.maps, s.tables);
    OtherReplaced(s, [PLAIN]);
  }

  lemma LibrarySound(s: Hook)
    requires s.maps == [LIBRARY] && 7 !in s.tables && s.cache == map[0x2500 := PLAIN]
    ensures Sound(s)
  {
    LookupInLibrary(s.maps, s.tables);
  }

  /** The first table of a file that comes after its ips are cached leaves a stale frame. */
  lemma {:induction false} LateFirstTable(cap: nat)
    ensures Sound(Run(MAPPED, cap))
    ensures var r := Run(MAPPED + [TableEvent(7, TABLE)], cap);
            !Coherent(r.maps, r.tables, r.cache)
  {
    MappedRun(cap);
    RunNext(MAPPED, TableEvent(7, TABLE), cap);
    var s := Run(MAPPED, cap);
    LookupInLibrary(s.maps, s.tables);
    FirstTableCoherentIff(s, 7, TABLE);
    hide Run;
    assert 0x2500 in s.cache && s.cache[0x2500].file == 7;
    assert !Unmoved(s, TABLE, 0x2500);
  }

  /** An empty map inside a map with a cached ip leaves a frame that no lookup gives. */
  lemma {:induction false} EmptyMapInside(cap: nat)
    ensures Sound(Run(MAPPED, cap))
    ensures var r := Run(MAPPED + [MapsEvent(MapsInfo(0x2000, 0x2000, 0, 8))], cap);
            !Coherent(r.maps, r.tables, r.cache)
  {
    var m := MapsInfo(0x2000, 0x2000, 0, 8);
    MappedRun(cap);
    RunNext(MAPPED, MapsEvent(m), cap);
    var s := Run(MAPPED, cap);
    LookupInLibrary(s.maps, s.tables);
    EmptyMapCoherentIff(s, m);
    hide Run, OnMaps;
    assert 0x2500 in s.cache;
  }

  // ---------------------------------------------------------------------------
  // A map that comes after the stack
  // ---------------------------------------------------------------------------

  const UNMAPPED := [StackEvent(CALLER), OTHER, OTHER]

  lemma {:induction false} NoMapRun(cap: nat)
    ensures Run([StackEvent(CALLER), OTHER], cap) == Waits([], map[8 := TABLE], CALLER)
    ensures ProperRun([StackEvent(CALLER), OTHER], cap)
  {
    var a := [StackEvent(CALLER)];
    RunFirst(StackEvent(CALLER), cap);
    assert Run(a, cap) == Waits([], map[], CALLER);
    RunNext(a, OTHER, cap);
    assert a + [OTHER] == [StackEvent(CALLER), OTHER];
    hide Run, ProperRun;
  }

  lemma {:induction false} UnmappedRun(cap: nat)
    ensures var s := Run(UNMAPPED, cap);
            s.maps == [] && s.tables == map[8 := TABLE] && s.all == [CALLER] && s.chains == map[1 := 1] && s.rows == []
    ensures ProperRun(UNMAPPED, cap)
  {
    var b := [StackEvent(CALLER), OTHER];
    NoMapRun(cap);
    RunNext(b, OTHER, cap);
    assert b + [OTHER] == UNMAPPED;
    var s := Waits([], map[8 := TABLE], CALLER);
    hide Run, OnTable, SymbolizeStack, ProperRun;
    CallerSymbolized(s.maps, s.tables);
    OtherReplaced(s, []);
    assert RowsOf(1, []) == [];
  }

  /** A stack that was parsed before its map arrived keeps a chain without its frame. */
  lemma {:induction false} LateMap(cap: nat)
    ensures ProperRun(UNMAPPED + [MapsEvent(LIBRARY)], cap)
    ensures var r := Run(UNMAPPED + [MapsEvent(LIBRARY)], cap);
            && CALLER in r.all && 1 in r.chains
            && RowsFor(r.rows, r.chains[1]) == [] && FreshFrames(r.maps, r.tables, CALLER.ips) == [PLAIN]
            && !FreshFor(r, CALLER)
  {
    UnmappedRun(cap);
    RunNext(UNMAPPED, MapsEvent(LIBRARY), cap);
    FirstMap(Run(UNMAPPED, cap));
    hide *;
    NowMapped(Run(UNMAPPED, cap).(maps := [LIBRARY]));
  }

  lemma NowMapped(r: Hook)
    requires r.maps == [LIBRARY] && 7 !in r.tables && r.all == [CALLER] && r.chains == map[1 := 1] && r.rows == []
    ensures Sorted(r.maps) && RowsFor(r.rows, 1) == [] && FreshFrames(r.maps, r.tables, CALLER.ips) == [PLAIN]
    ensures !FreshFor(r, CALLER)
  {
    LookupInLibrary(r.maps, r.tables);
    assert CALLER.ips[1..] == [];
    hide Lookup, Sorted;
    assert FreshFrames(r.maps, r.tables, CALLER.ips[1..]) == [];
    assert |RowsOf(1, [PLAIN])| == 1;
    assert CALLER in r.all;
  }

  // ---------------------------------------------------------------------------
  // A replaced table whose scan stops too early
  // ---------------------------------------------------------------------------

  const LOWER := MapsInfo(0x1000, 0x2000, 0, 7)
  const MIDDLE := MapsInfo(0x2000, 0x3000, 0, 8)
  const UPPER := MapsInfo(0x3000, 0x4000, 0, 7)
  const MOVED := SymbolTable(false, 0x100, 0, [], [])
  const SPLIT := Stack(1, [0x3500])

  /** A file mapped below and above another one, its table, and a stack in its upper map. */
  const PARTED := [MapsEvent(LOWER), MapsEvent(MIDDLE), MapsEvent(UPPER), TableEvent(7, TABLE), StackEvent(SPLIT)]

  lemma MapAbove(s: Hook, m: MapsInfo)
    requires Sorted(s.maps) && m.start < m.end
    requires forall i :: 0 <= i < |s.maps| ==> s.maps[i].start < m.start && s.maps[i].end <= m.start
    ensures OnMaps(s, m) == s.(maps := s.maps + [m])
  {
    assert FirstEndingAfter(s.maps, m.start) == |s.maps|;
    assert UpperBound(s.maps, m.start) == |s.maps|;
  }

  lemma {:induction false} MapAdded(events: seq<Event>, ms: seq<MapsInfo>, m: MapsInfo, cap: nat)
    requires ProperRun(events, cap) && Run(events, cap) == EMPTY.(maps := ms) && m.start < m.end
    requires forall i :: 0 <= i < |ms| ==> ms[i].start < m.start && ms[i].end <= m.start
    ensures ProperRun(events + [MapsEvent(m)], cap) && Run(events + [MapsEvent(m)], cap) == EMPTY.(maps := ms + [m])
  {
    hide Run, ProperRun, OnMaps, Sorted;
    RunNext(events, MapsEvent(m), cap);
    MapAbove(Run(events, cap), m);
  }

  lemma {:induction false} OneMapRun(cap: nat)
    ensures Run([MapsEvent(LOWER)], cap) == EMPTY.(maps := [LOWER]) && ProperRun([MapsEvent(LOWER)], cap)
  {
    assert Run([], cap) == EMPTY && ProperRun([], cap);
    hide *;
    MapAdded([], [], LOWER, cap);
    assert [] + [MapsEvent(LOWER)] == [MapsEvent(LOWER)] && [] + [LOWER] == [LOWER];
  }

  lemma {:induction false} TwoMapsRun(cap: nat)
    ensures Run([MapsEvent(LOWER), MapsEvent(MIDDLE)], cap) == EMPTY.(maps := [LOWER, MIDDLE])
    ensures ProperRun([MapsEvent(LOWER), MapsEvent(MIDDLE)], cap)
  {
    hide Run, ProperRun;
    OneMapRun(cap);
    MapAdded([MapsEvent(LOWER)], [LOWER], MIDDLE, cap);
    assert [MapsEvent(LOWER)] + [MapsEvent(MIDDLE)] == [MapsEvent(LOWER), MapsEvent(MIDDLE)];
    assert [LOWER] + [MIDDLE] == [LOWER, MIDDLE];
  }

  lemma {:induction false} ThreeMapsRun(cap: nat)
    ensures Run([MapsEvent(LOWER), MapsEvent(MIDDLE), MapsEvent(UPPER)], cap) == EMPTY.(maps := [LOWER, MIDDLE, UPPER])
    ensures ProperRun([MapsEvent(LOWER), MapsEvent(MIDDLE), MapsEvent(UPPER)], cap)
  {
    hide Run, ProperRun;
    TwoMapsRun(cap);
    var b, ms := [MapsEvent(LOWER), MapsEvent(MIDDLE)], [LOWER, MIDDLE];
    MapAdded(b, ms, UPPER, cap);
    assert b + [MapsEvent(UPPER)] == [MapsEvent(LOWER), MapsEvent(MIDDLE), MapsEvent(UPPER)];
    assert ms + [UPPER] == [LOWER, MIDDLE, UPPER];
  }

  lemma {:induction false} PartedRun(cap: nat)
    ensures Run(PARTED, cap) == Waits([LOWER, MIDDLE, UPPER], map[7 := TABLE], SPLIT)
    ensures ProperRun(PARTED, cap)
  {
    hide Run, ProperRun;
    var c := [MapsEvent(LOWER), MapsEvent(MIDDLE), MapsEvent(UPPER)];
    ThreeMapsRun(cap);
    RunNext(c, TableEvent(7, TABLE), cap);
    var d := c + [TableEvent(7, TABLE)];
    assert Run(d, cap) == EMPTY.(maps := [LOWER, MIDDLE, UPPER], tables := map[7 := TABLE]);
    RunNext(d, StackEvent(SPLIT), cap);
    assert d + [StackEvent(SPLIT)] == PARTED;
  }

  lemma UpperCovers(ms: seq<MapsInfo>)
    requires ms == [LOWER, MIDDLE, UPPER]
    ensures Sorted(ms) && WellFormed(ms) && Covering(ms, 0x3500) == Some(UPPER)
  {
    assert ms[2] == UPPER;
    CoveringContains(ms, 0x3500, UPPER);
  }

  /** The table moves the ip, but the scan does not reach its map. */
  lemma PartedUntimely(s: Hook)
    requires s == Waits([LOWER, MIDDLE, UPPER], map[7 := TABLE], SPLIT)
    ensures Sorted(s.maps) && !TimelyTable(s, 7, MOVED, SPLIT)
  {
    UpperCovers(s.maps);
    ScanMisses();
    assert s.pending[0].id == 1;
    assert KeepsOverTable(s, 7, SPLIT);
    assert Gap(s.maps, SPLIT.ips) == 1 by {
      assert SPLIT.ips[1..] == [];
    }
    hide Covering, TableRange, Gap;
    assert Lookup(s.maps, s.tables[7 := MOVED], 0x3500) != Lookup(s.maps, s.tables, 0x3500);
  }

  /** The stack keeps the chain it had under the replaced table. */
  lemma {:induction false} SplitFileStale(cap: nat)
    ensures ProperRun(PARTED + [TableEvent(7, MOVED)], cap)
    ensures var r := Run(PARTED + [TableEvent(7, MOVED)], cap);
            SPLIT in r.all && 1 in r.chains && !FreshFor(r, SPLIT)
  {
    PartedRun(cap);
    var s := Run(PARTED, cap);
    RunNext(PARTED, TableEvent(7, MOVED), cap);
    assert Proper(s, TableEvent(7, MOVED));
    hide Run, OnTable, Orderly, StacksTracked, FreshFor, ProperRun, Proper, Sorted, Waits;
    RunOrderly(PARTED, cap);
    SplitKept(s);
  }

  lemma SplitKept(s: Hook)
    requires s == Waits([LOWER, MIDDLE, UPPER], map[7 := TABLE], SPLIT) && Orderly(s) && StacksTracked(s)
    ensures var r := OnTable(s, 7, MOVED);
            SPLIT in r.all && 1 in r.chains && !FreshFor(r, SPLIT)
  {
    assert FreshFor(s, SPLIT);
    hide OnTable, Orderly, StacksTracked, TimelyTable, Sorted;
    PartedUntimely(s);
    TableFreshIff(s, 7, MOVED, SPLIT);
  }
}
