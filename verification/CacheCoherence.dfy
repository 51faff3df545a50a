/** The cache of resolved frames agrees with a fresh lookup over every run of maps,
    symbol-table, stack and main events, and exactly when it would not. */
module CacheCoherence {
  import opened Words
  import opened AddressMaps
  import opened Symbolization
  import opened NativeHook

  predicate Sound(s: Hook) {
    WellFormed(s.maps) && Sorted(s.maps) && Coherent(s.maps, s.tables, s.cache)
  }

  lemma SymbolizeIpIsFresh(ms: seq<MapsInfo>, tables: map<u32, SymbolTable>, cache: map<u64, FrameInfo>, ip: u64)
    requires Sorted(ms) && Coherent(ms, tables, cache)
    ensures var (cache', frame) := SymbolizeIp(ms, tables, cache, ip);
            Coherent(ms, tables, cache') && frame == Lookup(ms, tables, ip)
  {
  }

  /** With a coherent cache, a stack resolves to what the uncached lookups give, and the
      cache stays coherent. */
  lemma {:induction false} SymbolizeStackIsFresh(ms: seq<MapsInfo>, tables: map<u32, SymbolTable>,
                                                 cache: map<u64, FrameInfo>, ips: seq<u64>)
    requires Sorted(ms) && Coherent(ms, tables, cache)
    ensures var (cache', frames) := SymbolizeStack(ms, tables, cache, ips);
            Coherent(ms, tables, cache') && frames == FreshFrames(ms, tables, ips)
    decreases ips
  {
    if ips != [] {
      SymbolizeIpIsFresh(ms, tables, cache, ips[0]);
      var (cache', frame) := SymbolizeIp(ms, tables, cache, ips[0]);
      if frame.Some? {
        SymbolizeStackIsFresh(ms, tables, cache', ips[1..]);
      }
    }
  }

  /** Exactly the symbolized ips of a stack are added to the cache. */
  lemma {:induction false} SymbolizeCaches(ms: seq<MapsInfo>, tables: map<u32, SymbolTable>, cache: map<u64, FrameInfo>,
                                           ips: seq<u64>, ip: u64)
    requires Sorted(ms)
    ensures var (cache', frames) := SymbolizeStack(ms, tables, cache, ips);
            && |frames| <= |ips| && (ip in cache' <==> ip in cache || ip in ips[..|frames|])
            && (ip in cache ==> cache'[ip] == cache[ip])
    decreases ips
  {
    hide Lookup, Sorted;
    if ips != [] {
      var (cache', frame) := SymbolizeIp(ms, tables, cache, ips[0]);
      if frame.Some? {
        SymbolizeCaches(ms, tables, cache', ips[1..], ip);
        var frames := SymbolizeStack(ms, tables, cache', ips[1..]).1;
        assert ips[..|frames| + 1] == [ips[0]] + ips[1..][..|frames|];
      }
    }
  }

  lemma {:induction false} FillAllCoherent(s: Hook, stacks: seq<Stack>)
    requires Sorted(s.maps) && Coherent(s.maps, s.tables, s.cache)
    ensures var r := FillAll(s, stacks);
            r.tables == s.tables && Coherent(r.maps, r.tables, r.cache)
  {
    if stacks != [] {
      var n := |stacks| - 1;
      FillAllCoherent(s, stacks[..n]);
      SymbolizeStackIsFresh(s.maps, s.tables, FillAll(s, stacks[..n]).cache, stacks[n].ips);
    }
  }

  lemma ParsingCoherent(s: Hook)
    requires Sorted(s.maps) && Coherent(s.maps, s.tables, s.cache)
    ensures var p := ParsePending(s);
            p.tables == s.tables && Coherent(p.maps, p.tables, p.cache)
    ensures var a := ParseAgain(ParsePending(s));
            a.tables == s.tables && Coherent(a.maps, a.tables, a.cache)
  {
    FillAllCoherent(s, s.pending);
    var p := ParsePending(s);
    FillAllCoherent(p, p.reparse);
  }

  lemma FlushCoherent(s: Hook)
    requires Sorted(s.maps) && Coherent(s.maps, s.tables, s.cache)
    ensures var f := Flush(s);
            f.tables == s.tables && Coherent(f.maps, f.tables, f.cache)
  {
    ParsingCoherent(s);
  }

  /** Frames that survive the invalidation still resolve to the same thing. */
  lemma MapsCoherent(ms: seq<MapsInfo>, tables: map<u32, SymbolTable>, cache: map<u64, FrameInfo>, m: MapsInfo)
    requires WellFormed(ms) && Sorted(ms) && m.start < m.end && Coherent(ms, tables, cache)
    requires var (start, end) := ConflictRange(ms, m.start, m.end);
             Conflicting((start, end)) ==> forall ip :: ip in cache ==> !(start <= ip < end)
    ensures Coherent(UpdateMaps(ms, m), tables, cache)
  {
    hide ConflictRange, UpdateMaps, Covering, WellFormed, Sorted, Resolve;
    forall ip | ip in cache ensures Lookup(UpdateMaps(ms, m), tables, ip) == Some(cache[ip]) {
      assert Lookup(ms, tables, ip).Some?;
      CoveringAfterMaps(ms, m, ip);
    }
  }

  lemma OnMapsCoherent(s: Hook, m: MapsInfo)
    requires Sound(s) && m.start < m.end
    ensures Coherent(OnMaps(s, m).maps, OnMaps(s, m).tables, OnMaps(s, m).cache)
  {
    var (start, end) := ConflictRange(s.maps, m.start, m.end);
    if Conflicting((start, end)) {
      FlushCoherent(s);
      var f := Flush(s);
      var cache := WithoutRange(f.cache, start, end);
      MapsCoherent(s.maps, s.tables, cache, m);
      var r := OnMaps(s, m);
      assert r.cache == cache && r.tables == s.tables;
    } else {
      MapsCoherent(s.maps, s.tables, s.cache, m);
    }
  }

  lemma OnMapsSound(s: Hook, m: MapsInfo)
    requires Sound(s) && m.start < m.end
    ensures Sound(OnMaps(s, m))
  {
    MapsStayDisjoint(s.maps, m);
    OnMapsCoherent(s, m);
  }

  /** A table changes only the frames of its own file. */
  lemma LookupOtherFile(ms: seq<MapsInfo>, tables: map<u32, SymbolTable>, file: u32, table: SymbolTable, ip: u64)
    requires Sorted(ms)
    requires Covering(ms, ip).Some? ==> Covering(ms, ip).value.file != file
    ensures Lookup(ms, tables[file := table], ip) == Lookup(ms, tables, ip)
  {
  }

  lemma TableCoherent(ms: seq<MapsInfo>, tables: map<u32, SymbolTable>, cache: map<u64, FrameInfo>,
                      file: u32, table: SymbolTable)
    requires Sorted(ms) && Coherent(ms, tables, cache)
    requires forall ip :: ip in cache ==> cache[ip].file != file
    ensures Coherent(ms, tables[file := table], cache)
  {
    forall ip | ip in cache ensures Lookup(ms, tables[file := table], ip) == Some(cache[ip]) {
      assert Lookup(ms, tables, ip) == Some(cache[ip]);
      LookupOtherFile(ms, tables, file, table, ip);
    }
  }

  lemma OnTableSound(s: Hook, file: u32, table: SymbolTable)
    requires Sound(s)
    requires file !in s.tables ==> forall ip :: ip in s.cache ==> s.cache[ip].file != file
    ensures Sound(OnTable(s, file, table))
  {
    if file in s.tables {
      FlushCoherent(s);
      var f := Flush(s);
      var cache := WithoutFile(f.cache, file);
      TableCoherent(s.maps, s.tables, cache, file, table);
    } else {
      TableCoherent(s.maps, s.tables, s.cache, file, table);
    }
  }

  /** A maps event takes from the cache exactly the ips of the range it makes stale, if any. */
  lemma MapsErase(s: Hook, m: MapsInfo, ip: u64)
    requires Sorted(s.maps)
    ensures var r, range := OnMaps(s, m), ConflictRange(s.maps, m.start, m.end);
            var cache := if Conflicting(range) then Flush(s).cache else s.cache;
            && (ip in r.cache <==> ip in cache && !(Conflicting(range) && range.0 <= ip < range.1))
            && (ip in r.cache ==> r.cache[ip] == cache[ip])
  {
    hide ConflictRange, Flush, UpdateMaps, Sorted;
  }

  /** A symbol table takes from the cache exactly the frames of a file that had one. */
  lemma TableErases(s: Hook, file: u32, table: SymbolTable, ip: u64)
    requires Sorted(s.maps)
    ensures var r := OnTable(s, file, table);
            var cache := if file in s.tables then Flush(s).cache else s.cache;
            && (ip in r.cache <==> ip in cache && !(file in s.tables && cache[ip].file == file))
            && (ip in r.cache ==> r.cache[ip] == cache[ip])
  {
    hide TableRange, Flush, Sorted;
  }

  /** A map is a non-empty range; the first table of a file comes before any of its ips
      is cached. Everything else is unrestricted, later tables included. */
  predicate Admissible(s: Hook, e: Event) {
    match e
    case MapsEvent(m) => m.start < m.end
    case TableEvent(file, _) => file in s.tables || forall ip :: ip in s.cache ==> s.cache[ip].file != file
    case _ => true
  }

  lemma StepSound(s: Hook, e: Event, cap: nat)
    requires Sound(s) && Admissible(s, e)
    ensures Sound(Step(s, e, cap))
  {
    match e {
      case StackEvent(st) =>
      case MapsEvent(m) => OnMapsSound(s, m);
      case TableEvent(file, table) => OnTableSound(s, file, table);
      case ArrivalEvent(ev) => ParsingCoherent(s.(waiting := ReorderBuffer.Insert(s.waiting, ev)));
      case FinishEvent => ParsingCoherent(s);
    }
  }

  predicate AdmissibleRun(events: seq<Event>, cap: nat) {
    events == [] ||
    var n := |events| - 1;
    AdmissibleRun(events[..n], cap) && Admissible(Run(events[..n], cap), events[n])
  }

  /** Cache coherence over every admissible run: each cached frame equals an uncached lookup
      under the current maps and tables, and the stored maps are pairwise disjoint. */
  lemma {:induction false} RunSound(events: seq<Event>, cap: nat)
    requires AdmissibleRun(events, cap)
    ensures Sound(Run(events, cap))
  {
    if events != [] {
      var n := |events| - 1;
      RunSound(events[..n], cap);
      StepSound(Run(events[..n], cap), events[n], cap);
    }
  }

  // ---------------------------------------------------------------------------
  // Exactly when the two conditions matter
  // ---------------------------------------------------------------------------

  /** A first table leaves the frame of an ip in its file alone only if it has no function
      symbol and the ip's virtual address in it is the invalid value itself. */
  predicate Unmoved(s: Hook, table: SymbolTable, ip: u64)
    requires Sorted(s.maps)
  {
    var c := Covering(s.maps, ip);
    c.Some? && !HasFuncs(table.syms) && SymVaddr(c.value, table, ip) == INVALID_UINT64
  }

  lemma FirstTableMovesFrame(s: Hook, file: u32, table: SymbolTable, ip: u64)
    requires Sorted(s.maps) && file !in s.tables
    requires Lookup(s.maps, s.tables, ip).Some? && Lookup(s.maps, s.tables, ip).value.file == file
    ensures Lookup(s.maps, s.tables[file := table], ip) == Lookup(s.maps, s.tables, ip) <==> Unmoved(s, table, ip)
  {
    var m := Covering(s.maps, ip).value;
    var v := SymVaddr(m, table, ip);
    match Nearest(table.syms, v) {
      case None =>
      case Some(sym) => assert v - sym.value != INVALID_UINT64;
    }
  }

  /** The first table of a file keeps the cache coherent exactly when it moves no cached
      frame of that file. */
  lemma FirstTableCoherentIff(s: Hook, file: u32, table: SymbolTable)
    requires Sound(s) && file !in s.tables
    ensures Sound(OnTable(s, file, table)) <==>
            forall ip :: ip in s.cache && s.cache[ip].file == file ==> Unmoved(s, table, ip)
  {
    var tables := s.tables[file := table];
    assert OnTable(s, file, table) == s.(tables := tables);
    hide OnTable, Unmoved, Covering, WellFormed, Sorted;
    forall ip | ip in s.cache
      ensures Lookup(s.maps, tables, ip) == Some(s.cache[ip]) <==>
              (s.cache[ip].file == file ==> Unmoved(s, table, ip))
    {
      assert Lookup(s.maps, s.tables, ip) == Some(s.cache[ip]);
      if s.cache[ip].file == file {
        FirstTableMovesFrame(s, file, table, ip);
      }
    }
  }

  lemma UpperBoundAt(ms: seq<MapsInfo>, x: int, k: nat)
    requires Sorted(ms) && k <= |ms|
    requires 0 < k ==> ms[k - 1].start <= x
    requires k < |ms| ==> x < ms[k].start
    ensures UpperBound(ms, x) == k
  {
  }

  /** What one inserted map does to the position found for an address. */
  lemma UpperBoundAfterInsert(ms: seq<MapsInfo>, m: MapsInfo, x: int)
    requires Sorted(ms)
    requires forall i :: 0 <= i < |ms| ==> ms[i].start != m.start
    ensures var k, j, r := UpperBound(ms, m.start), UpperBound(ms, x), InsertMap(ms, m);
            if x < m.start then
              j <= k && UpperBound(r, x) == j && (0 < j ==> r[j - 1] == ms[j - 1])
            else
              k <= j && UpperBound(r, x) == j + 1 && r[j] == if j == k then m else ms[j - 1]
  {
    var k, j, r := UpperBound(ms, m.start), UpperBound(ms, x), InsertMap(ms, m);
    assert r == ms[..k] + [m] + ms[k..];
    if x < m.start {
      assert j < |r| ==> r[j] == if j == k then m else ms[j];
      UpperBoundAt(r, x, j);
    } else {
      assert j + 1 < |r| ==> r[j + 1] == ms[j];
      UpperBoundAt(r, x, j + 1);
    }
  }

  lemma KeyPresent(ms: seq<MapsInfo>, m: MapsInfo, i: nat, ip: u64)
    requires Sorted(ms) && i < |ms| && ms[i].start == m.start
    ensures InsertMap(ms, m) == ms
    ensures Covering(ms, ip).Some? ==> !(Covering(ms, ip).value.start < m.start <= ip)
  {
    UpperBoundAt(ms, m.start, i + 1);
    var j := UpperBound(ms, ip);
    assert 0 < j && i < j - 1 ==> ms[i].start < ms[j - 1].start;
  }

  lemma EmptyMapInserted(ms: seq<MapsInfo>, m: MapsInfo, ip: u64)
    requires Sorted(ms) && m.end <= m.start && Covering(ms, ip).Some?
    requires forall i :: 0 <= i < |ms| ==> ms[i].start != m.start
    ensures var x := Covering(ms, ip).value;
            Covering(InsertMap(ms, m), ip) == if x.start < m.start <= ip then None else Some(x)
  {
    UpperBoundAfterInsert(ms, m, ip);
    var j, k := UpperBound(ms, ip), UpperBound(ms, m.start);
    assert k <= j - 1 ==> m.start < ms[j - 1].start;
    assert j <= k ==> ms[j - 1].start < m.start;
  }

  /** An empty map hides the map it starts in from there on: the lookup behind it fails. */
  lemma EmptyMapHides(ms: seq<MapsInfo>, m: MapsInfo, ip: u64)
    requires Sorted(ms) && m.end <= m.start && Covering(ms, ip).Some?
    ensures var x := Covering(ms, ip).value;
            Covering(UpdateMaps(ms, m), ip) == if x.start < m.start <= ip then None else Some(x)
  {
    if i :| 0 <= i < |ms| && ms[i].start == m.start {
      KeyPresent(ms, m, i, ip);
    } else {
      EmptyMapInserted(ms, m, ip);
    }
  }

  /** A map with start >= end keeps the cache coherent exactly when no cached ip lies behind
      its start in the map it falls into. */
  lemma EmptyMapCoherentIff(s: Hook, m: MapsInfo)
    requires Sound(s) && m.end <= m.start
    ensures Coherent(OnMaps(s, m).maps, s.tables, s.cache) <==>
            forall ip :: ip in s.cache ==> !(Covering(s.maps, ip).value.start < m.start <= ip)
    ensures OnMaps(s, m).cache == s.cache && OnMaps(s, m).tables == s.tables
  {
    assert OnMaps(s, m) == s.(maps := UpdateMaps(s.maps, m));
    hide OnMaps, UpdateMaps, Covering, WellFormed, Sorted, Lookup, ConflictRange;
    forall ip | ip in s.cache
      ensures Lookup(OnMaps(s, m).maps, s.tables, ip) == Some(s.cache[ip]) <==>
              !(Covering(s.maps, ip).value.start < m.start <= ip)
    {
      assert Lookup(s.maps, s.tables, ip) == Some(s.cache[ip]);
      EmptyMapLookup(s.maps, s.tables, m, ip);
    }
  }

  /** What an empty map does to the lookup of an ip that has a frame. */
  lemma EmptyMapLookup(ms: seq<MapsInfo>, tables: map<u32, SymbolTable>, m: MapsInfo, ip: u64)
    requires Sorted(ms) && m.end <= m.start && Lookup(ms, tables, ip).Some?
    ensures Covering(ms, ip).Some?
    ensures Lookup(UpdateMaps(ms, m), tables, ip) ==
            if Covering(ms, ip).value.start < m.start <= ip then None else Lookup(ms, tables, ip)
  {
    hide UpdateMaps, Covering, Sorted, Resolve;
    EmptyMapHides(ms, m, ip);
  }
}
