/** The offline-symbolization state machine of the native hook: stacks, memory maps,
    symbol tables and main events
    (trace_streamer/src/filter/native_hook_filter.cpp:60-68, 421-461, 517-695, 719-728, 848-858).

    Every operation is a function of the state; NativeHookFilter.dfy has the methods
    that update the fields in place. */
module NativeHook {
  import opened Words
  import opened AddressMaps
  import opened Symbolization
  import opened ReorderBuffer

  datatype Stack = Stack(id: u32, ips: seq<u64>)

  /** A row of the frame table. */
  datatype FrameRow = FrameRow(chain: nat, depth: nat, frame: FrameInfo)

  /** A handled main event with the call chain it was given. */
  datatype Handled = Handled(event: MainEvent, chain: Option<nat>)

  /** all, pending and reparse are the maps from stack id to frames, ordered by id;
      chains is the map from stack id to call chain id. */
  datatype Hook = Hook(maps: seq<MapsInfo>, tables: map<u32, SymbolTable>, cache: map<u64, FrameInfo>,
                       all: seq<Stack>, pending: seq<Stack>, reparse: seq<Stack>,
                       chains: map<u32, nat>, lastChain: nat, rows: seq<FrameRow>,
                       waiting: seq<MainEvent>, handled: seq<Handled>)

  datatype Event =
    | StackEvent(stack: Stack)
    | MapsEvent(map_: MapsInfo)
    | TableEvent(file: u32, table: SymbolTable)
    | ArrivalEvent(event: MainEvent)
    | FinishEvent

  const EMPTY := Hook([], map[], map[], [], [], [], map[], 0, [], [], [])

  predicate HasId(stacks: seq<Stack>, id: u32) {
    exists i :: 0 <= i < |stacks| && stacks[i].id == id
  }

  lemma HasIdAppend(stacks: seq<Stack>, s: Stack, id: u32)
    ensures HasId(stacks + [s], id) <==> HasId(stacks, id) || id == s.id
  {
    var r := stacks + [s];
    if i :| 0 <= i < |stacks| && stacks[i].id == id {
      assert r[i].id == id;
    }
    assert r[|stacks|] == s;
    if i :| 0 <= i < |r| && r[i].id == id {
      assert i < |stacks| ==> stacks[i].id == id;
    }
  }

  /** std::map::emplace: an id that is present keeps its entry. */
  function Emplace(stacks: seq<Stack>, s: Stack): (r: seq<Stack>)
    ensures forall x :: x in r ==> x in stacks || x == s
  {
    if stacks == [] || stacks[|stacks| - 1].id < s.id then stacks + [s]
    else if stacks[|stacks| - 1].id == s.id then stacks
    else Emplace(stacks[..|stacks| - 1], s) + [stacks[|stacks| - 1]]
  }

  lemma {:induction false} EmplaceIds(stacks: seq<Stack>, s: Stack, id: u32)
    ensures HasId(Emplace(stacks, s), id) <==> HasId(stacks, id) || id == s.id
  {
    if stacks == [] || stacks[|stacks| - 1].id < s.id {
      HasIdAppend(stacks, s, id);
    } else if stacks[|stacks| - 1].id > s.id {
      var n := |stacks| - 1;
      EmplaceIds(stacks[..n], s, id);
      HasIdAppend(Emplace(stacks[..n], s), stacks[n], id);
      HasIdAppend(stacks[..n], stacks[n], id);
      assert stacks == stacks[..n] + [stacks[n]];
    }
  }

  // ---------------------------------------------------------------------------
  // Symbolizing stacks
  // ---------------------------------------------------------------------------

  /** OfflineSymbolization(ip): the cached frame, or a lookup that is cached if it succeeds. */
  function SymbolizeIp(ms: seq<MapsInfo>, tables: map<u32, SymbolTable>, cache: map<u64, FrameInfo>, ip: u64)
    : (r: (map<u64, FrameInfo>, Option<FrameInfo>))
    requires Sorted(ms)
  {
    if ip in cache then (cache, Some(cache[ip])) else
    match Lookup(ms, tables, ip)
    case None => (cache, None)
    case Some(f) => (cache[ip := f], Some(f))
  }

  /** OfflineSymbolization(ips): up to the first ip that cannot be symbolized. */
  function SymbolizeStack(ms: seq<MapsInfo>, tables: map<u32, SymbolTable>, cache: map<u64, FrameInfo>, ips: seq<u64>)
    : (r: (map<u64, FrameInfo>, seq<FrameInfo>))
    requires Sorted(ms)
    decreases ips
  {
    if ips == [] then (cache, []) else
    match SymbolizeIp(ms, tables, cache, ips[0])
    case (_, None) => (cache, [])
    case (cache', Some(f)) =>
      var (cache'', frames) := SymbolizeStack(ms, tables, cache', ips[1..]);
      (cache'', [f] + frames)
  }

  /** The reference: the same stack resolved without any cache. */
  function FreshFrames(ms: seq<MapsInfo>, tables: map<u32, SymbolTable>, ips: seq<u64>): (r: seq<FrameInfo>)
    requires Sorted(ms)
  {
    if ips == [] then [] else
    match Lookup(ms, tables, ips[0])
    case None => []
    case Some(f) => [f] + FreshFrames(ms, tables, ips[1..])
  }

  /** Rows of one call chain: depth 0 is the last symbolized ip. */
  function RowsOf(chain: nat, frames: seq<FrameInfo>): (r: seq<FrameRow>)
    ensures |r| == |frames|
    ensures forall d :: 0 <= d < |r| ==> r[d] == FrameRow(chain, d, frames[|frames| - 1 - d])
  {
    seq(|frames|, d requires 0 <= d < |frames| => FrameRow(chain, d, frames[|frames| - 1 - d]))
  }

  /** FillOfflineSymbolizationFrames. */
  function Fill(s: Hook, st: Stack): (r: Hook)
    requires Sorted(s.maps)
  {
    var (cache, frames) := SymbolizeStack(s.maps, s.tables, s.cache, st.ips);
    var c := s.lastChain + 1;
    s.(cache := cache, lastChain := c, rows := s.rows + RowsOf(c, frames),
       chains := if st.id in s.chains then s.chains else s.chains[st.id := c])
  }

  function FillAll(s: Hook, stacks: seq<Stack>): (r: Hook)
    requires Sorted(s.maps)
    ensures r.maps == s.maps && r.tables == s.tables
  {
    if stacks == [] then s else Fill(FillAll(s, stacks[..|stacks| - 1]), stacks[|stacks| - 1])
  }

  /** ParseFramesInOfflineSymbolizationMode. */
  function ParsePending(s: Hook): (r: Hook)
    requires Sorted(s.maps)
    ensures r.maps == s.maps && r.tables == s.tables
  {
    FillAll(s, s.pending).(pending := [])
  }

  /** ReparseStacksWithDifferentMeans. */
  function ParseAgain(s: Hook): (r: Hook)
    requires Sorted(s.maps)
    ensures r.maps == s.maps && r.tables == s.tables
  {
    FillAll(s, s.reparse).(reparse := [])
  }

  // ---------------------------------------------------------------------------
  // Main events
  // ---------------------------------------------------------------------------

  function ChainOf(chains: map<u32, nat>, e: MainEvent): (r: Option<nat>) {
    if e.stackId != 0 && e.stackId in chains then Some(chains[e.stackId]) else None
  }

  function Resolved(events: seq<MainEvent>, chains: map<u32, nat>): (r: seq<Handled>)
    ensures |r| == |events|
    ensures forall i :: 0 <= i < |r| ==> r[i] == Handled(events[i], ChainOf(chains, events[i]))
  {
    seq(|events|, i requires 0 <= i < |events| => Handled(events[i], ChainOf(chains, events[i])))
  }

  /** FilterNativeHookMainEvent. */
  function Filter(s: Hook, num: nat): (r: Hook)
    requires num <= |s.waiting|
  {
    s.(handled := s.handled + Resolved(s.waiting[..num], s.chains), waiting := s.waiting[num..])
  }

  /** What precedes an update of the maps or of a symbol table. */
  function Flush(s: Hook): (r: Hook)
    requires Sorted(s.maps)
    ensures r.maps == s.maps && r.tables == s.tables
  {
    var p := ParsePending(s);
    if p.waiting == [] then p else
    var a := ParseAgain(p);
    Filter(a, |a.waiting|)
  }

  // ---------------------------------------------------------------------------
  // Invalidation
  // ---------------------------------------------------------------------------

  /** The cache without the ips of [start, end). */
  function WithoutRange(cache: map<u64, FrameInfo>, start: u64, end: u64): (r: map<u64, FrameInfo>) {
    map ip | ip in cache && !(start <= ip < end) :: cache[ip]
  }

  /** The cache without the frames of a file. */
  function WithoutFile(cache: map<u64, FrameInfo>, file: u32): (r: map<u64, FrameInfo>) {
    map ip | ip in cache && cache[ip].file != file :: cache[ip]
  }

  predicate Hits(ips: seq<u64>, start: u64, end: u64) {
    exists i :: 0 <= i < |ips| && start <= ips[i] < end
  }

  function MarkOne(s: Hook, st: Stack, start: u64, end: u64): (r: Hook) {
    if !Hits(st.ips, start, end) then s else
    s.(chains := s.chains - {st.id},
       reparse := if HasId(s.pending, st.id) then s.reparse else Emplace(s.reparse, st))
  }

  /** ReparseStacksWithAddrRange over the first n registered stacks. */
  function MarkFirst(s: Hook, n: nat, start: u64, end: u64): (r: Hook)
    requires n <= |s.all|
    ensures r == s.(chains := r.chains, reparse := r.reparse)
  {
    if n == 0 then s else MarkOne(MarkFirst(s, n - 1, start, end), s.all[n - 1], start, end)
  }

  function Mark(s: Hook, start: u64, end: u64): (r: Hook) {
    MarkFirst(s, |s.all|, start, end)
  }

  function Min(a: int, b: int): int { if a < b then a else b }
  function Max(a: int, b: int): int { if a < b then b else a }

  /** The address range that a replaced symbol table makes stale. The scan stops behind the
      first run of the file's maps, but only if that run starts below INVALID_UINT32. */
  function TableRange(ms: seq<MapsInfo>, file: u32, i: nat, start: u64, end: u64): (r: (u64, u64))
    requires i <= |ms|
    decreases |ms| - i
  {
    if i == |ms| then (start, end)
    else if ms[i].file == file then TableRange(ms, file, i + 1, Min(ms[i].start, start), Max(ms[i].end, end))
    else if start != INVALID_UINT32 then (start, end)
    else TableRange(ms, file, i + 1, start, end)
  }

  // ---------------------------------------------------------------------------
  // Events
  // ---------------------------------------------------------------------------

  function OnStack(s: Hook, st: Stack): (r: Hook) {
    s.(pending := Emplace(s.pending, st), all := Emplace(s.all, st))
  }

  function OnMaps(s: Hook, m: MapsInfo): (r: Hook)
    requires Sorted(s.maps)
    ensures r.maps == UpdateMaps(s.maps, m)
  {
    var (start, end) := ConflictRange(s.maps, m.start, m.end);
    if !Conflicting((start, end)) then s.(maps := UpdateMaps(s.maps, m)) else
    var f := Flush(s);
    var cache := WithoutRange(f.cache, start, end);
    Mark(f.(cache := cache), start, end).(maps := UpdateMaps(s.maps, m))
  }

  function OnTable(s: Hook, file: u32, table: SymbolTable): (r: Hook)
    requires Sorted(s.maps)
    ensures r.maps == s.maps
  {
    if file !in s.tables then s.(tables := s.tables[file := table]) else
    var f := Flush(s);
    var cache := WithoutFile(f.cache, file);
    var (start, end) := TableRange(s.maps, file, 0, INVALID_UINT32, 0);
    Mark(f.(cache := cache), start, end).(tables := s.tables[file := table])
  }

  function OnArrival(s: Hook, e: MainEvent, cap: nat): (r: Hook)
    requires Sorted(s.maps)
    ensures r.maps == s.maps
  {
    var w := s.(waiting := Insert(s.waiting, e));
    if |w.waiting| <= cap then w else
    var a := ParseAgain(ParsePending(w));
    Filter(a, if |a.waiting| > cap then |a.waiting| - cap else 0)
  }

  function OnFinish(s: Hook): (r: Hook)
    requires Sorted(s.maps)
    ensures r.maps == s.maps
  {
    var a := ParseAgain(ParsePending(s));
    Filter(a, |a.waiting|)
  }

  function Step(s: Hook, e: Event, cap: nat): (r: Hook)
    requires Sorted(s.maps)
    ensures Sorted(r.maps)
  {
    match e
    case StackEvent(st) => OnStack(s, st)
    case MapsEvent(m) => OnMaps(s, m)
    case TableEvent(file, table) => OnTable(s, file, table)
    case ArrivalEvent(ev) => OnArrival(s, ev, cap)
    case FinishEvent => OnFinish(s)
  }

  function Run(events: seq<Event>, cap: nat): (r: Hook)
    ensures Sorted(r.maps)
  {
    if events == [] then EMPTY else Step(Run(events[..|events| - 1], cap), events[|events| - 1], cap)
  }
}
