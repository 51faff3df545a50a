/** The native-hook filter as an object: fields updated in place by iterator loops
    (trace_streamer/src/filter/native_hook_filter.cpp, offline mode), each method proved
    equal to its function in NativeHook.dfy. */
module NativeHookFilters {
  import opened Words
  import opened AddressMaps
  import opened Symbolization
  import opened ReorderBuffer
  import opened NativeHook

  class NativeHookFilter {
    var maps: seq<MapsInfo>
    var tables: map<u32, SymbolTable>
    var cache: map<u64, FrameInfo>
    var all: seq<Stack>
    var pending: seq<Stack>
    var reparse: seq<Stack>
    var chains: map<u32, nat>
    var lastChain: nat
    var rows: seq<FrameRow>
    var waiting: seq<MainEvent>
    var handled: seq<Handled>
    const cap: nat

    ghost function State(): (s: Hook)
      reads this
    {
      Hook(maps, tables, cache, all, pending, reparse, chains, lastChain, rows, waiting, handled)
    }

    constructor (cap: nat)
      ensures State() == EMPTY && this.cap == cap
    {
      maps, tables, cache := [], map[], map[];
      all, pending, reparse := [], [], [];
      chains, lastChain, rows := map[], 0, [];
      waiting, handled := [], [];
      this.cap := cap;
    }

    method AppendStackMaps(st: Stack)
      modifies this
      ensures State() == OnStack(old(State()), st)
    {
      pending := Emplace(pending, st);
      all := Emplace(all, st);
    }

    /** The backward walk over maps of the same file. */
    method FirstOfRun(first: nat) returns (i: nat)
      requires first < |maps|
      ensures i == RunStart(maps, first)
    {
      i := first;
      while i != 0
        invariant i < |maps| && maps[i].file == maps[first].file
        invariant RunStart(maps, i) == RunStart(maps, first)
        decreases i
      {
        if maps[i - 1].file != maps[first].file {
          break;
        }
        i := i - 1;
      }
    }

    /** The forward walk to the first map of another file. */
    method EndOfRun(behind: nat, file: u32) returns (end: u64)
      requires behind <= |maps|
      ensures var e := RunEnd(maps, behind, file);
              end == if e < |maps| then maps[e].start else INVALID_UINT64
    {
      var k := behind;
      while k != |maps|
        invariant k <= |maps| && RunEnd(maps, k, file) == RunEnd(maps, behind, file)
        decreases |maps| - k
      {
        if maps[k].file != file {
          return maps[k].start;
        }
        k := k + 1;
      }
      end := INVALID_UINT64;
    }

    /** The start of the first touched run. */
    method StartOfConflict(lo: u64) returns (start: u64)
      requires Sorted(maps)
      ensures var i := FirstEndingAfter(maps, lo);
              start == if i < |maps| then maps[RunStart(maps, i)].start else INVALID_UINT64
    {
      var i := UpperBound(maps, lo);
      if i != 0 {
        i := i - 1;
        if lo >= maps[i].end {
          i := i + 1;
        }
      }
      assert i == FirstEndingAfter(maps, lo);
      start := INVALID_UINT64;
      if i != |maps| {
        var first := FirstOfRun(i);
        start := maps[first].start;
      }
    }

    method GetNeedUpdateProcessMapsAddrRange(lo: u64, hi: u64) returns (start: u64, end: u64)
      requires Sorted(maps)
      ensures (start, end) == ConflictRange(maps, lo, hi)
    {
      start, end := INVALID_UINT64, INVALID_UINT64;
      if lo >= hi {
        return;
      }
      start := StartOfConflict(lo);
      var k := UpperBound(maps, hi);
      if k == |maps| {
        return;
      }
      if k == 0 {
        start := INVALID_UINT64;
        return;
      }
      end := EndOfRun(k, maps[k - 1].file);
    }

    method OfflineSymbolization(ip: u64) returns (frame: Option<FrameInfo>)
      requires Sorted(maps)
      modifies this`cache
      ensures (cache, frame) == SymbolizeIp(maps, tables, old(cache), ip)
    {
      if ip in cache {
        return Some(cache[ip]);
      }
      frame := Lookup(maps, tables, ip);
      if frame.Some? {
        cache := cache[ip := frame.value];
      }
    }

    method OfflineSymbolizationOfStack(ips: seq<u64>) returns (frames: seq<FrameInfo>)
      requires Sorted(maps)
      modifies this`cache
      ensures (cache, frames) == SymbolizeStack(maps, tables, old(cache), ips)
    {
      frames := [];
      var i := 0;
      assert ips[0..] == ips;
      assert forall x: seq<FrameInfo> :: [] + x == x;
      while i < |ips|
        invariant i <= |ips|
        invariant var rest := SymbolizeStack(maps, tables, cache, ips[i..]);
                  SymbolizeStack(maps, tables, old(cache), ips) == (rest.0, frames + rest.1)
      {
        assert ips[i..][0] == ips[i] && ips[i..][1..] == ips[i + 1..];
        ghost var next := SymbolizeStack(maps, tables, SymbolizeIp(maps, tables, cache, ips[i]).0, ips[i + 1..]);
        var frame := OfflineSymbolization(ips[i]);
        if frame.None? {
          assert frames + [] == frames;
          return;
        }
        assert frames + ([frame.value] + next.1) == (frames + [frame.value]) + next.1;
        frames := frames + [frame.value];
        i := i + 1;
      }
      assert frames + [] == frames;
    }

    method FillOfflineSymbolizationFrames(st: Stack)
      requires Sorted(maps)
      modifies this`cache, this`chains, this`lastChain, this`rows
      ensures State() == Fill(old(State()), st)
    {
      hide SymbolizeStack, RowsOf, Sorted;
      lastChain := lastChain + 1;
      if st.id !in chains {
        chains := chains[st.id := lastChain];
      }
      var frames := OfflineSymbolizationOfStack(st.ips);
      AppendFrameRows(frames);
    }

    /** From the last symbolized ip, which has depth 0, back to the first. */
    method AppendFrameRows(frames: seq<FrameInfo>)
      modifies this`rows
      ensures rows == old(rows) + RowsOf(lastChain, frames)
    {
      ghost var target := RowsOf(lastChain, frames);
      var depth := 0;
      while depth < |frames|
        invariant depth <= |frames|
        invariant rows == old(rows) + target[..depth]
      {
        rows := rows + [FrameRow(lastChain, depth, frames[|frames| - 1 - depth])];
        assert target[..depth + 1] == target[..depth] + [target[depth]];
        depth := depth + 1;
      }
      assert target[..depth] == target;
    }

    method FillStacks(stacks: seq<Stack>)
      requires Sorted(maps)
      modifies this`cache, this`chains, this`lastChain, this`rows
      ensures State() == FillAll(old(State()), stacks)
    {
      for i := 0 to |stacks|
        invariant State() == FillAll(old(State()), stacks[..i])
        invariant maps == old(maps)
      {
        assert stacks[..i + 1][..i] == stacks[..i];
        FillOfflineSymbolizationFrames(stacks[i]);
      }
      assert stacks[..|stacks|] == stacks;
    }

    method ParseFramesInOfflineSymbolizationMode()
      requires Sorted(maps)
      modifies this`cache, this`chains, this`lastChain, this`rows, this`pending
      ensures State() == ParsePending(old(State()))
    {
      FillStacks(pending);
      pending := [];
    }

    method ReparseStacksWithDifferentMeans()
      requires Sorted(maps)
      modifies this`cache, this`chains, this`lastChain, this`rows, this`reparse
      ensures State() == ParseAgain(old(State()))
    {
      FillStacks(reparse);
      reparse := [];
    }

    method FilterNativeHookMainEvent(num: nat)
      requires num <= |waiting|
      modifies this`handled, this`waiting
      ensures State() == Filter(old(State()), num)
    {
      ghost var target := Resolved(waiting[..num], chains);
      var i := 0;
      while i < num
        invariant i <= num
        invariant waiting == old(waiting)
        invariant handled == old(handled) + target[..i]
      {
        handled := handled + [Handled(waiting[i], ChainOf(chains, waiting[i]))];
        assert target[..i + 1] == target[..i] + [target[i]];
        i := i + 1;
      }
      assert target[..i] == target;
      waiting := waiting[num..];
    }

    method MaybeParseNativeHookMainEvent(e: MainEvent)
      requires Sorted(maps)
      modifies this
      ensures State() == OnArrival(old(State()), e, cap)
    {
      waiting := Insert(waiting, e);
      if |waiting| > cap {
        ParseFramesInOfflineSymbolizationMode();
        ReparseStacksWithDifferentMeans();
        FilterNativeHookMainEvent(if |waiting| > cap then |waiting| - cap else 0);
      }
    }

    /** First the updated stacks, then the main events, before maps or tables change. */
    method FlushBeforeUpdate()
      requires Sorted(maps)
      modifies this
      ensures State() == Flush(old(State()))
    {
      ParseFramesInOfflineSymbolizationMode();
      if |waiting| != 0 {
        ReparseStacksWithDifferentMeans();
        FilterNativeHookMainEvent(|waiting|);
      }
    }

    /** Whether some ip of a stack lies in [start, end): the inner loop with its break. */
    method AnyIpIn(ips: seq<u64>, start: u64, end: u64) returns (hit: bool)
      ensures hit <==> Hits(ips, start, end)
    {
      for i := 0 to |ips|
        invariant forall j :: 0 <= j < i ==> !(start <= ips[j] < end)
      {
        if start <= ips[i] < end {
          return true;
        }
      }
      hit := false;
    }

    method ReparseStacksWithAddrRange(start: u64, end: u64)
      modifies this`chains, this`reparse
      ensures State() == Mark(old(State()), start, end)
    {
      for i := 0 to |all|
        invariant State() == MarkFirst(old(State()), i, start, end)
      {
        var hit := AnyIpIn(all[i].ips, start, end);
        if hit {
          chains := chains - {all[i].id};
          if !HasId(pending, all[i].id) {
            reparse := Emplace(reparse, all[i]);
          }
        }
      }
    }

    /** Erases the cached ips of [start, end) one key after the other. */
    method EraseCachedRange(start: u64, end: u64)
      modifies this`cache
      ensures cache == WithoutRange(old(cache), start, end)
    {
      var doomed := set ip | ip in cache && start <= ip < end;
      ghost var erased: set<u64> := {};
      while doomed != {}
        invariant erased + doomed == set ip | ip in old(cache) && start <= ip < end
        invariant erased !! doomed
        invariant cache == old(cache) - erased
        decreases doomed
      {
        var ip :| ip in doomed;
        cache := cache - {ip};
        doomed, erased := doomed - {ip}, erased + {ip};
      }
    }

    method ParseMapsEvent(m: MapsInfo)
      requires Sorted(maps)
      modifies this
      ensures State() == OnMaps(old(State()), m)
    {
      hide Flush, ConflictRange, Outside, WithoutRange, InsertMap;
      var start, end := GetNeedUpdateProcessMapsAddrRange(m.start, m.end);
      if start != INVALID_UINT64 && start != end {
        OutsideKeepsOrder(maps, start, end);
        FlushBeforeUpdate();
        ghost var f := State();
        EraseCachedRange(start, end);
        maps := Outside(maps, start, end);
        ghost var g := State();
        assert g == f.(cache := WithoutRange(f.cache, start, end), maps := Outside(f.maps, start, end));
        ReparseStacksWithAddrRange(start, end);
        MarkIgnoresMaps(f.(cache := WithoutRange(f.cache, start, end)), |all|, g.maps, start, end);
      }
      maps := InsertMap(maps, m);
    }

    /** Erases the cached frames of a file. */
    method EraseCachedFile(file: u32)
      modifies this`cache
      ensures cache == WithoutFile(old(cache), file)
    {
      var doomed := set ip | ip in cache && cache[ip].file == file;
      ghost var erased: set<u64> := {};
      while doomed != {}
        invariant erased + doomed == set ip | ip in old(cache) && old(cache)[ip].file == file
        invariant erased !! doomed
        invariant cache == old(cache) - erased
        decreases doomed
      {
        var ip :| ip in doomed;
        cache := cache - {ip};
        doomed, erased := doomed - {ip}, erased + {ip};
      }
    }

    /** The scan over the maps of a file whose table is replaced. */
    method ScanFileRange(file: u32) returns (start: u64, end: u64)
      ensures (start, end) == TableRange(maps, file, 0, INVALID_UINT32, 0)
    {
      start, end := INVALID_UINT32, 0;
      var i := 0;
      while i < |maps|
        invariant i <= |maps|
        invariant TableRange(maps, file, i, start, end) == TableRange(maps, file, 0, INVALID_UINT32, 0)
      {
        if maps[i].file == file {
          start := Min(maps[i].start, start);
          end := Max(maps[i].end, end);
        } else if start != INVALID_UINT32 {
          break;
        }
        i := i + 1;
      }
    }

    method ParseSymbolTableEvent(file: u32, table: SymbolTable)
      requires Sorted(maps)
      modifies this
      ensures State() == OnTable(old(State()), file, table)
    {
      if file in tables {
        FlushBeforeUpdate();
        EraseCachedFile(file);
        var start, end := ScanFileRange(file);
        ReparseStacksWithAddrRange(start, end);
      }
      tables := tables[file := table];
    }

    method FinishParseNativeHookData()
      requires Sorted(maps)
      modifies this
      ensures State() == OnFinish(old(State()))
    {
      ParseFramesInOfflineSymbolizationMode();
      ReparseStacksWithDifferentMeans();
      FilterNativeHookMainEvent(|waiting|);
    }
  }

  /** Marking does not look at the maps. */
  lemma {:induction false} MarkIgnoresMaps(s: Hook, n: nat, ms: seq<MapsInfo>, start: u64, end: u64)
    requires n <= |s.all|
    ensures MarkFirst(s.(maps := ms), n, start, end) == MarkFirst(s, n, start, end).(maps := ms)
  {
    if n > 0 {
      MarkIgnoresMaps(s, n - 1, ms, start, end);
    }
  }
}
