/** The heap table read off its events: which event left each row, and which free ended which
    allocation (trace_streamer/src/filter/native_hook_filter.cpp:186-274;
    trace_streamer/src/trace_data/trace_stdtype.cpp:573-619). */
module HeapRecords {
  import opened Words
  import opened HeapPairing

  // ---------------------------------------------------------------------------
  // The pairing, from the events alone
  // ---------------------------------------------------------------------------

  /** The allocation that holds an address after n events: the first one since the address was last
      freed. A free takes effect only if it is strictly later than the allocation it ends. */
  function Holder(events: seq<Event>, addr: u64, n: nat): (i: Option<nat>)
    requires n <= |events|
    ensures i.Some? ==> i.value < n && events[i.value].Alloc? && events[i.value].addr == addr
  {
    if n == 0 then None else
    var held := Holder(events, addr, n - 1);
    if events[n - 1].addr != addr then held else
    match events[n - 1]
    case Alloc(_, _, _) => if held.Some? then held else Some(n - 1)
    case Free(ts, _) => if held.Some? && events[held.value].ts < ts then None else held
  }

  /** The allocation that event j frees. */
  function Freed(events: seq<Event>, j: nat): (i: Option<nat>)
    requires j < |events|
    ensures i.Some? ==> i.value < j && events[i.value].Alloc?
  {
    var held := Holder(events, events[j].addr, j);
    if events[j].Free? && held.Some? && events[held.value].ts < events[j].ts then held else None
  }

  /** The free among the first n events that ended allocation i. */
  function EndOf(events: seq<Event>, i: nat, n: nat): (j: Option<nat>)
    requires n <= |events|
    ensures j.Some? ==> j.value < n && Freed(events, j.value) == Some(i)
  {
    if n == 0 then None
    else if Freed(events, n - 1) == Some(i) then Some(n - 1)
    else EndOf(events, i, n - 1)
  }

  predicate LeavesRow(events: seq<Event>, i: nat)
    requires i < |events|
  {
    events[i].Alloc? || Freed(events, i).Some?
  }

  /** The events that leave a row, in order. */
  function Sources(events: seq<Event>, n: nat): (r: seq<nat>)
    requires n <= |events|
    ensures |r| <= n && forall k :: 0 <= k < |r| ==> r[k] < n && LeavesRow(events, r[k])
  {
    if n == 0 then []
    else if LeavesRow(events, n - 1) then Sources(events, n - 1) + [n - 1]
    else Sources(events, n - 1)
  }

  lemma {:induction false} SourcesAscend(events: seq<Event>, n: nat)
    requires n <= |events|
    ensures forall k, l :: 0 <= k < l < |Sources(events, n)| ==> Sources(events, n)[k] < Sources(events, n)[l]
  {
    hide LeavesRow;
    if n > 0 {
      SourcesAscend(events, n - 1);
    }
  }

  lemma {:induction false} SourcesComplete(events: seq<Event>, n: nat, i: nat)
    requires i < n <= |events| && LeavesRow(events, i)
    ensures i in Sources(events, n)
  {
    hide LeavesRow;
    if i < n - 1 {
      SourcesComplete(events, n - 1, i);
    }
  }

  /** The size an event adds to the heap, or takes from it. */
  function Change(events: seq<Event>, i: nat): (d: int)
    requires i < |events|
  {
    if events[i].Alloc? then events[i].size
    else if Freed(events, i).Some? then 0 - events[Freed(events, i).value].size
    else 0
  }

  function HeapSize(events: seq<Event>, n: nat): (size: int)
    requires n <= |events|
  {
    if n == 0 then 0 else HeapSize(events, n - 1) + Change(events, n - 1)
  }

  /** The row that event i leaves, as it stands after n events. */
  function RowOf(events: seq<Event>, i: nat, n: nat): (row: HookRow)
    requires i < n <= |events| && LeavesRow(events, i)
  {
    match events[i]
    case Alloc(ts, addr, size) =>
      var end := EndOf(events, i, n);
      HookRow(AllocEvent, ts,
              if end.Some? then events[end.value].ts else 0,
              if end.Some? then events[end.value].ts - ts else 0,
              addr, size, HeapSize(events, i + 1))
    case Free(ts, addr) =>
      HookRow(FreeEvent, ts, 0, 0, addr, events[Freed(events, i).value].size, HeapSize(events, i + 1))
  }

  // ---------------------------------------------------------------------------
  // The table follows it
  // ---------------------------------------------------------------------------

  ghost predicate RowsMatch(events: seq<Event>, n: nat, rows: seq<HookRow>)
    requires n <= |events|
  {
    var from := Sources(events, n);
    |rows| == |from| && forall k :: 0 <= k < |rows| ==> rows[k] == RowOf(events, from[k], n)
  }

  /** An address is open if it is held, with the row of its holder. */
  ghost predicate OpenAt(events: seq<Event>, n: nat, open: map<u64, nat>, addr: u64)
    requires n <= |events|
  {
    match Holder(events, addr, n)
    case None => addr !in open
    case Some(i) => addr in open && open[addr] < |Sources(events, n)| && Sources(events, n)[open[addr]] == i
  }

  ghost predicate OpenMatches(events: seq<Event>, n: nat, open: map<u64, nat>)
    requires n <= |events|
  {
    forall addr: u64 :: OpenAt(events, n, open, addr)
  }

  /** Another event does not touch what an address has. */
  lemma {:induction false} OpenStays(events: seq<Event>, n: nat, open: map<u64, nat>, open': map<u64, nat>, addr: u64)
    requires n < |events| && OpenAt(events, n, open, addr) && Holder(events, addr, n + 1) == Holder(events, addr, n)
    requires (addr in open' <==> addr in open) && (addr in open ==> open'[addr] == open[addr])
    ensures OpenAt(events, n + 1, open', addr)
  {
    hide Holder, LeavesRow;
    assert Sources(events, n) <= Sources(events, n + 1);
  }

  ghost predicate Follows(events: seq<Event>, n: nat, s: Heap)
    requires n <= |events|
  {
    RowsMatch(events, n, s.rows) && OpenMatches(events, n, s.open) && s.total == HeapSize(events, n)
  }

  lemma {:induction false} HolderNext(events: seq<Event>, addr: u64, n: nat)
    requires n < |events|
    ensures Holder(events, addr, n + 1) ==
            if events[n].addr != addr then Holder(events, addr, n)
            else if Freed(events, n).Some? then None
            else if events[n].Alloc? && Holder(events, addr, n).None? then Some(n)
            else Holder(events, addr, n)
  {
  }

  /** A row changes only when a free ends its allocation. */
  lemma RowOfNext(events: seq<Event>, i: nat, n: nat)
    requires i < n < |events| && LeavesRow(events, i)
    ensures RowOf(events, i, n + 1) ==
            if Freed(events, n) == Some(i)
            then RowOf(events, i, n).(endTs := events[n].ts, dur := events[n].ts - events[i].ts)
            else RowOf(events, i, n)
  {
  }

  lemma {:induction false} NewRow(events: seq<Event>, n: nat)
    requires n < |events| && events[n].Alloc?
    ensures RowOf(events, n, n + 1) ==
            HookRow(AllocEvent, events[n].ts, 0, 0, events[n].addr, events[n].size, HeapSize(events, n) + events[n].size)
  {
    assert Freed(events, n).None?;
    NotYetFreed(events, n, n);
  }

  lemma {:induction false} NotYetFreed(events: seq<Event>, i: nat, n: nat)
    requires n <= i < |events|
    ensures EndOf(events, i, n).None?
  {
  }

  /** Rows with one more, of event n. */
  lemma {:induction false} RowsGrow(events: seq<Event>, n: nat, rows: seq<HookRow>, more: seq<HookRow>)
    requires n < |events| && LeavesRow(events, n) && RowsMatch(events, n, rows)
    requires |more| == |rows| + 1 && more[|rows|] == RowOf(events, n, n + 1)
    requires var from := Sources(events, n);
             |rows| == |from| && forall k :: 0 <= k < |rows| ==>
               more[k] == if Freed(events, n) == Some(from[k])
                          then rows[k].(endTs := events[n].ts, dur := more[k].dur) else rows[k]
    requires forall k :: 0 <= k < |rows| && Freed(events, n) == Some(Sources(events, n)[k]) ==>
               more[k].dur == events[n].ts - events[Sources(events, n)[k]].ts
    ensures RowsMatch(events, n + 1, more)
  {
    var from := Sources(events, n);
    assert Sources(events, n + 1) == from + [n];
    hide RowOf, Freed, LeavesRow;
    forall k | 0 <= k < |rows| ensures more[k] == RowOf(events, from[k], n + 1) {
      RowOfNext(events, from[k], n);
    }
  }

  lemma {:induction false} AllocFollows(events: seq<Event>, n: nat, s: Heap)
    requires n < |events| && events[n].Alloc? && Follows(events, n, s)
    ensures Follows(events, n + 1, OnAlloc(s, events[n].ts, events[n].addr, events[n].size))
  {
    var e := events[n];
    var r := OnAlloc(s, e.ts, e.addr, e.size);
    assert Freed(events, n).None?;
    NewRow(events, n);
    hide RowOf, Freed;
    RowsGrow(events, n, s.rows, r.rows);
    hide RowsMatch;
    AllocOpens(events, n, s.open);
  }

  lemma {:induction false} AllocOpens(events: seq<Event>, n: nat, open: map<u64, nat>)
    requires n < |events| && events[n].Alloc? && OpenMatches(events, n, open)
    ensures var addr := events[n].addr;
            OpenMatches(events, n + 1, if addr in open then open else open[addr := |Sources(events, n)|])
  {
    var addr, from := events[n].addr, Sources(events, n);
    var open' := if addr in open then open else open[addr := |from|];
    assert Sources(events, n + 1) == from + [n];
    assert Freed(events, n).None?;
    hide Holder, Freed, LeavesRow, Sources;
    var m := n + 1;
    forall a: u64 ensures OpenAt(events, m, open', a) {
      HolderNext(events, a, n);
      assert OpenAt(events, n, open, a);
      if a != addr || a in open {
        OpenStays(events, n, open, open', a);
      }
    }
  }

  /** What OnFree needs to know of a held address. */
  lemma {:induction false} FreeMatches(events: seq<Event>, n: nat, s: Heap)
    requires n < |events| && events[n].Free? && Follows(events, n, s)
    ensures Matches(s, events[n].ts, events[n].addr) <==> Freed(events, n).Some?
    ensures Freed(events, n).Some? ==>
              var x := s.open[events[n].addr];
              x < |s.rows| && Sources(events, n)[x] == Freed(events, n).value
              && s.rows[x] == RowOf(events, Freed(events, n).value, n)
  {
    var addr := events[n].addr;
    assert OpenAt(events, n, s.open, addr);
    if addr in s.open {
      var x := s.open[addr];
      assert s.rows[x] == RowOf(events, Sources(events, n)[x], n);
    }
  }

  lemma {:induction false} FreeFollows(events: seq<Event>, n: nat, s: Heap)
    requires n < |events| && events[n].Free? && Follows(events, n, s) && Freed(events, n).Some?
    ensures Follows(events, n + 1, OnFree(s, events[n].ts, events[n].addr))
  {
    var e, from, i := events[n], Sources(events, n), Freed(events, n).value;
    FreeMatches(events, n, s);
    var r, x := OnFree(s, e.ts, e.addr), s.open[e.addr];
    assert s.rows[x].size == events[i].size && s.rows[x].ts == events[i].ts;
    FreeRow(events, n);
    FreeShape(s, e.ts, e.addr);
    SourcesAscend(events, n);
    hide OnFree, RowOf, Freed, Matches, Holder, LeavesRow;
    assert forall k :: 0 <= k < |from| ==> (from[k] == i <==> k == x);
    RowsGrow(events, n, s.rows, r.rows);
    hide RowsMatch;
    FreeOpens(events, n, s.open);
  }

  lemma {:induction false} FreeRow(events: seq<Event>, n: nat)
    requires n < |events| && Freed(events, n).Some?
    ensures var size := events[Freed(events, n).value].size;
            && HeapSize(events, n + 1) == HeapSize(events, n) - size
            && RowOf(events, n, n + 1) ==
               HookRow(FreeEvent, events[n].ts, 0, 0, events[n].addr, size, HeapSize(events, n) - size)
  {
  }

  lemma FreeShape(s: Heap, ts: u64, addr: u64)
    requires Matches(s, ts, addr)
    ensures var r, x := OnFree(s, ts, addr), s.open[addr];
            && |r.rows| == |s.rows| + 1
            && (forall k :: 0 <= k < |s.rows| && k != x ==> r.rows[k] == s.rows[k])
            && r.rows[x] == s.rows[x].(endTs := ts, dur := ts - s.rows[x].ts)
            && r.rows[|s.rows|] == HookRow(FreeEvent, ts, 0, 0, addr, s.rows[x].size, s.total - s.rows[x].size)
            && r.open == s.open - {addr} && r.total == s.total - s.rows[x].size
  {
  }

  lemma {:induction false} FreeOpens(events: seq<Event>, n: nat, open: map<u64, nat>)
    requires n < |events| && Freed(events, n).Some? && OpenMatches(events, n, open)
    ensures OpenMatches(events, n + 1, open - {events[n].addr})
  {
    var addr, open' := events[n].addr, open - {events[n].addr};
    hide Holder, Freed, LeavesRow, Sources;
    var m := n + 1;
    forall a: u64 ensures OpenAt(events, m, open', a) {
      HolderNext(events, a, n);
      assert OpenAt(events, n, open, a);
      if a != addr {
        OpenStays(events, n, open, open', a);
      }
    }
  }

  /** A free that takes no effect. */
  lemma {:induction false} IdleFollows(events: seq<Event>, n: nat, s: Heap)
    requires n < |events| && events[n].Free? && Follows(events, n, s) && Freed(events, n).None?
    ensures Follows(events, n + 1, s)
  {
    var from := Sources(events, n);
    assert Sources(events, n + 1) == from && HeapSize(events, n + 1) == HeapSize(events, n);
    hide Holder, RowOf, LeavesRow, Freed;
    forall k | 0 <= k < |from| ensures RowOf(events, from[k], n + 1) == RowOf(events, from[k], n) {
      RowOfNext(events, from[k], n);
    }
    var m := n + 1;
    forall a: u64 ensures OpenAt(events, m, s.open, a) {
      HolderNext(events, a, n);
      assert OpenAt(events, n, s.open, a);
      OpenStays(events, n, s.open, s.open, a);
    }
  }

  lemma {:induction false} StepFollows(events: seq<Event>, n: nat, s: Heap)
    requires n < |events| && Follows(events, n, s)
    ensures Follows(events, n + 1, Step(s, events[n]))
  {
    hide Follows, OnAlloc, OnFree, Freed, Matches;
    match events[n] {
      case Alloc(ts, addr, size) => AllocFollows(events, n, s);
      case Free(ts, addr) =>
        FreeMatches(events, n, s);
        if Freed(events, n).Some? {
          FreeFollows(events, n, s);
        } else {
          UnmatchedFree(s, ts, addr);
          IdleFollows(events, n, s);
        }
    }
  }

  lemma {:induction false} PrefixFollows(events: seq<Event>, n: nat)
    requires n <= |events|
    ensures Follows(events, n, Run(events[..n]))
  {
    hide Step;
    if n > 0 {
      PrefixFollows(events, n - 1);
      assert events[..n][..n - 1] == events[..n - 1];
      hide Follows;
      StepFollows(events, n - 1, Run(events[..n - 1]));
    }
  }

  /** Main result: the table holds exactly the rows of the events that leave one, in their order. An
      allocation always does, with its time, address and size; a free does if it frees an allocation.
      Every row records the heap size behind its event, and an allocation the free that ended it. */
  lemma {:induction false} RowsAreEvents(events: seq<Event>)
    ensures var rows, from := Run(events).rows, Sources(events, |events|);
            |rows| == |from| && forall k :: 0 <= k < |rows| ==> rows[k] == RowOf(events, from[k], |events|)
    ensures forall k, l :: 0 <= k < l < |Sources(events, |events|)| ==>
              Sources(events, |events|)[k] < Sources(events, |events|)[l]
    ensures forall i :: 0 <= i < |events| && LeavesRow(events, i) ==> i in Sources(events, |events|)
  {
    PrefixFollows(events, |events|);
    assert events[..|events|] == events;
    SourcesAscend(events, |events|);
    forall i | 0 <= i < |events| && LeavesRow(events, i) ensures i in Sources(events, |events|) {
      SourcesComplete(events, |events|, i);
    }
  }

  // ---------------------------------------------------------------------------
  // The pairing is the first allocation since the last free
  // ---------------------------------------------------------------------------

  /** Event k - 1 was the last free of the address to take effect before n, or there was none. */
  ghost predicate LastFree(events: seq<Event>, addr: u64, k: nat, n: nat) {
    && k <= n <= |events| && (k == 0 || (Freed(events, k - 1).Some? && events[k - 1].addr == addr))
    && forall j :: k <= j < n && events[j].addr == addr ==> Freed(events, j).None?
  }

  ghost predicate NoneAllocated(events: seq<Event>, addr: u64, k: nat, n: nat) {
    n <= |events| && forall j :: k <= j < n ==> !(events[j].Alloc? && events[j].addr == addr)
  }

  /** An address is held by the first allocation since its last free that took effect, and by none
      if there is no such allocation. */
  lemma {:induction false} HolderIsFirst(events: seq<Event>, addr: u64, n: nat) returns (k: nat)
    requires n <= |events|
    ensures LastFree(events, addr, k, n)
    ensures match Holder(events, addr, n)
            case Some(i) => k <= i < n && NoneAllocated(events, addr, k, i)
            case None => NoneAllocated(events, addr, k, n)
  {
    k := 0;
    if n > 0 {
      k := HolderIsFirst(events, addr, n - 1);
      HolderNext(events, addr, n - 1);
      hide Freed, Holder;
      if events[n - 1].addr == addr && Freed(events, n - 1).Some? {
        k := n;
      }
    }
  }

  /** No allocation is freed twice. */
  lemma {:induction false} FreedOnce(events: seq<Event>, j: nat, k: nat)
    requires j < k < |events| && Freed(events, j).Some?
    ensures Freed(events, k) != Freed(events, j)
  {
    var i, addr := Freed(events, j).value, events[j].addr;
    if Freed(events, k) == Some(i) {
      NotHeldAgain(events, addr, j, k);
    }
  }

  lemma {:induction false} NotHeldAgain(events: seq<Event>, addr: u64, j: nat, n: nat)
    requires j < n <= |events| && Freed(events, j).Some? && events[j].addr == addr
    ensures Holder(events, addr, n) != Freed(events, j)
  {
    if j + 1 < n {
      NotHeldAgain(events, addr, j, n - 1);
    }
  }
}
