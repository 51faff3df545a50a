/** Pairing of malloc and free rows in the native-hook table
    (trace_streamer/src/filter/native_hook_filter.cpp:186-274; the table operations at
    trace_streamer/src/trace_data/trace_stdtype.cpp:573-619). */
module HeapPairing {
  import opened Words

  datatype Kind = AllocEvent | FreeEvent

  /** endTs 0 marks an allocation that has not ended; allSize is the running heap size. */
  datatype HookRow = HookRow(kind: Kind, ts: u64, endTs: u64, dur: u64, addr: u64, size: int, allSize: int)

  datatype Heap = Heap(rows: seq<HookRow>, open: map<u64, nat>, total: int)

  datatype Event = Alloc(ts: u64, addr: u64, size: u32) | Free(ts: u64, addr: u64)

  const EMPTY := Heap([], map[], 0)

  /** ParseAllocEvent: a second allocation of an open address gets a row, but the address
      stays with the first. */
  function OnAlloc(s: Heap, ts: u64, addr: u64, size: u32): (r: Heap) {
    Heap(s.rows + [HookRow(AllocEvent, ts, 0, 0, addr, size, s.total + size)],
         if addr in s.open then s.open else s.open[addr := |s.rows|],
         s.total + size)
  }

  /** A free matches if its address is open and the allocation is strictly earlier. */
  predicate Matches(s: Heap, ts: u64, addr: u64) {
    addr in s.open && s.open[addr] < |s.rows| && s.rows[s.open[addr]].ts < ts
  }

  /** ParseFreeEvent: an unmatched free leaves no trace. */
  function OnFree(s: Heap, ts: u64, addr: u64): (r: Heap) {
    if !Matches(s, ts, addr) then s else
    var i := s.open[addr];
    var a := s.rows[i];
    Heap(s.rows[i := a.(endTs := ts, dur := ts - a.ts)] +
           [HookRow(FreeEvent, ts, 0, 0, addr, a.size, s.total - a.size)],
         s.open - {addr},
         s.total - a.size)
  }

  function Step(s: Heap, e: Event): (r: Heap) {
    match e
    case Alloc(ts, addr, size) => OnAlloc(s, ts, addr, size)
    case Free(ts, addr) => OnFree(s, ts, addr)
  }

  function Run(events: seq<Event>): (r: Heap) {
    if events == [] then EMPTY else Step(Run(events[..|events| - 1]), events[|events| - 1])
  }

  predicate IsLive(row: HookRow) {
    row.kind == AllocEvent && row.endTs == 0
  }

  /** The summed size of the allocations that have not ended. */
  function LiveSize(rows: seq<HookRow>): (n: int) {
    if rows == [] then 0 else
    var row := rows[|rows| - 1];
    LiveSize(rows[..|rows| - 1]) + if IsLive(row) then row.size else 0
  }

  /** Total size of the AllocEvent rows minus total size of the FreeEvent rows. */
  function Balance(rows: seq<HookRow>): (n: int) {
    if rows == [] then 0 else
    var row := rows[|rows| - 1];
    Balance(rows[..|rows| - 1]) + if row.kind == AllocEvent then row.size else -row.size
  }

  /** Open addresses lead to live allocations of that address. */
  predicate Valid(s: Heap) {
    && (forall addr :: addr in s.open ==>
          s.open[addr] < |s.rows| && IsLive(s.rows[s.open[addr]]) && s.rows[s.open[addr]].addr == addr)
    && (forall i :: 0 <= i < |s.rows| ==> 0 <= s.rows[i].size)
  }

  lemma {:induction false} LiveSizeNonNegative(rows: seq<HookRow>)
    requires forall i :: 0 <= i < |rows| ==> 0 <= rows[i].size
    ensures 0 <= LiveSize(rows)
  {
    if rows != [] {
      LiveSizeNonNegative(rows[..|rows| - 1]);
    }
  }

  /** Ending an allocation takes its size off the live total and leaves the balance alone. */
  lemma {:induction false} EndRow(rows: seq<HookRow>, i: nat, row: HookRow)
    requires i < |rows| && IsLive(rows[i]) && !IsLive(row)
    requires row.kind == rows[i].kind && row.size == rows[i].size
    ensures LiveSize(rows[i := row]) == LiveSize(rows) - row.size
    ensures Balance(rows[i := row]) == Balance(rows)
  {
    var n := |rows| - 1;
    if i < n {
      EndRow(rows[..n], i, row);
      assert rows[i := row][..n] == rows[..n][i := row];
    } else {
      assert rows[i := row][..n] == rows[..n];
    }
  }

  ghost predicate Conserved(s: Heap) {
    Valid(s) && s.total == Balance(s.rows) == LiveSize(s.rows)
  }

  lemma StepConserves(s: Heap, e: Event)
    requires Conserved(s)
    ensures Conserved(Step(s, e))
  {
    match e {
      case Alloc(ts, addr, size) =>
        AllocConserves(s, ts, addr, size);
      case Free(ts, addr) =>
        if Matches(s, ts, addr) {
          FreeConserves(s, ts, addr);
        }
    }
  }

  lemma AllocConserves(s: Heap, ts: u64, addr: u64, size: u32)
    requires Conserved(s)
    ensures Conserved(OnAlloc(s, ts, addr, size))
  {
    var r := OnAlloc(s, ts, addr, size);
    assert r.rows[..|s.rows|] == s.rows;
  }

  lemma FreeConserves(s: Heap, ts: u64, addr: u64)
    requires Conserved(s) && Matches(s, ts, addr)
    ensures Conserved(OnFree(s, ts, addr))
  {
    var r, i := OnFree(s, ts, addr), s.open[addr];
    var row := s.rows[i].(endTs := ts, dur := ts - s.rows[i].ts);
    EndRow(s.rows, i, row);
    var ended := s.rows[i := row];
    assert r.rows[..|s.rows|] == ended && r.rows[|s.rows|] == HookRow(FreeEvent, ts, 0, 0, addr, row.size, s.total - row.size);
    LastRow(ended, r.rows);
    FreeValid(s, ts, addr);
    hide LiveSize, Balance, Valid;
  }

  /** The sums of a table with one more row. */
  lemma {:induction false} LastRow(rows: seq<HookRow>, more: seq<HookRow>)
    requires |more| == |rows| + 1 && more[..|rows|] == rows
    ensures var row := more[|rows|];
            && LiveSize(more) == LiveSize(rows) + (if IsLive(row) then row.size else 0)
            && Balance(more) == Balance(rows) + if row.kind == AllocEvent then row.size else -row.size
  {
  }

  lemma FreeValid(s: Heap, ts: u64, addr: u64)
    requires Valid(s) && Matches(s, ts, addr)
    ensures Valid(OnFree(s, ts, addr))
  {
  }

  /** After every prefix of alloc and free events the balance of the two kinds of rows is the
      size of the live allocations, and it is never negative. */
  lemma {:induction false} HeapConservation(events: seq<Event>)
    ensures Conserved(Run(events))
    ensures Balance(Run(events).rows) >= 0
  {
    if events != [] {
      var n := |events| - 1;
      HeapConservation(events[..n]);
      StepConserves(Run(events[..n]), events[n]);
    }
    LiveSizeNonNegative(Run(events).rows);
  }

  /** The size recorded in every row is the balance up to that row. */
  ghost predicate RunningTotals(rows: seq<HookRow>) {
    forall i :: 0 <= i < |rows| ==> rows[i].allSize == Balance(rows[..i + 1])
  }

  lemma {:induction false} BalanceSame(a: seq<HookRow>, b: seq<HookRow>)
    requires |a| == |b| && forall i :: 0 <= i < |a| ==> a[i].kind == b[i].kind && a[i].size == b[i].size
    ensures Balance(a) == Balance(b)
  {
    if a != [] {
      BalanceSame(a[..|a| - 1], b[..|b| - 1]);
    }
  }

  /** A table that keeps kinds, sizes and totals, and gains a row with the new total. */
  lemma {:induction false} TotalsGrow(rows: seq<HookRow>, more: seq<HookRow>)
    requires RunningTotals(rows) && |more| == |rows| + 1
    requires forall i :: 0 <= i < |rows| ==>
               more[i].kind == rows[i].kind && more[i].size == rows[i].size && more[i].allSize == rows[i].allSize
    requires more[|rows|].allSize == Balance(more)
    ensures RunningTotals(more)
  {
    forall i | 0 <= i < |more| ensures more[i].allSize == Balance(more[..i + 1]) {
      if i < |rows| {
        BalanceSame(rows[..i + 1], more[..i + 1]);
      } else {
        assert more[..i + 1] == more;
      }
    }
  }

  /** After every run each row records the heap size at its time. */
  lemma {:induction false} RowsRecordTotals(events: seq<Event>)
    ensures RunningTotals(Run(events).rows)
  {
    if events != [] {
      var n := |events| - 1;
      RowsRecordTotals(events[..n]);
      HeapConservation(events[..n]);
      hide RunningTotals, Conserved, Step;
      StepTotals(Run(events[..n]), events[n]);
    }
  }

  lemma StepTotals(s: Heap, e: Event)
    requires Conserved(s) && RunningTotals(s.rows)
    ensures RunningTotals(Step(s, e).rows)
  {
    var r := Step(s, e);
    StepConserves(s, e);
    TotalIsBalance(r);
    hide RunningTotals, Conserved, Balance;
    if r.rows != s.rows {
      TotalsGrow(s.rows, r.rows);
    }
  }

  lemma TotalIsBalance(s: Heap)
    requires Conserved(s)
    ensures s.total == Balance(s.rows)
  {
  }

  // ---------------------------------------------------------------------------
  // Each free row closes one allocation
  // ---------------------------------------------------------------------------

  /** Which free row closed which allocation, by row number. */
  ghost function Closers(events: seq<Event>): (m: map<nat, nat>) {
    if events == [] then map[] else
    var n := |events| - 1;
    var s, e := Run(events[..n]), events[n];
    if e.Free? && Matches(s, e.ts, e.addr)
    then Closers(events[..n])[s.open[e.addr] := |s.rows|]
    else Closers(events[..n])
  }

  predicate Closed(rows: seq<HookRow>, a: nat, f: nat) {
    && a < f < |rows|
    && rows[a].kind == AllocEvent && rows[f].kind == FreeEvent
    && rows[a].addr == rows[f].addr && rows[a].size == rows[f].size
    && rows[a].ts < rows[f].ts == rows[a].endTs
    && rows[a].dur == rows[f].ts - rows[a].ts
  }

  /** The closers relate all ended allocations with all free rows, one to one. */
  ghost predicate Paired(rows: seq<HookRow>, m: map<nat, nat>) {
    && (forall a :: a in m ==> Closed(rows, a, m[a]))
    && (forall a, b :: a in m && b in m && m[a] == m[b] ==> a == b)
    && (forall a :: 0 <= a < |rows| && rows[a].kind == AllocEvent && !IsLive(rows[a]) ==> a in m)
    && (forall f :: 0 <= f < |rows| && rows[f].kind == FreeEvent ==> exists a :: a in m && m[a] == f)
  }

  lemma FreePairs(s: Heap, ts: u64, addr: u64, m: map<nat, nat>)
    requires Valid(s) && Matches(s, ts, addr) && Paired(s.rows, m)
    ensures Paired(OnFree(s, ts, addr).rows, m[s.open[addr] := |s.rows|])
  {
    var i, n := s.open[addr], |s.rows|;
    var rows, m' := OnFree(s, ts, addr).rows, m[i := n];
    assert i !in m by {
      assert i in m ==> Closed(s.rows, i, m[i]);
    }
    assert forall k :: 0 <= k < n && k != i ==> rows[k] == s.rows[k];
    assert Closed(rows, i, n);
    hide Valid, OnFree, Matches;
    forall a | a in m' ensures Closed(rows, a, m'[a]) {
      if a != i {
        assert Closed(s.rows, a, m[a]);
      }
    }
    forall f | 0 <= f < |rows| && rows[f].kind == FreeEvent ensures exists a :: a in m' && m'[a] == f {
      if f == n {
        assert i in m' && m'[i] == n;
      } else {
        var a :| a in m && m[a] == f;
        assert a in m' && m'[a] == f;
      }
    }
  }

  /** Duplicate allocations and unmatched frees included. */
  lemma {:induction false} FreesCloseAllocations(events: seq<Event>)
    ensures Paired(Run(events).rows, Closers(events))
  {
    hide Paired, Conserved, Valid, Matches, OnAlloc, OnFree;
    if events == [] {
      NonePaired();
    } else {
      var n := |events| - 1;
      var s, e, m := Run(events[..n]), events[n], Closers(events[..n]);
      FreesCloseAllocations(events[..n]);
      HeapConservation(events[..n]);
      ValidOf(s);
      match e {
        case Alloc(ts, addr, size) =>
          AllocPairs(s, ts, addr, size, m);
        case Free(ts, addr) =>
          if Matches(s, ts, addr) {
            FreePairs(s, ts, addr, m);
          } else {
            UnmatchedFree(s, ts, addr);
          }
      }
    }
  }

  lemma NonePaired()
    ensures Paired([], map[])
  {
  }

  lemma ValidOf(s: Heap)
    requires Conserved(s)
    ensures Valid(s)
  {
  }

  lemma UnmatchedFree(s: Heap, ts: u64, addr: u64)
    requires !Matches(s, ts, addr)
    ensures OnFree(s, ts, addr) == s
  {
  }

  lemma AllocPairs(s: Heap, ts: u64, addr: u64, size: u32, m: map<nat, nat>)
    requires Paired(s.rows, m)
    ensures Paired(OnAlloc(s, ts, addr, size).rows, m)
  {
    var rows := OnAlloc(s, ts, addr, size).rows;
    forall a | a in m ensures Closed(rows, a, m[a]) {
      assert Closed(s.rows, a, m[a]);
    }
    forall f | 0 <= f < |rows| && rows[f].kind == FreeEvent ensures exists a :: a in m && m[a] == f {
      assert s.rows[f].kind == FreeEvent;
    }
  }

  /** The table and the map from open addresses to rows, updated in place. */
  class NativeHookRows {
    var rows: seq<HookRow>
    var addrToAllocEventRow: map<u64, nat>
    var countHeapSizes: int

    ghost function State(): (s: Heap)
      reads this
    {
      Heap(rows, addrToAllocEventRow, countHeapSizes)
    }

    constructor ()
      ensures State() == EMPTY
    {
      rows, addrToAllocEventRow, countHeapSizes := [], map[], 0;
    }

    method AppendRow(kind: Kind, ts: u64, addr: u64, size: int) returns (row: nat)
      modifies this`rows, this`countHeapSizes
      ensures row == |old(rows)|
      ensures countHeapSizes == old(countHeapSizes) + if kind == AllocEvent then size else -size
      ensures rows == old(rows) + [HookRow(kind, ts, 0, 0, addr, size, countHeapSizes)]
    {
      countHeapSizes := if kind == AllocEvent then countHeapSizes + size else countHeapSizes - size;
      rows := rows + [HookRow(kind, ts, 0, 0, addr, size, countHeapSizes)];
      row := |rows| - 1;
    }

    method ParseAllocEvent(ts: u64, addr: u64, size: u32)
      modifies this
      ensures State() == Step(old(State()), Alloc(ts, addr, size))
    {
      var row := AppendRow(AllocEvent, ts, addr, size);
      if addr !in addrToAllocEventRow {
        addrToAllocEventRow := addrToAllocEventRow[addr := row];
      }
    }

    method ParseFreeEvent(ts: u64, addr: u64)
      requires Valid(State())
      modifies this
      ensures State() == Step(old(State()), Free(ts, addr))
      ensures Valid(State())
    {
      if addr !in addrToAllocEventRow || ts <= rows[addrToAllocEventRow[addr]].ts {
        return;
      }
      var i := addrToAllocEventRow[addr];
      addrToAllocEventRow := addrToAllocEventRow - {addr};
      rows := rows[i := rows[i].(endTs := ts, dur := ts - rows[i].ts)];
      var row := AppendRow(FreeEvent, ts, addr, rows[i].size);
    }
  }
}
