/** The frame table read off the events: two rows per vsync, and what the event that ends a frame
    writes into them (trace_streamer/src/filter/frame_filter.cpp:27-69 and 152-229). */
module FrameRecords {
  import opened Words
  import opened FrameFilter
  import opened FrameLifeCycle

  /** The vsync events among the first n. */
  function Vsyncs(events: seq<Event>, n: nat): (r: seq<nat>)
    requires n <= |events|
    ensures forall k :: 0 <= k < |r| ==> r[k] < n && events[r[k]].Vsync?
  {
    if n == 0 then []
    else if events[n - 1].Vsync? then Vsyncs(events, n - 1) + [n - 1]
    else Vsyncs(events, n - 1)
  }

  /** The event among the first n that ended a row. */
  function EndAt(events: seq<Event>, row: nat, n: nat): (i: Option<nat>)
    requires n <= |events|
    ensures i.Some? ==> i.value < n && Ended(events, i.value) == Some(row)
  {
    if n == 0 then None
    else if Ended(events, n - 1) == Some(row) then Some(n - 1)
    else EndAt(events, row, n - 1)
  }

  /** The row ended at event i as that of an application's frame without a number. */
  predicate Nameless(events: seq<Event>, row: nat, i: nat)
    requires i <= |events|
  {
    !Composed(events, row, i) && NumberOf(events, row, i) == INVALID_UINT32
  }

  /** The actual slice of the frame that vsync v began. */
  function ActualRow(events: seq<Event>, v: nat, row: nat, n: nat): (r: Row)
    requires v < |events| && events[v].Vsync? && n <= |events|
  {
    match EndAt(events, row, n)
    case None => Row(events[v].ts, INVALID_UINT64, events[v].itid, false, Unset)
    case Some(i) =>
      Row(events[v].ts, Wrap64(events[i].ts - events[v].ts), events[v].itid, false,
          if Nameless(events, row, i) then Erased
          else if events[i].ts <= events[v].expectEnd then OnTime else Late)
  }

  /** Its expected slice, which is erased together with the actual one. */
  function ExpectedRow(events: seq<Event>, v: nat, row: nat, n: nat): (r: Row)
    requires v < |events| && events[v].Vsync? && n <= |events|
  {
    var end := EndAt(events, row, n);
    Row(events[v].expectStart, Wrap64(events[v].expectEnd - events[v].expectStart), events[v].itid, true,
        if end.Some? && Nameless(events, row, end.value) then Erased else Unset)
  }

  ghost predicate PairAt(events: seq<Event>, n: nat, rows: seq<Row>, v: nat, x: nat)
    requires n <= |events| && v < |events| && events[v].Vsync?
  {
    x + 1 < |rows| && rows[x] == ActualRow(events, v, x, n) && rows[x + 1] == ExpectedRow(events, v, x, n)
  }

  ghost predicate Recorded(events: seq<Event>, n: nat, rows: seq<Row>)
    requires n <= |events|
  {
    var from := Vsyncs(events, n);
    |rows| == 2 * |from| && forall k :: 0 <= k < |from| ==> PairAt(events, n, rows, from[k], 2 * k)
  }

  // ---------------------------------------------------------------------------
  // One step
  // ---------------------------------------------------------------------------

  lemma VsyncAppends(s: Frames, e: Event)
    requires Placed(s) && e.Vsync?
    ensures Step(s, e).1.None?
    ensures Step(s, e).0.rows == s.rows + [Row(e.ts, INVALID_UINT64, e.itid, false, Unset),
                                           Row(e.expectStart, Wrap64(e.expectEnd - e.expectStart), e.itid, true, Unset)]
  {
  }

  lemma OthersKeepRows(s: Frames, e: Event)
    requires Placed(s) && !e.Vsync? && Step(s, e).1.None?
    ensures Step(s, e).0.rows == s.rows
  {
  }

  /** The frame that a step ends. */
  function EndingFrame(s: Frames, e: Event): (f: Frame)
    requires Placed(s) && Step(s, e).1.Some?
  {
    var list := Flight(s, e.itid);
    if e.EndVsync? then list[|list| - 1] else list[0]
  }

  lemma EndWrites(s: Frames, e: Event)
    requires Sane(s) && Step(s, e).1.Some?
    ensures var f, r := EndingFrame(s, e), Step(s, e).0;
            && Step(s, e).1 == Some(f.row) && f.row < f.expectedRow < |s.rows| && |r.rows| == |s.rows|
            && var nameless := !f.isRs && f.frameNum == INVALID_UINT32;
               && r.rows[f.row] == s.rows[f.row].(dur := Wrap64(e.ts - s.rows[f.row].ts),
                                                  flag := if nameless then Erased else if e.ts <= f.expectedEnd then OnTime else Late)
               && r.rows[f.expectedRow] == s.rows[f.expectedRow].(flag := if nameless then Erased else s.rows[f.expectedRow].flag)
               && forall x :: 0 <= x < |s.rows| && x != f.row && x != f.expectedRow ==> r.rows[x] == s.rows[x]
  {
    var list := Flight(s, e.itid);
    assert list != [] && (e.EndVsync? || e.EndQueue?);
    assert Waiting(list[0]);
  }

  lemma {:induction false} EndingTracks(events: seq<Event>, n: nat)
    requires n < |events| && Ended(events, n).Some?
    ensures var f := EndingFrame(Run(events, n), events[n]);
            && f.isRs == Composed(events, f.row, n) && f.frameNum == NumberOf(events, f.row, n)
            && RowPair(Run(events, n).rows, f)
  {
    hide Sane, Shaped, Placed, RowPair;
    var s, e := Run(events, n), events[n];
    RunShaped(events, n);
    var list := Flight(s, e.itid);
    assert list != [];
    var k := if e.EndVsync? then |list| - 1 else 0;
    RunTracks(events, n, e.itid, k);
    PairOf(s, e.itid, k);
  }

  /** A pair that does not end keeps its rows. */
  lemma {:induction false} PairStays(events: seq<Event>, n: nat, rows: seq<Row>, rows': seq<Row>, v: nat, x: nat)
    requires n < |events| && v < |events| && events[v].Vsync? && PairAt(events, n, rows, v, x)
    requires Ended(events, n) != Some(x) && |rows| <= |rows'| && rows'[x] == rows[x] && rows'[x + 1] == rows[x + 1]
    ensures PairAt(events, n + 1, rows', v, x)
  {
    hide Ended, Nameless;
  }

  /** The pair of the frame that ends. */
  lemma {:induction false} PairEnds(events: seq<Event>, n: nat, v: nat)
    requires n < |events| && v < |events| && events[v].Vsync? && Ended(events, n).Some?
    requires PairAt(events, n, Run(events, n).rows, v, Ended(events, n).value)
    ensures PairAt(events, n + 1, Run(events, n + 1).rows, v, Ended(events, n).value)
  {
    hide *;
    RunSane(events, n);
    RunNext(events, n);
    var s, e := Run(events, n), events[n];
    EndWrites(s, e);
    EndingTracks(events, n);
    PairWritten(events, n, s.rows, Run(events, n + 1).rows, EndingFrame(s, e), v);
  }

  lemma {:induction false} RunNext(events: seq<Event>, n: nat)
    requires n < |events|
    ensures Run(events, n + 1) == Step(Run(events, n), events[n]).0 && Ended(events, n) == Step(Run(events, n), events[n]).1
  {
  }

  lemma {:induction false} PairWritten(events: seq<Event>, n: nat, rows: seq<Row>, rows': seq<Row>, f: Frame, v: nat)
    requires n < |events| && v < |events| && events[v].Vsync? && Ended(events, n) == Some(f.row)
    requires RowPair(rows, f) && PairAt(events, n, rows, v, f.row) && |rows'| == |rows|
    requires f.isRs == Composed(events, f.row, n) && f.frameNum == NumberOf(events, f.row, n)
    requires var nameless := !f.isRs && f.frameNum == INVALID_UINT32;
             && rows'[f.row] == rows[f.row].(dur := Wrap64(events[n].ts - rows[f.row].ts),
                                             flag := if nameless then Erased else if events[n].ts <= f.expectedEnd then OnTime else Late)
             && rows'[f.expectedRow] == rows[f.expectedRow].(flag := if nameless then Erased else rows[f.expectedRow].flag)
    ensures PairAt(events, n + 1, rows', v, f.row)
  {
    hide Ended, Composed, NumberOf;
    NotErased(events, n, v, f.row);
    assert EndAt(events, f.row, n + 1) == Some(n);
    ExpectedEndIs(events[v].expectStart, events[v].expectEnd);
    hide Wrap64, EndAt;
  }

  /** A frame in flight has not been erased. */
  lemma {:induction false} NotErased(events: seq<Event>, n: nat, v: nat, x: nat)
    requires n < |events| && v < |events| && events[v].Vsync? && Ended(events, n) == Some(x)
    ensures EndAt(events, x, n).None?
  {
    hide Ended;
    if EndAt(events, x, n).Some? {
      EndedOnce(events, EndAt(events, x, n).value, n);
    }
  }

  lemma ExpectedEndIs(start: u64, end: u64)
    ensures Wrap64(start + Wrap64(end - start)) == end
  {
    var q := (end - start) / TWO64;
    assert start + Wrap64(end - start) == end - TWO64 * q;
  }

  lemma {:induction false} EndRecorded(events: seq<Event>, n: nat)
    requires n < |events| && Ended(events, n).Some? && Recorded(events, n, Run(events, n).rows)
    ensures Recorded(events, n + 1, Run(events, n + 1).rows)
  {
    RunSane(events, n);
    RunNext(events, n);
    var s, e := Run(events, n), events[n];
    EndWrites(s, e);
    EndingTracks(events, n);
    assert !e.Vsync?;
    var f, rows, rows', from := EndingFrame(s, e), s.rows, Run(events, n + 1).rows, Vsyncs(events, n);
    assert Vsyncs(events, n + 1) == from;
    hide Run, Step, Sane, EndingFrame, Composed, NumberOf;
    forall k | 0 <= k < |from| ensures PairAt(events, n + 1, rows', from[k], 2 * k) {
      assert PairAt(events, n, rows, from[k], 2 * k);
      hide PairAt;
      if f.row == 2 * k {
        PairEnds(events, n, from[k]);
      } else {
        Apart(events, n, rows, f, from[k], 2 * k);
        PairStays(events, n, rows, rows', from[k], 2 * k);
      }
    }
  }

  /** The rows of two frames do not overlap. */
  lemma {:induction false} Apart(events: seq<Event>, n: nat, rows: seq<Row>, f: Frame, v: nat, x: nat)
    requires n <= |events| && v < |events| && events[v].Vsync? && PairAt(events, n, rows, v, x)
    requires RowPair(rows, f) && f.row != x
    ensures x + 1 < |rows| && f.row != x + 1 && f.expectedRow != x && f.expectedRow != x + 1
  {
    assert rows[x + 1].expected && !rows[x].expected;
  }

  lemma {:induction false} VsyncRecorded(events: seq<Event>, n: nat)
    requires n < |events| && events[n].Vsync? && Recorded(events, n, Run(events, n).rows)
    ensures Recorded(events, n + 1, Run(events, n + 1).rows)
  {
    RunNext(events, n);
    var s, e := Run(events, n), events[n];
    VsyncAppends(s, e);
    var rows, rows', from := s.rows, Run(events, n + 1).rows, Vsyncs(events, n);
    assert Vsyncs(events, n + 1) == from + [n];
    NewPair(events, n);
    hide Run, Step, Ended, ActualRow, ExpectedRow;
    forall k | 0 <= k < |from| ensures PairAt(events, n + 1, rows', from[k], 2 * k) {
      assert PairAt(events, n, rows, from[k], 2 * k);
      PairStays(events, n, rows, rows', from[k], 2 * k);
    }
  }

  /** The two rows a vsync adds. */
  lemma {:induction false} NewPair(events: seq<Event>, n: nat)
    requires n < |events| && events[n].Vsync?
    ensures PairAt(events, n + 1, Run(events, n + 1).rows, n, |Run(events, n).rows|)
  {
    hide Run, Step, Ended;
    RunNext(events, n);
    var s, e := Run(events, n), events[n];
    VsyncAppends(s, e);
    NeverEnded(events, |s.rows|, n);
    assert EndAt(events, |s.rows|, n + 1).None?;
  }

  /** A row that does not exist yet has not been ended. */
  lemma {:induction false} NeverEnded(events: seq<Event>, row: nat, n: nat)
    requires n <= |events| && row >= |Run(events, n).rows|
    ensures EndAt(events, row, n).None?
  {
    hide Ended, Run;
    if EndAt(events, row, n).Some? {
      var i := EndAt(events, row, n).value;
      EndedWasInFlight(events, i);
      OwnersStay(events, i, n);
    }
  }

  lemma {:induction false} IdleRecorded(events: seq<Event>, n: nat)
    requires n < |events| && !events[n].Vsync? && Ended(events, n).None? && Recorded(events, n, Run(events, n).rows)
    ensures Recorded(events, n + 1, Run(events, n + 1).rows)
  {
    RunNext(events, n);
    var s, e := Run(events, n), events[n];
    OthersKeepRows(s, e);
    var rows, from := s.rows, Vsyncs(events, n);
    assert Vsyncs(events, n + 1) == from;
    hide Run, Step, Ended;
    forall k | 0 <= k < |from| ensures PairAt(events, n + 1, rows, from[k], 2 * k) {
      assert PairAt(events, n, rows, from[k], 2 * k);
      PairStays(events, n, rows, rows, from[k], 2 * k);
    }
  }

  /** Main result, over every run: the k-th vsync has rows 2k and 2k + 1. The actual slice starts with
      the vsync and lasts to the event that ends the frame, on time or late against the expected end;
      both are erased for an application's frame that never got a number. */
  lemma {:induction false} RowsAreVsyncs(events: seq<Event>, n: nat)
    requires n <= |events|
    ensures Recorded(events, n, Run(events, n).rows)
  {
    hide Step, Recorded;
    if n == 0 {
      NoneRecorded(events);
    } else {
      RowsAreVsyncs(events, n - 1);
      if events[n - 1].Vsync? {
        VsyncRecorded(events, n - 1);
      } else if Ended(events, n - 1).Some? {
        EndRecorded(events, n - 1);
      } else {
        IdleRecorded(events, n - 1);
      }
    }
  }

  lemma {:induction false} NoneRecorded(events: seq<Event>)
    ensures Recorded(events, 0, Run(events, 0).rows)
  {
  }

  // ---------------------------------------------------------------------------
  // GPU slices
  // ---------------------------------------------------------------------------

  /** The ends of GPU work among the first n events that found a frame of their thread in flight. */
  function GpuEnds(events: seq<Event>, n: nat): (r: seq<nat>)
    requires n <= |events|
    ensures forall k :: 0 <= k < |r| ==> r[k] < n && Oldest(Run(events, r[k]), events[r[k]].itid).Some?
  {
    if n == 0 then []
    else if events[n - 1].EndQueue? && Oldest(Run(events, n - 1), events[n - 1].itid).Some? then GpuEnds(events, n - 1) + [n - 1]
    else GpuEnds(events, n - 1)
  }

  /** The slice an end of GPU work leaves: of the oldest frame, back to the last start of its work. */
  function GpuSliceOf(events: seq<Event>, i: nat): (r: GpuSlice)
    requires i < |events| && Oldest(Run(events, i), events[i].itid).Some?
  {
    var row := Oldest(Run(events, i), events[i].itid).value;
    GpuSlice(row, Wrap64(events[i].ts - StartedAt(events, QueueStartAt(events, row, i))))
  }

  lemma OthersKeepGpu(s: Frames, e: Event)
    requires Placed(s) && !e.EndQueue?
    ensures Step(s, e).0.gpu == s.gpu
  {
  }

  /** Over every run: one GPU slice per end of GPU work, in order. */
  lemma {:induction false} GpuSlicesAreEnds(events: seq<Event>, n: nat)
    requires n <= |events|
    ensures var gpu, from := Run(events, n).gpu, GpuEnds(events, n);
            |gpu| == |from| && forall k :: 0 <= k < |gpu| ==> gpu[k] == GpuSliceOf(events, from[k])
  {
    hide Step, QueueStartAt, Oldest;
    if n > 0 {
      GpuSlicesAreEnds(events, n - 1);
      if events[n - 1].EndQueue? {
        GpuSliceSpans(events, n - 1);
        HitIsOldest(Run(events, n - 1), events[n - 1]);
      } else {
        OthersKeepGpu(Run(events, n - 1), events[n - 1]);
      }
    }
  }

  lemma HitIsOldest(s: Frames, e: Event)
    requires e.EndQueue?
    ensures Hit(s, e) == Oldest(s, e.itid)
  {
  }
}
