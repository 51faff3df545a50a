/** Frames in flight per thread, from vsync to the end of vsync and GPU work
    (trace_streamer/src/filter/frame_filter.cpp:27-69 and 152-229; table operations at
    trace_streamer/src/trace_data/trace_stdtype.cpp:2256-2293 and 2366-2377). */
module FrameFilter {
  import opened Words

  /** Whether a frame kept its deadline; Erased hides the row of a frame without a number. */
  datatype Flag = Unset | OnTime | Late | Erased

  datatype Row = Row(ts: u64, dur: u64, itid: u32, expected: bool, flag: Flag)

  datatype Frame = Frame(row: nat, expectedRow: nat, expectedEnd: u64,
                         vsyncEnd: bool, gpuEnd: bool, isRs: bool, frameNum: u32, queueStart: u64)

  datatype GpuSlice = GpuSlice(row: nat, dur: u64)

  datatype Frames = Frames(flights: map<u32, seq<Frame>>, rows: seq<Row>, gpu: seq<GpuSlice>)

  /** BeginVsyncEvent, MarkRSOnDoCompositionEvent, BeginRSTransactionData, EndVsyncEvent,
      StartFrameQueue and EndFrameQueue. */
  datatype Event =
    | Vsync(itid: u32, ts: u64, expectStart: u64, expectEnd: u64)
    | MarkRs(itid: u32, ts: u64)
    | SetNumber(itid: u32, ts: u64, number: u32)
    | EndVsync(itid: u32, ts: u64)
    | StartQueue(itid: u32, ts: u64)
    | EndQueue(itid: u32, ts: u64)

  const EMPTY := Frames(map[], [], [])

  function Flight(s: Frames, t: u32): (list: seq<Frame>) {
    if t in s.flights then s.flights[t] else []
  }

  /** Every frame in flight has its two rows. */
  predicate Placed(s: Frames) {
    forall t, k :: t in s.flights && 0 <= k < |s.flights[t]| ==>
      s.flights[t][k].row < s.flights[t][k].expectedRow < |s.rows|
  }

  function SetFlight(s: Frames, t: u32, list: seq<Frame>): (r: Frames) {
    s.(flights := s.flights[t := list])
  }

  /** SetEndTimeAndFlag, and Erase of both rows when the frame is dropped. */
  function Close(rows: seq<Row>, f: Frame, ts: u64, dropped: bool): (r: seq<Row>)
    requires f.row < f.expectedRow < |rows|
    ensures |r| == |rows|
  {
    var row := rows[f.row];
    var flag := if dropped then Erased else if f.expectedEnd >= ts then OnTime else Late;
    var closed := rows[f.row := row.(dur := Wrap64(ts - row.ts), flag := flag)];
    if dropped then closed[f.expectedRow := closed[f.expectedRow].(flag := Erased)] else closed
  }

  function OnVsync(s: Frames, t: u32, ts: u64, expectStart: u64, expectEnd: u64): (r: Frames) {
    var n := |s.rows|;
    var frame := Frame(n, n + 1, expectEnd, false, true, false, INVALID_UINT32, INVALID_UINT64);
    Frames(s.flights[t := Flight(s, t) + [frame]],
           s.rows + [Row(ts, INVALID_UINT64, t, false, Unset), Row(expectStart, Wrap64(expectEnd - expectStart), t, true, Unset)],
           s.gpu)
  }

  /** The new state, and the row that ends. A render-service frame waits for the GPU; an
      application's frame without a number is dropped. */
  function OnEndVsync(s: Frames, t: u32, ts: u64): (r: (Frames, Option<nat>))
    requires Placed(s)
  {
    var list := Flight(s, t);
    if list == [] then (s, None) else
    var below, frame := list[..|list| - 1], list[|list| - 1].(vsyncEnd := true);
    if frame.isRs && !frame.gpuEnd then (SetFlight(s, t, below + [frame]), None)
    else
      var dropped := !frame.isRs && frame.frameNum == INVALID_UINT32;
      (SetFlight(s, t, below).(rows := Close(s.rows, frame, ts, dropped)), Some(frame.row))
  }

  function OnEndQueue(s: Frames, t: u32, ts: u64): (r: (Frames, Option<nat>))
    requires Placed(s)
  {
    var list := Flight(s, t);
    if list == [] then (s, None) else
    var frame := list[0].(gpuEnd := true);
    var gpu := s.gpu + [GpuSlice(frame.row, Wrap64(ts - frame.queueStart))];
    if frame.vsyncEnd then
      (SetFlight(s, t, list[1..]).(rows := Close(s.rows, frame, ts, false), gpu := gpu), Some(frame.row))
    else (SetFlight(s, t, list[0 := frame]).(gpu := gpu), None)
  }

  function Step(s: Frames, e: Event): (r: (Frames, Option<nat>))
    requires Placed(s)
    ensures Placed(r.0)
  {
    var list := Flight(s, e.itid);
    match e
    case Vsync(t, ts, start, end) => (OnVsync(s, t, ts, start, end), None)
    case MarkRs(t, _) =>
      (if list == [] then s else SetFlight(s, t, list[|list| - 1 := list[|list| - 1].(isRs := true)]), None)
    case SetNumber(t, _, number) =>
      (if list == [] then s else SetFlight(s, t, list[0 := list[0].(frameNum := number)]), None)
    case EndVsync(t, ts) => OnEndVsync(s, t, ts)
    case StartQueue(t, ts) =>
      (if list == [] then s else SetFlight(s, t, list[0 := list[0].(gpuEnd := false, queueStart := ts)]), None)
    case EndQueue(t, ts) => OnEndQueue(s, t, ts)
  }

  function Run(events: seq<Event>, n: nat): (s: Frames)
    requires n <= |events|
    ensures Placed(s)
  {
    if n == 0 then EMPTY else Step(Run(events, n - 1), events[n - 1]).0
  }

  /** The filter as an object. */
  class Filter {
    var vsyncRenderSlice: map<u32, seq<Frame>>
    var rows: seq<Row>
    var gpu: seq<GpuSlice>

    ghost function State(): (s: Frames)
      reads this
    {
      Frames(vsyncRenderSlice, rows, gpu)
    }

    constructor ()
      ensures State() == EMPTY
    {
      vsyncRenderSlice, rows, gpu := map[], [], [];
    }

    method BeginVsyncEvent(itid: u32, ts: u64, expectStart: u64, expectEnd: u64)
      requires Placed(State())
      modifies this
      ensures State() == Step(old(State()), Vsync(itid, ts, expectStart, expectEnd)).0
    {
      var row, expectedRow := |rows|, |rows| + 1;
      rows := rows + [Row(ts, INVALID_UINT64, itid, false, Unset)];
      rows := rows + [Row(expectStart, Wrap64(expectEnd - expectStart), itid, true, Unset)];
      assert rows == old(rows) + [rows[row], rows[expectedRow]];
      var frame := Frame(row, expectedRow, expectEnd, false, true, false, INVALID_UINT32, INVALID_UINT64);
      if itid in vsyncRenderSlice {
        vsyncRenderSlice := vsyncRenderSlice[itid := vsyncRenderSlice[itid] + [frame]];
      } else {
        vsyncRenderSlice := vsyncRenderSlice[itid := [frame]];
        assert [frame] == [] + [frame];
      }
    }

    method EndVsyncEvent(itid: u32, ts: u64) returns (ended: Option<nat>)
      requires Placed(State())
      modifies this
      ensures (State(), ended) == Step(old(State()), EndVsync(itid, ts))
    {
      if itid !in vsyncRenderSlice || vsyncRenderSlice[itid] == [] {
        return None;
      }
      var list := vsyncRenderSlice[itid];
      var below, frame := list[..|list| - 1], list[|list| - 1].(vsyncEnd := true);
      ended := Some(frame.row);
      if frame.isRs {
        if frame.gpuEnd {
          SetEndTimeAndFlag(frame, ts);
          vsyncRenderSlice := vsyncRenderSlice[itid := below];
        } else {
          vsyncRenderSlice := vsyncRenderSlice[itid := below + [frame]];
          ended := None;
        }
      } else {
        SetEndTimeAndFlag(frame, ts);
        if frame.frameNum == INVALID_UINT32 {
          rows := rows[frame.row := rows[frame.row].(flag := Erased)];
          rows := rows[frame.expectedRow := rows[frame.expectedRow].(flag := Erased)];
          assert rows == Close(old(rows), frame, ts, true);
        }
        vsyncRenderSlice := vsyncRenderSlice[itid := below];
      }
    }

    method SetEndTimeAndFlag(frame: Frame, ts: u64)
      requires frame.row < frame.expectedRow < |rows|
      modifies this`rows
      ensures rows == Close(old(rows), frame, ts, false)
    {
      var row := rows[frame.row];
      rows := rows[frame.row := row.(dur := Wrap64(ts - row.ts), flag := if frame.expectedEnd >= ts then OnTime else Late)];
    }

    method MarkRSOnDoCompositionEvent(itid: u32, ts: u64) returns (ok: bool)
      requires Placed(State())
      modifies this
      ensures State() == Step(old(State()), MarkRs(itid, ts)).0 && ok == (Flight(old(State()), itid) != [])
    {
      if itid !in vsyncRenderSlice || vsyncRenderSlice[itid] == [] {
        return false;
      }
      var list := vsyncRenderSlice[itid];
      var last := |list| - 1;
      vsyncRenderSlice := vsyncRenderSlice[itid := list[last := list[last].(isRs := true)]];
      ok := true;
    }

    /** The number goes to the oldest frame; passing it on to the render service is not modelled. */
    method BeginRSTransactionData(itid: u32, ts: u64, frameNum: u32) returns (ok: bool)
      requires Placed(State())
      modifies this
      ensures State() == Step(old(State()), SetNumber(itid, ts, frameNum)).0 && ok == (Flight(old(State()), itid) != [])
    {
      if itid !in vsyncRenderSlice || vsyncRenderSlice[itid] == [] {
        return false;
      }
      var list := vsyncRenderSlice[itid];
      vsyncRenderSlice := vsyncRenderSlice[itid := list[0 := list[0].(frameNum := frameNum)]];
      ok := true;
    }

    method StartFrameQueue(itid: u32, ts: u64) returns (ok: bool)
      requires Placed(State())
      modifies this
      ensures State() == Step(old(State()), StartQueue(itid, ts)).0 && ok == (Flight(old(State()), itid) != [])
    {
      if itid !in vsyncRenderSlice || vsyncRenderSlice[itid] == [] {
        return false;
      }
      var list := vsyncRenderSlice[itid];
      vsyncRenderSlice := vsyncRenderSlice[itid := list[0 := list[0].(gpuEnd := false, queueStart := ts)]];
      ok := true;
    }

    method EndFrameQueue(itid: u32, ts: u64) returns (ended: Option<nat>)
      requires Placed(State())
      modifies this
      ensures (State(), ended) == Step(old(State()), EndQueue(itid, ts))
    {
      if itid !in vsyncRenderSlice || vsyncRenderSlice[itid] == [] {
        return None;
      }
      var list := vsyncRenderSlice[itid];
      var frame := list[0].(gpuEnd := true);
      gpu := gpu + [GpuSlice(frame.row, Wrap64(ts - frame.queueStart))];
      if frame.vsyncEnd {
        SetEndTimeAndFlag(frame, ts);
        vsyncRenderSlice := vsyncRenderSlice[itid := list[1..]];
        ended := Some(frame.row);
      } else {
        vsyncRenderSlice := vsyncRenderSlice[itid := list[0 := frame]];
        ended := None;
      }
    }
  }
}
