/** Per-cpu and per-thread timelines rebuilt from switch and wakeup events
    (trace_streamer/src/filter/cpu_filter.cpp:25-109 and 227-285; the table operations at
    trace_streamer/src/trace_data/trace_stdtype.cpp:102-117 and 147-176). */
module CpuFilter {
  import opened Words

  const TASK_RUNNABLE := 0
  const TASK_RUNNING := 3
  const OPEN: u64 := INVALID_UINT64
  const INVALID_CPU: u32 := INVALID_UINT32

  /** A row of the thread-state table; duration OPEN means that the state lasts. */
  datatype StateRow = StateRow(ts: u64, dur: u64, cpu: u32, itid: u32, state: nat)

  datatype SchedRow = SchedRow(ts: u64, dur: u64, cpu: u32, itid: u32, endState: nat, priority: nat)

  /** The row and the state remembered for a thread. */
  datatype Remembered = Remembered(row: nat, state: nat)

  datatype Tracker = Tracker(sched: seq<SchedRow>, cpuSched: map<u32, nat>,
                             rows: seq<StateRow>, last: map<u32, Remembered>,
                             cpuRow: map<u32, nat>, wake: map<u32, u64>)

  datatype Event =
    | Switch(ts: u64, cpu: u32, prev: u32, prevState: nat, next: u32, nextPriority: nat)
    | Wakeup(ts: u64, itid: u32, isWaking: bool)

  const EMPTY := Tracker([], map[], [], map[], map[], map[])

  predicate Open(row: StateRow) {
    row.dur == OPEN
  }

  function End(row: StateRow): int {
    row.ts + row.dur
  }

  /** UpdateDuration: closes a row that is open and leaves a closed one alone. */
  function Close(rows: seq<StateRow>, i: nat, ts: u64): (r: seq<StateRow>)
    requires i < |rows|
    ensures |r| == |rows|
  {
    if Open(rows[i]) then rows[i := rows[i].(dur := Wrap64(ts - rows[i].ts))] else rows
  }

  /** A state row for thread t from ts on, remembered as its last. */
  function Append(s: Tracker, t: u32, ts: u64, cpu: u32, state: nat): (r: Tracker)
    ensures r.sched == s.sched && r.cpuSched == s.cpuSched
  {
    s.(rows := s.rows + [StateRow(ts, OPEN, cpu, t, state)],
       last := s.last[t := Remembered(|s.rows|, state)])
  }

  /** Every remembered row number is one of the table. */
  predicate Bounded(s: Tracker) {
    && (forall t :: t in s.last ==> s.last[t].row < |s.rows|)
    && (forall c :: c in s.cpuRow ==> s.cpuRow[c] < |s.rows|)
    && (forall c :: c in s.cpuSched ==> s.cpuSched[c] < |s.sched|)
  }

  /** Ends the thread's current state at ts and starts the next one there. */
  function Advance(s: Tracker, t: u32, ts: u64, cpu: u32, state: nat): (r: Tracker)
    requires Bounded(s)
    ensures Bounded(r) && r.sched == s.sched && r.cpuSched == s.cpuSched
  {
    var rows := if t in s.last then Close(s.rows, s.last[t].row, ts) else s.rows;
    Append(s.(rows := rows), t, ts, cpu, state)
  }

  function CheckWakeup(s: Tracker, t: u32): (r: Tracker)
    requires Bounded(s)
    ensures Bounded(r) && r.sched == s.sched && r.cpuSched == s.cpuSched
  {
    if t !in s.wake then s
    else if t in s.last && s.last[t].state == TASK_RUNNING then s.(wake := s.wake - {t})
    else Advance(s, t, s.wake[t], INVALID_CPU, TASK_RUNNABLE).(wake := s.wake - {t})
  }

  function SchedSwitch(s: Tracker, e: Event): (r: Tracker)
    requires Bounded(s) && e.Switch?
    ensures Bounded(r)
  {
    var sched := s.sched + [SchedRow(e.ts, 0, e.cpu, e.next, 0, e.nextPriority)];
    if e.cpu in s.cpuSched then
      var i := s.cpuSched[e.cpu];
      s.(sched := sched[i := sched[i].(dur := Wrap64(e.ts - sched[i].ts), endState := e.prevState)],
         cpuSched := s.cpuSched[e.cpu := |s.sched|])
    else
      s.(sched := sched, cpuSched := s.cpuSched[e.cpu := |s.sched|])
  }

  /** The next thread runs. If the row remembered for the cpu is open and belongs to another
      thread than prev, its thread is forgotten. */
  function SwitchIn(s: Tracker, e: Event): (r: Tracker)
    requires Bounded(s) && e.Switch?
    ensures Bounded(r) && r.sched == s.sched && r.cpuSched == s.cpuSched
  {
    if e.next == 0 then s else
    var w := CheckWakeup(s, e.next);
    var a := Advance(w, e.next, e.ts, e.cpu, TASK_RUNNING);
    var lost := e.cpu in a.cpuRow && var row := a.rows[a.cpuRow[e.cpu]]; row.itid != e.prev && Open(row);
    a.(last := if lost then a.last - {a.rows[a.cpuRow[e.cpu]].itid} else a.last,
       cpuRow := a.cpuRow[e.cpu := |w.rows|])
  }

  /** The previous thread was already switched in on another cpu at the same instant. */
  predicate ChangedCpu(s: Tracker, e: Event)
    requires Bounded(s) && e.Switch?
  {
    e.prev in s.last &&
    var row := s.rows[s.last[e.prev].row];
    e.cpu != row.cpu && row.state == TASK_RUNNING && e.ts == row.ts
  }

  /** The previous thread leaves the cpu. The row that is closed at ts is the one remembered
      before the pending wakeup is looked at. */
  function SwitchOut(s: Tracker, e: Event): (r: Tracker)
    requires Bounded(s) && e.Switch?
    ensures Bounded(r) && r.sched == s.sched && r.cpuSched == s.cpuSched
  {
    if e.prev == 0 || ChangedCpu(s, e) then s
    else if e.prev !in s.last then Append(s, e.prev, e.ts, INVALID_CPU, e.prevState)
    else
      var w := CheckWakeup(s, e.prev);
      Append(w.(rows := Close(w.rows, s.last[e.prev].row, e.ts)), e.prev, e.ts, INVALID_CPU, e.prevState)
  }

  function OnSwitch(s: Tracker, e: Event): (r: Tracker)
    requires Bounded(s) && e.Switch?
    ensures Bounded(r)
  {
    SwitchOut(SwitchIn(SchedSwitch(s, e), e), e)
  }

  /** A wakeup is remembered until the thread next takes part in a switch. */
  function OnWakeup(s: Tracker, e: Event): (r: Tracker)
    requires e.Wakeup?
  {
    if e.isWaking || e.itid in s.wake then s else s.(wake := s.wake[e.itid := e.ts])
  }

  function Step(s: Tracker, e: Event): (r: Tracker)
    requires Bounded(s)
    ensures Bounded(r)
  {
    if e.Switch? then OnSwitch(s, e) else OnWakeup(s, e)
  }

  function Run(events: seq<Event>): (r: Tracker)
    ensures Bounded(r)
  {
    if events == [] then EMPTY else Step(Run(events[..|events| - 1]), events[|events| - 1])
  }

  /** The filter as an object: tables and maps updated in place. */
  class Filter {
    var sched: seq<SchedRow>
    var cpuToRowSched: map<u32, nat>
    var rows: seq<StateRow>
    var internalTidToRowThreadState: map<u32, Remembered>
    var cpuToRowThreadState: map<u32, nat>
    var toRunnableTid: map<u32, u64>

    ghost function State(): (s: Tracker)
      reads this
    {
      Tracker(sched, cpuToRowSched, rows, internalTidToRowThreadState, cpuToRowThreadState, toRunnableTid)
    }

    constructor ()
      ensures State() == EMPTY
    {
      sched, cpuToRowSched, rows := [], map[], [];
      internalTidToRowThreadState, cpuToRowThreadState, toRunnableTid := map[], map[], map[];
    }

    method UpdateDuration(row: nat, ts: u64)
      requires row < |rows|
      modifies this`rows
      ensures rows == Close(old(rows), row, ts)
    {
      if rows[row].dur == OPEN {
        rows := rows[row := rows[row].(dur := Wrap64(ts - rows[row].ts))];
      }
    }

    method AppendThreadState(ts: u64, cpu: u32, itid: u32, state: nat) returns (index: nat)
      modifies this`rows
      ensures index == |old(rows)| && rows == old(rows) + [StateRow(ts, OPEN, cpu, itid, state)]
    {
      index := |rows|;
      rows := rows + [StateRow(ts, OPEN, cpu, itid, state)];
    }

    method CheckWakeupEvent(itid: u32)
      requires Bounded(State())
      modifies this`rows, this`internalTidToRowThreadState, this`toRunnableTid
      ensures State() == CheckWakeup(old(State()), itid)
    {
      if itid !in toRunnableTid {
        return;
      }
      if itid in internalTidToRowThreadState {
        if internalTidToRowThreadState[itid].state == TASK_RUNNING {
          toRunnableTid := toRunnableTid - {itid};
          return;
        }
        UpdateDuration(internalTidToRowThreadState[itid].row, toRunnableTid[itid]);
      }
      var index := AppendThreadState(toRunnableTid[itid], INVALID_CPU, itid, TASK_RUNNABLE);
      internalTidToRowThreadState := internalTidToRowThreadState[itid := Remembered(index, TASK_RUNNABLE)];
      toRunnableTid := toRunnableTid - {itid};
    }

    method InsertWakeupEvent(ts: u64, itid: u32, isWaking: bool)
      modifies this`toRunnableTid
      ensures State() == OnWakeup(old(State()), Wakeup(ts, itid, isWaking))
    {
      if !isWaking && itid !in toRunnableTid {
        toRunnableTid := toRunnableTid[itid := ts];
      }
    }

    method AppendSchedSlice(e: Event)
      requires Bounded(State()) && e.Switch?
      modifies this`sched, this`cpuToRowSched
      ensures State() == SchedSwitch(old(State()), e)
    {
      var index := |sched|;
      sched := sched + [SchedRow(e.ts, 0, e.cpu, e.next, 0, e.nextPriority)];
      if e.cpu in cpuToRowSched {
        var i := cpuToRowSched[e.cpu];
        sched := sched[i := sched[i].(dur := Wrap64(e.ts - sched[i].ts), endState := e.prevState)];
      }
      cpuToRowSched := cpuToRowSched[e.cpu := index];
    }

    method EnterNext(e: Event)
      requires Bounded(State()) && e.Switch? && e.next != 0
      modifies this`rows, this`internalTidToRowThreadState, this`toRunnableTid, this`cpuToRowThreadState
      ensures State() == SwitchIn(old(State()), e)
    {
      CheckWakeupEvent(e.next);
      if e.next in internalTidToRowThreadState {
        UpdateDuration(internalTidToRowThreadState[e.next].row, e.ts);
      }
      var index := AppendThreadState(e.ts, e.cpu, e.next, TASK_RUNNING);
      internalTidToRowThreadState := internalTidToRowThreadState[e.next := Remembered(index, TASK_RUNNING)];
      if e.cpu in cpuToRowThreadState {
        var row := rows[cpuToRowThreadState[e.cpu]];
        if row.itid != e.prev && row.dur == OPEN {
          internalTidToRowThreadState := internalTidToRowThreadState - {row.itid};
        }
      }
      cpuToRowThreadState := cpuToRowThreadState[e.cpu := index];
    }

    method LeavePrev(e: Event)
      requires Bounded(State()) && e.Switch? && e.prev != 0
      modifies this`rows, this`internalTidToRowThreadState, this`toRunnableTid
      ensures State() == SwitchOut(old(State()), e)
    {
      if e.prev in internalTidToRowThreadState {
        var lastRow := internalTidToRowThreadState[e.prev].row;
        var row := rows[lastRow];
        if e.cpu != row.cpu && row.state == TASK_RUNNING && e.ts == row.ts {
          return;
        }
        CheckWakeupEvent(e.prev);
        UpdateDuration(lastRow, e.ts);
      }
      var index := AppendThreadState(e.ts, INVALID_CPU, e.prev, e.prevState);
      internalTidToRowThreadState := internalTidToRowThreadState[e.prev := Remembered(index, e.prevState)];
    }

    method InsertSwitchEvent(e: Event)
      requires Bounded(State()) && e.Switch?
      modifies this
      ensures State() == OnSwitch(old(State()), e) && Bounded(State())
    {
      AppendSchedSlice(e);
      if e.next != 0 {
        EnterNext(e);
      }
      if e.prev != 0 {
        LeavePrev(e);
      }
    }
  }
}
