/** What a switch does to the remembered threads of any trace, lost and duplicated events included
    (trace_streamer/src/filter/cpu_filter.cpp:25-109). */
module CpuSwitches {
  import opened Words
  import opened CpuFilter

  /** What is remembered of a thread is one of its own rows, and of a cpu a row of a thread that
      runs there. */
  ghost predicate Owned(s: Tracker) {
    && Bounded(s)
    && (forall t :: t in s.last ==> s.rows[s.last[t].row].itid == t && s.rows[s.last[t].row].state == s.last[t].state)
    && (forall c :: c in s.cpuRow ==> s.rows[s.cpuRow[c]].cpu == c && s.rows[s.cpuRow[c]].state == TASK_RUNNING)
  }

  /** Rows keep everything but their duration. */
  ghost predicate SameRow(a: StateRow, b: StateRow) {
    b == a.(dur := b.dur)
  }

  /** Rows are only added, rows of other threads than t do not change, and nobody but t is
      remembered differently. */
  ghost predicate Only(s: Tracker, r: Tracker, t: u32) {
    && |s.rows| <= |r.rows|
    && (forall i :: 0 <= i < |s.rows| ==> SameRow(s.rows[i], r.rows[i]) && (s.rows[i].itid != t ==> r.rows[i] == s.rows[i]))
    && (forall u :: u != t ==> (u in r.last <==> u in s.last) && (u in s.last ==> r.last[u] == s.last[u]))
    && r.cpuRow == s.cpuRow
  }

  lemma OnlyTransitive(a: Tracker, b: Tracker, c: Tracker, t: u32)
    requires Only(a, b, t) && Only(b, c, t)
    ensures Only(a, c, t)
  {
  }

  lemma AdvanceOnly(s: Tracker, t: u32, ts: u64, cpu: u32, state: nat)
    requires Owned(s)
    ensures var r := Advance(s, t, ts, cpu, state);
            && Only(s, r, t) && Owned(r) && t in r.last && r.last[t] == Remembered(|r.rows| - 1, state)
            && |r.rows| == |s.rows| + 1 && r.rows[|s.rows|] == StateRow(ts, OPEN, cpu, t, state)
            && forall i :: 0 <= i < |s.rows| && s.rows[i].itid != t ==> r.rows[i] == s.rows[i]
  {
  }

  lemma CheckWakeupOnly(s: Tracker, t: u32)
    requires Owned(s)
    ensures Only(s, CheckWakeup(s, t), t) && Owned(CheckWakeup(s, t))
    ensures t in s.last ==> t in CheckWakeup(s, t).last
  {
    hide Advance, Owned;
    var w := s.(wake := s.wake - {t});
    assert Only(s, s, t);
    if t in s.wake {
      assert Bounded(s) by {
        BoundedOf(s);
      }
      AdvanceOnly(s, t, s.wake[t], INVALID_CPU, TASK_RUNNABLE);
      WakeApart(s, s.wake - {t});
      WakeApart(Advance(s, t, s.wake[t], INVALID_CPU, TASK_RUNNABLE), s.wake - {t});
    }
  }

  lemma BoundedOf(s: Tracker)
    requires Owned(s)
    ensures Bounded(s)
  {
  }

  lemma WakeApart(s: Tracker, wake: map<u32, u64>)
    requires Owned(s)
    ensures Owned(s.(wake := wake))
  {
  }

  // ---------------------------------------------------------------------------
  // The next thread
  // ---------------------------------------------------------------------------

  /** The row that the cpu remembered belongs to x, who is not the thread that leaves, and stays open. */
  ghost predicate Displaced(s: Tracker, r: Tracker, e: Event, x: u32)
    requires Bounded(s) && e.Switch? && |s.rows| <= |r.rows|
  {
    && e.next != 0 && x != e.prev && e.cpu in s.cpuRow
    && r.rows[s.cpuRow[e.cpu]].itid == x && r.rows[s.cpuRow[e.cpu]].dur == 0xffff_ffff_ffff_ffff
  }

  /** The state when the next thread has moved on. */
  function Entered(s: Tracker, e: Event): (a: Tracker)
    requires Bounded(s) && e.Switch?
    ensures Bounded(a)
  {
    Advance(CheckWakeup(s, e.next), e.next, e.ts, e.cpu, TASK_RUNNING)
  }

  lemma EnteredOnly(s: Tracker, e: Event)
    requires Owned(s) && e.Switch?
    ensures var a := Entered(s, e);
            && Only(s, a, e.next) && Owned(a) && a.rows != []
            && a.rows[|a.rows| - 1] == StateRow(e.ts, OPEN, e.cpu, e.next, TASK_RUNNING)
            && e.next in a.last && a.last[e.next] == Remembered(|a.rows| - 1, TASK_RUNNING)
  {
    BoundedOf(s);
    hide Owned, Only, CheckWakeup, Advance;
    CheckWakeupOnly(s, e.next);
    var w := CheckWakeup(s, e.next);
    AdvanceOnly(w, e.next, e.ts, e.cpu, TASK_RUNNING);
    OnlyTransitive(s, w, Entered(s, e), e.next);
  }

  lemma SwitchInIs(s: Tracker, e: Event)
    requires Bounded(s) && e.Switch? && e.next != 0
    ensures var a, r := Entered(s, e), SwitchIn(s, e);
            && r.rows == a.rows && a.rows != [] && r.cpuRow == a.cpuRow[e.cpu := |a.rows| - 1]
            && (forall x :: x in r.last <==>
                  x in a.last && !(e.cpu in a.cpuRow && a.rows[a.cpuRow[e.cpu]].itid == x && x != e.prev && Open(a.rows[a.cpuRow[e.cpu]])))
            && (forall x :: x in r.last ==> r.last[x] == a.last[x])
  {
    hide CheckWakeup;
  }

  lemma EnteredOwned(a: Tracker, r: Tracker, e: Event)
    requires Owned(a) && e.Switch? && a.rows != [] && a.rows[|a.rows| - 1].cpu == e.cpu && a.rows[|a.rows| - 1].state == TASK_RUNNING
    requires r.rows == a.rows && r.sched == a.sched && r.cpuSched == a.cpuSched && r.cpuRow == a.cpuRow[e.cpu := |a.rows| - 1]
    requires forall t :: t in r.last ==> t in a.last && r.last[t] == a.last[t]
    ensures Owned(r)
  {
  }

  /** A thread enters: it gets a new row and is remembered by it and by the cpu. Whoever is displaced is
      forgotten, and nobody else; what is remembered of the others stays. */
  lemma SwitchInCases(s: Tracker, e: Event, x: u32)
    requires Owned(s) && e.Switch? && e.next != 0
    ensures var r := SwitchIn(s, e);
            && Owned(r) && |s.rows| < |r.rows|
            && (forall i :: 0 <= i < |s.rows| ==> SameRow(s.rows[i], r.rows[i]) && (s.rows[i].itid != e.next ==> r.rows[i] == s.rows[i]))
            && r.rows[|r.rows| - 1] == StateRow(e.ts, OPEN, e.cpu, e.next, TASK_RUNNING)
            && r.cpuRow == s.cpuRow[e.cpu := |r.rows| - 1]
            && (x in r.last <==> (x in s.last || x == e.next) && !Displaced(s, r, e, x))
            && (x in r.last ==> r.last[x] == if x == e.next then Remembered(|r.rows| - 1, TASK_RUNNING) else s.last[x])
  {
    BoundedOf(s);
    EnteredOnly(s, e);
    SwitchInIs(s, e);
    var a, r := Entered(s, e), SwitchIn(s, e);
    hide Entered, SwitchIn;
    EnteredOwned(a, r, e);
    hide Owned;
    assert Only(s, a, e.next);
  }

  // ---------------------------------------------------------------------------
  // The previous thread
  // ---------------------------------------------------------------------------

  /** The thread was switched in on another cpu at this very time. */
  ghost predicate Elsewhere(s: Tracker, e: Event)
    requires Bounded(s) && e.Switch?
  {
    e.prev in s.last &&
    var row := s.rows[s.last[e.prev].row];
    row.ts == e.ts && row.cpu != e.cpu && row.state == 3
  }

  /** The thread that leaves gets a row with the given state, unless it has just entered elsewhere; then
      nothing changes. */
  lemma SwitchOutCases(s: Tracker, e: Event)
    requires Owned(s) && e.Switch? && e.prev != 0
    ensures var r := SwitchOut(s, e);
            if Elsewhere(s, e) then r == s
            else && Only(s, r, e.prev) && Owned(r) && |s.rows| < |r.rows|
                 && r.rows[|r.rows| - 1] == StateRow(e.ts, OPEN, INVALID_CPU, e.prev, e.prevState)
                 && e.prev in r.last && r.last[e.prev] == Remembered(|r.rows| - 1, e.prevState)
  {
    BoundedOf(s);
    if !Elsewhere(s, e) && e.prev in s.last {
      CheckWakeupOnly(s, e.prev);
      var w, i := CheckWakeup(s, e.prev), s.last[e.prev].row;
      assert SwitchOut(s, e) == Append(w.(rows := Close(w.rows, i, e.ts)), e.prev, e.ts, INVALID_CPU, e.prevState);
      hide CheckWakeup;
      ClosedOnly(s, w, e.prev, i, e.ts);
      AppendOnly(s, w.(rows := Close(w.rows, i, e.ts)), e.prev, e.ts, e.prevState);
    } else if !Elsewhere(s, e) {
      assert Only(s, s, e.prev);
      AppendOnly(s, s, e.prev, e.ts, e.prevState);
    }
  }

  lemma ClosedOnly(s: Tracker, w: Tracker, t: u32, i: nat, ts: u64)
    requires Owned(s) && Only(s, w, t) && Owned(w) && i < |s.rows| && s.rows[i].itid == t
    ensures var c := w.(rows := Close(w.rows, i, ts));
            Only(s, c, t) && Owned(c)
  {
    CloseRows(w.rows, i, ts);
    CloseOwned(w, i, ts);
    hide Close, Owned;
  }

  lemma CloseRows(rows: seq<StateRow>, i: nat, ts: u64)
    requires i < |rows|
    ensures forall k :: 0 <= k < |rows| ==> SameRow(rows[k], Close(rows, i, ts)[k]) && (k != i ==> Close(rows, i, ts)[k] == rows[k])
  {
  }

  lemma CloseOwned(w: Tracker, i: nat, ts: u64)
    requires Owned(w) && i < |w.rows|
    ensures Owned(w.(rows := Close(w.rows, i, ts)))
  {
    CloseRows(w.rows, i, ts);
    hide Close;
  }

  lemma AppendOnly(s: Tracker, w: Tracker, t: u32, ts: u64, state: nat)
    requires Owned(w) && Only(s, w, t)
    ensures var r := Append(w, t, ts, INVALID_CPU, state);
            Only(s, r, t) && Owned(r)
  {
  }

  // ---------------------------------------------------------------------------
  // Every trace
  // ---------------------------------------------------------------------------

  lemma StepOwned(s: Tracker, e: Event)
    requires Owned(s)
    ensures Owned(Step(s, e))
  {
    BoundedOf(s);
    match e {
      case Wakeup(ts, itid, isWaking) =>
        if !isWaking && itid !in s.wake {
          WakeApart(s, s.wake[itid := ts]);
        }
      case Switch(_, _, _, _, _, _) =>
        var s1 := SchedSwitch(s, e);
        SchedOwned(s, e);
        hide SchedSwitch, SwitchIn, SwitchOut, Owned;
        if e.next != 0 {
          SwitchInCases(s1, e, 0);
        } else {
          NobodyEnters(s1, e);
        }
        var s2 := SwitchIn(s1, e);
        if e.prev != 0 {
          SwitchOutCases(s2, e);
        } else {
          NobodyLeaves(s2, e);
        }
    }
  }

  lemma NobodyEnters(s: Tracker, e: Event)
    requires Bounded(s) && e.Switch? && e.next == 0
    ensures SwitchIn(s, e) == s
  {
  }

  lemma NobodyLeaves(s: Tracker, e: Event)
    requires Bounded(s) && e.Switch? && e.prev == 0
    ensures SwitchOut(s, e) == s
  {
  }

  lemma SchedOwned(s: Tracker, e: Event)
    requires Owned(s) && e.Switch?
    ensures var r := SchedSwitch(s, e);
            Owned(r) && r.rows == s.rows && r.last == s.last && r.cpuRow == s.cpuRow && r.wake == s.wake
  {
  }

  lemma {:induction false} RunOwned(events: seq<Event>)
    ensures Owned(Run(events))
  {
    hide Step;
    if events != [] {
      RunOwned(events[..|events| - 1]);
      hide Owned;
      StepOwned(Run(events[..|events| - 1]), events[|events| - 1]);
    }
  }

  /** The state of a trace when a switch has written its scheduling slice. */
  lemma {:induction false} Scheduled(events: seq<Event>, e: Event)
    requires e.Switch?
    ensures var s := SchedSwitch(Run(events), e);
            Owned(s) && s.rows == Run(events).rows && s.last == Run(events).last && s.cpuRow == Run(events).cpuRow
  {
    hide Run, SchedSwitch, Owned;
    RunOwned(events);
    SchedOwned(Run(events), e);
  }

  /** Over every trace, whatever was lost or came twice: a switch lets the next thread in and forgets
      whom it displaces. */
  lemma {:induction false} EveryEntry(events: seq<Event>, e: Event, x: u32)
    requires e.Switch?
    ensures var s := Run(events);
            var m := SwitchIn(SchedSwitch(s, e), e);
            && |s.rows| <= |m.rows|
            && (e.next == 0 ==> m.rows == s.rows && m.last == s.last && m.cpuRow == s.cpuRow)
            && (e.next != 0 ==>
                  && m.rows != [] && m.rows[|m.rows| - 1] == StateRow(e.ts, OPEN, e.cpu, e.next, TASK_RUNNING)
                  && m.cpuRow == s.cpuRow[e.cpu := |m.rows| - 1]
                  && (x in m.last <==> (x in s.last || x == e.next) && !Displaced(s, m, e, x))
                  && (x in m.last ==> m.last[x] == if x == e.next then Remembered(|m.rows| - 1, TASK_RUNNING) else s.last[x]))
  {
    hide Run, SchedSwitch, SwitchIn, Owned, Displaced, SameRow;
    Scheduled(events, e);
    var s := SchedSwitch(Run(events), e);
    if e.next != 0 {
      SwitchInCases(s, e, x);
      SameDisplaced(Run(events), s, SwitchIn(s, e), e, x);
    } else {
      NobodyEnters(s, e);
    }
  }

  lemma SameDisplaced(s: Tracker, s': Tracker, r: Tracker, e: Event, x: u32)
    requires Bounded(s) && Bounded(s') && e.Switch? && s.rows == s'.rows && s.cpuRow == s'.cpuRow && |s.rows| <= |r.rows|
    ensures Displaced(s, r, e, x) <==> Displaced(s', r, e, x)
  {
  }

  /** It lets the previous thread out, unless that is already elsewhere. */
  lemma {:induction false} EveryExit(events: seq<Event>, e: Event)
    requires e.Switch?
    ensures var m := SwitchIn(SchedSwitch(Run(events), e), e);
            var r := Step(Run(events), e);
            && (e.prev == 0 || Elsewhere(m, e) ==> r == m)
            && (e.prev != 0 && !Elsewhere(m, e) ==>
                  && Only(m, r, e.prev) && |m.rows| < |r.rows|
                  && r.rows[|r.rows| - 1] == StateRow(e.ts, OPEN, INVALID_CPU, e.prev, e.prevState)
                  && e.prev in r.last && r.last[e.prev] == Remembered(|r.rows| - 1, e.prevState))
  {
    hide Run, SchedSwitch, SwitchIn, SwitchOut, Owned, Only, Elsewhere;
    EntryOwned(events, e);
    var m := SwitchIn(SchedSwitch(Run(events), e), e);
    if e.prev != 0 {
      SwitchOutCases(m, e);
    } else {
      NobodyLeaves(m, e);
    }
  }

  lemma {:induction false} EntryOwned(events: seq<Event>, e: Event)
    requires e.Switch?
    ensures Owned(SwitchIn(SchedSwitch(Run(events), e), e))
  {
    hide *;
    Scheduled(events, e);
    var s := SchedSwitch(Run(events), e);
    if e.next != 0 {
      SwitchInCases(s, e, 0);
    } else {
      NobodyEnters(s, e);
    }
  }
}
