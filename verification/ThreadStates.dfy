/** The thread-state table, read off the events of a natural trace
    (trace_streamer/src/filter/cpu_filter.cpp:25-109 and 227-286). */
module ThreadStates {
  import opened Words
  import opened CpuFilter
  import opened CpuTimelines

  /** A thread enters a state at a time, on a cpu or on none. */
  datatype Change = Change(itid: u32, ts: u64, cpu: u32, state: nat)

  // ---------------------------------------------------------------------------
  // What the events say
  // ---------------------------------------------------------------------------

  /** The state a thread entered last. */
  function StateAfter(changes: seq<Change>, t: u32): (r: Option<nat>) {
    if changes == [] then None
    else if changes[|changes| - 1].itid == t then Some(changes[|changes| - 1].state)
    else StateAfter(changes[..|changes| - 1], t)
  }

  /** The first wakeup of a thread since it last took part in a switch. */
  function PendingWake(events: seq<Event>, t: u32): (r: Option<u64>) {
    if events == [] then None else
    var r, e := PendingWake(events[..|events| - 1], t), events[|events| - 1];
    match e
    case Wakeup(ts, itid, isWaking) => if itid == t && !isWaking && r.None? then Some(ts) else r
    case Switch(_, _, prev, _, next, _) => if t == prev || t == next then None else r
  }

  /** The next thread, if a wakeup is pending and it is not running, became runnable then; it runs
      from now on. */
  function NextChanges(changes: seq<Change>, wake: Option<u64>, e: Event): (r: seq<Change>)
    requires e.Switch?
  {
    (if wake.Some? && StateAfter(changes, e.next) != Some(TASK_RUNNING)
     then [Change(e.next, wake.value, INVALID_CPU, TASK_RUNNABLE)] else [])
    + [Change(e.next, e.ts, e.cpu, TASK_RUNNING)]
  }

  /** The changes a switch makes: those of the next thread, and the state given to the previous. */
  function SwitchChanges(changes: seq<Change>, wake: Option<u64>, e: Event): (r: seq<Change>)
    requires e.Switch?
  {
    (if e.next == 0 then [] else NextChanges(changes, wake, e))
    + (if e.prev == 0 then [] else [Change(e.prev, e.ts, INVALID_CPU, e.prevState)])
  }

  function Changes(events: seq<Event>): (r: seq<Change>) {
    if events == [] then [] else
    var before, e := events[..|events| - 1], events[|events| - 1];
    if e.Switch? then Changes(before) + SwitchChanges(Changes(before), PendingWake(before, e.next), e)
    else Changes(before)
  }

  /** The next change of the same thread after change k. */
  function NextChange(changes: seq<Change>, k: nat, n: nat): (j: Option<nat>)
    requires k < |changes| && n <= |changes|
    ensures j.Some? ==> k < j.value < n && changes[j.value].itid == changes[k].itid
    ensures forall x :: k < x < n && changes[x].itid == changes[k].itid ==> j.Some? && j.value <= x
  {
    if n <= k + 1 then None else
    var j := NextChange(changes, k, n - 1);
    if j.Some? then j else if changes[n - 1].itid == changes[k].itid then Some(n - 1) else None
  }

  /** A state lasts until the thread's next change. */
  function RowOf(changes: seq<Change>, k: nat): (r: StateRow)
    requires k < |changes|
  {
    var c, j := changes[k], NextChange(changes, k, |changes|);
    StateRow(c.ts, if j.None? then OPEN else Wrap64(changes[j.value].ts - c.ts), c.cpu, c.itid, c.state)
  }

  // ---------------------------------------------------------------------------
  // What the filter does
  // ---------------------------------------------------------------------------

  function Keys(rows: seq<StateRow>): (r: seq<Change>)
    ensures |r| == |rows|
    ensures forall i :: 0 <= i < |r| ==> r[i] == Change(rows[i].itid, rows[i].ts, rows[i].cpu, rows[i].state)
  {
    seq(|rows|, i requires 0 <= i < |rows| => Change(rows[i].itid, rows[i].ts, rows[i].cpu, rows[i].state))
  }

  /** The rows are the changes, and what is remembered of a thread is the last one. */
  ghost predicate Matches(s: Tracker, changes: seq<Change>) {
    && Bounded(s) && Keys(s.rows) == changes
    && (forall t :: t in s.last <==> StateAfter(changes, t).Some?)
    && (forall t :: t in s.last ==> s.last[t].state == StateAfter(changes, t).value)
  }

  lemma {:induction false} StateAfterAppend(changes: seq<Change>, c: Change, t: u32)
    ensures StateAfter(changes + [c], t) == if c.itid == t then Some(c.state) else StateAfter(changes, t)
  {
    assert (changes + [c])[..|changes|] == changes;
  }

  /** Moving a thread on adds a change. */
  lemma AdvanceMatches(s: Tracker, changes: seq<Change>, t: u32, ts: u64, cpu: u32, state: nat)
    requires Matches(s, changes)
    ensures Matches(Advance(s, t, ts, cpu, state), changes + [Change(t, ts, cpu, state)])
  {
    var r, c := Advance(s, t, ts, cpu, state), Change(t, ts, cpu, state);
    assert Keys(r.rows) == changes + [c];
    forall u ensures StateAfter(changes + [c], u) == if u == t then Some(state) else StateAfter(changes, u) {
      StateAfterAppend(changes, c, u);
    }
  }

  lemma OtherFieldsMatch(s: Tracker, r: Tracker, changes: seq<Change>)
    requires Matches(s, changes) && Bounded(r) && r.rows == s.rows && r.last == s.last
    ensures Matches(r, changes)
  {
  }

  function WakeOf(s: Tracker, t: u32): (r: Option<u64>) {
    if t in s.wake then Some(s.wake[t]) else None
  }

  /** The wakeups without that of a thread; the idle thread's stays. */
  function Dropped(wake: map<u32, u64>, t: u32): (r: map<u32, u64>) {
    if t == 0 then wake else wake - {t}
  }

  lemma Regroup(a: seq<Change>, b: seq<Change>, c: seq<Change>)
    ensures a + b + c == a + (b + c)
  {
  }

  /** A pending wakeup that is not dropped adds a change. */
  lemma {:induction false} CheckWakeupMatches(s: Tracker, changes: seq<Change>, t: u32)
    requires Matches(s, changes)
    ensures var w := CheckWakeup(s, t);
            && w.wake == s.wake - {t}
            && Matches(w, changes + if t in s.wake && StateAfter(changes, t) != Some(TASK_RUNNING)
                                    then [Change(t, s.wake[t], INVALID_CPU, TASK_RUNNABLE)] else [])
  {
    var s0 := s.(wake := s.wake - {t});
    OtherFieldsMatch(s, s0, changes);
    assert t !in s.wake ==> s0.wake == s.wake;
    assert changes + [] == changes;
    if t in s.wake && !(t in s.last && s.last[t].state == TASK_RUNNING) {
      AdvanceMatches(s0, changes, t, s.wake[t], INVALID_CPU, TASK_RUNNABLE);
    }
  }

  lemma EnteringMatches(s: Tracker, changes: seq<Change>, e: Event)
    requires e.Switch? && Matches(s, changes)
    ensures Matches(Entering(s, e), changes + NextChanges(changes, WakeOf(s, e.next), e))
    ensures Entering(s, e).wake == s.wake - {e.next}
  {
    assert Bounded(s);
    hide Matches, CheckWakeup, StateAfter;
    var woken := if e.next in s.wake && StateAfter(changes, e.next) != Some(TASK_RUNNING)
                 then [Change(e.next, s.wake[e.next], INVALID_CPU, TASK_RUNNABLE)] else [];
    CheckWakeupMatches(s, changes, e.next);
    AdvanceMatches(CheckWakeup(s, e.next), changes + woken, e.next, e.ts, e.cpu, TASK_RUNNING);
    Regroup(changes, woken, [Change(e.next, e.ts, e.cpu, TASK_RUNNING)]);
  }

  /** In a natural trace the thread that leaves runs on the cpu, or is new. */
  lemma NaturalLeaves(s: Tracker, e: Event, cur: map<u32, u32>)
    requires e.Switch? && Sane(s, cur, e.ts, -1) && RunningMatches(s, cur) && Natural(s, cur, e.ts, e) && e.prev != 0
    ensures var r := SwitchIn(SchedSwitch(s, e), e);
            Bounded(r) && WakeupOfRunning(r, e.prev) && !ChangedCpu(r, e)
  {
    NaturalIsLegal(s, cur, e.ts, e);
    SchedSwitchSane(s, e, cur, e.ts);
    var s1 := SchedSwitch(s, e);
    assert s1.last == s.last && s1.wake == s.wake && s1.rows == s.rows;
    if e.next != 0 {
      SwitchInOthers(s1, e, cur, e.prev);
    }
    assert e.cpu in cur ==> RunsOn(s, e.prev, e.cpu);
    assert Bounded(s1);
    hide Sane, RunningMatches;
    if e.cpu in cur {
      SwitchInKeepsRow(s1, e, s.last[e.prev].row);
    }
  }

  /** The next thread enters. */
  lemma EnterMatches(s: Tracker, changes: seq<Change>, e: Event, cur: map<u32, u32>)
    requires e.Switch? && Sane(s, cur, e.ts, -1) && Legal(s, cur, e.ts, e) && Matches(s, changes) && e.next != 0
    ensures Matches(SwitchIn(s, e), changes + NextChanges(changes, WakeOf(s, e.next), e))
    ensures SwitchIn(s, e).wake == Dropped(s.wake, e.next)
  {
    assert Bounded(s);
    NobodyForgotten(s, e, cur);
    hide Sane, Matches, Entering, NextChanges, Bounded, Legal, SwitchIn, CheckWakeup;
    EnteringMatches(s, changes, e);
    OtherFieldsMatch(Entering(s, e), SwitchIn(s, e), changes + NextChanges(changes, WakeOf(s, e.next), e));
  }

  lemma SwitchInMatches(s: Tracker, changes: seq<Change>, e: Event, cur: map<u32, u32>)
    requires e.Switch? && Sane(s, cur, e.ts, -1) && Legal(s, cur, e.ts, e) && Matches(s, changes)
    ensures var r := SwitchIn(SchedSwitch(s, e), e);
            && Matches(r, changes + if e.next == 0 then [] else NextChanges(changes, WakeOf(s, e.next), e))
            && r.wake == Dropped(s.wake, e.next)
  {
    assert Bounded(s);
    hide Sane, Matches, SchedSwitch, NextChanges, Bounded, Legal, SwitchIn;
    var s1 := SchedSwitch(s, e);
    SchedSwitchLeaves(s, e);
    OtherFieldsMatch(s, s1, changes);
    if e.next != 0 {
      SchedSwitchSane(s, e, cur, e.ts);
      SameLegal(s, s1, cur, e);
      EnterMatches(s1, changes, e, cur);
    } else {
      assert changes + [] == changes;
    }
  }

  /** The scheduling table is apart from the thread states. */
  lemma SchedSwitchLeaves(s: Tracker, e: Event)
    requires Bounded(s) && e.Switch?
    ensures var s1 := SchedSwitch(s, e);
            && s1.last == s.last && s1.wake == s.wake && s1.rows == s.rows
            && (e.next == 0 ==> SwitchIn(s1, e) == s1)
  {
    hide CheckWakeup, Advance;
  }

  lemma SameLegal(s: Tracker, r: Tracker, cur: map<u32, u32>, e: Event)
    requires Legal(s, cur, e.ts, e) && r.last == s.last && r.wake == s.wake
    ensures Legal(r, cur, e.ts, e)
  {
  }

  lemma SwitchOutMatches(s: Tracker, changes: seq<Change>, e: Event)
    requires e.Switch? && Matches(s, changes)
    requires e.prev != 0 ==> WakeupOfRunning(s, e.prev) && !ChangedCpu(s, e)
    ensures var r := SwitchOut(s, e);
            && Matches(r, changes + if e.prev == 0 then [] else [Change(e.prev, e.ts, INVALID_CPU, e.prevState)])
            && r.wake == Dropped(s.wake, e.prev)
  {
    assert changes + [] == changes;
    if e.prev != 0 {
      LeavingIsAdvance(s, e);
      var s0 := s.(wake := s.wake - {e.prev});
      OtherFieldsMatch(s, s0, changes);
      AdvanceMatches(s0, changes, e.prev, e.ts, INVALID_CPU, e.prevState);
    }
  }

  /** One switch of a natural trace. */
  lemma SwitchMatches(s: Tracker, changes: seq<Change>, e: Event, cur: map<u32, u32>)
    requires e.Switch? && Sane(s, cur, e.ts, -1) && RunningMatches(s, cur) && Natural(s, cur, e.ts, e)
    requires Matches(s, changes)
    ensures var r := OnSwitch(s, e);
            && Matches(r, changes + SwitchChanges(changes, WakeOf(s, e.next), e))
            && r.wake == Dropped(Dropped(s.wake, e.next), e.prev)
  {
    assert Bounded(s);
    hide Sane, RunningMatches, Natural, Matches, Legal, SwitchIn, SwitchOut, SchedSwitch, WakeupOfRunning, ChangedCpu,
         NextChanges, Bounded, Dropped;
    NaturalIsLegal(s, cur, e.ts, e);
    if e.prev != 0 {
      NaturalLeaves(s, e, cur);
    }
    SwitchInMatches(s, changes, e, cur);
    var r := SwitchIn(SchedSwitch(s, e), e);
    var first := if e.next == 0 then [] else NextChanges(changes, WakeOf(s, e.next), e);
    var second := if e.prev == 0 then [] else [Change(e.prev, e.ts, INVALID_CPU, e.prevState)];
    SwitchOutMatches(r, changes + first, e);
    Regroup(changes, first, second);
  }

  // ---------------------------------------------------------------------------
  // Runs
  // ---------------------------------------------------------------------------

  ghost predicate Woken(events: seq<Event>, s: Tracker) {
    forall t: u32 :: t != 0 ==> WakeOf(s, t) == PendingWake(events, t)
  }

  lemma {:induction false} SwitchWoken(events: seq<Event>, s: Tracker, r: Tracker)
    requires events != [] && events[|events| - 1].Switch? && Woken(events[..|events| - 1], s)
    requires var e := events[|events| - 1];
             r.wake == Dropped(Dropped(s.wake, e.next), e.prev)
    ensures Woken(events, r)
  {
    var before, e := events[..|events| - 1], events[|events| - 1];
    forall t: u32 | t != 0 ensures WakeOf(r, t) == PendingWake(events, t) {
      assert WakeOf(s, t) == PendingWake(before, t);
    }
  }

  lemma {:induction false} WakeupWoken(events: seq<Event>, s: Tracker)
    requires events != [] && events[|events| - 1].Wakeup? && Woken(events[..|events| - 1], s)
    ensures Woken(events, OnWakeup(s, events[|events| - 1]))
  {
    var before, e := events[..|events| - 1], events[|events| - 1];
    forall t: u32 | t != 0 ensures WakeOf(OnWakeup(s, e), t) == PendingWake(events, t) {
      assert WakeOf(s, t) == PendingWake(before, t);
    }
  }

  lemma {:induction false} RunMatches(events: seq<Event>)
    requires NaturalRun(events)
    ensures Matches(Run(events), Changes(events)) && Woken(events, Run(events))
  {
    hide Matches, Woken, Sane, RunningMatches, Step, SwitchChanges, Natural;
    if events == [] {
      NoneMatches();
    } else {
      var before, e := events[..|events| - 1], events[|events| - 1];
      RunMatches(before);
      NaturalRunIsLegal(before);
      LegalRunSane(before);
      NaturalNow(Run(before), CurrentOf(before), NowOf(before), e);
      NextMatches(events, Run(before), CurrentOf(before));
    }
  }

  lemma {:induction false} NoneMatches()
    ensures Matches(EMPTY, []) && Woken([], EMPTY)
  {
  }

  /** One more event. */
  lemma {:induction false} NextMatches(events: seq<Event>, s: Tracker, cur: map<u32, u32>)
    requires events != []
    requires var before, e := events[..|events| - 1], events[|events| - 1];
             && Matches(s, Changes(before)) && Woken(before, s)
             && Sane(s, cur, e.ts, -1) && RunningMatches(s, cur) && Natural(s, cur, e.ts, e)
    ensures Bounded(s) && Matches(Step(s, events[|events| - 1]), Changes(events))
    ensures Woken(events, Step(s, events[|events| - 1]))
  {
    assert Bounded(s);
    hide Matches, Woken, Sane, RunningMatches, OnSwitch, SwitchChanges, Natural, Bounded, PendingWake, StateAfter, WakeOf,
         Dropped;
    var before, e := events[..|events| - 1], events[|events| - 1];
    if e.Switch? {
      WokenAt(before, s, e.next);
      SwitchMatches(s, Changes(before), e, cur);
      NoNext(Changes(before), WakeOf(s, e.next), PendingWake(before, e.next), e);
      SwitchWoken(events, s, OnSwitch(s, e));
    } else {
      OtherFieldsMatch(s, OnWakeup(s, e), Changes(before));
      WakeupWoken(events, s);
    }
  }

  lemma {:induction false} WokenAt(events: seq<Event>, s: Tracker, t: u32)
    requires Woken(events, s)
    ensures t != 0 ==> WakeOf(s, t) == PendingWake(events, t)
  {
  }

  /** The wakeup of a thread that is not switched in does not matter. */
  lemma NoNext(changes: seq<Change>, a: Option<u64>, b: Option<u64>, e: Event)
    requires e.Switch? && (e.next != 0 ==> a == b)
    ensures SwitchChanges(changes, a, e) == SwitchChanges(changes, b, e)
  {
  }

  lemma NaturalNow(s: Tracker, cur: map<u32, u32>, now: int, e: Event)
    requires Sane(s, cur, now, -1) && Natural(s, cur, now, e)
    ensures Sane(s, cur, e.ts, -1) && Natural(s, cur, e.ts, e)
  {
    Later(s, cur, now, e.ts);
  }

  /** The duration of a row in terms of the changes. */
  lemma {:induction false} RowIsChange(s: Tracker, changes: seq<Change>, now: int, k: nat)
    requires Keys(s.rows) == changes && ThreadTimelines(s, now) && k < |s.rows|
    ensures s.rows[k] == RowOf(changes, k)
  {
    hide NextChange, ThreadTimelines;
    var j := NextChange(changes, k, |changes|);
    if j.Some? {
      ClosedByNext(s, changes, now, k, j.value);
    } else {
      OpenAtLast(s, changes, now, k);
    }
  }

  /** The facts about one row of a thread. */
  lemma {:induction false} ThreadFacts(s: Tracker, now: int, k: nat)
    requires ThreadTimelines(s, now) && k < |s.rows|
    ensures RowSane(s, k, now) && LastRow(s, s.rows[k].itid)
    ensures var p := PrevRow(s.rows, s.rows[k].itid, k);
            p >= 0 ==> !Open(s.rows[p]) && End(s.rows[p]) == s.rows[k].ts
  {
    assert RowSane(s, k, now);
    assert AbutsAt(s.rows, k);
  }

  lemma {:induction false} ClosedByNext(s: Tracker, changes: seq<Change>, now: int, k: nat, j: nat)
    requires Keys(s.rows) == changes && ThreadTimelines(s, now) && k < j < |s.rows|
    requires changes[j].itid == changes[k].itid && forall x :: k < x < j ==> changes[x].itid != changes[k].itid
    ensures s.rows[k].dur == Wrap64(s.rows[j].ts - s.rows[k].ts)
  {
    hide ThreadTimelines;
    ThreadFacts(s, now, j);
    hide PrevRow, RowSane, LastRow;
    var p := PrevRow(s.rows, s.rows[j].itid, j);
    assert s.rows[k].itid == changes[k].itid == changes[j].itid == s.rows[j].itid;
    assert forall x :: k < x < j ==> s.rows[x].itid == changes[x].itid;
  }

  lemma {:induction false} OpenAtLast(s: Tracker, changes: seq<Change>, now: int, k: nat)
    requires Keys(s.rows) == changes && ThreadTimelines(s, now) && k < |s.rows|
    requires forall x :: k < x < |s.rows| ==> changes[x].itid != changes[k].itid
    ensures Open(s.rows[k])
  {
    hide ThreadTimelines;
    ThreadFacts(s, now, k);
    var i := s.last[s.rows[k].itid].row;
    assert changes[i].itid == s.rows[i].itid == s.rows[k].itid == changes[k].itid;
  }

  /** Main result: in every natural trace the rows of the thread-state table are the changes of
      state that the events make, in order, each lasting until its thread's next change. */
  lemma {:induction false} RowsAreChanges(events: seq<Event>, k: nat)
    requires NaturalRun(events) && k < |Run(events).rows|
    ensures |Run(events).rows| == |Changes(events)|
    ensures Run(events).rows[k] == RowOf(Changes(events), k)
  {
    RunMatches(events);
    NaturalRunIsLegal(events);
    LegalRunSane(events);
    RowIsChange(Run(events), Changes(events), NowOf(events), k);
  }
}
