/** What the rebuilt timelines look like over every legal trace. */
module CpuTimelines {
  import opened Words
  import opened CpuFilter

  // ---------------------------------------------------------------------------
  // The timeline of a thread
  // ---------------------------------------------------------------------------

  /** The last row of thread t before row j, or -1. */
  function PrevRow(rows: seq<StateRow>, t: u32, j: nat): (p: int)
    requires j <= |rows|
    ensures -1 <= p < j
    ensures p >= 0 ==> rows[p].itid == t
    ensures forall k :: p < k < j ==> rows[k].itid != t
  {
    if j == 0 then -1 else if rows[j - 1].itid == t then j - 1 else PrevRow(rows, t, j - 1)
  }

  /** The row of the thread before row j, if any, is closed where row j starts. */
  ghost predicate AbutsAt(rows: seq<StateRow>, j: nat)
    requires j < |rows|
  {
    var p := PrevRow(rows, rows[j].itid, j);
    p >= 0 ==> !Open(rows[p]) && End(rows[p]) == rows[j].ts
  }

  /** Consecutive rows of one thread abut. */
  ghost predicate Abut(rows: seq<StateRow>) {
    forall j :: 0 <= j < |rows| ==> AbutsAt(rows, j)
  }

  /** What is remembered of a thread is its last row, which is open. */
  ghost predicate LastRow(s: Tracker, t: u32)
    requires t in s.last
  {
    var i := s.last[t].row;
    && i < |s.rows|
    && s.rows[i].itid == t && Open(s.rows[i]) && s.rows[i].state == s.last[t].state
    && forall j :: i < j < |s.rows| ==> s.rows[j].itid != t
  }

  /** Only last rows are open, and nothing lies in the future of `now`. */
  ghost predicate RowSane(s: Tracker, j: nat, now: int)
    requires j < |s.rows|
  {
    var row := s.rows[j];
    && row.itid != 0 && row.itid in s.last
    && row.ts <= now
    && (Open(row) ==> s.last[row.itid].row == j)
    && (!Open(row) ==> End(row) <= now)
  }

  ghost predicate ThreadTimelines(s: Tracker, now: int) {
    && (forall t :: t in s.last ==> LastRow(s, t))
    && (forall j :: 0 <= j < |s.rows| ==> RowSane(s, j, now))
    && Abut(s.rows)
  }

  lemma {:induction false} PrevRowSame(a: seq<StateRow>, b: seq<StateRow>, t: u32, j: nat)
    requires j <= |a| && j <= |b|
    requires forall k :: 0 <= k < j ==> a[k].itid == b[k].itid
    ensures PrevRow(a, t, j) == PrevRow(b, t, j)
  {
    if j > 0 && a[j - 1].itid != t {
      PrevRowSame(a, b, t, j - 1);
    }
  }

  /** Moving a thread on to its next state keeps all timelines in order. */
  lemma AdvanceRows(s: Tracker, t: u32, ts: u64, cpu: u32, state: nat, now: int)
    requires Bounded(s) && ThreadTimelines(s, now)
    requires t != 0 && ts <= now && ts < OPEN
    requires t in s.last ==> s.rows[s.last[t].row].ts <= ts
    ensures var r := Advance(s, t, ts, cpu, state);
            (forall t :: t in r.last ==> LastRow(r, t)) && forall j :: 0 <= j < |r.rows| ==> RowSane(r, j, now)
  {
    var r := Advance(s, t, ts, cpu, state);
    assert |r.rows| == |s.rows| + 1;
    hide Advance, RowSane, LastRow, ThreadTimelines;
    forall j | 0 <= j < |r.rows| ensures RowSane(r, j, now) {
      AdvanceRowSane(s, t, ts, cpu, state, now, j);
    }
    forall u | u in r.last ensures LastRow(r, u) {
      AdvanceLastRow(s, t, ts, cpu, state, now, u);
    }
  }

  /** What ending a state and starting the next does to the tables. */
  lemma AdvanceShape(s: Tracker, t: u32, ts: u64, cpu: u32, state: nat)
    requires Bounded(s)
    ensures var r := Advance(s, t, ts, cpu, state);
            && |r.rows| == |s.rows| + 1 && r.rows[|s.rows|] == StateRow(ts, OPEN, cpu, t, state)
            && r.last == s.last[t := Remembered(|s.rows|, state)] && r.cpuRow == s.cpuRow && r.wake == s.wake
            && (forall j :: 0 <= j < |s.rows| ==>
                  (r.rows[j] == if t in s.last && j == s.last[t].row && Open(s.rows[j])
                                then s.rows[j].(dur := Wrap64(ts - s.rows[j].ts)) else s.rows[j]))
  {
  }

  lemma AdvanceRowSane(s: Tracker, t: u32, ts: u64, cpu: u32, state: nat, now: int, j: nat)
    requires Bounded(s) && ThreadTimelines(s, now) && j <= |s.rows|
    requires t != 0 && ts <= now && ts < OPEN
    requires t in s.last ==> s.rows[s.last[t].row].ts <= ts
    ensures j < |Advance(s, t, ts, cpu, state).rows| && RowSane(Advance(s, t, ts, cpu, state), j, now)
  {
    AdvanceShape(s, t, ts, cpu, state);
    assert j < |s.rows| ==> RowSane(s, j, now);
    assert t in s.last ==> LastRow(s, t);
    hide Advance, ThreadTimelines;
  }

  lemma AdvanceLastRow(s: Tracker, t: u32, ts: u64, cpu: u32, state: nat, now: int, u: u32)
    requires Bounded(s) && ThreadTimelines(s, now) && u in Advance(s, t, ts, cpu, state).last
    ensures LastRow(Advance(s, t, ts, cpu, state), u)
  {
    AdvanceShape(s, t, ts, cpu, state);
    assert u != t ==> LastRow(s, u);
    hide Advance, ThreadTimelines;
  }

  lemma AdvanceAbut(s: Tracker, t: u32, ts: u64, cpu: u32, state: nat, now: int)
    requires Bounded(s) && ThreadTimelines(s, now)
    requires t != 0 && ts <= now && ts < OPEN
    requires t in s.last ==> s.rows[s.last[t].row].ts <= ts
    ensures Abut(Advance(s, t, ts, cpu, state).rows)
  {
    var r := Advance(s, t, ts, cpu, state).rows;
    assert |r| == |s.rows| + 1;
    hide Advance, ThreadTimelines, AbutsAt;
    forall j | 0 <= j < |r| ensures AbutsAt(r, j) {
      if j < |s.rows| {
        OldRowAbuts(s, t, ts, cpu, state, now, j);
      } else {
        NewRowAbuts(s, t, ts, cpu, state, now);
      }
    }
  }

  lemma OldRowAbuts(s: Tracker, t: u32, ts: u64, cpu: u32, state: nat, now: int, j: nat)
    requires Bounded(s) && ThreadTimelines(s, now) && j < |s.rows|
    ensures j < |Advance(s, t, ts, cpu, state).rows| && AbutsAt(Advance(s, t, ts, cpu, state).rows, j)
  {
    AdvanceShape(s, t, ts, cpu, state);
    assert AbutsAt(s.rows, j);
    hide Advance, ThreadTimelines, PrevRow, Bounded;
    var r := Advance(s, t, ts, cpu, state).rows;
    PrevRowSame(s.rows, r, r[j].itid, j);
  }

  lemma NewRowAbuts(s: Tracker, t: u32, ts: u64, cpu: u32, state: nat, now: int)
    requires Bounded(s) && ThreadTimelines(s, now) && ts < OPEN
    requires t in s.last ==> s.rows[s.last[t].row].ts <= ts
    ensures |s.rows| < |Advance(s, t, ts, cpu, state).rows|
    ensures AbutsAt(Advance(s, t, ts, cpu, state).rows, |s.rows|)
  {
    AdvanceShape(s, t, ts, cpu, state);
    var r, n := Advance(s, t, ts, cpu, state).rows, |s.rows|;
    hide Advance, PrevRow, Abut;
    PrevRowSame(s.rows, r, t, n);
    var p := PrevRow(s.rows, t, n);
    if p >= 0 {
      assert RowSane(s, p, now);
      assert LastRow(s, t);
    }
  }

  // ---------------------------------------------------------------------------
  // The timeline of a cpu
  // ---------------------------------------------------------------------------

  /** Running rows of one cpu follow each other. Row n, the one being switched in, is exempt
      until its predecessor has been switched out. */
  ghost predicate CpuExclusive(rows: seq<StateRow>, n: int) {
    forall i, j :: 0 <= i < j < |rows| && j != n && rows[i].cpu == rows[j].cpu != INVALID_CPU ==>
      !Open(rows[i]) && End(rows[i]) <= rows[j].ts
  }

  /** A row that is open on a cpu belongs to the thread that the trace has there. */
  ghost predicate OpenIsCurrent(rows: seq<StateRow>, cur: map<u32, u32>, n: int) {
    forall i :: 0 <= i < |rows| && i != n && Open(rows[i]) && rows[i].cpu != INVALID_CPU ==>
      rows[i].cpu in cur && cur[rows[i].cpu] == rows[i].itid
  }

  ghost predicate CpuRowsRight(s: Tracker) {
    forall c :: c in s.cpuRow ==> s.cpuRow[c] < |s.rows| && s.rows[s.cpuRow[c]].cpu == c != INVALID_CPU
  }

  /** A pending wakeup lies between the start of the thread's last row and now. */
  ghost predicate WakeupsTimely(s: Tracker, now: int) {
    forall t :: t in s.wake ==>
      && s.wake[t] <= now && s.wake[t] < OPEN
      && (t in s.last ==> s.last[t].row < |s.rows| && s.rows[s.last[t].row].ts <= s.wake[t])
  }

  ghost predicate CpuTimelines(s: Tracker, cur: map<u32, u32>, now: int, n: int) {
    CpuExclusive(s.rows, n) && OpenIsCurrent(s.rows, cur, n) && CpuRowsRight(s) && WakeupsTimely(s, now)
  }

  ghost predicate Sane(s: Tracker, cur: map<u32, u32>, now: int, n: int) {
    Bounded(s) && ThreadTimelines(s, now) && CpuTimelines(s, cur, now, n)
  }

  lemma Later(s: Tracker, cur: map<u32, u32>, now: int, later: int)
    requires Sane(s, cur, now, -1) && now <= later
    ensures Sane(s, cur, later, -1)
  {
    forall j | 0 <= j < |s.rows| ensures RowSane(s, j, later) {
      assert RowSane(s, j, now);
    }
  }

  /** Ending rows and adding one off or on a cpu, seen from the cpus. */
  lemma AdvanceCpu(s: Tracker, t: u32, ts: u64, cpu: u32, state: nat, cur: map<u32, u32>, n: int)
    requires Bounded(s) && CpuExclusive(s.rows, n) && OpenIsCurrent(s.rows, cur, n) && CpuRowsRight(s)
    requires cpu == INVALID_CPU || n == -1
    requires -1 <= n < |s.rows|
    ensures var r := Advance(s, t, ts, cpu, state);
            var n' := if cpu == INVALID_CPU then n else |s.rows|;
            CpuExclusive(r.rows, n') && OpenIsCurrent(r.rows, cur, n') && CpuRowsRight(r)
  {
    AdvanceShape(s, t, ts, cpu, state);
    hide Advance, Wrap64;
    var r := Advance(s, t, ts, cpu, state);
    forall i | 0 <= i < |s.rows|
      ensures r.rows[i] == s.rows[i] || (Open(s.rows[i]) && r.rows[i] == s.rows[i].(dur := r.rows[i].dur))
    {
    }
    RowsMayClose(s.rows, r.rows, cur, n, if cpu == INVALID_CPU then n else |s.rows|);
    hide CpuExclusive, OpenIsCurrent;
  }

  /** Open rows may be closed and one row added, off the cpus or as the one exempt. */
  lemma RowsMayClose(rows: seq<StateRow>, more: seq<StateRow>, cur: map<u32, u32>, n: int, n': int)
    requires CpuExclusive(rows, n) && OpenIsCurrent(rows, cur, n) && -1 <= n < |rows| && |more| == |rows| + 1
    requires forall i :: 0 <= i < |rows| ==>
               more[i] == rows[i] || (Open(rows[i]) && more[i] == rows[i].(dur := more[i].dur))
    requires if more[|rows|].cpu == INVALID_CPU then n' == n else n == -1 && n' == |rows|
    ensures CpuExclusive(more, n') && OpenIsCurrent(more, cur, n')
  {
    forall i, j | 0 <= i < j < |more| && j != n' && more[i].cpu == more[j].cpu != INVALID_CPU
      ensures !Open(more[i]) && End(more[i]) <= more[j].ts
    {
      assert j < |rows|;
      assert rows[i].cpu == rows[j].cpu != INVALID_CPU;
    }
    forall i | 0 <= i < |more| && i != n' && Open(more[i]) && more[i].cpu != INVALID_CPU
      ensures more[i].cpu in cur && cur[more[i].cpu] == more[i].itid
    {
      assert i < |rows| && Open(rows[i]);
    }
  }

  lemma AdvanceSane(s: Tracker, t: u32, ts: u64, cpu: u32, state: nat, cur: map<u32, u32>, now: int, n: int)
    requires Sane(s, cur, now, n) && t != 0 && t !in s.wake && ts <= now && ts < OPEN
    requires t in s.last ==> s.rows[s.last[t].row].ts <= ts
    requires cpu == INVALID_CPU || n == -1
    requires -1 <= n < |s.rows|
    ensures Sane(Advance(s, t, ts, cpu, state), cur, now, if cpu == INVALID_CPU then n else |s.rows|)
  {
    hide LastRow, RowSane, Abut, CpuExclusive, OpenIsCurrent, CpuRowsRight;
    AdvanceRows(s, t, ts, cpu, state, now);
    AdvanceAbut(s, t, ts, cpu, state, now);
    AdvanceCpu(s, t, ts, cpu, state, cur, n);
    AdvanceWakeups(s, t, ts, cpu, state, now);
    hide Advance, WakeupsTimely;
  }

  lemma AdvanceWakeups(s: Tracker, t: u32, ts: u64, cpu: u32, state: nat, now: int)
    requires Bounded(s) && WakeupsTimely(s, now) && t !in s.wake
    ensures WakeupsTimely(Advance(s, t, ts, cpu, state), now)
  {
    AdvanceShape(s, t, ts, cpu, state);
    hide Advance;
    var r := Advance(s, t, ts, cpu, state);
    forall u | u in r.wake && u in r.last ensures r.rows[r.last[u].row].ts <= r.wake[u] {
      assert u != t;
    }
  }

  /** Fields that the timelines do not depend on, and other pending wakeups. */
  lemma SameRowsSane(s: Tracker, r: Tracker, cur: map<u32, u32>, now: int, n: int)
    requires Sane(s, cur, now, n) && Bounded(r) && CpuRowsRight(r)
    requires r.rows == s.rows && r.last == s.last && WakeupsTimely(r, now)
    ensures Sane(r, cur, now, n)
  {
    forall j | 0 <= j < |r.rows| ensures RowSane(r, j, now) {
      assert RowSane(s, j, now);
    }
    forall u | u in r.last ensures LastRow(r, u) {
      assert LastRow(s, u);
    }
  }

  lemma CheckWakeupSane(s: Tracker, t: u32, cur: map<u32, u32>, now: int, n: int)
    requires Sane(s, cur, now, n) && t != 0 && -1 <= n < |s.rows|
    ensures var r := CheckWakeup(s, t);
            Sane(r, cur, now, n) && t !in r.wake && |s.rows| <= |r.rows|
  {
    var s0 := s.(wake := s.wake - {t});
    SameRowsSane(s, s0, cur, now, n);
    if t in s.wake && !(t in s.last && s.last[t].state == TASK_RUNNING) {
      AdvanceSane(s0, t, s.wake[t], INVALID_CPU, TASK_RUNNABLE, cur, now, n);
      assert CheckWakeup(s, t) == Advance(s0, t, s.wake[t], INVALID_CPU, TASK_RUNNABLE);
    }
  }

  /** Where the trace stands: which thread each cpu runs after a switch. */
  function After(cur: map<u32, u32>, e: Event): (r: map<u32, u32>) {
    if e.Switch? then cur[e.cpu := e.next] else cur
  }

  /** A thread with a wakeup pending is running. */
  ghost predicate WakeupOfRunning(s: Tracker, t: u32) {
    t != 0 && t in s.wake ==> t in s.last && s.last[t].state == TASK_RUNNING
  }

  /** What is asked of a trace: time does not go back; a cpu switches out the thread it last
      switched in; a thread that is switched out with a wakeup pending is running. */
  ghost predicate Legal(s: Tracker, cur: map<u32, u32>, now: int, e: Event) {
    && now <= e.ts < OPEN
    && (e.Switch? ==>
          && e.cpu != INVALID_CPU
          && (e.cpu in cur ==> e.prev == cur[e.cpu])
          && WakeupOfRunning(s, e.prev))
  }

  lemma SchedSwitchSane(s: Tracker, e: Event, cur: map<u32, u32>, now: int)
    requires Sane(s, cur, now, -1) && e.Switch?
    ensures Sane(SchedSwitch(s, e), cur, now, -1)
  {
    SameRowsSane(s, SchedSwitch(s, e), cur, now, -1);
  }

  lemma LastStarted(s: Tracker, t: u32, now: int)
    requires ThreadTimelines(s, now) && t in s.last
    ensures s.last[t].row < |s.rows| && s.rows[s.last[t].row].ts <= now
  {
    assert LastRow(s, t);
    assert RowSane(s, s.last[t].row, now);
  }

  /** The next thread moved on to running, before the cpu's remembered row is replaced. */
  function Entering(s: Tracker, e: Event): (a: Tracker)
    requires Bounded(s) && e.Switch?
    ensures Bounded(a)
  {
    Advance(CheckWakeup(s, e.next), e.next, e.ts, e.cpu, TASK_RUNNING)
  }

  lemma EnteringSane(s: Tracker, e: Event, cur: map<u32, u32>)
    requires e.Switch? && Sane(s, cur, e.ts, -1) && e.ts < OPEN && e.cpu != INVALID_CPU && e.next != 0
    ensures Sane(Entering(s, e), cur, e.ts, |CheckWakeup(s, e.next).rows|)
  {
    CheckWakeupSane(s, e.next, cur, e.ts, -1);
    var w := CheckWakeup(s, e.next);
    if e.next in w.last {
      LastStarted(w, e.next, e.ts);
    }
    AdvanceSane(w, e.next, e.ts, e.cpu, TASK_RUNNING, cur, e.ts, -1);
  }

  lemma EnteringShape(s: Tracker, e: Event)
    requires e.Switch? && Bounded(s)
    ensures var w, a := CheckWakeup(s, e.next), Entering(s, e);
            && |s.rows| <= |w.rows| && |a.rows| == |w.rows| + 1
            && a.rows[|w.rows|] == StateRow(e.ts, OPEN, e.cpu, e.next, TASK_RUNNING)
            && a.cpuRow == w.cpuRow == s.cpuRow && a.wake == w.wake
            && a.last == w.last[e.next := Remembered(|w.rows|, TASK_RUNNING)]
  {
  }

  /** The row remembered for the cpu, if open, belongs to the thread that is switched out. */
  lemma OwnerIsPrev(a: Tracker, e: Event, cur: map<u32, u32>, n: int)
    requires e.Switch? && OpenIsCurrent(a.rows, cur, n) && CpuRowsRight(a)
    requires e.cpu in cur ==> e.prev == cur[e.cpu]
    requires e.cpu in a.cpuRow && a.cpuRow[e.cpu] != n
    ensures Open(a.rows[a.cpuRow[e.cpu]]) ==> a.rows[a.cpuRow[e.cpu]].itid == e.prev
  {
  }

  /** No thread is forgotten. */
  lemma NobodyForgotten(s: Tracker, e: Event, cur: map<u32, u32>)
    requires e.Switch? && Sane(s, cur, e.ts, -1) && Legal(s, cur, e.ts, e) && e.next != 0
    ensures var n, a := |CheckWakeup(s, e.next).rows|, Entering(s, e);
            SwitchIn(s, e) == a.(cpuRow := a.cpuRow[e.cpu := n])
  {
    EnteringSane(s, e, cur);
    EnteringShape(s, e);
    var n, a := |CheckWakeup(s, e.next).rows|, Entering(s, e);
    if e.cpu in a.cpuRow {
      OwnerIsPrev(a, e, cur, n);
    }
  }

  /** The next thread gets a running row on the cpu. */
  lemma SwitchInSane(s: Tracker, e: Event, cur: map<u32, u32>) returns (n: nat)
    requires e.Switch? && Sane(s, cur, e.ts, -1) && Legal(s, cur, e.ts, e) && e.next != 0
    ensures var r := SwitchIn(s, e);
            && Sane(r, cur, e.ts, n)
            && n < |r.rows| && r.rows[n] == StateRow(e.ts, OPEN, e.cpu, e.next, TASK_RUNNING)
  {
    EnteringSane(s, e, cur);
    NobodyForgotten(s, e, cur);
    EnteringShape(s, e);
    n := |CheckWakeup(s, e.next).rows|;
    RememberCpuRow(Entering(s, e), e.cpu, n, cur, e.ts);
  }

  lemma RememberCpuRow(a: Tracker, cpu: u32, n: nat, cur: map<u32, u32>, now: int)
    requires Sane(a, cur, now, n) && n < |a.rows| && a.rows[n].cpu == cpu != INVALID_CPU
    ensures Sane(a.(cpuRow := a.cpuRow[cpu := n]), cur, now, n)
  {
    SameRowsSane(a, a.(cpuRow := a.cpuRow[cpu := n]), cur, now, n);
  }

  lemma CheckWakeupOthers(s: Tracker, t: u32, u: u32)
    requires Bounded(s)
    ensures var r := CheckWakeup(s, t);
            && t !in r.wake
            && (u != t ==>
                  && (u in r.wake <==> u in s.wake)
                  && (u in r.last <==> u in s.last)
                  && (u in s.last ==> r.last[u] == s.last[u]))
  {
  }

  /** The other threads keep what is remembered of them. */
  lemma SwitchInOthers(s: Tracker, e: Event, cur: map<u32, u32>, t: u32)
    requires e.Switch? && Sane(s, cur, e.ts, -1) && Legal(s, cur, e.ts, e) && e.next != 0
    ensures var r := SwitchIn(s, e);
            if t == e.next then t !in r.wake && t in r.last && r.last[t].state == TASK_RUNNING
            else && (t in r.wake <==> t in s.wake)
                 && (t in r.last <==> t in s.last)
                 && (t in s.last ==> r.last[t] == s.last[t])
  {
    NobodyForgotten(s, e, cur);
    EnteringShape(s, e);
    CheckWakeupOthers(s, e.next, t);
  }

  /** A thread with a pending wakeup that is switched out was running, so the wakeup is dropped. */
  lemma LeavingIsAdvance(s: Tracker, e: Event)
    requires e.Switch? && Bounded(s) && e.prev != 0 && !ChangedCpu(s, e)
    requires WakeupOfRunning(s, e.prev)
    ensures SwitchOut(s, e) == Advance(s.(wake := s.wake - {e.prev}), e.prev, e.ts, INVALID_CPU, e.prevState)
  {
    assert e.prev !in s.wake ==> s.wake - {e.prev} == s.wake;
  }

  /** The previous thread is moved on to its new state, unless it already runs elsewhere. */
  lemma SwitchOutSane(s: Tracker, e: Event, cur: map<u32, u32>, n: int)
    requires e.Switch? && Sane(s, cur, e.ts, n) && -1 <= n < |s.rows| && e.ts < OPEN
    requires WakeupOfRunning(s, e.prev)
    ensures Sane(SwitchOut(s, e), cur, e.ts, n)
  {
    if e.prev != 0 && !ChangedCpu(s, e) {
      LeavingIsAdvance(s, e);
      var w := s.(wake := s.wake - {e.prev});
      SameRowsSane(s, w, cur, e.ts, n);
      if e.prev in s.last {
        LastStarted(s, e.prev, e.ts);
      }
      AdvanceSane(w, e.prev, e.ts, INVALID_CPU, e.prevState, cur, e.ts, n);
    }
  }

  /** After the switch nothing but row n can be open on the cpu. */
  lemma NothingElseOpen(s: Tracker, e: Event, cur: map<u32, u32>, n: int, i: nat)
    requires e.Switch? && Sane(s, cur, e.ts, n) && -1 <= n < |s.rows| && e.ts < OPEN
    requires Legal(s, cur, e.ts, e)
    requires var r := SwitchOut(s, e);
             Sane(r, cur, e.ts, n) && i < |r.rows| && i != n && Open(r.rows[i])
    ensures SwitchOut(s, e).rows[i].cpu != e.cpu
  {
    var r := SwitchOut(s, e);
    assert RowSane(r, i, e.ts);
    if r.rows[i].cpu == e.cpu {
      assert e.cpu in cur && r.rows[i].itid == cur[e.cpu] == e.prev;
      assert !ChangedCpu(s, e);
      LeavingIsAdvance(s, e);
    }
  }

  lemma SwitchOutKeepsRow(s: Tracker, e: Event, i: nat)
    requires e.Switch? && Bounded(s) && i < |s.rows|
    requires WakeupOfRunning(s, e.prev)
    ensures var r := SwitchOut(s, e);
            |s.rows| <= |r.rows| && r.rows[i] == s.rows[i].(dur := r.rows[i].dur)
  {
    if e.prev != 0 && !ChangedCpu(s, e) {
      LeavingIsAdvance(s, e);
    }
  }

  /** Once prev has left, row n fits behind its predecessors on the cpu. */
  lemma Settle(s: Tracker, e: Event, cur: map<u32, u32>, n: int)
    requires e.Switch? && Sane(s, cur, e.ts, n) && -1 <= n < |s.rows| && Legal(s, cur, e.ts, e)
    requires n == -1 || (s.rows[n].ts == e.ts && s.rows[n].cpu == e.cpu && s.rows[n].itid == e.next)
    requires Sane(SwitchOut(s, e), cur, e.ts, n)
    ensures Sane(SwitchOut(s, e), After(cur, e), e.ts, -1)
  {
    var r := SwitchOut(s, e);
    if n >= 0 {
      SwitchOutKeepsRow(s, e, n);
    }
    forall i | 0 <= i < |r.rows| && Open(r.rows[i]) && r.rows[i].cpu != INVALID_CPU
      ensures r.rows[i].cpu in After(cur, e) && After(cur, e)[r.rows[i].cpu] == r.rows[i].itid
    {
      if i != n {
        NothingElseOpen(s, e, cur, n, i);
      }
    }
    forall i, j | 0 <= i < j < |r.rows| && r.rows[i].cpu == r.rows[j].cpu != INVALID_CPU
      ensures !Open(r.rows[i]) && End(r.rows[i]) <= r.rows[j].ts
    {
      if j == n {
        assert RowSane(r, i, e.ts);
        if Open(r.rows[i]) {
          NothingElseOpen(s, e, cur, n, i);
        }
      }
    }
  }

  lemma SwitchSane(s: Tracker, e: Event, cur: map<u32, u32>, now: int)
    requires e.Switch? && Sane(s, cur, now, -1) && Legal(s, cur, now, e)
    ensures Sane(OnSwitch(s, e), After(cur, e), e.ts, -1)
  {
    assert Bounded(s);
    hide Sane, SwitchOut;
    Later(s, cur, now, e.ts);
    SchedSwitchSane(s, e, cur, e.ts);
    var s1 := SchedSwitch(s, e);
    var n: int := -1;
    if e.next != 0 {
      n := SwitchInSane(s1, e, cur);
      SwitchInOthers(s1, e, cur, e.prev);
    }
    var s2 := SwitchIn(s1, e);
    SwitchOutSane(s2, e, cur, n);
    Settle(s2, e, cur, n);
  }

  lemma LastStartedAll(s: Tracker, now: int)
    requires ThreadTimelines(s, now)
    ensures forall t :: t in s.last ==> s.last[t].row < |s.rows| && s.rows[s.last[t].row].ts <= now
  {
    forall t | t in s.last ensures s.last[t].row < |s.rows| && s.rows[s.last[t].row].ts <= now {
      LastStarted(s, t, now);
    }
  }

  lemma WakeupTimely(s: Tracker, e: Event)
    requires e.Wakeup? && e.ts < OPEN && WakeupsTimely(s, e.ts)
    requires forall t :: t in s.last ==> s.last[t].row < |s.rows| && s.rows[s.last[t].row].ts <= e.ts
    ensures WakeupsTimely(OnWakeup(s, e), e.ts)
  {
  }

  lemma WakeupSane(s: Tracker, e: Event, cur: map<u32, u32>, now: int)
    requires e.Wakeup? && Sane(s, cur, now, -1) && now <= e.ts < OPEN
    ensures Sane(OnWakeup(s, e), cur, e.ts, -1)
  {
    Later(s, cur, now, e.ts);
    LastStartedAll(s, e.ts);
    WakeupTimely(s, e);
    var r := OnWakeup(s, e);
    assert r == s.(wake := r.wake);
    SameRowsSane(s, r, cur, e.ts, -1);
  }

  lemma StepSane(s: Tracker, e: Event, cur: map<u32, u32>, now: int)
    requires Sane(s, cur, now, -1) && Legal(s, cur, now, e)
    ensures Sane(Step(s, e), After(cur, e), e.ts, -1)
  {
    if e.Switch? {
      SwitchSane(s, e, cur, now);
    } else {
      WakeupSane(s, e, cur, now);
    }
  }

  // ---------------------------------------------------------------------------
  // Scheduling slices
  // ---------------------------------------------------------------------------

  /** The last slice of a cpu before slice j, or -1. */
  function PrevSlice(sched: seq<SchedRow>, cpu: u32, j: nat): (p: int)
    requires j <= |sched|
    ensures -1 <= p < j
    ensures p >= 0 ==> sched[p].cpu == cpu
    ensures forall k :: p < k < j ==> sched[k].cpu != cpu
  {
    if j == 0 then -1 else if sched[j - 1].cpu == cpu then j - 1 else PrevSlice(sched, cpu, j - 1)
  }

  lemma {:induction false} PrevSliceSame(a: seq<SchedRow>, b: seq<SchedRow>, cpu: u32, j: nat)
    requires j <= |a| && j <= |b|
    requires forall k :: 0 <= k < j ==> a[k].cpu == b[k].cpu
    ensures PrevSlice(a, cpu, j) == PrevSlice(b, cpu, j)
  {
    if j > 0 && a[j - 1].cpu != cpu {
      PrevSliceSame(a, b, cpu, j - 1);
    }
  }

  /** One slice of a cpu ends where the next begins. */
  ghost predicate SlicesAbut(sched: seq<SchedRow>) {
    forall j :: 0 <= j < |sched| ==> SliceAbutsAt(sched, j)
  }

  ghost predicate SliceAbutsAt(sched: seq<SchedRow>, j: nat)
    requires j < |sched|
  {
    var p := PrevSlice(sched, sched[j].cpu, j);
    p >= 0 ==> sched[p].ts + sched[p].dur == sched[j].ts
  }

  /** The slice remembered for a cpu is its last one and has not been ended. */
  ghost predicate LastSlice(s: Tracker, c: u32)
    requires c in s.cpuSched
  {
    var i := s.cpuSched[c];
    && i < |s.sched| && s.sched[i].cpu == c && s.sched[i].dur == 0
    && forall j :: i < j < |s.sched| ==> s.sched[j].cpu != c
  }

  ghost predicate SliceSane(s: Tracker, j: nat, now: int)
    requires j < |s.sched|
  {
    s.sched[j].ts <= now && s.sched[j].cpu in s.cpuSched
  }

  /** The slices of each cpu tile time, and only its last one is open. */
  ghost predicate Tiled(s: Tracker, now: int) {
    && (forall j :: 0 <= j < |s.sched| ==> SliceSane(s, j, now))
    && (forall c :: c in s.cpuSched ==> LastSlice(s, c))
    && SlicesAbut(s.sched)
  }

  lemma SchedSwitchSlice(s: Tracker, e: Event, now: int, j: nat)
    requires Bounded(s) && Tiled(s, now) && e.Switch? && now <= e.ts && j < |SchedSwitch(s, e).sched|
    ensures SliceSane(SchedSwitch(s, e), j, e.ts)
  {
    assert SchedSwitch(s, e).cpuSched == s.cpuSched[e.cpu := |s.sched|];
    SchedSwitchRow(s, e, j);
    if j < |s.sched| {
      assert SliceSane(s, j, now);
    }
  }

  lemma SchedSwitchLast(s: Tracker, e: Event, now: int, c: u32)
    requires Bounded(s) && Tiled(s, now) && e.Switch? && now <= e.ts && c in SchedSwitch(s, e).cpuSched
    ensures LastSlice(SchedSwitch(s, e), c)
  {
    hide SliceSane, SlicesAbut;
    var r := SchedSwitch(s, e);
    assert r.cpuSched == s.cpuSched[e.cpu := |s.sched|];
    SchedSwitchRow(s, e, r.cpuSched[c]);
    if c != e.cpu {
      assert LastSlice(s, c);
    }
  }

  lemma SchedSwitchSlices(s: Tracker, e: Event, now: int)
    requires Bounded(s) && Tiled(s, now) && e.Switch? && now <= e.ts
    ensures var r := SchedSwitch(s, e);
            (forall j :: 0 <= j < |r.sched| ==> SliceSane(r, j, e.ts)) && forall c :: c in r.cpuSched ==> LastSlice(r, c)
  {
    hide SliceSane, LastSlice, Tiled, SchedSwitch;
    var r := SchedSwitch(s, e);
    forall j | 0 <= j < |r.sched| ensures SliceSane(r, j, e.ts) {
      SchedSwitchSlice(s, e, now, j);
    }
    forall c | c in r.cpuSched ensures LastSlice(r, c) {
      SchedSwitchLast(s, e, now, c);
    }
  }

  lemma SchedSwitchAbut(s: Tracker, e: Event, now: int)
    requires Bounded(s) && Tiled(s, now) && e.Switch? && now <= e.ts
    ensures SlicesAbut(SchedSwitch(s, e).sched)
  {
    var r := SchedSwitch(s, e).sched;
    SchedSwitchRow(s, e, 0);
    hide SchedSwitch, Tiled, SliceAbutsAt;
    forall j | 0 <= j < |r| ensures SliceAbutsAt(r, j) {
      SwitchedSliceAbuts(s, e, now, j);
    }
  }

  lemma SwitchedSliceAbuts(s: Tracker, e: Event, now: int, j: nat)
    requires Bounded(s) && Tiled(s, now) && e.Switch? && now <= e.ts && j <= |s.sched|
    ensures j < |SchedSwitch(s, e).sched| && SliceAbutsAt(SchedSwitch(s, e).sched, j)
  {
    SchedSwitchRow(s, e, j);
    assert j < |s.sched| ==> SliceAbutsAt(s.sched, j);
    hide SchedSwitch, SlicesAbut, PrevSlice;
    var r := SchedSwitch(s, e).sched;
    PrevSliceSame(s.sched, r, r[j].cpu, j);
    var p := PrevSlice(r, r[j].cpu, j);
    if p >= 0 {
      assert SliceSane(s, p, now);
      assert LastSlice(s, s.sched[p].cpu);
      SchedSwitchRow(s, e, p);
    }
  }

  /** A switch ends the cpu's last slice and appends one; every other slice stays as it is. */
  lemma SchedSwitchRow(s: Tracker, e: Event, j: nat)
    requires Bounded(s) && e.Switch? && j <= |s.sched|
    ensures var r := SchedSwitch(s, e).sched;
            && |r| == |s.sched| + 1
            && (forall k :: 0 <= k < |s.sched| ==> r[k].cpu == s.sched[k].cpu && r[k].ts == s.sched[k].ts)
            && (j == |s.sched| ==> r[j].cpu == e.cpu && r[j].ts == e.ts)
            && (j < |s.sched| ==>
                  if e.cpu in s.cpuSched && j == s.cpuSched[e.cpu]
                  then r[j].dur == Wrap64(e.ts - s.sched[j].ts) else r[j] == s.sched[j])
  {
  }

  lemma StepTiled(s: Tracker, e: Event, now: int)
    requires Bounded(s) && Tiled(s, now) && now <= e.ts
    ensures Tiled(Step(s, e), e.ts)
  {
    var r := Step(s, e);
    if e.Switch? {
      SchedSwitchSlices(s, e, now);
      SchedSwitchAbut(s, e, now);
      var q := SchedSwitch(s, e);
      assert r.sched == q.sched && r.cpuSched == q.cpuSched;
      forall j | 0 <= j < |r.sched| ensures SliceSane(r, j, e.ts) {
        assert SliceSane(q, j, e.ts);
      }
      forall c | c in r.cpuSched ensures LastSlice(r, c) {
        assert LastSlice(q, c);
      }
    } else {
      forall j | 0 <= j < |r.sched| ensures SliceSane(r, j, e.ts) {
        assert SliceSane(s, j, now);
      }
      forall c | c in r.cpuSched ensures LastSlice(r, c) {
        assert LastSlice(s, c);
      }
    }
  }

  // ---------------------------------------------------------------------------
  // Runs
  // ---------------------------------------------------------------------------

  function CurrentOf(events: seq<Event>): (cur: map<u32, u32>) {
    if events == [] then map[] else After(CurrentOf(events[..|events| - 1]), events[|events| - 1])
  }

  function NowOf(events: seq<Event>): (now: int) {
    if events == [] then 0 else events[|events| - 1].ts
  }

  ghost predicate LegalRun(events: seq<Event>) {
    events == [] ||
    var before := events[..|events| - 1];
    LegalRun(before) && Legal(Run(before), CurrentOf(before), NowOf(before), events[|events| - 1])
  }

  /** Over every legal trace: each thread's state rows abut with only its last one open, no two
      threads run on one cpu at once, and each cpu's scheduling slices tile time. */
  lemma {:induction false} LegalRunSane(events: seq<Event>)
    requires LegalRun(events)
    ensures Sane(Run(events), CurrentOf(events), NowOf(events), -1)
    ensures Tiled(Run(events), NowOf(events))
  {
    if events != [] {
      var before, e := events[..|events| - 1], events[|events| - 1];
      LegalRunSane(before);
      StepSane(Run(before), e, CurrentOf(before), NowOf(before));
      StepTiled(Run(before), e, NowOf(before));
    }
  }

  /** The same, said of the tables alone. */
  lemma {:induction false} RebuiltTimelines(events: seq<Event>, i: nat, j: nat)
    requires LegalRun(events)
    ensures var rows := Run(events).rows;
            && Abut(rows)
            && (i < j < |rows| && rows[i].itid == rows[j].itid ==> !Open(rows[i]))
            && (i < j < |rows| && rows[i].cpu == rows[j].cpu != INVALID_CPU ==>
                  !Open(rows[i]) && End(rows[i]) <= rows[j].ts)
    ensures SlicesAbut(Run(events).sched)
  {
    LegalRunSane(events);
    var s := Run(events);
    if i < j < |s.rows| && s.rows[i].itid == s.rows[j].itid {
      assert RowSane(s, i, NowOf(events));
      assert LastRow(s, s.rows[i].itid);
    }
  }

  // ---------------------------------------------------------------------------
  // Natural traces are legal
  // ---------------------------------------------------------------------------

  /** A cpu's prev is its preceding next or, on its first switch, idle or a thread never seen
      before; a thread is switched in only while it runs nowhere. */
  ghost predicate Natural(s: Tracker, cur: map<u32, u32>, now: int, e: Event) {
    && now <= e.ts < OPEN
    && (e.Switch? ==>
          && e.cpu != INVALID_CPU
          && (if e.cpu in cur then e.prev == cur[e.cpu] else e.prev == 0 || (e.prev !in s.last && e.prev !in s.wake))
          && (e.next != 0 ==> e.next != e.prev && forall c :: c in cur ==> cur[c] != e.next))
  }

  ghost predicate RunsOn(s: Tracker, t: u32, c: u32) {
    t in s.last && s.last[t].row < |s.rows| && s.last[t].state == TASK_RUNNING && s.rows[s.last[t].row].cpu == c
  }

  /** The threads the trace has on the cpus are running there, each on one cpu. */
  ghost predicate RunningMatches(s: Tracker, cur: map<u32, u32>) {
    && (forall c :: c in cur && cur[c] != 0 ==> RunsOn(s, cur[c], c))
    && (forall c, d :: c in cur && d in cur && cur[c] == cur[d] != 0 ==> c == d)
  }

  lemma NaturalIsLegal(s: Tracker, cur: map<u32, u32>, now: int, e: Event)
    requires RunningMatches(s, cur) && Natural(s, cur, now, e)
    ensures Legal(s, cur, now, e)
  {
    if e.Switch? && e.cpu in cur && e.prev != 0 {
      assert RunsOn(s, cur[e.cpu], e.cpu);
    }
  }

  lemma SwitchInKeepsRow(s: Tracker, e: Event, i: nat)
    requires e.Switch? && Bounded(s) && i < |s.rows|
    ensures var r := SwitchIn(s, e);
            |s.rows| <= |r.rows| && r.rows[i].cpu == s.rows[i].cpu
  {
  }

  lemma SwitchOutOthers(s: Tracker, e: Event, t: u32)
    requires e.Switch? && Bounded(s) && t != e.prev && WakeupOfRunning(s, e.prev)
    ensures var r := SwitchOut(s, e);
            && (t in r.last <==> t in s.last)
            && (t in s.last ==> r.last[t] == s.last[t])
  {
    if e.prev != 0 && !ChangedCpu(s, e) {
      LeavingIsAdvance(s, e);
    }
  }

  /** The scheduling table is apart from the thread states. */
  lemma SchedSwitchKeeps(s: Tracker, e: Event)
    requires Bounded(s) && e.Switch?
    ensures var r := SchedSwitch(s, e);
            Bounded(r) && r.rows == s.rows && r.last == s.last && r.wake == s.wake
  {
  }

  /** A thread that is not switched in runs where it ran. */
  lemma SwitchInRuns(s: Tracker, e: Event, cur: map<u32, u32>, t: u32, c: u32)
    requires e.Switch? && Sane(s, cur, e.ts, -1) && Legal(s, cur, e.ts, e)
    requires RunsOn(s, t, c) && t != e.next
    ensures RunsOn(SwitchIn(s, e), t, c)
  {
    assert Bounded(s);
    assert e.next == 0 ==> SwitchIn(s, e) == s;
    hide Sane, Legal, SwitchIn;
    if e.next != 0 {
      SwitchInOthers(s, e, cur, t);
      SwitchInKeepsRow(s, e, s.last[t].row);
    }
  }

  /** Nor does switching in disturb the thread that leaves. */
  lemma SwitchInLeaves(s: Tracker, e: Event, cur: map<u32, u32>)
    requires e.Switch? && Sane(s, cur, e.ts, -1) && Legal(s, cur, e.ts, e)
    ensures WakeupOfRunning(SwitchIn(s, e), e.prev)
  {
    assert e.next == 0 ==> SwitchIn(s, e) == s;
    if e.next != 0 {
      SwitchInOthers(s, e, cur, e.prev);
    }
    hide Sane, SwitchIn;
  }

  lemma SwitchOutRuns(s: Tracker, e: Event, t: u32, c: u32)
    requires e.Switch? && Bounded(s) && WakeupOfRunning(s, e.prev) && RunsOn(s, t, c) && t != e.prev
    ensures RunsOn(SwitchOut(s, e), t, c)
  {
    hide SwitchOut, Bounded;
    SwitchOutOthers(s, e, t);
    SwitchOutKeepsRow(s, e, s.last[t].row);
  }

  lemma SameThreadsRun(s: Tracker, r: Tracker, cur: map<u32, u32>, e: Event, t: u32, c: u32)
    requires Legal(s, cur, e.ts, e) && r.rows == s.rows && r.last == s.last && r.wake == s.wake
    ensures Legal(r, cur, e.ts, e) && (RunsOn(s, t, c) ==> RunsOn(r, t, c))
  {
  }

  /** A thread that takes no part in the switch runs where it ran. */
  lemma BystanderRuns(s: Tracker, e: Event, cur: map<u32, u32>, t: u32, c: u32)
    requires e.Switch? && Sane(s, cur, e.ts, -1) && Legal(s, cur, e.ts, e)
    requires RunsOn(s, t, c) && t != e.prev && t != e.next && t != 0
    ensures RunsOn(OnSwitch(s, e), t, c)
  {
    assert Bounded(s);
    hide Sane, Legal, RunsOn, SchedSwitch, SwitchIn, SwitchOut, WakeupOfRunning, Bounded;
    var s1 := SchedSwitch(s, e);
    SchedSwitchKeeps(s, e);
    SchedSwitchSane(s, e, cur, e.ts);
    SameThreadsRun(s, s1, cur, e, t, c);
    SwitchInRuns(s1, e, cur, t, c);
    SwitchInLeaves(s1, e, cur);
    SwitchOutRuns(SwitchIn(s1, e), e, t, c);
  }

  lemma NextEnters(s: Tracker, e: Event, cur: map<u32, u32>)
    requires e.Switch? && Sane(s, cur, e.ts, -1) && Legal(s, cur, e.ts, e) && e.next != 0
    ensures RunsOn(SwitchIn(s, e), e.next, e.cpu)
  {
    NobodyForgotten(s, e, cur);
    EnteringShape(s, e);
    hide Sane, Legal, SwitchIn, CheckWakeup, Entering;
  }

  /** The thread that is switched in runs on the cpu. */
  lemma NextRuns(s: Tracker, e: Event, cur: map<u32, u32>)
    requires e.Switch? && Sane(s, cur, e.ts, -1) && Legal(s, cur, e.ts, e)
    requires e.next != 0 && e.next != e.prev
    ensures RunsOn(OnSwitch(s, e), e.next, e.cpu)
  {
    assert Bounded(s);
    hide Sane, Legal, RunsOn, SchedSwitch, SwitchIn, SwitchOut, WakeupOfRunning, Bounded;
    var s1 := SchedSwitch(s, e);
    SchedSwitchKeeps(s, e);
    SchedSwitchSane(s, e, cur, e.ts);
    SameThreadsRun(s, s1, cur, e, e.next, e.cpu);
    NextEnters(s1, e, cur);
    SwitchInLeaves(s1, e, cur);
    SwitchOutRuns(SwitchIn(s1, e), e, e.next, e.cpu);
  }

  lemma NaturalStep(s: Tracker, e: Event, cur: map<u32, u32>, now: int)
    requires Sane(s, cur, now, -1) && RunningMatches(s, cur) && Natural(s, cur, now, e)
    ensures RunningMatches(Step(s, e), After(cur, e))
  {
    NaturalIsLegal(s, cur, now, e);
    var r, cur' := Step(s, e), After(cur, e);
    if e.Switch? {
      Later(s, cur, now, e.ts);
      forall c | c in cur' && cur'[c] != 0 ensures RunsOn(r, cur'[c], c) {
        if c == e.cpu {
          NextRuns(s, e, cur);
        } else {
          assert RunsOn(s, cur[c], c);
          BystanderRuns(s, e, cur, cur[c], c);
        }
      }
    } else {
      forall c | c in cur' && cur'[c] != 0 ensures RunsOn(r, cur'[c], c) {
        assert RunsOn(s, cur[c], c);
      }
    }
  }

  ghost predicate NaturalRun(events: seq<Event>) {
    events == [] ||
    var before := events[..|events| - 1];
    NaturalRun(before) && Natural(Run(before), CurrentOf(before), NowOf(before), events[|events| - 1])
  }

  /** Every natural trace is legal, so its timelines are rebuilt as stated above. */
  lemma {:induction false} NaturalRunIsLegal(events: seq<Event>)
    requires NaturalRun(events)
    ensures LegalRun(events) && RunningMatches(Run(events), CurrentOf(events))
  {
    if events != [] {
      var before, e := events[..|events| - 1], events[|events| - 1];
      NaturalRunIsLegal(before);
      LegalRunSane(before);
      NaturalIsLegal(Run(before), CurrentOf(before), NowOf(before), e);
      NaturalStep(Run(before), e, CurrentOf(before), NowOf(before));
    }
  }
}
