/** What the rebuilt tables say, in terms of the events they come from. */
module CpuRecords {
  import opened Words
  import opened CpuFilter
  import opened CpuTimelines

  // ---------------------------------------------------------------------------
  // Scheduling slices
  // ---------------------------------------------------------------------------

  /** The switch events; row r of the scheduling table comes from entry r. */
  function Switches(events: seq<Event>): (r: seq<nat>)
    ensures forall k :: 0 <= k < |r| ==> r[k] < |events| && events[r[k]].Switch?
  {
    if events == [] then [] else
    var n := |events| - 1;
    if events[n].Switch? then Switches(events[..n]) + [n] else Switches(events[..n])
  }

  /** The first switch on the same cpu after event i, among the first n events. */
  function NextSwitch(events: seq<Event>, i: nat, n: nat): (j: Option<nat>)
    requires i < |events| && n <= |events| && events[i].Switch?
    ensures j.Some? ==> i < j.value < n && events[j.value].Switch? && events[j.value].cpu == events[i].cpu
    ensures forall x :: i < x < n && events[x].Switch? && events[x].cpu == events[i].cpu ==> j.Some? && j.value <= x
  {
    if n <= i + 1 then None else
    var j := NextSwitch(events, i, n - 1);
    if j.Some? then j
    else if events[n - 1].Switch? && events[n - 1].cpu == events[i].cpu then Some(n - 1) else None
  }

  /** The slice of a switch: the next thread runs until the cpu's next switch, which says in
      which state it leaves. */
  function SliceOf(events: seq<Event>, i: nat): (r: SchedRow)
    requires i < |events| && events[i].Switch?
  {
    var e := events[i];
    match NextSwitch(events, i, |events|)
    case None => SchedRow(e.ts, 0, e.cpu, e.next, 0, e.nextPriority)
    case Some(j) => SchedRow(e.ts, Wrap64(events[j].ts - e.ts), e.cpu, e.next, events[j].prevState, e.nextPriority)
  }

  /** Row r holds the slice of switch i and is the remembered one of its cpu exactly while no
      switch follows. */
  ghost predicate RowRecorded(events: seq<Event>, s: Tracker, i: nat, r: nat)
    requires i < |events| && events[i].Switch?
  {
    && r < |s.sched| && s.sched[r] == SliceOf(events, i)
    && (NextSwitch(events, i, |events|).None? <==> events[i].cpu in s.cpuSched && s.cpuSched[events[i].cpu] == r)
  }

  ghost predicate CpusRight(s: Tracker) {
    forall c :: c in s.cpuSched ==> s.cpuSched[c] < |s.sched| && s.sched[s.cpuSched[c]].cpu == c
  }

  ghost predicate Recorded(events: seq<Event>, s: Tracker) {
    var from := Switches(events);
    && |s.sched| == |from| && CpusRight(s)
    && (forall r :: 0 <= r < |from| ==> RowRecorded(events, s, from[r], r))
  }

  lemma {:induction false} NextSwitchPrefix(events: seq<Event>, i: nat, n: nat)
    requires i < n < |events| && events[i].Switch?
    ensures events[..n][i] == events[i] && NextSwitch(events[..n], i, n) == NextSwitch(events, i, n)
  {
    PrefixUpTo(events, i, n, n);
  }

  lemma {:induction false} PrefixUpTo(events: seq<Event>, i: nat, n: nat, m: nat)
    requires i < n < |events| && m <= n && events[i].Switch?
    ensures NextSwitch(events[..n], i, m) == NextSwitch(events, i, m)
  {
    if m > i + 1 {
      PrefixUpTo(events, i, n, m - 1);
    }
  }

  /** What one more event does to the slice of an earlier switch. */
  lemma SliceNext(events: seq<Event>, i: nat)
    requires |events| > 0 && i < |events| - 1 && events[i].Switch?
    ensures var n := |events| - 1;
            var e, before := events[n], events[..n];
            var open := NextSwitch(before, i, n).None?;
            if open && e.Switch? && e.cpu == events[i].cpu then
              && NextSwitch(events, i, |events|) == Some(n)
              && SliceOf(events, i) == SliceOf(before, i).(dur := Wrap64(e.ts - events[i].ts), endState := e.prevState)
            else
              && NextSwitch(events, i, |events|) == NextSwitch(before, i, n)
              && SliceOf(events, i) == SliceOf(before, i)
  {
    NextSwitchPrefix(events, i, |events| - 1);
  }

  /** Which rows a switch changes, and how. */
  lemma SwitchShape(s: Tracker, e: Event, k: nat)
    requires Bounded(s) && e.Switch? && k <= |s.sched|
    ensures var r := SchedSwitch(s, e);
            && |r.sched| == |s.sched| + 1 && r.cpuSched == s.cpuSched[e.cpu := |s.sched|]
            && r.sched[k] ==
               if k == |s.sched| then SchedRow(e.ts, 0, e.cpu, e.next, 0, e.nextPriority)
               else if e.cpu in s.cpuSched && s.cpuSched[e.cpu] == k
               then s.sched[k].(dur := Wrap64(e.ts - s.sched[k].ts), endState := e.prevState)
               else s.sched[k]
  {
  }

  lemma SwitchRow(events: seq<Event>, s: Tracker, i: nat, k: nat)
    requires events != [] && events[|events| - 1].Switch? && Bounded(s) && i < |events| - 1 && events[i].Switch?
    requires events[..|events| - 1][i] == events[i] && RowRecorded(events[..|events| - 1], s, i, k) && CpusRight(s)
    ensures RowRecorded(events, SchedSwitch(s, events[|events| - 1]), i, k)
  {
    SliceNext(events, i);
    SwitchShape(s, events[|events| - 1], k);
    hide SchedSwitch, NextSwitch;
  }

  lemma SwitchRecords(events: seq<Event>, s: Tracker)
    requires events != [] && events[|events| - 1].Switch? && Bounded(s)
    requires Recorded(events[..|events| - 1], s)
    ensures Recorded(events, SchedSwitch(s, events[|events| - 1]))
  {
    hide SchedSwitch, NextSwitch, SliceOf;
    var n := |events| - 1;
    var before, e := events[..n], events[n];
    var from, r := Switches(before), SchedSwitch(s, e);
    assert Switches(events) == from + [n];
    SwitchShape(s, e, |from|);
    NewSlice(events);
    CpusStayRight(s, e);
    forall k | 0 <= k < |from| ensures RowRecorded(events, r, from[k], k) {
      assert RowRecorded(before, s, from[k], k);
      SwitchRow(events, s, from[k], k);
    }
  }

  lemma CpusStayRight(s: Tracker, e: Event)
    requires Bounded(s) && e.Switch? && CpusRight(s)
    ensures CpusRight(SchedSwitch(s, e))
  {
    hide SchedSwitch;
    var r := SchedSwitch(s, e);
    SwitchShape(s, e, |s.sched|);
    forall c | c in r.cpuSched ensures r.cpuSched[c] < |r.sched| && r.sched[r.cpuSched[c]].cpu == c {
      if c != e.cpu {
        SwitchShape(s, e, s.cpuSched[c]);
      }
    }
  }

  lemma {:induction false} NewSlice(events: seq<Event>)
    requires events != [] && events[|events| - 1].Switch?
    ensures var n := |events| - 1;
            && NextSwitch(events, n, |events|) == None
            && SliceOf(events, n) == SchedRow(events[n].ts, 0, events[n].cpu, events[n].next, 0, events[n].nextPriority)
  {
  }

  lemma WakeupRecords(events: seq<Event>, s: Tracker)
    requires events != [] && !events[|events| - 1].Switch? && Recorded(events[..|events| - 1], s)
    ensures Recorded(events, s)
  {
    hide NextSwitch, SliceOf;
    var before, from := events[..|events| - 1], Switches(events);
    assert from == Switches(before);
    forall k | 0 <= k < |from| ensures RowRecorded(events, s, from[k], k) {
      SliceNext(events, from[k]);
      assert RowRecorded(before, s, from[k], k);
    }
  }

  lemma {:induction false} RunRecords(events: seq<Event>)
    ensures Recorded(events, Run(events))
  {
    if events != [] {
      var n := |events| - 1;
      var s, e := Run(events[..n]), events[n];
      RunRecords(events[..n]);
      hide Recorded;
      if e.Switch? {
        SwitchRecords(events, s);
        SameSchedule(events, SchedSwitch(s, e), Run(events));
      } else {
        WakeupRecords(events, s);
        SameSchedule(events, s, Run(events));
      }
    }
  }

  lemma SameSchedule(events: seq<Event>, s: Tracker, r: Tracker)
    requires Recorded(events, s) && r.sched == s.sched && r.cpuSched == s.cpuSched
    ensures Recorded(events, r)
  {
  }

  /** Over every run, legal or not: the scheduling table has one slice per switch, in order, and
      each lasts to the next switch on its cpu and ends in the state given there. */
  lemma {:induction false} SlicesAreSwitches(events: seq<Event>, r: nat)
    requires r < |Run(events).sched|
    ensures |Run(events).sched| == |Switches(events)|
    ensures Run(events).sched[r] == SliceOf(events, Switches(events)[r])
  {
    RunRecords(events);
    assert RowRecorded(events, Run(events), Switches(events)[r], r);
  }
}
