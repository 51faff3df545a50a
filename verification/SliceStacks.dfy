/** Which slices stay on a stack when closed ones are taken off it
    (trace_streamer/src/filter/slice_filter.cpp:241-271). */
module SliceStacks {
  import opened Words
  import opened SliceFilter

  /** The entry is open, or ends at ts. */
  predicate Alive(rows: seq<Row>, ts: u64, e: Entry)
    requires e.index < |rows|
  {
    IsOpen(rows[e.index]) || EndTs(rows[e.index]) == AsInt64(ts)
  }

  /** The first n entries can stay: none has ended before ts, and the top one is open. */
  predicate Stays(rows: seq<Row>, ts: u64, stack: seq<Entry>, n: nat)
    requires InTable(rows, stack) && n <= |stack|
  {
    && (forall k :: 0 <= k < n ==> Alive(rows, ts, stack[k]))
    && (n > 0 ==> IsOpen(rows[stack[n - 1].index]))
  }

  /** Closed entries have ended by ts. */
  predicate Ended(rows: seq<Row>, ts: u64, stack: seq<Entry>)
    requires InTable(rows, stack)
  {
    forall k :: 0 <= k < |stack| && !IsOpen(rows[stack[k].index]) ==> EndTs(rows[stack[k].index]) <= AsInt64(ts)
  }

  /** The r entries that stay are the longest part that can. */
  predicate Longest(rows: seq<Row>, ts: u64, stack: seq<Entry>, r: nat)
    requires InTable(rows, stack)
  {
    r <= |stack| && Stays(rows, ts, stack, r) && forall n :: r < n <= |stack| ==> !Stays(rows, ts, stack, n)
  }

  /** While the scan has not met an open entry it has taken everything above it off. */
  lemma {:induction false} ScanKeepsLongest(rows: seq<Row>, ts: u64, stack: seq<Entry>, i: int, incomplete: bool)
    requires InTable(rows, stack) && Ended(rows, ts, stack) && -1 <= i < |stack|
    requires if incomplete then i < |stack| - 1 && IsOpen(rows[stack[|stack| - 1].index]) else i == |stack| - 1
    requires forall k :: i < k < |stack| ==> Alive(rows, ts, stack[k])
    ensures Longest(rows, ts, stack, |CloseFrom(rows, ts, stack, i, incomplete)|)
    decreases i + 1
  {
    if i >= 0 {
      var row := rows[stack[i].index];
      if IsOpen(row) {
        ScanKeepsLongest(rows, ts, stack, i - 1, true);
      } else if incomplete && AsInt64(ts) <= EndTs(row) {
        ScanKeepsLongest(rows, ts, stack, i - 1, true);
      } else {
        ScanKeepsLongest(rows, ts, stack[..i], i - 1, false);
        ShorterLongest(rows, ts, stack, i, |CloseFrom(rows, ts, stack[..i], i - 1, false)|);
      }
    }
  }

  /** An entry that cannot stay takes all above it with it. */
  lemma ShorterLongest(rows: seq<Row>, ts: u64, stack: seq<Entry>, i: nat, r: nat)
    requires InTable(rows, stack) && i < |stack| && Longest(rows, ts, stack[..i], r)
    requires !Alive(rows, ts, stack[i]) || (i == |stack| - 1 && !IsOpen(rows[stack[i].index]))
    ensures Longest(rows, ts, stack, r)
  {
    forall n | r < n <= |stack| ensures !Stays(rows, ts, stack, n) {
      if n <= i {
        assert !Stays(rows, ts, stack[..i], n);
      }
    }
    assert Stays(rows, ts, stack[..i], r);
  }

  /** When every closed slice on the stack has ended by ts, what stays is the longest part below
      in which nothing ended before ts and the top is open. */
  lemma CloseKeepsLongest(rows: seq<Row>, ts: u64, stack: seq<Entry>)
    requires InTable(rows, stack) && Ended(rows, ts, stack)
    ensures Longest(rows, ts, stack, |CloseUnmatched(rows, ts, stack)|)
  {
    ScanKeepsLongest(rows, ts, stack, |stack| - 1, false);
  }

  // ---------------------------------------------------------------------------
  // Whatever the times are
  // ---------------------------------------------------------------------------

  /** The entry has ended before ts. */
  predicate Past(rows: seq<Row>, ts: u64, e: Entry)
    requires e.index < |rows|
  {
    !IsOpen(rows[e.index]) && EndTs(rows[e.index]) < AsInt64(ts)
  }

  /** Entry i has ended before ts below an open one, and no entry between the two has. */
  ghost predicate Cut(rows: seq<Row>, ts: u64, stack: seq<Entry>, i: nat)
    requires InTable(rows, stack)
  {
    && i < |stack| && Past(rows, ts, stack[i])
    && exists j :: i < j < |stack| && IsOpen(rows[stack[j].index]) && ClosedLate(rows, ts, stack, i + 1, j)
  }

  predicate ClosedLate(rows: seq<Row>, ts: u64, stack: seq<Entry>, i: nat, j: nat)
    requires InTable(rows, stack) && j <= |stack|
  {
    forall k :: i <= k < j ==> !IsOpen(rows[stack[k].index]) && !Past(rows, ts, stack[k])
  }

  /** How many of the closed entries on top of the first c have ended by ts. */
  function Popped(rows: seq<Row>, ts: u64, stack: seq<Entry>, c: nat): (n: nat)
    requires InTable(rows, stack) && c <= |stack|
    ensures n <= c
  {
    if c == 0 || IsOpen(rows[stack[c - 1].index]) then 0
    else Popped(rows, ts, stack, c - 1) + if EndTs(rows[stack[c - 1].index]) <= AsInt64(ts) then 1 else 0
  }

  /** c is the lowest cut, or the height of the stack if there is none. */
  ghost predicate LowestCut(rows: seq<Row>, ts: u64, stack: seq<Entry>, c: nat)
    requires InTable(rows, stack)
  {
    c <= |stack| && (c == |stack| || Cut(rows, ts, stack, c)) && forall i :: 0 <= i < c ==> !Cut(rows, ts, stack, i)
  }

  /** The scan at entry i, below the cut c, with l entries left. */
  ghost predicate Scanning(rows: seq<Row>, ts: u64, stack: seq<Entry>, c: nat, l: nat, i: int, incomplete: bool)
    requires InTable(rows, stack)
  {
    && -1 <= i < l <= c <= |stack|
    && (c == |stack| || Cut(rows, ts, stack, c)) && (forall k :: i < k < c ==> !Cut(rows, ts, stack, k))
    && if incomplete then
         && l + Popped(rows, ts, stack, c) == c
         && exists j :: i < j < c && IsOpen(rows[stack[j].index]) && ClosedLate(rows, ts, stack, i + 1, j)
       else
         && l + Popped(rows, ts, stack, c) == c + Popped(rows, ts, stack, i + 1)
         && forall k :: i < k < c ==> !IsOpen(rows[stack[k].index])
  }

  /** A closed entry right above the last cut is none itself. */
  lemma NoCutAbove(rows: seq<Row>, ts: u64, stack: seq<Entry>, c: nat, i: nat)
    requires InTable(rows, stack) && i < c <= |stack| && (c == |stack| || Past(rows, ts, stack[c]))
    requires forall k :: i <= k < c ==> !IsOpen(rows[stack[k].index])
    ensures !Cut(rows, ts, stack, i)
  {
    forall j | i < j < |stack| && IsOpen(rows[stack[j].index]) ensures !ClosedLate(rows, ts, stack, i + 1, j) {
      assert c < j;
      assert Past(rows, ts, stack[c]);
    }
  }

  /** The scan of the first l entries from entry i down. */
  function ScanOf(rows: seq<Row>, ts: u64, stack: seq<Entry>, l: nat, i: int, incomplete: bool): (r: seq<Entry>)
    requires InTable(rows, stack) && -1 <= i < l <= |stack|
    ensures r <= stack
  {
    CloseFrom(rows, ts, stack[..l], i, incomplete)
  }

  lemma {:induction false} ScanNext(rows: seq<Row>, ts: u64, stack: seq<Entry>, l: nat, i: int, incomplete: bool)
    requires InTable(rows, stack) && -1 <= i < l <= |stack|
    ensures ScanOf(rows, ts, stack, l, i, incomplete) ==
            if i < 0 then stack[..l]
            else if IsOpen(rows[stack[i].index]) then ScanOf(rows, ts, stack, l, i - 1, true)
            else if incomplete && AsInt64(ts) <= EndTs(rows[stack[i].index]) then ScanOf(rows, ts, stack, l, i - 1, true)
            else if incomplete then ScanOf(rows, ts, stack, i, i - 1, false)
            else if EndTs(rows[stack[i].index]) <= AsInt64(ts) then ScanOf(rows, ts, stack, l - 1, i - 1, false)
            else ScanOf(rows, ts, stack, l, i - 1, false)
  {
    hide EndTs, IsOpen, AsInt64;
    assert i >= 0 ==> stack[..l][..i] == stack[..i] && stack[..l][i] == stack[i];
    assert i >= 0 ==> stack[..l][..l - 1] == stack[..l - 1];
  }

  lemma {:induction false} ScanExact(rows: seq<Row>, ts: u64, stack: seq<Entry>, c: nat, l: nat, i: int, incomplete: bool)
    returns (c': nat)
    requires InTable(rows, stack) && -1 <= i < l <= |stack| && Scanning(rows, ts, stack, c, l, i, incomplete)
    ensures LowestCut(rows, ts, stack, c') && c' <= |stack|
    ensures |ScanOf(rows, ts, stack, l, i, incomplete)| == c' - Popped(rows, ts, stack, c')
    decreases i + 1
  {
    hide EndTs, IsOpen, Scanning, Cut, LowestCut, Popped, AsInt64, ScanOf;
    ScanNext(rows, ts, stack, l, i, incomplete);
    if i < 0 {
      c' := c;
      ScanDone(rows, ts, stack, c, l, incomplete);
    } else {
      var row := rows[stack[i].index];
      if IsOpen(row) {
        OpenNext(rows, ts, stack, c, l, i, incomplete);
        c' := ScanExact(rows, ts, stack, c, l, i - 1, true);
      } else if incomplete && AsInt64(ts) <= EndTs(row) {
        LateNext(rows, ts, stack, c, l, i);
        c' := ScanExact(rows, ts, stack, c, l, i - 1, true);
      } else if incomplete {
        CutNext(rows, ts, stack, c, l, i);
        c' := ScanExact(rows, ts, stack, i, i, i - 1, false);
      } else if EndTs(row) <= AsInt64(ts) {
        ClosedNext(rows, ts, stack, c, l, i);
        c' := ScanExact(rows, ts, stack, c, l - 1, i - 1, false);
      } else {
        ClosedNext(rows, ts, stack, c, l, i);
        c' := ScanExact(rows, ts, stack, c, l, i - 1, false);
      }
    }
  }

  lemma {:induction false} ScanDone(rows: seq<Row>, ts: u64, stack: seq<Entry>, c: nat, l: nat, incomplete: bool)
    requires InTable(rows, stack) && Scanning(rows, ts, stack, c, l, -1, incomplete)
    ensures LowestCut(rows, ts, stack, c) && c <= |stack| && l == c - Popped(rows, ts, stack, c)
  {
  }

  lemma OpenNext(rows: seq<Row>, ts: u64, stack: seq<Entry>, c: nat, l: nat, i: nat, incomplete: bool)
    requires InTable(rows, stack) && Scanning(rows, ts, stack, c, l, i, incomplete) && IsOpen(rows[stack[i].index])
    ensures Scanning(rows, ts, stack, c, l, i - 1, true)
  {
    assert Popped(rows, ts, stack, i + 1) == 0;
    assert ClosedLate(rows, ts, stack, i, i);
  }

  lemma LateNext(rows: seq<Row>, ts: u64, stack: seq<Entry>, c: nat, l: nat, i: nat)
    requires InTable(rows, stack) && Scanning(rows, ts, stack, c, l, i, true)
    requires !IsOpen(rows[stack[i].index]) && AsInt64(ts) <= EndTs(rows[stack[i].index])
    ensures Scanning(rows, ts, stack, c, l, i - 1, true)
  {
    var j :| i < j < c && IsOpen(rows[stack[j].index]) && ClosedLate(rows, ts, stack, i + 1, j);
    assert ClosedLate(rows, ts, stack, i, j);
  }

  lemma CutNext(rows: seq<Row>, ts: u64, stack: seq<Entry>, c: nat, l: nat, i: nat)
    requires InTable(rows, stack) && Scanning(rows, ts, stack, c, l, i, true)
    requires !IsOpen(rows[stack[i].index]) && EndTs(rows[stack[i].index]) < AsInt64(ts)
    ensures Scanning(rows, ts, stack, i, i, i - 1, false)
  {
    var j :| i < j < c && IsOpen(rows[stack[j].index]) && ClosedLate(rows, ts, stack, i + 1, j);
    assert Cut(rows, ts, stack, i);
  }

  lemma ClosedNext(rows: seq<Row>, ts: u64, stack: seq<Entry>, c: nat, l: nat, i: nat)
    requires InTable(rows, stack) && Scanning(rows, ts, stack, c, l, i, false) && !IsOpen(rows[stack[i].index])
    ensures Scanning(rows, ts, stack, c, if EndTs(rows[stack[i].index]) <= AsInt64(ts) then l - 1 else l, i - 1, false)
  {
    NoCutAbove(rows, ts, stack, c, i);
  }

  /** For any times: what is left are the entries below the lowest cut, less one for each closed entry
      on top of them that has ended by ts. */
  lemma CloseExact(rows: seq<Row>, ts: u64, stack: seq<Entry>) returns (c: nat)
    requires InTable(rows, stack)
    ensures LowestCut(rows, ts, stack, c)
    ensures CloseUnmatched(rows, ts, stack) == stack[..c - Popped(rows, ts, stack, c)]
  {
    assert stack[..|stack|] == stack;
    if stack == [] {
      return 0;
    }
    c := ScanExact(rows, ts, stack, |stack|, |stack|, |stack| - 1, false);
  }

  // ---------------------------------------------------------------------------
  // Over every run in time order
  // ---------------------------------------------------------------------------

  /** A row of the thread that is open or has ended by now. */
  predicate Fine(row: Row, t: u32, now: int) {
    row.itid == t && (IsOpen(row) || EndTs(row) <= now)
  }

  /** The stack of a thread holds its own rows, and what is closed has ended by now. */
  ghost predicate Settled(s: Slices, t: u32, now: int)
    requires Indexed(s)
  {
    forall k :: 0 <= k < |StackOf(s, t)| ==> Fine(s.rows[StackOf(s, t)[k].index], t, now)
  }

  lemma StartSettled(s: Slices, e: Event, dur: u64, t: u32, now: int)
    requires Indexed(s) && Settled(s, t, now) && e.ts < TWO64 / 2 && (dur == OPEN || dur == 0)
    requires t == e.itid ==> now <= e.ts
    ensures Indexed(Start(s, e, dur).0)
    ensures Settled(Start(s, e, dur).0, t, if t == e.itid then e.ts else now)
  {
    StartShape(s, e, dur, t);
    hide Start;
    var r := Start(s, e, dur).0;
    var stack, stack', later := StackOf(s, t), StackOf(r, t), if t == e.itid then e.ts else now;
    forall k | 0 <= k < |stack'| ensures Fine(r.rows[stack'[k].index], t, later) {
      if stack'[k].index != |s.rows| {
        assert Fine(s.rows[stack[k].index], t, now);
        assert r.rows[stack'[k].index] == s.rows[stack[k].index];
      }
    }
  }

  /** A completed slice ends at its end event. */
  lemma EndsAtEvent(row: Row, ts: u64)
    requires ts < TWO64 / 2
    ensures EndTs(row.(dur := Wrap64(ts - row.ts))) == ts
  {
    var q := (ts - row.ts) / TWO64;
    assert row.ts + Wrap64(ts - row.ts) == ts - TWO64 * q;
  }

  lemma CompleteSettled(s: Slices, e: Event, t: u32, now: int)
    requires Indexed(s) && Settled(s, t, now) && Settled(s, e.itid, e.ts) && e.ts < TWO64 / 2
    requires t == e.itid ==> now <= e.ts
    ensures Indexed(Complete(s, e).0)
    ensures Settled(Complete(s, e).0, t, if t == e.itid then e.ts else now)
  {
    CompleteIndexed(s, e);
    CompleteShape(s, e, t);
    hide Complete, Indexed;
    var (r, x) := Complete(s, e);
    var stack, stack', later := StackOf(s, t), StackOf(r, t), if t == e.itid then e.ts else now;
    if x.Some? {
      EndsAtEvent(s.rows[x.value], e.ts);
    }
    hide EndTs, Wrap64;
    forall k | 0 <= k < |stack'| ensures Fine(r.rows[stack'[k].index], t, later) {
      assert stack'[k] == stack[k];
      assert Fine(s.rows[stack[k].index], t, now);
    }
  }

  /** Time does not go back within a thread, and fits a signed word. */
  ghost predicate TimeOrdered(events: seq<Event>) {
    && (forall i :: 0 <= i < |events| ==> events[i].ts < TWO64 / 2)
    && (forall i, j :: 0 <= i < j < |events| && events[i].itid == events[j].itid ==> events[i].ts <= events[j].ts)
  }

  /** The time of the last event of a thread. */
  function LastTs(events: seq<Event>, t: u32, n: nat): (ts: u64)
    requires n <= |events|
    ensures ts == 0 || exists i :: 0 <= i < n && events[i].itid == t && events[i].ts == ts
  {
    if n == 0 then 0 else if events[n - 1].itid == t then events[n - 1].ts else LastTs(events, t, n - 1)
  }

  lemma StepSettled(s: Slices, e: Event, t: u32, now: int)
    requires Indexed(s) && Settled(s, t, now) && Settled(s, e.itid, e.ts) && e.ts < TWO64 / 2
    requires t == e.itid ==> now <= e.ts
    ensures Settled(Step(s, e).0, t, if t == e.itid then e.ts else now)
  {
    hide Settled, Start, Complete, Indexed;
    match e {
      case Begin(_, _, _, _) => StartSettled(s, e, OPEN, t, now);
      case Instant(_, _, _, _) => StartSettled(s, e, 0, t, now);
      case End(_, _, _, _) => CompleteSettled(s, e, t, now);
    }
  }

  lemma {:induction false} LastTsBefore(events: seq<Event>, t: u32, n: nat)
    requires n < |events| && TimeOrdered(events) && events[n].itid == t
    ensures LastTs(events, t, n) <= events[n].ts < TWO64 / 2
  {
  }

  lemma {:induction false} RunSettled(events: seq<Event>, n: nat, t: u32)
    requires n <= |events| && TimeOrdered(events)
    ensures Settled(Run(events, n), t, LastTs(events, t, n))
  {
    hide Settled, Step, TimeOrdered, Indexed;
    if n == 0 {
      NoneSettled(t);
    } else {
      var s, e := Run(events, n - 1), events[n - 1];
      RunSettled(events, n - 1, t);
      RunSettled(events, n - 1, e.itid);
      LastTsBefore(events, e.itid, n - 1);
      Later(s, e.itid, LastTs(events, e.itid, n - 1), e.ts);
      StepSettled(s, e, t, LastTs(events, t, n - 1));
    }
  }

  lemma NoneSettled(t: u32)
    ensures Settled(EMPTY, t, 0)
  {
  }

  lemma Later(s: Slices, t: u32, now: int, later: int)
    requires Indexed(s) && Settled(s, t, now) && now <= later
    ensures Settled(s, t, later)
  {
  }

  /** In a stream ordered by time, whatever mix of slices and binder slices it holds, each event
      leaves on its thread's stack the longest part in which nothing ended before it and the top
      is open. */
  lemma {:induction false} RunKeepsLongest(events: seq<Event>, n: nat)
    requires n < |events| && TimeOrdered(events)
    ensures var s, e := Run(events, n), events[n];
            var stack := StackOf(s, e.itid);
            InTable(s.rows, stack) && Longest(s.rows, e.ts, stack, |CloseUnmatched(s.rows, e.ts, stack)|)
  {
    hide Run, Settled, Longest, CloseUnmatched;
    var s, e := Run(events, n), events[n];
    RunSettled(events, n, e.itid);
    LastTsBefore(events, e.itid, n);
    SettledEnded(s, e.itid, LastTs(events, e.itid, n), e.ts);
    CloseKeepsLongest(s.rows, e.ts, StackOf(s, e.itid));
  }

  lemma SettledEnded(s: Slices, t: u32, now: int, ts: u64)
    requires Indexed(s) && Settled(s, t, now) && now <= ts < TWO64 / 2
    ensures InTable(s.rows, StackOf(s, t)) && Ended(s.rows, ts, StackOf(s, t))
  {
    forall k | 0 <= k < |StackOf(s, t)| && !IsOpen(s.rows[StackOf(s, t)[k].index])
      ensures EndTs(s.rows[StackOf(s, t)[k].index]) <= AsInt64(ts)
    {
      assert Fine(s.rows[StackOf(s, t)[k].index], t, now);
    }
  }
}
