/** The slice table read off the events: one row per start, with its place in the call stack and the
    end that closed it (trace_streamer/src/filter/slice_filter.cpp:162-179, 293-340 and 348-414). */
module SliceRecords {
  import opened Words
  import opened SliceFilter

  /** The begin and instantaneous events among the first n. */
  function Starts(events: seq<Event>, n: nat): (r: seq<nat>)
    requires n <= |events|
    ensures forall k :: 0 <= k < |r| ==> r[k] < n && !events[r[k]].End?
  {
    if n == 0 then []
    else if events[n - 1].End? then Starts(events, n - 1)
    else Starts(events, n - 1) + [n - 1]
  }

  /** What is left on the thread's stack when event i comes. */
  function Left(events: seq<Event>, i: nat): (stack: seq<Entry>)
    requires i < |events|
  {
    var s, e := Run(events, i), events[i];
    assert InTable(s.rows, StackOf(s, e.itid));
    CloseUnmatched(s.rows, e.ts, StackOf(s, e.itid))
  }

  /** The row that an end closes. */
  function Closing(events: seq<Event>, j: nat): (r: Option<nat>)
    requires j < |events|
  {
    if events[j].End? then Step(Run(events, j), events[j]).1 else None
  }

  /** The last of the first n events to close a row. */
  function ClosedAt(events: seq<Event>, row: nat, n: nat): (j: Option<nat>)
    requires n <= |events|
    ensures j.Some? ==> j.value < n
  {
    if n == 0 then None
    else if Closing(events, n - 1) == Some(row) then Some(n - 1)
    else ClosedAt(events, row, n - 1)
  }

  /** The row that start i leaves, as it stands after n events: a child of the top of what was left,
      one level deeper, unless that is too deep; closed by an end, or open, or instantaneous. */
  function RowOf(events: seq<Event>, i: nat, row: nat, n: nat): (r: Row)
    requires i < |events| && n <= |events|
  {
    var e, left, end := events[i], Left(events, i), ClosedAt(events, row, n);
    Row(e.ts,
        if end.Some? then Wrap64(events[end.value].ts - e.ts) else if e.Begin? then 0xffff_ffff_ffff_ffff else 0,
        e.itid, e.cat, e.name,
        if |left| < 255 then |left| else 0,
        if left == [] then None else Some(left[|left| - 1].index))
  }

  ghost predicate Recorded(events: seq<Event>, n: nat, rows: seq<Row>)
    requires n <= |events|
  {
    var from := Starts(events, n);
    |rows| == |from| && forall k :: 0 <= k < |rows| ==> rows[k] == RowOf(events, from[k], k, n)
  }

  lemma {:induction false} RowOfNext(events: seq<Event>, i: nat, row: nat, n: nat)
    requires i < |events| && n < |events|
    ensures RowOf(events, i, row, n + 1) ==
            if Closing(events, n) == Some(row) then RowOf(events, i, row, n).(dur := Wrap64(events[n].ts - events[i].ts))
            else RowOf(events, i, row, n)
  {
    hide Closing, Left;
  }

  lemma {:induction false} RunNext(events: seq<Event>, n: nat)
    requires n < |events|
    ensures Run(events, n + 1) == Step(Run(events, n), events[n]).0
  {
  }

  /** What a start pushes and returns. */
  ghost predicate Pushed(s: Slices, r: Slices, x: Option<nat>, e: Event, left: seq<Entry>) {
    if |left| < 255 then x == Some(|s.rows|) && StackOf(r, e.itid) == left + [Entry(|s.rows|, |left|)]
    else x == None && StackOf(r, e.itid) == left
  }

  lemma StartAppends(s: Slices, e: Event)
    requires Indexed(s) && !e.End?
    ensures InTable(s.rows, StackOf(s, e.itid))
    ensures var left, (r, x) := CloseUnmatched(s.rows, e.ts, StackOf(s, e.itid)), Step(s, e);
            && Pushed(s, r, x, e, left)
            && r.rows == s.rows + [Row(e.ts, if e.Begin? then 0xffff_ffff_ffff_ffff else 0, e.itid, e.cat, e.name,
                                       if |left| < 255 then |left| else 0,
                                       if left == [] then None else Some(left[|left| - 1].index))]
  {
    hide CloseUnmatched;
  }

  /** A row that does not exist yet has not been closed. */
  lemma {:induction false} NeverClosed(events: seq<Event>, row: nat, n: nat)
    requires n <= |events| && row >= |Run(events, n).rows|
    ensures ClosedAt(events, row, n).None?
  {
    hide Run, Step;
    if n > 0 {
      RunNext(events, n - 1);
      Grows(Run(events, n - 1), events[n - 1]);
      NeverClosed(events, row, n - 1);
    }
  }

  lemma Grows(s: Slices, e: Event)
    requires Indexed(s)
    ensures |s.rows| <= |Step(s, e).0.rows|
    ensures e.End? && Step(s, e).1.Some? ==> Step(s, e).1.value < |s.rows|
  {
    CompleteShape(s, e, e.itid);
    hide Complete, CloseUnmatched;
  }

  lemma {:induction false} StartRecorded(events: seq<Event>, n: nat)
    requires n < |events| && !events[n].End? && Recorded(events, n, Run(events, n).rows)
    ensures Recorded(events, n + 1, Run(events, n + 1).rows)
  {
    hide Run, Step, RowOf, Closing, CloseUnmatched, Left;
    var s, from := Run(events, n), Starts(events, n);
    StartRow(events, n);
    var r := Run(events, n + 1);
    assert Starts(events, n + 1) == from + [n];
    forall k | 0 <= k < |r.rows| ensures r.rows[k] == RowOf(events, (from + [n])[k], k, n + 1) {
      RowOfNext(events, (from + [n])[k], k, n);
    }
  }

  lemma {:induction false} StartRow(events: seq<Event>, n: nat)
    requires n < |events| && !events[n].End?
    ensures var s := Run(events, n);
            Run(events, n + 1).rows == s.rows + [RowOf(events, n, |s.rows|, n)] && Closing(events, n).None?
  {
    hide Run, Step, CloseUnmatched;
    RunNext(events, n);
    StartAppends(Run(events, n), events[n]);
    NeverClosed(events, |Run(events, n).rows|, n);
  }

  /** An end changes the duration of the row it closes. */
  lemma {:induction false} EndRows(events: seq<Event>, n: nat)
    requires n < |events| && events[n].End?
    ensures var rows, rows' := Run(events, n).rows, Run(events, n + 1).rows;
            && |rows'| == |rows|
            && forall k :: 0 <= k < |rows| ==>
                 rows'[k] == if Closing(events, n) == Some(k) then rows[k].(dur := Wrap64(events[n].ts - rows[k].ts)) else rows[k]
  {
    hide Run;
    RunNext(events, n);
    CompleteRows(Run(events, n), events[n]);
    hide Complete;
  }

  lemma CompleteRows(s: Slices, e: Event)
    requires Indexed(s)
    ensures var (r, x) := Complete(s, e);
            && |r.rows| == |s.rows|
            && forall k :: 0 <= k < |s.rows| ==>
                 r.rows[k] == if x == Some(k) then s.rows[k].(dur := Wrap64(e.ts - s.rows[k].ts)) else s.rows[k]
  {
    hide CloseUnmatched, Matching, Wrap64, Ends, IsOpen, Fits;
  }

  lemma {:induction false} EndRecorded(events: seq<Event>, n: nat)
    requires n < |events| && events[n].End? && Recorded(events, n, Run(events, n).rows)
    ensures Recorded(events, n + 1, Run(events, n + 1).rows)
  {
    hide Run, Step, Closing, CloseUnmatched, Left;
    EndRows(events, n);
    var rows, rows', from := Run(events, n).rows, Run(events, n + 1).rows, Starts(events, n);
    assert Starts(events, n + 1) == from;
    forall k | 0 <= k < |rows'| ensures rows'[k] == RowOf(events, from[k], k, n + 1) {
      assert rows[k] == RowOf(events, from[k], k, n);
      RowOfNext(events, from[k], k, n);
    }
  }

  /** Main result, over every run: the table holds one row per start, in order, with its time, thread,
      labels, depth and parent, and the duration up to the end that closed it. */
  lemma {:induction false} RowsAreStarts(events: seq<Event>, n: nat)
    requires n <= |events|
    ensures Recorded(events, n, Run(events, n).rows)
  {
    hide Step, Recorded;
    if n == 0 {
      NoneRecorded(events);
    } else {
      RowsAreStarts(events, n - 1);
      if events[n - 1].End? {
        EndRecorded(events, n - 1);
      } else {
        StartRecorded(events, n - 1);
      }
    }
  }

  lemma {:induction false} NoneRecorded(events: seq<Event>)
    ensures Recorded(events, 0, Run(events, 0).rows)
  {
  }

  /** A start is returned and put on what was left of its thread's stack, unless it is too deep. */
  lemma {:induction false} StartsArePushed(events: seq<Event>, n: nat)
    requires n < |events| && !events[n].End?
    ensures Pushed(Run(events, n), Run(events, n + 1), Step(Run(events, n), events[n]).1, events[n], Left(events, n))
  {
    RunNext(events, n);
    StartAppends(Run(events, n), events[n]);
    hide Run, Step;
  }
}
