/** Call-slice stacks: begin, end and instantaneous binder slices per thread
    (trace_streamer/src/filter/slice_filter.cpp:162-179, 241-340 and 348-414; table operations at
    trace_streamer/src/trace_data/trace_stdtype.cpp:205-222 and 272-304). */
module SliceFilter {
  import opened Words

  /** The duration -1 of a slice that has not ended. */
  const OPEN: u64 := INVALID_UINT64
  const MAX_DEPTH := 255

  /** A row of the callstack table; a root has no parent. */
  datatype Row = Row(ts: u64, dur: u64, itid: u32, cat: u64, name: u64, depth: nat, parent: Option<nat>)

  datatype Entry = Entry(index: nat, depth: nat)

  datatype Slices = Slices(rows: seq<Row>, stacks: map<u32, seq<Entry>>)

  /** Begin covers BeginSlice and BeginBinder, Instant the asynchronous binder slices that
      start with duration 0, End the two ways to complete a slice. */
  datatype Event =
    | Begin(itid: u32, ts: u64, cat: u64, name: u64)
    | Instant(itid: u32, ts: u64, cat: u64, name: u64)
    | End(itid: u32, ts: u64, cat: u64, name: u64)

  const EMPTY := Slices([], map[])

  predicate IsOpen(row: Row) {
    row.dur == OPEN
  }

  /** When a closed slice ends, as int64_t. */
  function EndTs(row: Row): int {
    AsInt64(row.ts + row.dur)
  }

  predicate Indexed(s: Slices) {
    forall t, i :: t in s.stacks && 0 <= i < |s.stacks[t]| ==> s.stacks[t][i].index < |s.rows|
  }

  predicate InTable(rows: seq<Row>, stack: seq<Entry>) {
    forall i :: 0 <= i < |stack| ==> stack[i].index < |rows|
  }

  /** CloseUnMatchedSlice from entry i down: what is left of the stack. The table does not
      change: the only duration written is the one the entry already has. */
  function CloseFrom(rows: seq<Row>, ts: u64, stack: seq<Entry>, i: int, incomplete: bool): (r: seq<Entry>)
    requires InTable(rows, stack) && -1 <= i < |stack|
    ensures r <= stack
    decreases i + 1
  {
    if i < 0 then stack else
    var row := rows[stack[i].index];
    if IsOpen(row) then CloseFrom(rows, ts, stack, i - 1, true)
    else if incomplete then
      if AsInt64(ts) <= EndTs(row) then CloseFrom(rows, ts, stack, i - 1, true)
      else CloseFrom(rows, ts, stack[..i], i - 1, false)
    else if EndTs(row) <= AsInt64(ts) then CloseFrom(rows, ts, stack[..|stack| - 1], i - 1, false)
    else CloseFrom(rows, ts, stack, i - 1, false)
  }

  function CloseUnmatched(rows: seq<Row>, ts: u64, stack: seq<Entry>): (r: seq<Entry>)
    requires InTable(rows, stack)
    ensures r <= stack
  {
    CloseFrom(rows, ts, stack, |stack| - 1, false)
  }

  predicate Fits(wanted: u64, found: u64) {
    wanted == INVALID_UINT64 || found == INVALID_UINT64 || wanted == found
  }

  /** An end with this category and name can end the row. */
  predicate Ends(row: Row, cat: u64, name: u64) {
    IsOpen(row) && Fits(cat, row.cat) && Fits(name, row.name)
  }

  /** MatchingIncompleteSliceIndex among the first n entries, from the top down; -1 if none. */
  function Matching(rows: seq<Row>, stack: seq<Entry>, cat: u64, name: u64, n: nat): (i: int)
    requires InTable(rows, stack) && n <= |stack|
    ensures -1 <= i < n
    ensures i >= 0 ==> Ends(rows[stack[i].index], cat, name)
    ensures forall k :: i < k < n ==> !Ends(rows[stack[k].index], cat, name)
  {
    if n == 0 then -1 else
    if Ends(rows[stack[n - 1].index], cat, name) then n - 1
    else Matching(rows, stack, cat, name, n - 1)
  }

  function StackOf(s: Slices, t: u32): (stack: seq<Entry>) {
    if t in s.stacks then s.stacks[t] else []
  }

  /** StartSlice: the new row is a child of what is on top; too deep a slice gets a row but is
      neither pushed nor returned. */
  function Start(s: Slices, e: Event, dur: u64): (r: (Slices, Option<nat>))
    requires Indexed(s)
  {
    var stack := CloseUnmatched(s.rows, e.ts, StackOf(s, e.itid));
    var depth, index := |stack|, |s.rows|;
    var parent := if depth == 0 then None else Some(stack[depth - 1].index);
    if depth >= MAX_DEPTH then
      (Slices(s.rows + [Row(e.ts, dur, e.itid, e.cat, e.name, 0, parent)], s.stacks[e.itid := stack]), None)
    else
      (Slices(s.rows + [Row(e.ts, dur, e.itid, e.cat, e.name, depth, parent)],
              s.stacks[e.itid := stack + [Entry(index, depth)]]), Some(index))
  }

  /** CompleteSlice: ends the topmost open slice that fits and pops it if it is on top. */
  function Complete(s: Slices, e: Event): (r: (Slices, Option<nat>))
    requires Indexed(s)
  {
    if e.itid !in s.stacks then (s, None) else
    var stack := CloseUnmatched(s.rows, e.ts, s.stacks[e.itid]);
    var i := Matching(s.rows, stack, e.cat, e.name, |stack|);
    if i < 0 then (s.(stacks := s.stacks[e.itid := stack]), None) else
    var index := stack[i].index;
    var row := s.rows[index];
    (Slices(s.rows[index := row.(dur := Wrap64(e.ts - row.ts))],
            s.stacks[e.itid := if i == |stack| - 1 then stack[..i] else stack]), Some(index))
  }

  function Step(s: Slices, e: Event): (r: (Slices, Option<nat>))
    requires Indexed(s)
    ensures Indexed(r.0)
  {
    match e
    case Begin(_, _, _, _) => Start(s, e, OPEN)
    case Instant(_, _, _, _) => Start(s, e, 0)
    case End(_, _, _, _) => Complete(s, e)
  }

  /** A start adds a row, and at most one entry for it above what is left of the stack. */
  lemma StartShape(s: Slices, e: Event, dur: u64, t: u32)
    requires Indexed(s)
    ensures var r := Start(s, e, dur).0;
            var stack, stack' := StackOf(s, t), StackOf(r, t);
            && Indexed(r) && |r.rows| == |s.rows| + 1 && r.rows[..|s.rows|] == s.rows
            && r.rows[|s.rows|].ts == e.ts && r.rows[|s.rows|].dur == dur && r.rows[|s.rows|].itid == e.itid
            && (forall k :: 0 <= k < |stack'| ==>
                  if stack'[k].index == |s.rows| then t == e.itid else k < |stack| && stack'[k] == stack[k])
  {
  }

  /** An end sets the duration of a row on the thread's stack, if any, and shortens the stack. */
  lemma CompleteShape(s: Slices, e: Event, t: u32)
    requires Indexed(s)
    ensures var (r, x) := Complete(s, e);
            var stack, stack' := StackOf(s, t), StackOf(r, t);
            && |r.rows| == |s.rows| && stack' <= stack && (t != e.itid ==> stack' == stack)
            && match x
               case None => r.rows == s.rows
               case Some(i) =>
                 && (exists k :: 0 <= k < |StackOf(s, e.itid)| && StackOf(s, e.itid)[k].index == i)
                 && i < |s.rows| && r.rows == s.rows[i := s.rows[i].(dur := Wrap64(e.ts - s.rows[i].ts))]
  {
    hide CloseUnmatched, Matching, Wrap64, Ends, IsOpen, Fits;
    if e.itid in s.stacks {
      var stack := CloseUnmatched(s.rows, e.ts, s.stacks[e.itid]);
      var i := Matching(s.rows, stack, e.cat, e.name, |stack|);
      assert i >= 0 ==> StackOf(s, e.itid)[i] == stack[i];
    }
  }

  lemma CompleteIndexed(s: Slices, e: Event)
    requires Indexed(s)
    ensures Indexed(Complete(s, e).0)
  {
    CompleteShape(s, e, e.itid);
    var r := Complete(s, e).0;
    assert forall t :: t in r.stacks && t != e.itid ==> t in s.stacks && r.stacks[t] == s.stacks[t];
    hide Complete;
  }

  /** The state after the first n events. */
  function Run(events: seq<Event>, n: nat): (r: Slices)
    requires n <= |events|
    ensures Indexed(r)
  {
    if n == 0 then EMPTY else Step(Run(events, n - 1), events[n - 1]).0
  }

  /** The filter as an object. */
  class Filter {
    var rows: seq<Row>
    var stacks: map<u32, seq<Entry>>

    ghost function State(): (s: Slices)
      reads this
    {
      Slices(rows, stacks)
    }

    constructor ()
      ensures State() == EMPTY
    {
      rows, stacks := [], map[];
    }

    method CloseUnMatchedSlice(ts: u64, stack: seq<Entry>) returns (r: seq<Entry>)
      requires InTable(rows, stack)
      ensures r == CloseUnmatched(rows, ts, stack)
    {
      r := stack;
      var incomplete := false;
      var i := |stack| - 1;
      while i >= 0
        invariant -1 <= i < |r| && InTable(rows, r)
        invariant CloseFrom(rows, ts, r, i, incomplete) == CloseUnmatched(rows, ts, stack)
        decreases i + 1
      {
        var row := rows[r[i].index];
        var end := EndTs(row);
        if row.dur == OPEN {
          incomplete := true;
        } else if incomplete {
          if end < AsInt64(ts) {
            r := r[..i];
            incomplete := false;
          }
        } else if end <= AsInt64(ts) {
          r := r[..|r| - 1];
        }
        i := i - 1;
      }
    }

    method MatchingIncompleteSliceIndex(stack: seq<Entry>, cat: u64, name: u64) returns (i: int)
      requires InTable(rows, stack)
      ensures i == Matching(rows, stack, cat, name, |stack|)
    {
      i := |stack| - 1;
      while i >= 0
        invariant -1 <= i < |stack|
        invariant Matching(rows, stack, cat, name, i + 1) == Matching(rows, stack, cat, name, |stack|)
        decreases i + 1
      {
        var row := rows[stack[i].index];
        if row.dur == OPEN && Fits(cat, row.cat) && Fits(name, row.name) {
          return;
        }
        i := i - 1;
      }
    }

    method StartSlice(e: Event, dur: u64) returns (index: Option<nat>)
      requires Indexed(State())
      modifies this
      ensures (State(), index) == Start(old(State()), e, dur)
    {
      var stack := CloseUnMatchedSlice(e.ts, if e.itid in stacks then stacks[e.itid] else []);
      var depth := |stack|;
      var parent := if depth == 0 then None else Some(stack[depth - 1].index);
      index := Some(|rows|);
      if depth >= MAX_DEPTH {
        rows := rows + [Row(e.ts, dur, e.itid, e.cat, e.name, 0, parent)];
        stacks := stacks[e.itid := stack];
        return None;
      }
      rows := rows + [Row(e.ts, dur, e.itid, e.cat, e.name, depth, parent)];
      stacks := stacks[e.itid := stack + [Entry(index.value, depth)]];
    }

    method CompleteSlice(e: Event) returns (index: Option<nat>)
      requires Indexed(State())
      modifies this
      ensures (State(), index) == Complete(old(State()), e)
    {
      if e.itid !in stacks {
        return None;
      }
      var stack := CloseUnMatchedSlice(e.ts, stacks[e.itid]);
      var i := MatchingIncompleteSliceIndex(stack, e.cat, e.name);
      if i < 0 {
        stacks := stacks[e.itid := stack];
        return None;
      }
      var lastRow := stack[i].index;
      rows := rows[lastRow := rows[lastRow].(dur := Wrap64(e.ts - rows[lastRow].ts))];
      stacks := stacks[e.itid := if i == |stack| - 1 then stack[..i] else stack];
      index := Some(lastRow);
    }
  }
}
