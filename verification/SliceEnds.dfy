/** Which slice an end closes when it names a category or a name
    (trace_streamer/src/filter/slice_filter.cpp:273-291 and 348-414; named ends come from
    trace_streamer/src/filter/binder_filter.cpp:189 and
    trace_streamer/src/parser/htrace_pbreader_parser/htrace_event_parser/htrace_event_parser.cpp:633). */
module SliceEnds {
  import opened Words
  import opened SliceFilter
  import opened SliceForest
  import opened SliceStacks

  /** The row has not ended, and each of its two labels is that of the end unless one of them says
      nothing. */
  ghost predicate Answers(e: Event, row: Row) {
    && row.dur == 0xffff_ffff_ffff_ffff
    && (e.cat == row.cat || e.cat == 0xffff_ffff_ffff_ffff || row.cat == 0xffff_ffff_ffff_ffff)
    && (e.name == row.name || e.name == 0xffff_ffff_ffff_ffff || row.name == 0xffff_ffff_ffff_ffff)
  }

  /** Entry k is the topmost one of the stack that answers to the end. */
  ghost predicate Topmost(rows: seq<Row>, stack: seq<Entry>, e: Event, k: nat)
    requires InTable(rows, stack)
  {
    && k < |stack| && Answers(e, rows[stack[k].index])
    && forall j :: k < j < |stack| ==> !Answers(e, rows[stack[j].index])
  }

  /** The entry is taken off if it is on top; the others stay where and as they are. */
  ghost predicate Closes(s: Slices, r: Slices, left: seq<Entry>, e: Event, k: nat)
    requires InTable(s.rows, left) && k < |left|
  {
    var x := left[k].index;
    && |r.rows| == |s.rows|
    && r.rows[x] == s.rows[x].(dur := Wrap64(e.ts - s.rows[x].ts))
    && (forall i :: 0 <= i < |s.rows| && i != x ==> r.rows[i] == s.rows[i])
    && (forall j :: 0 <= j < |left| && j != k ==> left[j].index != x)
    && StackOf(r, e.itid) == (if k == |left| - 1 then left[..k] else left)
  }

  /** What an end does: nothing if no entry left on the stack answers to it, otherwise it closes the
      topmost one that does. */
  ghost predicate Outcome(s: Slices, e: Event, left: seq<Entry>, r: Slices, closed: Option<nat>)
    requires InTable(s.rows, left)
  {
    match closed
    case None =>
      && r.rows == s.rows && StackOf(r, e.itid) == left
      && forall k :: 0 <= k < |left| ==> !Answers(e, s.rows[left[k].index])
    case Some(x) =>
      exists k: nat :: Topmost(s.rows, left, e, k) && left[k].index == x && Closes(s, r, left, e, k)
  }

  /** No two entries are for the same row. */
  ghost predicate Differ(stack: seq<Entry>) {
    forall i, j :: 0 <= i < j < |stack| ==> stack[i].index != stack[j].index
  }

  lemma {:induction false} EntriesDiffer(events: seq<Event>, n: nat, t: u32)
    requires n <= |events|
    ensures Differ(StackOf(Run(events, n), t))
  {
    RunForest(events, n);
    var s := Run(events, n);
    hide Run;
    if t in s.stacks {
      assert StackRight(s.rows, Returned(events, n), t, s.stacks[t]);
    }
  }

  lemma EndsIs(row: Row, e: Event)
    ensures Ends(row, e.cat, e.name) <==> Answers(e, row)
  {
  }

  lemma {:induction false} CompleteCloses(s: Slices, e: Event)
    requires Indexed(s) && e.End? && Differ(StackOf(s, e.itid))
    ensures InTable(s.rows, StackOf(s, e.itid))
    ensures Outcome(s, e, CloseUnmatched(s.rows, e.ts, StackOf(s, e.itid)), Complete(s, e).0, Complete(s, e).1)
  {
    var stack := StackOf(s, e.itid);
    assert InTable(s.rows, stack);
    var left := CloseUnmatched(s.rows, e.ts, stack);
    var k := Matching(s.rows, left, e.cat, e.name, |left|);
    forall j | 0 <= j < |left| ensures Ends(s.rows[left[j].index], e.cat, e.name) <==> Answers(e, s.rows[left[j].index]) {
      EndsIs(s.rows[left[j].index], e);
    }
    assert forall j :: 0 <= j < |left| ==> left[j] == stack[j];
    hide CloseUnmatched, Matching, Ends, Answers, Indexed, Wrap64;
    if e.itid in s.stacks && k >= 0 {
      assert Topmost(s.rows, left, e, k);
      assert Closes(s, Complete(s, e).0, left, e, k);
    }
  }

  /** Over every run, with or without names: an end closes the topmost entry left on its thread's
      stack that answers to it, and nothing if there is none. An entry below the top stays on the
      stack with all that lie above it. */
  lemma {:induction false} EndClosesTopmost(events: seq<Event>, n: nat)
    requires n < |events| && events[n].End?
    ensures var s, e := Run(events, n), events[n];
            && InTable(s.rows, StackOf(s, e.itid))
            && Outcome(s, e, CloseUnmatched(s.rows, e.ts, StackOf(s, e.itid)), Step(s, e).0, Step(s, e).1)
  {
    EntriesDiffer(events, n, events[n].itid);
    hide Run, Complete, Outcome, Differ, CloseUnmatched;
    CompleteCloses(Run(events, n), events[n]);
  }

  /** In a stream ordered by time the entries left are the longest part of the stack in which nothing
      ended before the end and the top is open. */
  lemma {:induction false} TimedEndClosesTopmost(events: seq<Event>, n: nat) returns (k: nat)
    requires n < |events| && events[n].End? && TimeOrdered(events)
    ensures var s, e := Run(events, n), events[n];
            && InTable(s.rows, StackOf(s, e.itid)) && Longest(s.rows, e.ts, StackOf(s, e.itid), k)
            && Outcome(s, e, StackOf(s, e.itid)[..k], Step(s, e).0, Step(s, e).1)
  {
    var s, e := Run(events, n), events[n];
    EndClosesTopmost(events, n);
    RunKeepsLongest(events, n);
    hide Run, Step, Outcome, Longest;
    var left := CloseUnmatched(s.rows, e.ts, StackOf(s, e.itid));
    k := |left|;
    assert left == StackOf(s, e.itid)[..k];
  }
}
