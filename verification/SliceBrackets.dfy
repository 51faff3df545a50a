/** On plain begin and end events the filter computes bracket matching. */
module SliceBrackets {
  import opened Words
  import opened SliceFilter

  // ---------------------------------------------------------------------------
  // Bracket matching, by counting
  // ---------------------------------------------------------------------------

  function Delta(e: Event, t: u32): int {
    if e.itid != t then 0 else if e.Begin? then 1 else if e.End? then -1 else 0
  }

  /** Begins minus ends of thread t among events i .. j-1. */
  function Balance(events: seq<Event>, t: u32, i: nat, j: nat): int
    requires j <= |events|
    decreases j
  {
    if j <= i then 0 else Balance(events, t, i, j - 1) + Delta(events[j - 1], t)
  }

  /** Since event i the thread has never closed more than it opened, up to event n. */
  ghost predicate NeverBelow(events: seq<Event>, t: u32, i: nat, n: nat)
    requires n <= |events|
  {
    forall k :: i <= k <= n ==> Balance(events, t, i, k) >= 0
  }

  /** Event j is the end that belongs to begin i: what lies between them is balanced. */
  ghost predicate Matches(events: seq<Event>, i: nat, j: nat) {
    && i < j < |events|
    && events[i].Begin? && events[j].End? && events[j].itid == events[i].itid
    && Balance(events, events[i].itid, i + 1, j) == 0
    && NeverBelow(events, events[i].itid, i + 1, j)
  }

  lemma MatchUnique(events: seq<Event>, i: nat, j: nat, k: nat)
    requires Matches(events, i, j) && Matches(events, i, k)
    ensures j == k
  {
    var t := events[i].itid;
    assert Balance(events, t, i + 1, j + 1) == -1;
    assert Balance(events, t, i + 1, k + 1) == -1;
  }

  lemma {:induction false} BalanceSplit(events: seq<Event>, t: u32, i: nat, k: nat, j: nat)
    requires i <= k <= j <= |events|
    ensures Balance(events, t, i, j) == Balance(events, t, i, k) + Balance(events, t, k, j)
  {
    if k < j {
      BalanceSplit(events, t, i, k, j - 1);
    }
  }

  /** Two matched pairs of a thread are disjoint or nested. */
  lemma MatchesAreLaminar(events: seq<Event>, i: nat, j: nat, i': nat, j': nat)
    requires Matches(events, i, j) && Matches(events, i', j')
    requires events[i].itid == events[i'].itid && i < i'
    ensures j < i' || j' < j
  {
    if i' < j {
      var t := events[i].itid;
      BalanceSplit(events, t, i + 1, i', j);
      assert Balance(events, t, i + 1, i') >= 0;
      assert Balance(events, t, i', i' + 1) == 1;
      BalanceSplit(events, t, i', i' + 1, j);
    }
  }

  // ---------------------------------------------------------------------------
  // Plain streams
  // ---------------------------------------------------------------------------

  /** Begin and end events only, the ends without category and name, and time that does not go
      back within a thread. */
  ghost predicate Plain(events: seq<Event>) {
    && (forall i :: 0 <= i < |events| ==>
          && events[i].ts < OPEN && !events[i].Instant?
          && (events[i].End? ==> events[i].cat == events[i].name == INVALID_UINT64))
    && (forall i, j :: 0 <= i < j < |events| && events[i].itid == events[j].itid ==> events[i].ts <= events[j].ts)
  }

  /** How many slices of thread t are open after n events. */
  function Height(events: seq<Event>, t: u32, n: nat): nat
    requires n <= |events|
  {
    if n == 0 then 0 else
    var h := Height(events, t, n - 1);
    if events[n - 1].itid != t then h
    else if events[n - 1].Begin? then h + 1
    else if events[n - 1].End? && h > 0 then h - 1 else h
  }

  ghost predicate Shallow(events: seq<Event>) {
    forall i :: 0 <= i < |events| && events[i].Begin? ==> Height(events, events[i].itid, i) < MAX_DEPTH
  }

  /** The begin events among the first n; row r of the table comes from entry r. */
  function Begins(events: seq<Event>, n: nat): (r: seq<nat>)
    requires n <= |events|
    ensures forall k :: 0 <= k < |r| ==> r[k] < n && events[r[k]].Begin?
  {
    if n == 0 then []
    else if events[n - 1].Begin? then Begins(events, n - 1) + [n - 1]
    else Begins(events, n - 1)
  }

  /** Entry p of a stack of d slices: an open row of the thread, above which d-1-p slices are open. */
  ghost predicate Pending(events: seq<Event>, n: nat, rows: seq<Row>, from: seq<nat>, t: u32, stack: seq<Entry>, p: nat)
    requires n <= |events| && p < |stack|
  {
    var r := stack[p].index;
    && r < |rows| && r < |from| && from[r] < n
    && rows[r].itid == t && IsOpen(rows[r])
    && NeverBelow(events, t, from[r] + 1, n)
    && Balance(events, t, from[r] + 1, n) == |stack| - 1 - p
  }

  ghost predicate StackPending(events: seq<Event>, n: nat, rows: seq<Row>, from: seq<nat>, t: u32, stack: seq<Entry>)
    requires n <= |events|
  {
    && |stack| == Height(events, t, n)
    && (forall p :: 0 <= p < |stack| ==> Pending(events, n, rows, from, t, stack, p))
    && (forall p, q :: 0 <= p < q < |stack| ==> stack[p].index < stack[q].index)
  }

  /** A row is on its thread's stack, or closed by the end that matches its begin. */
  ghost predicate RowRight(events: seq<Event>, n: nat, s: Slices, from: seq<nat>, r: nat)
    requires n <= |events| && r < |s.rows| && r < |from|
  {
    var row := s.rows[r];
    && from[r] < n && events[from[r]].Begin? && events[from[r]].itid == row.itid && events[from[r]].ts == row.ts
    && events[from[r]].cat == row.cat && events[from[r]].name == row.name
    && (IsOpen(row) ==> exists p :: 0 <= p < |StackOf(s, row.itid)| && StackOf(s, row.itid)[p].index == r)
    && (!IsOpen(row) ==> exists j: nat :: j < n && Matches(events, from[r], j) && row.dur == events[j].ts - row.ts)
  }

  ghost predicate Bracketed(events: seq<Event>, n: nat, s: Slices, from: seq<nat>)
    requires n <= |events|
  {
    && |from| == |s.rows|
    && (forall t: u32 :: StackPending(events, n, s.rows, from, t, StackOf(s, t)))
    && (forall r :: 0 <= r < |s.rows| ==> RowRight(events, n, s, from, r))
  }

  // ---------------------------------------------------------------------------
  // The steps
  // ---------------------------------------------------------------------------

  /** A stack of open slices is left alone. */
  lemma {:induction false} AllOpenStays(rows: seq<Row>, ts: u64, stack: seq<Entry>, i: int, incomplete: bool)
    requires InTable(rows, stack) && -1 <= i < |stack|
    requires forall k :: 0 <= k < |stack| ==> IsOpen(rows[stack[k].index])
    ensures CloseFrom(rows, ts, stack, i, incomplete) == stack
    decreases i + 1
  {
    if i >= 0 {
      AllOpenStays(rows, ts, stack, i - 1, true);
    }
  }

  /** One more event of another thread, or a begin above the entry, keeps it pending. */
  lemma PendingNext(events: seq<Event>, n: nat, t: u32, i: nat)
    requires n < |events| && i <= n && NeverBelow(events, t, i, n)
    requires Balance(events, t, i, n) + Delta(events[n], t) >= 0
    ensures NeverBelow(events, t, i, n + 1)
    ensures Balance(events, t, i, n + 1) == Balance(events, t, i, n) + Delta(events[n], t)
  {
  }

  /** An entry that stays on the stack while the height above it follows the events. */
  lemma EntryStays(events: seq<Event>, n: nat, rows: seq<Row>, rows': seq<Row>, from: seq<nat>, from': seq<nat>,
                   t: u32, stack: seq<Entry>, stack': seq<Entry>, p: nat)
    requires n < |events| && p < |stack| && p < |stack'| && stack'[p] == stack[p]
    requires Pending(events, n, rows, from, t, stack, p)
    requires var r := stack[p].index; r < |rows'| && r < |from'| && rows'[r] == rows[r] && from'[r] == from[r]
    requires |stack'| == |stack| + Delta(events[n], t)
    ensures Pending(events, n + 1, rows', from', t, stack', p)
  {
    PendingNext(events, n, t, from[stack[p].index] + 1);
  }

  /** Threads other than the event's. */
  lemma OtherThreadStays(events: seq<Event>, n: nat, rows: seq<Row>, rows': seq<Row>, from: seq<nat>, from': seq<nat>,
                         t: u32, stack: seq<Entry>)
    requires n < |events| && events[n].itid != t
    requires StackPending(events, n, rows, from, t, stack)
    requires from <= from' && |rows| <= |rows'|
    requires forall r :: 0 <= r < |rows| && rows[r].itid == t ==> rows'[r] == rows[r]
    ensures StackPending(events, n + 1, rows', from', t, stack)
  {
    var m := n + 1;
    forall p | 0 <= p < |stack| ensures Pending(events, m, rows', from', t, stack, p) {
      assert Pending(events, n, rows, from, t, stack, p);
      EntryStays(events, n, rows, rows', from, from', t, stack, stack, p);
    }
  }

  lemma StackIsOpen(events: seq<Event>, n: nat, s: Slices, from: seq<nat>, t: u32, ts: u64)
    requires n <= |events| && Indexed(s) && StackPending(events, n, s.rows, from, t, StackOf(s, t))
    ensures CloseUnmatched(s.rows, ts, StackOf(s, t)) == StackOf(s, t)
  {
    var stack := StackOf(s, t);
    forall k | 0 <= k < |stack| ensures IsOpen(s.rows[stack[k].index]) {
      assert Pending(events, n, s.rows, from, t, stack, k);
    }
    AllOpenStays(s.rows, ts, stack, |stack| - 1, false);
  }

  /** A begin pushes its row; everything below stays pending. */
  lemma BeginStack(events: seq<Event>, n: nat, rows: seq<Row>, from: seq<nat>, stack: seq<Entry>, row: Row)
    requires n < |events| && events[n].Begin? && |from| == |rows|
    requires StackPending(events, n, rows, from, events[n].itid, stack)
    requires row.itid == events[n].itid && IsOpen(row)
    ensures StackPending(events, n + 1, rows + [row], from + [n], row.itid, stack + [Entry(|rows|, |stack|)])
  {
    var t, stack', rows', from' := row.itid, stack + [Entry(|rows|, |stack|)], rows + [row], from + [n];
    var m := n + 1;
    forall p | 0 <= p < |stack'| ensures Pending(events, m, rows', from', t, stack', p) {
      if p < |stack| {
        assert Pending(events, n, rows, from, t, stack, p);
        EntryStays(events, n, rows, rows', from, from', t, stack, stack', p);
      }
    }
    forall p, q | 0 <= p < q < |stack'| ensures stack'[p].index < stack'[q].index {
      assert Pending(events, n, rows, from, t, stack, p);
    }
  }

  /** An end pops the top; everything below stays pending. */
  lemma EndStack(events: seq<Event>, n: nat, rows: seq<Row>, from: seq<nat>, stack: seq<Entry>, rows': seq<Row>)
    requires n < |events| && events[n].End? && |from| == |rows| == |rows'| && stack != []
    requires StackPending(events, n, rows, from, events[n].itid, stack)
    requires forall r :: 0 <= r < |rows| && r != stack[|stack| - 1].index ==> rows'[r] == rows[r]
    ensures StackPending(events, n + 1, rows', from, events[n].itid, stack[..|stack| - 1])
  {
    var t, stack' := events[n].itid, stack[..|stack| - 1];
    var m := n + 1;
    forall p | 0 <= p < |stack'| ensures Pending(events, m, rows', from, t, stack', p) {
      assert Pending(events, n, rows, from, t, stack, p);
      assert stack[p].index < stack[|stack| - 1].index;
      EntryStays(events, n, rows, rows', from, from, t, stack, stack', p);
    }
  }

  /** The end that pops a begin matches it. */
  lemma EndMatchesTop(events: seq<Event>, n: nat, s: Slices, from: seq<nat>)
    requires n < |events| && events[n].End? && |from| == |s.rows|
    requires var stack := StackOf(s, events[n].itid);
             && stack != [] && StackPending(events, n, s.rows, from, events[n].itid, stack)
             && var r := stack[|stack| - 1].index;
                r < |from| && from[r] < |events| && events[from[r]].Begin? && events[from[r]].itid == events[n].itid
    ensures var stack := StackOf(s, events[n].itid);
            Matches(events, from[stack[|stack| - 1].index], n)
  {
    var stack := StackOf(s, events[n].itid);
    assert Pending(events, n, s.rows, from, events[n].itid, stack, |stack| - 1);
  }

  lemma {:induction false} BeginStep(events: seq<Event>, n: nat, s: Slices, from: seq<nat>)
    requires n < |events| && Indexed(s) && Bracketed(events, n, s, from) && events[n].Begin?
    requires Height(events, events[n].itid, n) < MAX_DEPTH
    ensures Bracketed(events, n + 1, Start(s, events[n], OPEN).0, from + [n])
  {
    var e, m, from' := events[n], n + 1, from + [n];
    var stack, r := StackOf(s, e.itid), Start(s, e, OPEN).0;
    assert StackPending(events, n, s.rows, from, e.itid, stack);
    StackIsOpen(events, n, s, from, e.itid, e.ts);
    assert r.stacks == s.stacks[e.itid := stack + [Entry(|s.rows|, |stack|)]];
    forall t: u32 ensures StackPending(events, m, r.rows, from', t, StackOf(r, t)) {
      assert StackPending(events, n, s.rows, from, t, StackOf(s, t));
      if t == e.itid {
        BeginStack(events, n, s.rows, from, stack, r.rows[|s.rows|]);
      } else {
        OtherThreadStays(events, n, s.rows, r.rows, from, from', t, StackOf(s, t));
      }
    }
    forall x | 0 <= x < |r.rows| ensures RowRight(events, m, r, from', x) {
      if x < |s.rows| {
        assert RowRight(events, n, s, from, x);
        if IsOpen(s.rows[x]) {
          var p :| 0 <= p < |StackOf(s, s.rows[x].itid)| && StackOf(s, s.rows[x].itid)[p].index == x;
          assert StackOf(r, s.rows[x].itid)[p].index == x;
        }
      } else {
        assert StackOf(r, e.itid)[|stack|].index == x;
      }
    }
  }

  /** The top of the stack is what an end without category and name completes. */
  lemma EndShape(events: seq<Event>, n: nat, s: Slices, from: seq<nat>)
    requires n < |events| && Indexed(s) && Bracketed(events, n, s, from) && events[n].End?
    requires events[n].cat == events[n].name == INVALID_UINT64
    ensures var e, stack := events[n], StackOf(s, events[n].itid);
            var r := Complete(s, e).0;
            if stack == [] then r.rows == s.rows && forall t: u32 :: StackOf(r, t) == StackOf(s, t)
            else
              var x := stack[|stack| - 1].index;
              && x < |s.rows|
              && r.rows == s.rows[x := s.rows[x].(dur := Wrap64(e.ts - s.rows[x].ts))]
              && r.stacks == s.stacks[e.itid := stack[..|stack| - 1]]
  {
    var e, stack := events[n], StackOf(s, events[n].itid);
    assert StackPending(events, n, s.rows, from, e.itid, stack);
    StackIsOpen(events, n, s, from, e.itid, e.ts);
    if stack != [] {
      assert Pending(events, n, s.rows, from, e.itid, stack, |stack| - 1);
    }
  }

  lemma EndStep(events: seq<Event>, n: nat, s: Slices, from: seq<nat>)
    requires n < |events| && Indexed(s) && Bracketed(events, n, s, from) && events[n].End? && Plain(events)
    ensures Bracketed(events, n + 1, Complete(s, events[n]).0, from)
  {
    var e, m := events[n], n + 1;
    var stack, r := StackOf(s, e.itid), Complete(s, e).0;
    EndShape(events, n, s, from);
    assert StackPending(events, n, s.rows, from, e.itid, stack);
    forall t: u32 ensures StackPending(events, m, r.rows, from, t, StackOf(r, t)) {
      assert StackPending(events, n, s.rows, from, t, StackOf(s, t));
      if t != e.itid {
        if stack != [] {
          assert Pending(events, n, s.rows, from, e.itid, stack, |stack| - 1);
        }
        OtherThreadStays(events, n, s.rows, r.rows, from, from, t, StackOf(s, t));
      } else if stack != [] {
        EndStack(events, n, s.rows, from, stack, r.rows);
      }
    }
    forall x | 0 <= x < |r.rows| ensures RowRight(events, m, r, from, x) {
      EndRow(events, n, s, from, x);
    }
  }

  lemma EndRow(events: seq<Event>, n: nat, s: Slices, from: seq<nat>, x: nat)
    requires n < |events| && Indexed(s) && Bracketed(events, n, s, from) && events[n].End? && Plain(events)
    requires x < |s.rows|
    ensures var r := Complete(s, events[n]).0;
            |r.rows| == |s.rows| && RowRight(events, n + 1, r, from, x)
  {
    EndShape(events, n, s, from);
    var e, stack, r := events[n], StackOf(s, events[n].itid), Complete(s, events[n]).0;
    hide Complete, Indexed;
    if stack != [] && x == stack[|stack| - 1].index {
      EndedRow(events, n, s, from, r.rows[x]);
    } else {
      KeptRow(events, n, s, from, x, r);
    }
  }

  /** The top row is closed by the end that matches its begin. */
  lemma EndedRow(events: seq<Event>, n: nat, s: Slices, from: seq<nat>, row: Row)
    requires n < |events| && Bracketed(events, n, s, from) && events[n].End? && Plain(events)
    requires var stack := StackOf(s, events[n].itid);
             && stack != [] && stack[|stack| - 1].index < |s.rows|
             && var was := s.rows[stack[|stack| - 1].index];
                row == was.(dur := Wrap64(events[n].ts - was.ts))
    ensures var stack := StackOf(s, events[n].itid);
            var x := stack[|stack| - 1].index;
            && RowRight(events, n, s, from, x) && Matches(events, from[x], n)
            && !IsOpen(row) && row.dur == events[n].ts - row.ts
  {
    var e, stack := events[n], StackOf(s, events[n].itid);
    var x := stack[|stack| - 1].index;
    assert RowRight(events, n, s, from, x);
    assert StackPending(events, n, s.rows, from, e.itid, stack);
    assert Pending(events, n, s.rows, from, e.itid, stack, |stack| - 1);
    EndMatchesTop(events, n, s, from);
    assert events[from[x]].ts <= e.ts;
  }

  /** The other rows are as they were. */
  lemma KeptRow(events: seq<Event>, n: nat, s: Slices, from: seq<nat>, x: nat, r: Slices)
    requires n < |events| && Bracketed(events, n, s, from) && x < |s.rows| == |r.rows| && r.rows[x] == s.rows[x]
    requires var t, stack := events[n].itid, StackOf(s, events[n].itid);
             && (forall u: u32 :: u != t ==> StackOf(r, u) == StackOf(s, u))
             && (stack != [] ==> StackOf(r, t) == stack[..|stack| - 1] && x != stack[|stack| - 1].index)
             && (stack == [] ==> StackOf(r, t) == stack)
    ensures RowRight(events, n + 1, r, from, x)
  {
    assert RowRight(events, n, s, from, x);
    hide Bracketed;
    if IsOpen(s.rows[x]) {
      var u := s.rows[x].itid;
      var p :| 0 <= p < |StackOf(s, u)| && StackOf(s, u)[p].index == x;
      assert StackOf(r, u)[p].index == x;
    }
  }

  /** What one event does to the table and to the list of begins. */
  lemma NextIsBracketed(events: seq<Event>, n: nat, s: Slices, from: seq<nat>)
    requires n < |events| && Indexed(s) && Bracketed(events, n, s, from) && Plain(events) && Shallow(events)
    ensures Bracketed(events, n + 1, Step(s, events[n]).0, if events[n].Begin? then from + [n] else from)
  {
    if events[n].Begin? {
      BeginStep(events, n, s, from);
    } else {
      EndStep(events, n, s, from);
    }
  }

  lemma NoneBracketed(events: seq<Event>)
    ensures Bracketed(events, 0, EMPTY, [])
  {
    forall t: u32 ensures StackPending(events, 0, [], [], t, []) {
    }
  }

  lemma NoneParented(events: seq<Event>)
    ensures AllParented(events, 0, [], [])
  {
  }

  /** Over every plain stream that nests less than 255 deep. */
  lemma {:induction false} RunBracketed(events: seq<Event>, n: nat)
    requires n <= |events| && Plain(events) && Shallow(events)
    ensures Bracketed(events, n, Run(events, n), Begins(events, n))
  {
    hide Bracketed, Plain, Shallow, Step;
    if n == 0 {
      NoneBracketed(events);
    } else {
      RunBracketed(events, n - 1);
      NextIsBracketed(events, n - 1, Run(events, n - 1), Begins(events, n - 1));
    }
  }

  /** An open row's begin has no matching end. */
  lemma OpenUnmatched(events: seq<Event>, n: nat, s: Slices, from: seq<nat>, r: nat, k: nat)
    requires n <= |events| && Bracketed(events, n, s, from) && r < |s.rows| && IsOpen(s.rows[r])
    requires from[r] < k <= n
    ensures Balance(events, s.rows[r].itid, from[r] + 1, k) >= 0
  {
    var t := s.rows[r].itid;
    assert RowRight(events, n, s, from, r);
    var p :| 0 <= p < |StackOf(s, t)| && StackOf(s, t)[p].index == r;
    assert StackPending(events, n, s.rows, from, t, StackOf(s, t));
    assert Pending(events, n, s.rows, from, t, StackOf(s, t), p);
  }

  /** The end of a closed row, which is the only one that matches its begin. */
  lemma ClosedMatched(events: seq<Event>, n: nat, s: Slices, from: seq<nat>, r: nat) returns (k: nat)
    requires n <= |events| && Bracketed(events, n, s, from) && r < |s.rows| && !IsOpen(s.rows[r])
    ensures k < n && Matches(events, from[r], k) && s.rows[r].ts + s.rows[r].dur == events[k].ts
  {
    assert RowRight(events, n, s, from, r);
    k :| k < n && Matches(events, from[r], k) && s.rows[r].dur == events[k].ts - s.rows[r].ts;
  }

  ghost predicate ClosedBy(events: seq<Event>, row: Row, i: nat, k: nat) {
    Matches(events, i, k) && !IsOpen(row) && row.ts + row.dur == events[k].ts
  }

  /** Each end closes its own begin: the row of a begin is closed exactly when an end matches
      it, and then it lasts until that end. */
  lemma {:induction false} EndsCloseTheirBegins(events: seq<Event>, r: nat, j: nat)
    requires Plain(events) && Shallow(events)
    requires r < |Begins(events, |events|)| && j < |events|
    ensures var rows, i := Run(events, |events|).rows, Begins(events, |events|)[r];
            && r < |rows| && rows[r].ts == events[i].ts && rows[r].itid == events[i].itid
            && rows[r].cat == events[i].cat && rows[r].name == events[i].name
            && (Matches(events, i, j) ==> ClosedBy(events, rows[r], i, j))
            && (!IsOpen(rows[r]) ==> exists k: nat :: ClosedBy(events, rows[r], i, k))
  {
    var n := |events|;
    RunBracketed(events, n);
    RowsFollowBrackets(events, n, Run(events, n), Begins(events, n), r, j);
  }

  lemma RowsFollowBrackets(events: seq<Event>, n: nat, s: Slices, from: seq<nat>, r: nat, j: nat)
    requires n <= |events| && Bracketed(events, n, s, from) && r < |from| && j < n
    ensures r < |s.rows| && from[r] < n && s.rows[r].ts == events[from[r]].ts && s.rows[r].itid == events[from[r]].itid
    ensures s.rows[r].cat == events[from[r]].cat && s.rows[r].name == events[from[r]].name
    ensures Matches(events, from[r], j) ==> ClosedBy(events, s.rows[r], from[r], j)
    ensures !IsOpen(s.rows[r]) ==> exists k: nat :: ClosedBy(events, s.rows[r], from[r], k)
  {
    assert RowRight(events, n, s, from, r);
    if !IsOpen(s.rows[r]) {
      var k := ClosedMatched(events, n, s, from, r);
      assert ClosedBy(events, s.rows[r], from[r], k);
      if Matches(events, from[r], j) {
        MatchUnique(events, from[r], j, k);
      }
    } else if from[r] < j {
      assert Matches(events, from[r], j) ==> Balance(events, s.rows[r].itid, from[r] + 1, j + 1) == -1;
      OpenUnmatched(events, n, s, from, r, j + 1);
    }
  }

  // ---------------------------------------------------------------------------
  // Parents and siblings
  // ---------------------------------------------------------------------------

  /** The parent of a row is the begin that is innermost when the row begins; a row without a
      parent begins when nothing of its thread is open. */
  ghost predicate Parented(events: seq<Event>, rows: seq<Row>, from: seq<nat>, r: nat)
    requires r < |rows| && r < |from| && from[r] < |events|
  {
    var t := rows[r].itid;
    match rows[r].parent
    case None => Height(events, t, from[r]) == 0
    case Some(p) =>
      && p < r && p < |from| && from[p] < from[r] && rows[p].itid == t
      && Balance(events, t, from[p] + 1, from[r]) == 0 && NeverBelow(events, t, from[p] + 1, from[r])
  }

  ghost predicate AllParented(events: seq<Event>, n: nat, rows: seq<Row>, from: seq<nat>) {
    && |from| == |rows| && n <= |events|
    && (forall r :: 0 <= r < |from| ==> from[r] < n)
    && (forall r :: 0 <= r < |rows| ==> Parented(events, rows, from, r))
  }

  /** A new row whose parent is the top of its thread's stack. */
  lemma NewParented(events: seq<Event>, n: nat, rows: seq<Row>, from: seq<nat>, stack: seq<Entry>, row: Row)
    requires n < |events| && AllParented(events, n, rows, from)
    requires StackPending(events, n, rows, from, row.itid, stack)
    requires row.parent == if stack == [] then None else Some(stack[|stack| - 1].index)
    ensures AllParented(events, n + 1, rows + [row], from + [n])
  {
    var rows', from' := rows + [row], from + [n];
    assert stack != [] ==> Pending(events, n, rows, from, row.itid, stack, |stack| - 1);
    assert Parented(events, rows', from', |rows|);
    forall r | 0 <= r < |rows| ensures Parented(events, rows', from', r) {
      assert Parented(events, rows, from, r);
    }
  }

  /** The row a begin adds. */
  lemma BeginShape(events: seq<Event>, n: nat, s: Slices, from: seq<nat>)
    requires n < |events| && Indexed(s) && Bracketed(events, n, s, from) && events[n].Begin?
    ensures var e := events[n];
            var stack, rows := StackOf(s, e.itid), Start(s, e, OPEN).0.rows;
            && StackPending(events, n, s.rows, from, e.itid, stack)
            && |rows| == |s.rows| + 1 && rows[..|s.rows|] == s.rows && rows[|s.rows|].itid == e.itid
            && rows[|s.rows|].parent == if stack == [] then None else Some(stack[|stack| - 1].index)
  {
    StackIsOpen(events, n, s, from, events[n].itid, events[n].ts);
  }

  lemma BeginParented(events: seq<Event>, n: nat, s: Slices, from: seq<nat>)
    requires n < |events| && Indexed(s) && Bracketed(events, n, s, from) && events[n].Begin?
    requires AllParented(events, n, s.rows, from)
    ensures AllParented(events, n + 1, Start(s, events[n], OPEN).0.rows, from + [n])
  {
    hide Bracketed, AllParented, StackPending, Start;
    BeginShape(events, n, s, from);
    var rows := Start(s, events[n], OPEN).0.rows;
    NewParented(events, n, s.rows, from, StackOf(s, events[n].itid), rows[|s.rows|]);
    assert rows == s.rows + [rows[|s.rows|]];
  }

  lemma EndParented(events: seq<Event>, n: nat, s: Slices, from: seq<nat>)
    requires n < |events| && Indexed(s) && events[n].End? && AllParented(events, n, s.rows, from)
    ensures AllParented(events, n + 1, Complete(s, events[n]).0.rows, from)
  {
    var rows := Complete(s, events[n]).0.rows;
    forall r | 0 <= r < |rows| ensures Parented(events, rows, from, r) {
      assert Parented(events, s.rows, from, r);
    }
  }

  lemma NextIsParented(events: seq<Event>, n: nat, s: Slices, from: seq<nat>)
    requires n < |events| && Indexed(s) && Bracketed(events, n, s, from) && Plain(events) && Shallow(events)
    requires AllParented(events, n, s.rows, from)
    ensures AllParented(events, n + 1, Step(s, events[n]).0.rows, if events[n].Begin? then from + [n] else from)
  {
    if events[n].Begin? {
      BeginParented(events, n, s, from);
    } else {
      EndParented(events, n, s, from);
    }
  }

  lemma {:induction false} RunParented(events: seq<Event>, n: nat)
    requires n <= |events| && Plain(events) && Shallow(events)
    ensures AllParented(events, n, Run(events, n).rows, Begins(events, n))
  {
    hide AllParented, Bracketed, Plain, Shallow, Step;
    if n == 0 {
      NoneParented(events);
    } else {
      RunParented(events, n - 1);
      RunBracketed(events, n - 1);
      NextIsParented(events, n - 1, Run(events, n - 1), Begins(events, n - 1));
    }
  }

  lemma {:induction false} HeightAtLeast(events: seq<Event>, t: u32, i: nat, n: nat)
    requires i <= n <= |events|
    ensures Height(events, t, n) >= Height(events, t, i) + Balance(events, t, i, n)
  {
    if i < n {
      HeightAtLeast(events, t, i, n - 1);
    }
  }

  /** Rows p and r of one thread, p first: at the begin of r something has closed p, or not. */
  lemma {:induction false} SiblingClosed(events: seq<Event>, n: nat, rows: seq<Row>, from: seq<nat>, r: nat, r': nat)
    requires AllParented(events, n, rows, from) && r < r' < |rows| && from[r] < from[r']
    requires rows[r].itid == rows[r'].itid && rows[r].parent == rows[r'].parent
    requires events[from[r]].Begin? && events[from[r]].itid == rows[r].itid
    ensures Balance(events, rows[r].itid, from[r] + 1, from[r']) < 0
  {
    var t, i, i' := rows[r].itid, from[r], from[r'];
    assert Parented(events, rows, from, r) && Parented(events, rows, from, r');
    match rows[r].parent {
      case None =>
        HeightAtLeast(events, t, i + 1, i');
      case Some(p) =>
        BalanceSplit(events, t, from[p] + 1, i, i');
        BalanceSplit(events, t, i, i + 1, i');
        assert Balance(events, t, i, i + 1) == 1;
    }
  }

  /** A closed parent has closed its child first, and the child lies inside it. */
  lemma ChildInside(events: seq<Event>, n: nat, s: Slices, from: seq<nat>, p: nat, r: nat)
    requires n <= |events| && Plain(events) && Bracketed(events, n, s, from) && AllParented(events, n, s.rows, from)
    requires r < |s.rows| && s.rows[r].parent == Some(p)
    ensures p < r && s.rows[p].itid == s.rows[r].itid && s.rows[p].ts <= s.rows[r].ts
    ensures !IsOpen(s.rows[p]) ==> !IsOpen(s.rows[r]) && s.rows[r].ts + s.rows[r].dur <= s.rows[p].ts + s.rows[p].dur
  {
    assert Parented(events, s.rows, from, r);
    assert RowRight(events, n, s, from, r) && RowRight(events, n, s, from, p);
    var t, i, i' := s.rows[r].itid, from[p], from[r];
    if !IsOpen(s.rows[p]) {
      var j := ClosedMatched(events, n, s, from, p);
      assert Balance(events, t, i + 1, j + 1) == -1;
      assert j + 1 > i';
      BalanceSplit(events, t, i + 1, i', j + 1);
      BalanceSplit(events, t, i', i' + 1, j + 1);
      assert Balance(events, t, i', i' + 1) == 1;
      if IsOpen(s.rows[r]) {
        OpenUnmatched(events, n, s, from, r, j + 1);
      } else {
        var j' := ClosedMatched(events, n, s, from, r);
        MatchesAreLaminar(events, i, j, i', j');
      }
    }
  }

  /** Of two siblings the first is closed, and has ended before the second begins. */
  lemma SiblingsApart(events: seq<Event>, n: nat, s: Slices, from: seq<nat>, r: nat, r': nat)
    requires n <= |events| && Plain(events) && Bracketed(events, n, s, from) && AllParented(events, n, s.rows, from)
    requires r < r' < |s.rows| && from[r] < from[r']
    requires s.rows[r].itid == s.rows[r'].itid && s.rows[r].parent == s.rows[r'].parent
    ensures !IsOpen(s.rows[r]) && s.rows[r].ts + s.rows[r].dur <= s.rows[r'].ts
  {
    assert RowRight(events, n, s, from, r) && RowRight(events, n, s, from, r');
    SiblingClosed(events, n, s.rows, from, r, r');
    if IsOpen(s.rows[r]) {
      OpenUnmatched(events, n, s, from, r, from[r']);
    } else {
      var k := ClosedMatched(events, n, s, from, r);
    }
  }

  lemma {:induction false} BeginsAscend(events: seq<Event>, n: nat, r: nat, r': nat)
    requires n <= |events| && r < r' < |Begins(events, n)|
    ensures Begins(events, n)[r] < Begins(events, n)[r']
  {
    if r' < |Begins(events, n - 1)| {
      BeginsAscend(events, n - 1, r, r');
    }
  }

  /** After every plain stream each child lies inside its parent, and siblings do not overlap. */
  lemma {:induction false} SlicesNest(events: seq<Event>, r: nat, r': nat)
    requires Plain(events) && Shallow(events)
    requires r < |Run(events, |events|).rows| && r' < |Run(events, |events|).rows|
    ensures var rows := Run(events, |events|).rows;
            rows[r'].parent == Some(r) ==>
              && rows[r].itid == rows[r'].itid && rows[r].ts <= rows[r'].ts
              && (!IsOpen(rows[r]) ==> !IsOpen(rows[r']) && rows[r'].ts + rows[r'].dur <= rows[r].ts + rows[r].dur)
    ensures var rows := Run(events, |events|).rows;
            r < r' && rows[r].itid == rows[r'].itid && rows[r].parent == rows[r'].parent ==>
              !IsOpen(rows[r]) && rows[r].ts + rows[r].dur <= rows[r'].ts
  {
    var n := |events|;
    var s, from := Run(events, n), Begins(events, n);
    RunBracketed(events, n);
    RunParented(events, n);
    if s.rows[r'].parent == Some(r) {
      ChildInside(events, n, s, from, r, r');
    }
    if r < r' && s.rows[r].itid == s.rows[r'].itid && s.rows[r].parent == s.rows[r'].parent {
      BeginsAscend(events, n, r, r');
      SiblingsApart(events, n, s, from, r, r');
    }
  }
}
