/** Every returned slice row hangs in a forest of call stacks, whatever mix of slice and binder
    events comes in (the walk up to the root is the one of
    trace_streamer/src/filter/animation_filter.cpp:176-192). */
module SliceForest {
  import opened Words
  import opened SliceFilter

  /** The rows StartSlice has returned after the first n events. */
  ghost function Returned(events: seq<Event>, n: nat): (r: set<nat>)
    requires n <= |events|
  {
    if n == 0 then {} else
    var e := events[n - 1];
    var (_, index) := Step(Run(events, n - 1), e);
    if !e.End? && index.Some? then Returned(events, n - 1) + {index.value} else Returned(events, n - 1)
  }

  /** A root of depth 0, or the child of an earlier returned row of the same thread that is one
      level up. */
  ghost predicate Hangs(rows: seq<Row>, kept: set<nat>, r: nat) {
    && r < |rows|
    && match rows[r].parent
       case None => rows[r].depth == 0
       case Some(p) => p < r && p in kept && rows[p].itid == rows[r].itid && rows[p].depth + 1 == rows[r].depth
  }

  /** Entry i of a stack has depth i and points to a returned row of the thread at that depth. */
  ghost predicate StackRight(rows: seq<Row>, kept: set<nat>, t: u32, stack: seq<Entry>) {
    forall i :: 0 <= i < |stack| ==>
      && stack[i].depth == i && stack[i].index < |rows| && stack[i].index in kept
      && rows[stack[i].index].itid == t && rows[stack[i].index].depth == i
  }

  ghost predicate Forest(s: Slices, kept: set<nat>) {
    && (forall r :: r in kept ==> Hangs(s.rows, kept, r))
    && (forall t :: t in s.stacks ==> StackRight(s.rows, kept, t, s.stacks[t]))
  }

  lemma PrefixRight(rows: seq<Row>, kept: set<nat>, t: u32, stack: seq<Entry>, r: seq<Entry>)
    requires StackRight(rows, kept, t, stack) && r <= stack
    ensures StackRight(rows, kept, t, r)
  {
  }

  /** Appending a row disturbs neither the forest nor the stacks. */
  lemma AppendRow(s: Slices, kept: set<nat>, row: Row)
    requires Forest(s, kept)
    ensures Forest(s.(rows := s.rows + [row]), kept)
  {
    var rows := s.rows + [row];
    forall r | r in kept ensures Hangs(rows, kept, r) {
      assert Hangs(s.rows, kept, r);
    }
    forall t | t in s.stacks ensures StackRight(rows, kept, t, s.stacks[t]) {
      assert StackRight(s.rows, kept, t, s.stacks[t]);
    }
  }

  lemma KeepMore(s: Slices, kept: set<nat>, index: nat)
    requires Forest(s, kept) && Hangs(s.rows, kept, index)
    ensures Forest(s, kept + {index})
  {
    forall r | r in kept + {index} ensures Hangs(s.rows, kept + {index}, r) {
      assert Hangs(s.rows, kept, r);
    }
    forall t | t in s.stacks ensures StackRight(s.rows, kept + {index}, t, s.stacks[t]) {
      assert StackRight(s.rows, kept, t, s.stacks[t]);
    }
  }

  lemma StartForest(s: Slices, e: Event, dur: u64, kept: set<nat>)
    requires Indexed(s) && Forest(s, kept)
    ensures var (r, index) := Start(s, e, dur);
            Forest(r, if index.Some? then kept + {index.value} else kept)
  {
    assert InTable(s.rows, StackOf(s, e.itid));
    hide CloseUnmatched, Indexed, Forest, InTable;
    var stack := CloseUnmatched(s.rows, e.ts, StackOf(s, e.itid));
    var (r, index) := Start(s, e, dur);
    var n := |s.rows|;
    var row := r.rows[n];
    assert r.rows == s.rows + [row] && row.itid == e.itid;
    assert r.stacks == s.stacks[e.itid := if index.Some? then stack + [Entry(n, |stack|)] else stack];
    assert index.Some? ==> index.value == n && row.depth == |stack|;
    assert row.parent == if stack == [] then None else Some(stack[|stack| - 1].index);
    hide Start, CloseUnmatched, Indexed;
    StartHangs(s, e.itid, kept, stack, row, r, index);
  }

  /** A new row above what is left of the stack hangs there. */
  lemma StartHangs(s: Slices, t: u32, kept: set<nat>, stack: seq<Entry>, row: Row, r: Slices, index: Option<nat>)
    requires Forest(s, kept) && stack <= StackOf(s, t)
    requires r.rows == s.rows + [row] && row.itid == t
    requires r.stacks == s.stacks[t := if index.Some? then stack + [Entry(|s.rows|, |stack|)] else stack]
    requires index.Some? ==> index.value == |s.rows| && row.depth == |stack|
    requires row.parent == if stack == [] then None else Some(stack[|stack| - 1].index)
    ensures Forest(r, if index.Some? then kept + {index.value} else kept)
  {
    var n := |s.rows|;
    AppendRow(s, kept, row);
    var a := s.(rows := r.rows);
    assert StackRight(r.rows, kept, t, StackOf(a, t));
    PrefixRight(r.rows, kept, t, StackOf(a, t), stack);
    if index.Some? {
      assert Hangs(r.rows, kept, n);
      KeepMore(a, kept, n);
      assert StackRight(r.rows, kept + {n}, t, stack + [Entry(n, |stack|)]);
    }
  }

  lemma SetDuration(s: Slices, kept: set<nat>, index: nat, dur: u64)
    requires Forest(s, kept) && index < |s.rows|
    ensures Forest(s.(rows := s.rows[index := s.rows[index].(dur := dur)]), kept)
  {
    var rows := s.rows[index := s.rows[index].(dur := dur)];
    forall r | r in kept ensures Hangs(rows, kept, r) {
      assert Hangs(s.rows, kept, r);
    }
    forall t | t in s.stacks ensures StackRight(rows, kept, t, s.stacks[t]) {
      assert StackRight(s.rows, kept, t, s.stacks[t]);
    }
  }

  lemma CompleteForest(s: Slices, e: Event, kept: set<nat>)
    requires Indexed(s) && Forest(s, kept)
    ensures Forest(Complete(s, e).0, kept)
  {
    var (r, index) := Complete(s, e);
    CompleteShape(s, e, e.itid);
    assert e.itid !in s.stacks ==> r == s;
    assert e.itid in s.stacks ==> r.stacks == s.stacks[e.itid := StackOf(r, e.itid)];
    hide Complete, Indexed;
    if e.itid in s.stacks {
      if index.Some? {
        SetDuration(s, kept, index.value, r.rows[index.value].dur);
      }
      assert StackRight(r.rows, kept, e.itid, s.stacks[e.itid]);
      PrefixRight(r.rows, kept, e.itid, s.stacks[e.itid], r.stacks[e.itid]);
    }
  }

  lemma EmptyForest()
    ensures Forest(EMPTY, {})
  {
  }

  /** Over every mix of begin, end and instantaneous events. */
  lemma {:induction false} RunForest(events: seq<Event>, n: nat)
    requires n <= |events|
    ensures Forest(Run(events, n), Returned(events, n))
  {
    hide Forest, Start, Complete, Indexed;
    if n == 0 {
      EmptyForest();
    } else {
      RunForest(events, n - 1);
      var s, e, kept := Run(events, n - 1), events[n - 1], Returned(events, n - 1);
      match e {
        case Begin(_, _, _, _) => StartForest(s, e, OPEN, kept);
        case Instant(_, _, _, _) => StartForest(s, e, 0, kept);
        case End(_, _, _, _) => CompleteForest(s, e, kept);
      }
    }
  }

  /** Following parents k times. */
  function Ascend(rows: seq<Row>, r: nat, k: nat): (a: Option<nat>)
    decreases k
  {
    if r >= |rows| then None
    else if k == 0 then Some(r)
    else match rows[r].parent
         case None => None
         case Some(p) => Ascend(rows, p, k - 1)
  }

  /** From a returned row the walk up reaches a root of its thread in exactly depth steps. */
  lemma {:induction false} AscendToRoot(rows: seq<Row>, kept: set<nat>, r: nat)
    requires r in kept && forall x :: x in kept ==> Hangs(rows, kept, x)
    ensures r < |rows|
    ensures var a := Ascend(rows, r, rows[r].depth);
            a.Some? && a.value < |rows| && rows[a.value].parent.None? && rows[a.value].itid == rows[r].itid
    ensures Ascend(rows, r, rows[r].depth + 1).None?
    decreases r
  {
    assert Hangs(rows, kept, r);
    if rows[r].parent.Some? {
      AscendToRoot(rows, kept, rows[r].parent.value);
    }
  }

  lemma {:induction false} ReturnedRowsReachRoot(events: seq<Event>, n: nat, r: nat)
    requires n <= |events| && r in Returned(events, n)
    ensures var rows := Run(events, n).rows;
            && r < |rows|
            && var a := Ascend(rows, r, rows[r].depth);
               a.Some? && a.value < |rows| && rows[a.value].parent.None? && rows[a.value].itid == rows[r].itid
  {
    RunForest(events, n);
    AscendToRoot(Run(events, n).rows, Returned(events, n), r);
  }
}
