/** When frames end: exactly when they leave their list, once, and a render-service frame at the
    later of its vsync end and its GPU end. */
module FrameLifeCycle {
  import opened Words
  import opened FrameFilter

  // ---------------------------------------------------------------------------
  // Frames in flight
  // ---------------------------------------------------------------------------

  /** A frame whose vsync has ended is a render-service frame whose GPU work has not. */
  predicate Waiting(f: Frame) {
    f.vsyncEnd ==> f.isRs && !f.gpuEnd
  }

  /** The lists hold rows of their own thread in ascending order, and only waiting frames. */
  ghost predicate Sane(s: Frames) {
    && Placed(s)
    && (forall t: u32, k :: 0 <= k < |Flight(s, t)| ==> Waiting(Flight(s, t)[k]))
    && (forall t: u32, k :: 0 <= k < |Flight(s, t)| ==> Flight(s, t)[k].row < |s.rows| && s.rows[Flight(s, t)[k].row].itid == t)
    && (forall t: u32, i, k :: 0 <= i < k < |Flight(s, t)| ==> Flight(s, t)[i].row < Flight(s, t)[k].row)
  }

  /** What a step does to the rows other than closing them. */
  ghost predicate SameOwners(s: Frames, r: Frames) {
    |s.rows| <= |r.rows| && forall x :: 0 <= x < |s.rows| ==> r.rows[x].itid == s.rows[x].itid
  }

  lemma StepOwners(s: Frames, e: Event)
    requires Placed(s)
    ensures SameOwners(s, Step(s, e).0)
  {
  }

  /** A list replaced by one with the same rows, or fewer, or one more. */
  lemma Replaced(s: Frames, r: Frames, t: u32, list: seq<Frame>)
    requires Sane(s) && Placed(r) && SameOwners(s, r) && r.flights == s.flights[t := list]
    requires forall k :: 0 <= k < |list| ==> Waiting(list[k]) && list[k].row < |r.rows| && r.rows[list[k].row].itid == t
    requires forall i, k :: 0 <= i < k < |list| ==> list[i].row < list[k].row
    ensures Sane(r)
  {
    forall u: u32, k | 0 <= k < |Flight(r, u)|
      ensures Waiting(Flight(r, u)[k]) && Flight(r, u)[k].row < |r.rows| && r.rows[Flight(r, u)[k].row].itid == u
    {
      assert u != t ==> Flight(r, u) == Flight(s, u);
    }
    forall u: u32, i, k | 0 <= i < k < |Flight(r, u)| ensures Flight(r, u)[i].row < Flight(r, u)[k].row {
      assert u != t ==> Flight(r, u) == Flight(s, u);
    }
  }

  /** The list of the event's thread: the same rows and perhaps a new one, or one end removed. */
  lemma StepShape(s: Frames, e: Event)
    requires Placed(s)
    ensures var list, list', ended := Flight(s, e.itid), Flight(Step(s, e).0, e.itid), Step(s, e).1;
            match ended
            case None =>
              && |list| <= |list'|
              && (forall k :: 0 <= k < |list| ==> list'[k].row == list[k].row)
              && (forall k :: |list| <= k < |list'| ==> list'[k].row >= |s.rows|)
            case Some(row) =>
              && list != []
              && ((e.EndVsync? && row == list[|list| - 1].row && list' == list[..|list| - 1])
                  || (e.EndQueue? && row == list[0].row && list' == list[1..]))
  {
  }

  lemma ListWaits(s: Frames, e: Event)
    requires Placed(s) && forall k :: 0 <= k < |Flight(s, e.itid)| ==> Waiting(Flight(s, e.itid)[k])
    ensures forall k :: 0 <= k < |Flight(Step(s, e).0, e.itid)| ==> Waiting(Flight(Step(s, e).0, e.itid)[k])
  {
  }

  /** A new row belongs to the thread of its frame. */
  lemma NewRowOwner(s: Frames, e: Event, k: nat)
    requires Placed(s) && k < |Flight(Step(s, e).0, e.itid)| && Flight(Step(s, e).0, e.itid)[k].row >= |s.rows|
    ensures var r := Step(s, e).0;
            Flight(r, e.itid)[k].row < |r.rows| && r.rows[Flight(r, e.itid)[k].row].itid == e.itid
            && k == |Flight(r, e.itid)| - 1 && k >= |Flight(s, e.itid)|
  {
  }

  lemma ListSane(s: Frames, e: Event)
    requires Sane(s)
    ensures var r, t := Step(s, e).0, e.itid;
            var list := Flight(r, t);
            && (forall k :: 0 <= k < |list| ==> Waiting(list[k]) && list[k].row < |r.rows| && r.rows[list[k].row].itid == t)
            && (forall i, k :: 0 <= i < k < |list| ==> list[i].row < list[k].row)
  {
    hide Step, Waiting;
    var r, t := Step(s, e).0, e.itid;
    StepOwners(s, e);
    StepShape(s, e);
    ListWaits(s, e);
    var list := Flight(r, t);
    forall k | 0 <= k < |list|
      ensures list[k].row < |r.rows| && r.rows[list[k].row].itid == t
      ensures list[k].row >= |s.rows| ==> k == |list| - 1
    {
      if list[k].row >= |s.rows| {
        NewRowOwner(s, e, k);
      } else {
        FromOldList(s, e, k);
      }
    }
    forall i, k | 0 <= i < k < |list| ensures list[i].row < list[k].row {
      if list[k].row < |s.rows| {
        AscendOld(s, e, i, k);
      }
    }
  }

  lemma FromOldList(s: Frames, e: Event, k: nat)
    requires Sane(s) && k < |Flight(Step(s, e).0, e.itid)| && Flight(Step(s, e).0, e.itid)[k].row < |s.rows|
    ensures s.rows[Flight(Step(s, e).0, e.itid)[k].row].itid == e.itid
  {
    StepShape(s, e);
    hide Step, Waiting;
    var list, list' := Flight(s, e.itid), Flight(Step(s, e).0, e.itid);
    assert (k < |list| && list'[k].row == list[k].row) || (k + 1 < |list| && list'[k].row == list[k + 1].row);
  }

  lemma AscendOld(s: Frames, e: Event, i: nat, k: nat)
    requires Sane(s) && i < k < |Flight(Step(s, e).0, e.itid)|
    requires Flight(Step(s, e).0, e.itid)[i].row < |s.rows| && Flight(Step(s, e).0, e.itid)[k].row < |s.rows|
    ensures Flight(Step(s, e).0, e.itid)[i].row < Flight(Step(s, e).0, e.itid)[k].row
  {
    StepShape(s, e);
    hide Step, Waiting;
    var list, list' := Flight(s, e.itid), Flight(Step(s, e).0, e.itid);
    if Step(s, e).1.Some? && e.EndQueue? {
      assert list[i + 1].row < list[k + 1].row;
    } else {
      assert list[i].row < list[k].row;
    }
  }

  lemma StepSane(s: Frames, e: Event)
    requires Sane(s)
    ensures Sane(Step(s, e).0)
  {
    StepOwners(s, e);
    var r, t := Step(s, e).0, e.itid;
    if r != s {
      ListSane(s, e);
      assert r.flights == s.flights[t := Flight(r, t)];
      hide Sane, Waiting, Step, Placed, SameOwners;
      Replaced(s, r, t, Flight(r, t));
    }
  }

  lemma {:induction false} RunSane(events: seq<Event>, n: nat)
    requires n <= |events|
    ensures Sane(Run(events, n))
  {
    hide Sane, Step;
    if n == 0 {
      NoneSane();
    } else {
      RunSane(events, n - 1);
      StepSane(Run(events, n - 1), events[n - 1]);
    }
  }

  lemma NoneSane()
    ensures Sane(EMPTY)
  {
  }

  // ---------------------------------------------------------------------------
  // Ending is leaving
  // ---------------------------------------------------------------------------

  ghost predicate InFlight(s: Frames, t: u32, row: nat) {
    exists k :: 0 <= k < |Flight(s, t)| && Flight(s, t)[k].row == row
  }

  /** The row that event i ends. */
  function Ended(events: seq<Event>, i: nat): (r: Option<nat>)
    requires i < |events|
  {
    Step(Run(events, i), events[i]).1
  }

  /** A step ends a row exactly when the row leaves its list. */
  lemma StepEnds(s: Frames, e: Event, t: u32, row: nat)
    requires Sane(s) && row < |s.rows|
    ensures Step(s, e).1 == Some(row) ==> InFlight(s, s.rows[row].itid, row)
    ensures InFlight(s, t, row) ==> (Step(s, e).1 == Some(row) <==> !InFlight(Step(s, e).0, t, row))
    ensures !InFlight(s, t, row) ==> !InFlight(Step(s, e).0, t, row)
  {
    assert Placed(s);
    hide Step, Sane, Placed;
    OwnStep(s, e, row);
    if e.itid != t {
      OthersStay(s, e, t, row);
      OtherFlight(s, e, t);
    }
  }

  lemma OtherFlight(s: Frames, e: Event, t: u32)
    requires Placed(s) && e.itid != t
    ensures Flight(Step(s, e).0, t) == Flight(s, t)
  {
  }

  /** What a step ends belongs to the thread of its event. */
  lemma OthersStay(s: Frames, e: Event, t: u32, row: nat)
    requires Sane(s) && row < |s.rows| && e.itid != t
    ensures InFlight(s, t, row) ==> Step(s, e).1 != Some(row)
  {
    if InFlight(s, t, row) {
      var k :| 0 <= k < |Flight(s, t)| && Flight(s, t)[k].row == row;
      assert s.rows[row].itid == t;
    }
  }

  lemma OwnStep(s: Frames, e: Event, row: nat)
    requires Sane(s) && row < |s.rows|
    ensures Step(s, e).1 == Some(row) ==> InFlight(s, e.itid, row) && s.rows[row].itid == e.itid
    ensures InFlight(s, e.itid, row) ==> (Step(s, e).1 == Some(row) <==> !InFlight(Step(s, e).0, e.itid, row))
    ensures !InFlight(s, e.itid, row) ==> !InFlight(Step(s, e).0, e.itid, row)
  {
    StepShape(s, e);
    hide Step, Waiting;
    if InFlight(s, e.itid, row) && Step(s, e).1 != Some(row) {
      OwnForward(s, e, row);
    }
    if InFlight(Step(s, e).0, e.itid, row) {
      OwnBackward(s, e, row);
    }
    var list, ended := Flight(s, e.itid), Step(s, e).1;
    if ended == Some(row) {
      assert list[if e.EndVsync? then |list| - 1 else 0].row == row;
    }
  }

  lemma OwnForward(s: Frames, e: Event, row: nat)
    requires Sane(s) && row < |s.rows| && InFlight(s, e.itid, row) && Step(s, e).1 != Some(row)
    ensures InFlight(Step(s, e).0, e.itid, row)
  {
    StepShape(s, e);
    hide Step, Sane;
    var list, list', ended := Flight(s, e.itid), Flight(Step(s, e).0, e.itid), Step(s, e).1;
    var k :| 0 <= k < |list| && list[k].row == row;
    assert list'[if ended.Some? && e.EndQueue? then k - 1 else k].row == row;
  }

  lemma OwnBackward(s: Frames, e: Event, row: nat)
    requires Sane(s) && row < |s.rows| && InFlight(Step(s, e).0, e.itid, row)
    ensures InFlight(s, e.itid, row) && Step(s, e).1 != Some(row)
  {
    StepShape(s, e);
    hide Step, Waiting;
    var list, list', ended := Flight(s, e.itid), Flight(Step(s, e).0, e.itid), Step(s, e).1;
    var k :| 0 <= k < |list'| && list'[k].row == row;
    var x := if ended.Some? && e.EndQueue? then k + 1 else k;
    assert list[x].row == row;
    if ended.Some? {
      assert e.EndVsync? ==> list[x].row < list[|list| - 1].row;
      assert e.EndQueue? ==> list[0].row < list[x].row;
    }
  }

  /** Over every run: an event ends a row in flight exactly when it takes it off its list. */
  lemma EndsOnLeaving(events: seq<Event>, i: nat, t: u32, row: nat)
    requires i < |events| && InFlight(Run(events, i), t, row)
    ensures Ended(events, i) == Some(row) <==> !InFlight(Run(events, i + 1), t, row)
  {
    RunSane(events, i);
    var s := Run(events, i);
    assert row < |s.rows| by {
      var k :| 0 <= k < |Flight(s, t)| && Flight(s, t)[k].row == row;
    }
    StepEnds(s, events[i], t, row);
  }

  lemma {:induction false} StaysGone(events: seq<Event>, i: nat, j: nat, t: u32, row: nat)
    requires i <= j <= |events| && row < |Run(events, i).rows| && !InFlight(Run(events, i), t, row)
    ensures row < |Run(events, j).rows| && !InFlight(Run(events, j), t, row)
  {
    hide Sane, Step, InFlight;
    if i < j {
      StaysGone(events, i, j - 1, t, row);
      RunSane(events, j - 1);
      var s, e := Run(events, j - 1), events[j - 1];
      StepOwners(s, e);
      StepEnds(s, e, t, row);
    }
  }

  /** What an event ends is in flight before it, on a list of the row's thread. */
  lemma {:induction false} EndedWasInFlight(events: seq<Event>, i: nat)
    requires i < |events| && Ended(events, i).Some?
    ensures var s, row := Run(events, i), Ended(events, i).value;
            row < |s.rows| && InFlight(s, s.rows[row].itid, row)
  {
    RunSane(events, i);
    var s, e := Run(events, i), events[i];
    var list, row := Flight(s, e.itid), Ended(events, i).value;
    assert list != [];
    assert list[if e.EndVsync? then |list| - 1 else 0].row == row;
    OwnStep(s, e, row);
  }

  /** No row is ended twice. */
  lemma EndedOnce(events: seq<Event>, i: nat, j: nat)
    requires i < j < |events| && Ended(events, i).Some?
    ensures Ended(events, i) != Ended(events, j)
  {
    hide Sane, Step, InFlight;
    var row := Ended(events, i).value;
    if Ended(events, j) == Some(row) {
      EndedWasInFlight(events, i);
      EndedWasInFlight(events, j);
      var u := Run(events, j).rows[row].itid;
      RunSane(events, i);
      OwnersStay(events, i, j);
      EndsOnLeaving(events, i, u, row);
      StepOwners(Run(events, i), events[i]);
      StaysGone(events, i + 1, j, u, row);
    }
  }

  lemma {:induction false} OwnersStay(events: seq<Event>, i: nat, j: nat)
    requires i <= j <= |events|
    ensures SameOwners(Run(events, i), Run(events, j))
  {
    hide Step;
    if i < j {
      OwnersStay(events, i, j - 1);
      StepOwners(Run(events, j - 1), events[j - 1]);
    }
  }

  // ---------------------------------------------------------------------------
  // Vsync and GPU work of a frame, read off the events
  // ---------------------------------------------------------------------------

  /** The row an event is about: vsync ends concern the newest frame, the queue the oldest. */
  function Hit(s: Frames, e: Event): (r: Option<nat>) {
    var list := Flight(s, e.itid);
    if list == [] then None
    else if e.EndVsync? then Some(list[|list| - 1].row)
    else if e.StartQueue? || e.EndQueue? then Some(list[0].row)
    else None
  }

  /** The first vsync end of a row among the first n events. */
  function VsyncEndAt(events: seq<Event>, row: nat, n: nat): (i: Option<nat>)
    requires n <= |events|
    ensures i.Some? ==> i.value < n
  {
    if n == 0 then None else
    var i := VsyncEndAt(events, row, n - 1);
    if i.Some? then i
    else if events[n - 1].EndVsync? && Hit(Run(events, n - 1), events[n - 1]) == Some(row) then Some(n - 1) else None
  }

  /** The last GPU end of a row among the first n events. */
  function GpuEndAt(events: seq<Event>, row: nat, n: nat): (i: Option<nat>)
    requires n <= |events|
    ensures i.Some? ==> i.value < n
  {
    if n == 0 then None
    else if events[n - 1].EndQueue? && Hit(Run(events, n - 1), events[n - 1]) == Some(row) then Some(n - 1)
    else GpuEndAt(events, row, n - 1)
  }

  /** The last GPU start of a row among the first n events. */
  function QueueStartAt(events: seq<Event>, row: nat, n: nat): (i: Option<nat>)
    requires n <= |events|
    ensures i.Some? ==> i.value < n
  {
    if n == 0 then None
    else if events[n - 1].StartQueue? && Hit(Run(events, n - 1), events[n - 1]) == Some(row) then Some(n - 1)
    else QueueStartAt(events, row, n - 1)
  }

  /** Whether GPU work of a row has started and not ended. */
  predicate Busy(events: seq<Event>, row: nat, n: nat)
    requires n <= |events|
  {
    if n == 0 then false
    else if Hit(Run(events, n - 1), events[n - 1]) != Some(row) then Busy(events, row, n - 1)
    else if events[n - 1].StartQueue? then true
    else if events[n - 1].EndQueue? then false
    else Busy(events, row, n - 1)
  }

  /** The row of the newest frame of a thread in flight. */
  function Newest(s: Frames, t: u32): (r: Option<nat>) {
    var list := Flight(s, t);
    if list == [] then None else Some(list[|list| - 1].row)
  }

  /** The row of its oldest frame in flight. */
  function Oldest(s: Frames, t: u32): (r: Option<nat>) {
    var list := Flight(s, t);
    if list == [] then None else Some(list[0].row)
  }

  /** Whether a composition was marked while the row was the newest in flight. */
  predicate Composed(events: seq<Event>, row: nat, n: nat)
    requires n <= |events|
  {
    n > 0 &&
    (Composed(events, row, n - 1) || (events[n - 1].MarkRs? && Newest(Run(events, n - 1), events[n - 1].itid) == Some(row)))
  }

  /** The last number given while the row was the oldest in flight. */
  function NumberOf(events: seq<Event>, row: nat, n: nat): (number: u32)
    requires n <= |events|
  {
    if n == 0 then INVALID_UINT32
    else if events[n - 1].SetNumber? && Oldest(Run(events, n - 1), events[n - 1].itid) == Some(row) then events[n - 1].number
    else NumberOf(events, row, n - 1)
  }

  /** A row is not touched before it exists. */
  lemma {:induction false} Untouched(events: seq<Event>, row: nat, n: nat)
    requires n <= |events| && row >= |Run(events, n).rows|
    ensures VsyncEndAt(events, row, n) == None && !Busy(events, row, n) && QueueStartAt(events, row, n) == None
    ensures !Composed(events, row, n) && NumberOf(events, row, n) == INVALID_UINT32
  {
    if n > 0 {
      var s, e := Run(events, n - 1), events[n - 1];
      StepOwners(s, e);
      Untouched(events, row, n - 1);
      HitExists(s, e);
      hide Step;
    }
  }

  lemma HitExists(s: Frames, e: Event)
    requires Placed(s)
    ensures Hit(s, e).Some? ==> Hit(s, e).value < |s.rows|
    ensures Newest(s, e.itid).Some? ==> Newest(s, e.itid).value < |s.rows|
    ensures Oldest(s, e.itid).Some? ==> Oldest(s, e.itid).value < |s.rows|
  {
  }

  /** How one event changes the flags of a frame. */
  ghost predicate Follows(s: Frames, e: Event, f: Frame, f': Frame) {
    var hit := Hit(s, e) == Some(f.row);
    && f'.row == f.row && f'.expectedRow == f.expectedRow && f'.expectedEnd == f.expectedEnd
    && f'.queueStart == (if hit && e.StartQueue? then e.ts else f.queueStart)
    && f'.vsyncEnd == (f.vsyncEnd || (hit && e.EndVsync?))
    && f'.gpuEnd == (if hit && e.StartQueue? then false else if hit && e.EndQueue? then true else f.gpuEnd)
    && f'.isRs == (f.isRs || (e.MarkRs? && Newest(s, e.itid) == Some(f.row)))
    && f'.frameNum == (if e.SetNumber? && Oldest(s, e.itid) == Some(f.row) then e.number else f.frameNum)
  }

  ghost predicate Comes(s: Frames, e: Event, t: u32, f': Frame) {
    exists k :: 0 <= k < |Flight(s, t)| && Follows(s, e, Flight(s, t)[k], f')
  }

  /** The frame that a vsync begins. */
  ghost predicate Begun(s: Frames, e: Event, f: Frame) {
    && e.Vsync? && f.row == |s.rows| && f.expectedRow == |s.rows| + 1 && f.expectedEnd == e.expectEnd
    && !f.vsyncEnd && f.gpuEnd && f.queueStart == INVALID_UINT64 && !f.isRs && f.frameNum == INVALID_UINT32
  }

  /** A frame after a step is new, or comes from one on the same list. */
  lemma FrameOrigin(s: Frames, e: Event, t: u32, k: nat)
    requires Sane(s) && k < |Flight(Step(s, e).0, t)|
    ensures var f' := Flight(Step(s, e).0, t)[k];
            Begun(s, e, f') || Comes(s, e, t, f')
  {
    assert Placed(s);
    hide Sane, Step, Placed, Hit, Follows;
    if e.itid != t {
      OtherFlight(s, e, t);
      ElsewhereFollows(s, e, t, k);
    } else if e.EndQueue? && Step(s, e).1.Some? {
      ShiftedFollows(s, e, k);
    } else if k < |Flight(s, t)| {
      OwnFollows(s, e, k);
    } else {
      NewFrame(s, e, k);
    }
  }

  lemma ElsewhereFollows(s: Frames, e: Event, t: u32, k: nat)
    requires Sane(s) && k < |Flight(s, t)| && e.itid != t
    ensures Follows(s, e, Flight(s, t)[k], Flight(s, t)[k])
  {
    hide Sane;
    HitElsewhere(s, e, t, k);
    hide Hit, Newest, Oldest;
  }

  /** When the oldest frame leaves, the others move up. */
  lemma ShiftedFollows(s: Frames, e: Event, k: nat)
    requires Sane(s) && e.EndQueue? && Step(s, e).1.Some? && k < |Flight(Step(s, e).0, e.itid)|
    ensures k + 1 < |Flight(s, e.itid)|
    ensures Follows(s, e, Flight(s, e.itid)[k + 1], Flight(Step(s, e).0, e.itid)[k])
  {
    var list := Flight(s, e.itid);
    assert Placed(s);
    StepShape(s, e);
    assert list[0].row < list[k + 1].row;
    hide Sane, Step, Placed;
  }

  lemma NewFrame(s: Frames, e: Event, k: nat)
    requires Placed(s) && |Flight(s, e.itid)| <= k < |Flight(Step(s, e).0, e.itid)|
    ensures Begun(s, e, Flight(Step(s, e).0, e.itid)[k])
  {
    hide Placed, Wrap64, Close;
  }

  lemma HitElsewhere(s: Frames, e: Event, t: u32, k: nat)
    requires Sane(s) && k < |Flight(s, t)| && e.itid != t
    ensures Hit(s, e) != Some(Flight(s, t)[k].row)
    ensures Newest(s, e.itid) != Some(Flight(s, t)[k].row) && Oldest(s, e.itid) != Some(Flight(s, t)[k].row)
  {
    assert s.rows[Flight(s, t)[k].row].itid == t;
    hide Waiting;
    var list := Flight(s, e.itid);
    assert list != [] ==> s.rows[list[0].row].itid == e.itid && s.rows[list[|list| - 1].row].itid == e.itid;
  }

  lemma OwnFollows(s: Frames, e: Event, k: nat)
    requires Sane(s) && k < |Flight(s, e.itid)| && k < |Flight(Step(s, e).0, e.itid)|
    requires !(e.EndQueue? && Step(s, e).1.Some?)
    ensures Follows(s, e, Flight(s, e.itid)[k], Flight(Step(s, e).0, e.itid)[k])
  {
    var list := Flight(s, e.itid);
    assert k > 0 ==> list[0].row < list[k].row;
    assert k < |list| - 1 ==> list[k].row < list[|list| - 1].row;
    assert Placed(s);
    hide Sane, Step, Follows;
    ListFollows(s, e, k);
  }

  lemma ListFollows(s: Frames, e: Event, k: nat)
    requires Placed(s) && k < |Flight(s, e.itid)| && k < |Flight(Step(s, e).0, e.itid)|
    requires !(e.EndQueue? && Step(s, e).1.Some?)
    requires var list := Flight(s, e.itid);
             (k > 0 ==> list[0].row != list[k].row) && (k < |list| - 1 ==> list[k].row != list[|list| - 1].row)
    ensures Follows(s, e, Flight(s, e.itid)[k], Flight(Step(s, e).0, e.itid)[k])
  {
    hide Close, Placed, Wrap64;
    match e {
      case Vsync(_, _, _, _) => VsyncFollows(s, e, k);
      case MarkRs(_, _) =>
      case SetNumber(_, _, _) =>
      case EndVsync(_, _) => EndVsyncFollows(s, e, k);
      case StartQueue(_, _) =>
      case EndQueue(_, _) =>
    }
  }

  lemma VsyncFollows(s: Frames, e: Event, k: nat)
    requires Placed(s) && e.Vsync? && k < |Flight(s, e.itid)|
    ensures k < |Flight(Step(s, e).0, e.itid)|
    ensures Follows(s, e, Flight(s, e.itid)[k], Flight(Step(s, e).0, e.itid)[k])
  {
    hide Placed, Wrap64;
  }

  lemma EndVsyncFollows(s: Frames, e: Event, k: nat)
    requires Placed(s) && e.EndVsync? && k < |Flight(s, e.itid)| && k < |Flight(Step(s, e).0, e.itid)|
    requires var list := Flight(s, e.itid); k < |list| - 1 ==> list[k].row != list[|list| - 1].row
    ensures Follows(s, e, Flight(s, e.itid)[k], Flight(Step(s, e).0, e.itid)[k])
  {
    hide Close, Placed, Wrap64;
  }

  function StartedAt(events: seq<Event>, i: Option<nat>): (ts: u64)
    requires i.Some? ==> i.value < |events|
  {
    if i.Some? then events[i.value].ts else INVALID_UINT64
  }

  /** The flags of a frame say what its events say. */
  ghost predicate Tracks(events: seq<Event>, n: nat, f: Frame)
    requires n <= |events|
  {
    && f.vsyncEnd == VsyncEndAt(events, f.row, n).Some? && f.gpuEnd == !Busy(events, f.row, n)
    && f.queueStart == StartedAt(events, QueueStartAt(events, f.row, n))
    && f.isRs == Composed(events, f.row, n) && f.frameNum == NumberOf(events, f.row, n)
  }

  lemma {:induction false} TracksNext(events: seq<Event>, n: nat, f: Frame, f': Frame)
    requires n < |events| && Tracks(events, n, f) && Follows(Run(events, n), events[n], f, f')
    ensures Tracks(events, n + 1, f')
  {
  }

  lemma {:induction false} RunTracks(events: seq<Event>, n: nat, t: u32, k: nat)
    requires n <= |events| && k < |Flight(Run(events, n), t)|
    ensures Tracks(events, n, Flight(Run(events, n), t)[k])
  {
    hide Sane, Step, Tracks, Follows, Waiting, Placed;
    if n > 0 {
      var s, e := Run(events, n - 1), events[n - 1];
      var f' := Flight(Run(events, n), t)[k];
      RunSane(events, n - 1);
      FrameOrigin(s, e, t, k);
      if Comes(s, e, t, f') {
        var j :| 0 <= j < |Flight(s, t)| && Follows(s, e, Flight(s, t)[j], f');
        RunTracks(events, n - 1, t, j);
        TracksNext(events, n - 1, Flight(s, t)[j], f');
      } else {
        NewTracks(events, n, f');
      }
    }
  }

  /** The frame that event n-1 begins. */
  lemma {:induction false} NewTracks(events: seq<Event>, n: nat, f: Frame)
    requires 0 < n <= |events| && Begun(Run(events, n - 1), events[n - 1], f)
    ensures Tracks(events, n, f)
  {
    Untouched(events, f.row, n - 1);
    HitExists(Run(events, n - 1), events[n - 1]);
  }

  // ---------------------------------------------------------------------------
  // The end of a render-service frame
  // ---------------------------------------------------------------------------

  /** What ends a frame, in terms of its flags. */
  lemma StepEndsWhy(s: Frames, e: Event, k: nat)
    requires Sane(s) && k < |Flight(s, e.itid)| && Step(s, e).1 == Some(Flight(s, e.itid)[k].row)
    ensures var f := Flight(s, e.itid)[k];
            && Hit(s, e) == Some(f.row) && (e.EndVsync? || (e.EndQueue? && f.vsyncEnd))
            && (e.EndVsync? && f.isRs ==> f.gpuEnd && !f.vsyncEnd)
  {
    var list := Flight(s, e.itid);
    StepShape(s, e);
    assert k > 0 ==> list[0].row < list[k].row;
    assert k < |list| - 1 ==> list[k].row < list[|list| - 1].row;
    assert Waiting(list[k]);
  }

  /** A render-service frame ends with the event after which its vsync has ended and no GPU work
      is outstanding. */
  lemma {:induction false} EndsWhenBothDone(events: seq<Event>, i: nat, t: u32, k: nat)
    requires i < |events| && k < |Flight(Run(events, i), t)| && Composed(events, Flight(Run(events, i), t)[k].row, i)
    ensures var row := Flight(Run(events, i), t)[k].row;
            Ended(events, i) == Some(row) <==>
            VsyncEndAt(events, row, i + 1).Some? && !Busy(events, row, i + 1)
  {
    var s, e := Run(events, i), events[i];
    var f := Flight(s, t)[k];
    RunSane(events, i);
    RunTracks(events, i, t, k);
    if Ended(events, i) == Some(f.row) {
      OwnerOf(s, t, k);
      OwnStep(s, e, f.row);
      StepEndsWhy(s, e, k);
      hide Sane, Step;
    } else {
      StillWaiting(events, i, t, k);
    }
  }

  lemma OwnerOf(s: Frames, t: u32, k: nat)
    requires Sane(s) && k < |Flight(s, t)|
    ensures Flight(s, t)[k].row < |s.rows| && s.rows[Flight(s, t)[k].row].itid == t
  {
  }

  /** A frame that stays in flight is not done. */
  lemma {:induction false} StillWaiting(events: seq<Event>, i: nat, t: u32, k: nat)
    requires i < |events| && k < |Flight(Run(events, i), t)|
    requires Ended(events, i) != Some(Flight(Run(events, i), t)[k].row)
    ensures var row := Flight(Run(events, i), t)[k].row;
            VsyncEndAt(events, row, i + 1).None? || Busy(events, row, i + 1)
  {
    hide Sane, Step, VsyncEndAt, Busy, Placed;
    var row, n := Flight(Run(events, i), t)[k].row, i + 1;
    assert InFlight(Run(events, i), t, row);
    EndsOnLeaving(events, i, t, row);
    var s' := Run(events, n);
    var j: nat :| j < |Flight(s', t)| && Flight(s', t)[j].row == row;
    RunTracks(events, n, t, j);
    RunSane(events, n);
    WaitsIn(s', t, j);
  }

  lemma WaitsIn(s: Frames, t: u32, k: nat)
    requires Sane(s) && k < |Flight(s, t)|
    ensures Waiting(Flight(s, t)[k])
  {
  }

  ghost predicate TimeOrdered(events: seq<Event>) {
    forall i, j :: 0 <= i < j < |events| ==> events[i].ts <= events[j].ts
  }

  /** The time of an event, or 0 for none. */
  function TimeOf(events: seq<Event>, i: Option<nat>): (ts: u64)
    requires i.Some? ==> i.value < |events|
  {
    if i.Some? then events[i.value].ts else 0
  }

  function Max(a: u64, b: u64): (r: u64) {
    if a < b then b else a
  }

  /** In a stream ordered by time, a render-service frame ends at the later of its vsync end and
      its last GPU end. */
  lemma {:induction false} EndsAtLater(events: seq<Event>, i: nat, t: u32, k: nat)
    requires i < |events| && k < |Flight(Run(events, i), t)| && Composed(events, Flight(Run(events, i), t)[k].row, i)
    requires Ended(events, i) == Some(Flight(Run(events, i), t)[k].row) && TimeOrdered(events)
    ensures var row := Flight(Run(events, i), t)[k].row;
            && VsyncEndAt(events, row, i + 1).Some?
            && events[i].ts == Max(TimeOf(events, VsyncEndAt(events, row, i + 1)), TimeOf(events, GpuEndAt(events, row, i + 1)))
  {
    var s, e := Run(events, i), events[i];
    var f := Flight(s, t)[k];
    RunSane(events, i);
    RunTracks(events, i, t, k);
    OwnerOf(s, t, k);
    OwnStep(s, e, f.row);
    StepEndsWhy(s, e, k);
    hide Sane, Step;
    var v, g := VsyncEndAt(events, f.row, i), GpuEndAt(events, f.row, i);
    assert v.Some? ==> events[v.value].ts <= events[i].ts;
    assert g.Some? ==> events[g.value].ts <= events[i].ts;
  }

  /** The duration of a row is written by the event that ends it and stays. */
  lemma StepDuration(s: Frames, e: Event, row: nat)
    requires Placed(s) && row < |s.rows|
    ensures var r, ended := Step(s, e).0, Step(s, e).1;
            && row < |r.rows| && r.rows[row].ts == s.rows[row].ts
            && r.rows[row].dur == if ended == Some(row) then Wrap64(e.ts - s.rows[row].ts) else s.rows[row].dur
  {
  }

  lemma {:induction false} DurationStays(events: seq<Event>, i: nat, j: nat, row: nat)
    requires i < j <= |events| && Ended(events, i) == Some(row)
    ensures row < |Run(events, i).rows| && row < |Run(events, j).rows|
    ensures Run(events, j).rows[row].ts == Run(events, i).rows[row].ts
    ensures Run(events, j).rows[row].dur == Wrap64(events[i].ts - Run(events, i).rows[row].ts)
    decreases j
  {
    hide Step;
    EndedWasInFlight(events, i);
    if i + 1 < j {
      DurationStays(events, i, j - 1, row);
      EndedOnce(events, i, j - 1);
    }
    StepDuration(Run(events, j - 1), events[j - 1], row);
  }

  /** The end of GPU work adds a slice of the oldest frame that reaches back to its last start. */
  lemma GpuSliceSpans(events: seq<Event>, i: nat)
    requires i < |events| && events[i].EndQueue?
    ensures var s, r := Run(events, i), Run(events, i + 1);
            match Hit(s, events[i])
            case None => r.gpu == s.gpu
            case Some(row) =>
              r.gpu == s.gpu + [GpuSlice(row, Wrap64(events[i].ts - StartedAt(events, QueueStartAt(events, row, i))))]
  {
    hide Close, VsyncEndAt, Busy, Placed;
    var s, t := Run(events, i), events[i].itid;
    if Flight(s, t) != [] {
      RunTracks(events, i, t, 0);
    }
    assert Run(events, i + 1) == OnEndQueue(s, t, events[i].ts).0;
    hide Run;
  }

  // ---------------------------------------------------------------------------
  // Whether a frame was on time
  // ---------------------------------------------------------------------------

  /** Where the expected slice in a row ends. */
  function ExpectedEnd(rows: seq<Row>, x: nat): (ts: u64)
    requires x < |rows|
  {
    Wrap64(rows[x].ts + rows[x].dur)
  }

  /** The two rows of a frame: the actual slice, and behind it the expected one. */
  ghost predicate RowPair(rows: seq<Row>, f: Frame) {
    && f.expectedRow == f.row + 1 < |rows|
    && !rows[f.row].expected && rows[f.expectedRow].expected
    && f.expectedEnd == ExpectedEnd(rows, f.expectedRow)
  }

  ghost predicate Shaped(s: Frames) {
    forall t: u32, k :: 0 <= k < |Flight(s, t)| ==> RowPair(s.rows, Flight(s, t)[k])
  }

  /** Expected rows keep their times, and no row changes its kind. */
  lemma RowsKeepKind(s: Frames, e: Event, x: nat)
    requires Placed(s) && Shaped(s) && x < |s.rows|
    ensures var rows := Step(s, e).0.rows;
            && x < |rows| && rows[x].expected == s.rows[x].expected
            && (s.rows[x].expected ==> ExpectedEnd(rows, x) == ExpectedEnd(s.rows, x))
  {
    hide Step, Shaped, Placed, Wrap64;
    StepDuration(s, e, x);
    EndsActual(s, e);
    KindStays(s, e, x);
  }

  lemma KindStays(s: Frames, e: Event, x: nat)
    requires Placed(s) && x < |s.rows|
    ensures x < |Step(s, e).0.rows| && Step(s, e).0.rows[x].expected == s.rows[x].expected
  {
  }

  lemma EndsActual(s: Frames, e: Event)
    requires Placed(s) && Shaped(s)
    ensures var ended := Step(s, e).1;
            ended.Some? ==> ended.value < |s.rows| && !s.rows[ended.value].expected
  {
    StepShape(s, e);
    hide Step;
    var list := Flight(s, e.itid);
    if list != [] {
      assert RowPair(s.rows, list[0]) && RowPair(s.rows, list[|list| - 1]);
    }
  }

  lemma BegunPair(s: Frames, e: Event, f: Frame)
    requires Placed(s) && Begun(s, e, f)
    ensures RowPair(Step(s, e).0.rows, f)
  {
    var q := (e.expectEnd - e.expectStart) / TWO64;
    assert e.expectStart + Wrap64(e.expectEnd - e.expectStart) == e.expectEnd - TWO64 * q;
  }

  lemma StepShaped(s: Frames, e: Event)
    requires Sane(s) && Shaped(s)
    ensures Shaped(Step(s, e).0)
  {
    assert Placed(s);
    hide Step, Sane, Placed, RowPair;
    var r := Step(s, e).0;
    forall t: u32, k: nat | k < |Flight(r, t)| ensures RowPair(r.rows, Flight(r, t)[k]) {
      FrameOrigin(s, e, t, k);
      if Begun(s, e, Flight(r, t)[k]) {
        BegunPair(s, e, Flight(r, t)[k]);
      } else {
        var j :| 0 <= j < |Flight(s, t)| && Follows(s, e, Flight(s, t)[j], Flight(r, t)[k]);
        PairStays(s, e, Flight(s, t)[j], Flight(r, t)[k]);
      }
    }
  }

  lemma PairStays(s: Frames, e: Event, f: Frame, f': Frame)
    requires Placed(s) && Shaped(s) && RowPair(s.rows, f) && Follows(s, e, f, f')
    ensures RowPair(Step(s, e).0.rows, f')
  {
    hide Step, Shaped;
    RowsKeepKind(s, e, f.row);
    RowsKeepKind(s, e, f.expectedRow);
  }

  lemma {:induction false} RunShaped(events: seq<Event>, n: nat)
    requires n <= |events|
    ensures Shaped(Run(events, n))
  {
    hide Step, Sane, RowPair;
    if n > 0 {
      RunShaped(events, n - 1);
      RunSane(events, n - 1);
      StepShaped(Run(events, n - 1), events[n - 1]);
    }
  }

  /** What the event that ends a frame writes into the flag of its row: erased for an
      application's frame without a number, otherwise whether it ended by its expected end. */
  lemma EndedFlag(events: seq<Event>, i: nat, k: nat)
    requires i < |events| && k < |Flight(Run(events, i), events[i].itid)|
    requires Ended(events, i) == Some(Flight(Run(events, i), events[i].itid)[k].row)
    ensures var s, r, row := Run(events, i), Run(events, i + 1), Flight(Run(events, i), events[i].itid)[k].row;
            && row + 1 < |s.rows| && row < |r.rows|
            && r.rows[row].flag ==
               if !Composed(events, row, i) && NumberOf(events, row, i) == INVALID_UINT32 then Erased
               else if events[i].ts <= ExpectedEnd(s.rows, row + 1) then OnTime else Late
  {
    hide Sane, Shaped, Step, Placed;
    RunSane(events, i);
    RunShaped(events, i);
    var s, e := Run(events, i), events[i];
    RunTracks(events, i, e.itid, k);
    PairOf(s, e.itid, k);
    StepEndsWhy(s, e, k);
    FlagWritten(s, e, k);
    hide Composed, NumberOf, VsyncEndAt, Busy, QueueStartAt;
  }

  lemma PairOf(s: Frames, t: u32, k: nat)
    requires Shaped(s) && k < |Flight(s, t)|
    ensures RowPair(s.rows, Flight(s, t)[k])
  {
  }

  lemma FlagWritten(s: Frames, e: Event, k: nat)
    requires Sane(s) && k < |Flight(s, e.itid)|
    requires var f := Flight(s, e.itid)[k];
             && Step(s, e).1 == Some(f.row) && f.expectedRow == f.row + 1
             && (e.EndVsync? || (e.EndQueue? && f.vsyncEnd))
    ensures var r, f := Step(s, e).0, Flight(s, e.itid)[k];
            && f.row < |r.rows|
            && r.rows[f.row].flag ==
               if !f.isRs && f.frameNum == INVALID_UINT32 then Erased
               else if e.ts <= f.expectedEnd then OnTime else Late
  {
    var list := Flight(s, e.itid);
    assert k > 0 ==> list[0].row < list[k].row;
    assert k < |list| - 1 ==> list[k].row < list[|list| - 1].row;
    assert Waiting(list[k]);
    hide Sane;
  }

  /** The flag of an actual slice is written only by the event that ends it. */
  lemma StepFlag(s: Frames, e: Event, x: nat)
    requires Placed(s) && Shaped(s) && x < |s.rows| && !s.rows[x].expected && Step(s, e).1 != Some(x)
    ensures x < |Step(s, e).0.rows| && Step(s, e).0.rows[x].flag == s.rows[x].flag
  {
    var list := Flight(s, e.itid);
    if list != [] {
      assert RowPair(s.rows, list[0]) && RowPair(s.rows, list[|list| - 1]);
    }
    hide Shaped;
  }

  lemma {:induction false} FlagStays(events: seq<Event>, i: nat, j: nat, row: nat)
    requires i < j <= |events| && Ended(events, i) == Some(row)
    ensures row < |Run(events, i + 1).rows| && row < |Run(events, j).rows| && !Run(events, j).rows[row].expected
    ensures Run(events, j).rows[row].flag == Run(events, i + 1).rows[row].flag
    decreases j
  {
    hide Step, Shaped, Placed;
    EndedWasInFlight(events, i);
    RunShaped(events, j - 1);
    if i + 1 < j {
      FlagStays(events, i, j - 1, row);
      EndedOnce(events, i, j - 1);
      StepFlag(Run(events, j - 1), events[j - 1], row);
    } else {
      EndsActual(Run(events, i), events[i]);
    }
    KindStays(Run(events, j - 1), events[j - 1], row);
  }
}
