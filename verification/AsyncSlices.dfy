/** Asynchronous slices, paired by thread, cookie and name
    (trace_streamer/src/filter/slice_filter.cpp:436-491). */
module AsyncSlices {
  import opened Words
  import opened NestedMaps

  /** Internal thread, cookie, name. */
  type Key = (u32, u64, u64)

  /** The duration -1 of a slice that has not ended. */
  const OPEN: u64 := INVALID_UINT64

  datatype Row = Row(ts: u64, dur: u64, key: Key)

  datatype AsyncEvent = AsyncEvent(ts: u64, row: nat)

  datatype Event = Start(key: Key, ts: u64) | Finish(key: Key, ts: u64)

  /** The three-key map to ids, the map from ids to open slices, the last id given out and the
      rows. */
  datatype Async = Async(ids: map<Key, u64>, slices: map<u64, AsyncEvent>, size: u64, rows: seq<Row>)

  const EMPTY := Async(map[], map[], 0, [])

  predicate Indexed(s: Async) {
    forall id :: id in s.slices ==> s.slices[id].row < |s.rows|
  }

  function FindId(s: Async, k: Key): (id: u64) {
    if k in s.ids then s.ids[k] else INVALID_UINT64
  }

  function OnStart(s: Async, k: Key, ts: u64): (r: (Async, Option<nat>)) {
    if FindId(s, k) != INVALID_UINT64 then (s, None) else
    var id := Wrap64(s.size + 1);
    var slices := if id in s.slices then s.slices else s.slices[id := AsyncEvent(ts, |s.rows|)];
    (Async(s.ids[k := id], slices, id, s.rows + [Row(ts, OPEN, k)]), Some(|s.rows|))
  }

  /** The second guard is the one the source reports as a logic error. */
  function OnFinish(s: Async, k: Key, ts: u64): (r: (Async, Option<nat>))
    requires Indexed(s)
  {
    var id := FindId(s, k);
    if id == INVALID_UINT64 || id !in s.slices then (s, None) else
    var row := s.slices[id].row;
    (Async(s.ids - {k}, s.slices - {id}, s.size, s.rows[row := s.rows[row].(dur := Wrap64(ts - s.rows[row].ts))]),
     Some(row))
  }

  function Step(s: Async, e: Event): (r: (Async, Option<nat>))
    requires Indexed(s)
    ensures Indexed(r.0)
  {
    match e
    case Start(k, ts) => OnStart(s, k, ts)
    case Finish(k, ts) => OnFinish(s, k, ts)
  }

  function Run(events: seq<Event>, n: nat): (s: Async)
    requires n <= |events|
    ensures Indexed(s)
  {
    if n == 0 then EMPTY else Step(Run(events, n - 1), events[n - 1]).0
  }

  // ---------------------------------------------------------------------------
  // The two indexes stay in step
  // ---------------------------------------------------------------------------

  /** The ids of the three-key map are exactly the keys of the id map, no two keys share one, and
      none is the sentinel. */
  ghost predicate Linked(s: Async) {
    && Indexed(s)
    && (forall k :: k in s.ids ==> s.ids[k] in s.slices)
    && (forall id :: id in s.slices ==> id <= s.size)
    && (forall id :: id in s.slices ==> exists k :: k in s.ids && s.ids[k] == id)
    && (forall j, k :: j in s.ids && k in s.ids && s.ids[j] == s.ids[k] ==> j == k)
  }

  lemma StartLinked(s: Async, k: Key, ts: u64)
    requires Linked(s) && s.size < INVALID_UINT64 - 1
    ensures Linked(OnStart(s, k, ts).0)
    ensures OnStart(s, k, ts).0.size <= s.size + 1
    ensures OnStart(s, k, ts).1.Some? <==> k !in s.ids
  {
    var r := OnStart(s, k, ts).0;
    if k !in s.ids {
      var id := s.size + 1;
      forall i | i in r.slices ensures exists j :: j in r.ids && r.ids[j] == i {
        if i == id {
          assert r.ids[k] == i;
        } else {
          var j :| j in s.ids && s.ids[j] == i;
          assert r.ids[j] == i;
        }
      }
    }
  }

  /** A finish is refused only when its key has no open slice: the logic error does not occur. */
  lemma FinishLinked(s: Async, k: Key, ts: u64)
    requires Linked(s) && s.size < INVALID_UINT64
    ensures Linked(OnFinish(s, k, ts).0) && OnFinish(s, k, ts).0.size == s.size
    ensures OnFinish(s, k, ts).1.Some? <==> k in s.ids
  {
    var r := OnFinish(s, k, ts).0;
    if k in s.ids {
      forall i | i in r.slices ensures exists j :: j in r.ids && r.ids[j] == i {
        var j :| j in s.ids && s.ids[j] == i;
        assert r.ids[j] == i;
      }
    }
  }

  /** Every run with fewer events than ids. */
  lemma {:induction false} RunLinked(events: seq<Event>, n: nat)
    requires n <= |events| && |events| < INVALID_UINT64
    ensures Linked(Run(events, n)) && Run(events, n).size <= n
  {
    if n > 0 {
      RunLinked(events, n - 1);
      var s, e := Run(events, n - 1), events[n - 1];
      match e {
        case Start(k, ts) => StartLinked(s, k, ts);
        case Finish(k, ts) => FinishLinked(s, k, ts);
      }
    }
  }

  // ---------------------------------------------------------------------------
  // What is paired with what
  // ---------------------------------------------------------------------------

  /** The start that is open for key k after n events: the first one since the last finish. */
  function OpenSince(events: seq<Event>, k: Key, n: nat): (i: Option<nat>)
    requires n <= |events|
    ensures i.Some? ==> i.value < n && events[i.value].Start? && events[i.value].key == k
  {
    if n == 0 then None else
    var i := OpenSince(events, k, n - 1);
    var e := events[n - 1];
    if e.key != k then i
    else if e.Finish? then None
    else if i.None? then Some(n - 1) else i
  }

  /** The first finish of event i's key after it, among the first n events. */
  function Closing(events: seq<Event>, i: nat, n: nat): (j: Option<nat>)
    requires i < |events| && n <= |events|
    ensures j.Some? ==> i < j.value < n && events[j.value].Finish? && events[j.value].key == events[i].key
    ensures forall x :: i < x < n && events[x].Finish? && events[x].key == events[i].key ==> j.Some? && j.value <= x
  {
    if n <= i + 1 then None else
    var j := Closing(events, i, n - 1);
    if j.Some? then j
    else if events[n - 1].Finish? && events[n - 1].key == events[i].key then Some(n - 1) else None
  }

  /** The starts that open a slice: those that find none open for their key. Row r comes from
      entry r. */
  function Opened(events: seq<Event>, n: nat): (r: seq<nat>)
    requires n <= |events|
    ensures forall k :: 0 <= k < |r| ==> r[k] < n && events[r[k]].Start?
  {
    if n == 0 then [] else
    var r, e := Opened(events, n - 1), events[n - 1];
    if e.Start? && OpenSince(events, e.key, n - 1).None? then r + [n - 1] else r
  }

  /** The row of a start: it lasts to the first later finish of its key, or is open. */
  function RowAt(events: seq<Event>, i: nat, n: nat): (r: Row)
    requires i < n <= |events|
  {
    var e, j := events[i], Closing(events, i, n);
    Row(e.ts, if j.None? then OPEN else Wrap64(events[j.value].ts - e.ts), e.key)
  }

  ghost predicate KeyRight(events: seq<Event>, n: nat, s: Async, from: seq<nat>, k: Key)
    requires n <= |events| && Linked(s) && |from| == |s.rows|
  {
    && (k in s.ids <==> OpenSince(events, k, n).Some?)
    && (k in s.ids ==>
          var i, r := OpenSince(events, k, n).value, s.slices[s.ids[k]].row;
          from[r] == i && Closing(events, i, n) == None)
  }

  ghost predicate Paired(events: seq<Event>, n: nat, s: Async, from: seq<nat>) {
    && n <= |events| && Linked(s) && |from| == |s.rows|
    && (forall k :: KeyRight(events, n, s, from, k))
    && (forall r :: 0 <= r < |from| ==> from[r] < n && events[from[r]].Start?)
    && (forall r :: 0 <= r < |from| ==> s.rows[r] == RowAt(events, from[r], n))
    && (forall r, q :: 0 <= r < q < |from| ==> from[r] < from[q])
    && (forall r :: 0 <= r < |from| && Closing(events, from[r], n) == None ==>
          OpenSince(events, events[from[r]].key, n) == Some(from[r]))
  }

  /** A start of a key with an open slice changes nothing. */
  lemma StartIgnored(events: seq<Event>, n: nat, s: Async, from: seq<nat>)
    requires n < |events| && Paired(events, n, s, from) && s.size < INVALID_UINT64 - 1
    requires events[n].Start? && events[n].key in s.ids
    ensures Paired(events, n + 1, s, from)
  {
    var m, e := n + 1, events[n];
    assert KeyRight(events, n, s, from, e.key);
    forall k ensures KeyRight(events, m, s, from, k) {
      assert KeyRight(events, n, s, from, k);
    }
  }

  lemma StartOpens(events: seq<Event>, n: nat, s: Async, from: seq<nat>)
    requires n < |events| && Paired(events, n, s, from) && s.size < INVALID_UINT64 - 1
    requires events[n].Start? && events[n].key !in s.ids
    ensures Paired(events, n + 1, OnStart(s, events[n].key, events[n].ts).0, from + [n])
  {
    var m, e, from' := n + 1, events[n], from + [n];
    var r := OnStart(s, e.key, e.ts).0;
    StartLinked(s, e.key, e.ts);
    assert KeyRight(events, n, s, from, e.key);
    assert r.rows == s.rows + [Row(e.ts, OPEN, e.key)];
    forall k ensures KeyRight(events, m, r, from', k) {
      assert KeyRight(events, n, s, from, k);
      StartKeepsKey(events, n, s, from, k);
    }
    assert OpenSince(events, e.key, n).None?;
    hide OnStart, Linked, KeyRight;
    forall q | 0 <= q < |from'| ensures r.rows[q] == RowAt(events, from'[q], m) {
    }
    forall q | 0 <= q < |from'| && Closing(events, from'[q], m) == None
      ensures OpenSince(events, events[from'[q]].key, m) == Some(from'[q])
    {
      if q < |from| {
        assert Closing(events, from[q], n) == None;
      }
    }
  }

  lemma StartKeepsKey(events: seq<Event>, n: nat, s: Async, from: seq<nat>, k: Key)
    requires n < |events| && Linked(s) && |from| == |s.rows| && s.size < INVALID_UINT64 - 1
    requires events[n].Start? && events[n].key !in s.ids
    requires KeyRight(events, n, s, from, events[n].key) && KeyRight(events, n, s, from, k)
    ensures var r := OnStart(s, events[n].key, events[n].ts).0;
            && Linked(r) && |r.rows| == |from| + 1
            && KeyRight(events, n + 1, r, from + [n], k)
  {
    var e := events[n];
    StartLinked(s, e.key, e.ts);
  }

  lemma FinishKeys(events: seq<Event>, n: nat, s: Async, from: seq<nat>, k: Key)
    requires n < |events| && Linked(s) && |from| == |s.rows| && s.size < INVALID_UINT64
    requires events[n].Finish? && KeyRight(events, n, s, from, k)
    ensures var r := OnFinish(s, events[n].key, events[n].ts).0;
            Linked(r) && |r.rows| == |from| && KeyRight(events, n + 1, r, from, k)
  {
    FinishLinked(s, events[n].key, events[n].ts);
  }

  /** The row a finish returns is closed by that finish. */
  lemma {:induction false} FinishReturns(events: seq<Event>, n: nat, s: Async, from: seq<nat>)
    requires n < |events| && Paired(events, n, s, from) && s.size < INVALID_UINT64
    requires events[n].Finish? && OnFinish(s, events[n].key, events[n].ts).1.Some?
    ensures var r := OnFinish(s, events[n].key, events[n].ts).1.value;
            r < |from| && Closing(events, from[r], n + 1) == Some(n)
  {
    assert KeyRight(events, n, s, from, events[n].key);
  }

  lemma FinishCloses(events: seq<Event>, n: nat, s: Async, from: seq<nat>)
    requires n < |events| && Paired(events, n, s, from) && s.size < INVALID_UINT64
    requires events[n].Finish?
    ensures Paired(events, n + 1, OnFinish(s, events[n].key, events[n].ts).0, from)
  {
    var m, e := n + 1, events[n];
    var r := OnFinish(s, e.key, e.ts).0;
    FinishLinked(s, e.key, e.ts);
    forall k ensures KeyRight(events, m, r, from, k) {
      FinishKeys(events, n, s, from, k);
    }
    forall q | 0 <= q < |from| ensures r.rows[q] == RowAt(events, from[q], m) {
      FinishRow(events, n, s, from, q);
    }
    hide OnFinish, Linked, KeyRight, RowAt;
    forall q | 0 <= q < |from| && Closing(events, from[q], m) == None
      ensures OpenSince(events, events[from[q]].key, m) == Some(from[q])
    {
      assert Closing(events, from[q], n) == None;
    }
  }

  lemma FinishRow(events: seq<Event>, n: nat, s: Async, from: seq<nat>, q: nat)
    requires n < |events| && Paired(events, n, s, from) && s.size < INVALID_UINT64
    requires events[n].Finish? && q < |from|
    ensures var r := OnFinish(s, events[n].key, events[n].ts).0;
            |r.rows| == |s.rows| && r.rows[q] == RowAt(events, from[q], n + 1)
  {
    var e := events[n];
    assert KeyRight(events, n, s, from, e.key);
    assert s.rows[q] == RowAt(events, from[q], n);
    if Closing(events, from[q], n) == None && events[from[q]].key == e.key {
      assert OpenSince(events, e.key, n) == Some(from[q]);
      assert s.slices[s.ids[e.key]].row == q;
    }
  }

  lemma {:induction false} NextIsPaired(events: seq<Event>, n: nat, s: Async, from: seq<nat>)
    requires n < |events| && Paired(events, n, s, from) && s.size < INVALID_UINT64 - 1
    ensures Paired(events, n + 1, Step(s, events[n]).0,
                   if events[n].Start? && OpenSince(events, events[n].key, n).None? then from + [n] else from)
  {
    var e := events[n];
    assert KeyRight(events, n, s, from, e.key);
    hide Paired, Linked;
    if e.Finish? {
      FinishCloses(events, n, s, from);
    } else if e.key in s.ids {
      StartIgnored(events, n, s, from);
    } else {
      StartOpens(events, n, s, from);
    }
  }

  lemma NonePaired(events: seq<Event>)
    ensures Paired(events, 0, EMPTY, [])
  {
    forall k ensures KeyRight(events, 0, EMPTY, [], k) {
    }
  }

  lemma {:induction false} RunPaired(events: seq<Event>, n: nat)
    requires n <= |events| && |events| < INVALID_UINT64
    ensures Paired(events, n, Run(events, n), Opened(events, n))
  {
    hide Paired, Linked, KeyRight, Step;
    if n == 0 {
      NonePaired(events);
    } else {
      RunPaired(events, n - 1);
      RunLinked(events, n - 1);
      NextIsPaired(events, n - 1, Run(events, n - 1), Opened(events, n - 1));
    }
  }

  /** Main result: the rows are the opened slices in order, each closed by the first later finish
      of its thread, cookie and name, and by nothing else. */
  lemma {:induction false} RowsArePairs(events: seq<Event>, r: nat)
    requires |events| < INVALID_UINT64 && r < |Run(events, |events|).rows|
    ensures |Run(events, |events|).rows| == |Opened(events, |events|)|
    ensures Run(events, |events|).rows[r] == RowAt(events, Opened(events, |events|)[r], |events|)
  {
    RunPaired(events, |events|);
  }

  /** No row is returned by two finishes. */
  lemma {:induction false} ClosedOnce(events: seq<Event>, i: nat, j: nat)
    requires i < j < |events| < INVALID_UINT64 && events[i].Finish? && events[j].Finish?
    requires Step(Run(events, i), events[i]).1.Some?
    ensures Step(Run(events, i), events[i]).1 != Step(Run(events, j), events[j]).1
  {
    hide Paired, Linked, Run, OnFinish;
    RunPaired(events, i);
    RunPaired(events, j);
    RunLinked(events, i);
    RunLinked(events, j);
    FinishReturns(events, i, Run(events, i), Opened(events, i));
    if Step(Run(events, j), events[j]).1.Some? {
      FinishReturns(events, j, Run(events, j), Opened(events, j));
      OpenedGrows(events, i, j);
    }
  }

  lemma {:induction false} OpenedGrows(events: seq<Event>, i: nat, j: nat)
    requires i <= j <= |events|
    ensures Opened(events, i) <= Opened(events, j)
  {
    if i < j {
      OpenedGrows(events, i, j - 1);
    }
  }

  /** Over every run each thread, cookie and name has at most one open slice. */
  lemma {:induction false} OneOpenPerKey(events: seq<Event>, n: nat, a: u64, b: u64)
    requires n <= |events| < INVALID_UINT64
    requires a in Run(events, n).slices && b in Run(events, n).slices
    ensures var s := Run(events, n);
            && s.slices[a].row < |s.rows| && s.slices[b].row < |s.rows|
            && (s.rows[s.slices[a].row].key == s.rows[s.slices[b].row].key ==> a == b)
  {
    RunPaired(events, n);
    KeyOfId(events, n, Run(events, n), Opened(events, n), a);
    KeyOfId(events, n, Run(events, n), Opened(events, n), b);
  }

  /** The row behind an id has the key that leads to the id. */
  lemma KeyOfId(events: seq<Event>, n: nat, s: Async, from: seq<nat>, id: u64)
    requires Paired(events, n, s, from) && id in s.slices
    ensures s.slices[id].row < |s.rows|
    ensures var k := s.rows[s.slices[id].row].key; k in s.ids && s.ids[k] == id
  {
    var k :| k in s.ids && s.ids[k] == id;
    assert KeyRight(events, n, s, from, k);
  }

  // ---------------------------------------------------------------------------
  // The filter as an object
  // ---------------------------------------------------------------------------

  class AsyncFilter {
    const asyncEventMap: TripleMap<u32, u64, u64, u64>
    var asyncEventFilterMap: map<u64, AsyncEvent>
    var asyncEventSize: u64
    var rows: seq<Row>

    ghost predicate Valid()
      reads this, asyncEventMap
    {
      asyncEventMap.invalidValue == INVALID_UINT64 && Indexed(State())
    }

    ghost function State(): (s: Async)
      reads this, asyncEventMap
    {
      Async(asyncEventMap.Contents(), asyncEventFilterMap, asyncEventSize, rows)
    }

    constructor ()
      ensures Valid() && State() == EMPTY && fresh(asyncEventMap)
    {
      asyncEventMap := new TripleMap(INVALID_UINT64);
      asyncEventFilterMap, asyncEventSize, rows := map[], 0, [];
    }

    method StartAsyncSlice(itid: u32, cookie: u64, name: u64, ts: u64) returns (index: Option<nat>)
      requires Valid()
      modifies this, asyncEventMap
      ensures Valid() && (State(), index) == OnStart(old(State()), (itid, cookie, name), ts)
    {
      hide Flat3, TripleMap<u32, u64, u64, u64>.Contents;
      var lastFilterId := asyncEventMap.Find(itid, cookie, name);
      if lastFilterId != INVALID_UINT64 {
        return None;
      }
      asyncEventSize := Wrap64(asyncEventSize + 1);
      asyncEventMap.Insert(itid, cookie, name, asyncEventSize);
      index := Some(|rows|);
      rows := rows + [Row(ts, OPEN, (itid, cookie, name))];
      if asyncEventSize !in asyncEventFilterMap {
        asyncEventFilterMap := asyncEventFilterMap[asyncEventSize := AsyncEvent(ts, index.value)];
      }
    }

    method FinishAsyncSlice(itid: u32, cookie: u64, name: u64, ts: u64) returns (index: Option<nat>)
      requires Valid()
      modifies this, asyncEventMap
      ensures Valid() && (State(), index) == OnFinish(old(State()), (itid, cookie, name), ts)
    {
      hide Flat3, TripleMap<u32, u64, u64, u64>.Contents;
      var lastFilterId := asyncEventMap.Find(itid, cookie, name);
      if lastFilterId == INVALID_UINT64 {
        return None;
      }
      if lastFilterId !in asyncEventFilterMap {
        return None;
      }
      var lastRow := asyncEventFilterMap[lastFilterId].row;
      rows := rows[lastRow := rows[lastRow].(dur := Wrap64(ts - rows[lastRow].ts))];
      asyncEventFilterMap := asyncEventFilterMap - {lastFilterId};
      asyncEventMap.Erase(itid, cookie, name);
      index := Some(lastRow);
    }
  }
}
