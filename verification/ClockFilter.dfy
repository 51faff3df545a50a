/** Conversion between clocks by snapshots (trace_streamer/src/base/clock_filter.cpp:29-91). */
module ClockFilter {
  import opened Words
  import opened Chunks
  import opened Decimal

  /** From this time of the source clock on, the distance to the other clock. */
  datatype Entry = Entry(ts: u64, offset: int)

  datatype SnapShot = SnapShot(clock: u32, ts: u64)

  /** An ordered map per key. */
  type Table = map<string, seq<Entry>>

  function GenClockKey(src: u32, dst: u32): (key: string) {
    Print(src) + ("," + Print(dst))
  }

  function Get(t: Table, src: u32, dst: u32): (es: seq<Entry>) {
    var key := GenClockKey(src, dst);
    if key in t then t[key] else []
  }

  ghost predicate Ordered(es: seq<Entry>) {
    forall i, j :: 0 <= i < j < |es| ==> es[i].ts < es[j].ts
  }

  /** std::map::insert: an entry for the same time stays. */
  function Insert(es: seq<Entry>, e: Entry): (r: seq<Entry>)
    ensures |r| > 0
  {
    if es == [] then [e]
    else
      var n := |es| - 1;
      if es[n].ts < e.ts then es + [e]
      else if es[n].ts == e.ts then es
      else Insert(es[..n], e) + [es[n]]
  }

  /** How many entries are not after ts: the position of upper_bound. */
  function Upper(es: seq<Entry>, ts: u64, n: nat): (k: nat)
    requires n <= |es|
    ensures k <= n
  {
    if n == 0 then 0
    else if es[n - 1].ts <= ts then n
    else Upper(es, ts, n - 1)
  }

  /** The position of the entry that Convert uses. */
  function Position(es: seq<Entry>, ts: u64): (k: nat)
    requires es != []
    ensures k < |es|
  {
    var k := Upper(es, ts, |es|);
    if k == 0 then 0 else k - 1
  }

  function Shift(ts: u64, offset: int): (r: u64) {
    if offset >= 0 then Wrap64(ts + offset) else Wrap64(ts - (0 - offset))
  }

  function Convert(t: Table, src: u32, ts: u64, dst: u32): (r: u64) {
    var es := Get(t, src, dst);
    if es == [] then ts else Shift(ts, es[Position(es, ts)].offset)
  }

  function AddConvert(t: Table, src: u32, dst: u32, srcTs: u64, dstTs: u64): (r: Table) {
    t[GenClockKey(src, dst) := Insert(Get(t, src, dst), Entry(srcTs, AsInt64(dstTs - srcTs)))]
  }

  /** Clock i against the clocks from i + 1 to j - 1, in both directions. */
  function AddOne(t: Table, snap: seq<SnapShot>, i: nat, j: nat): (r: Table)
    requires i < j <= |snap|
  {
    if j == i + 1 then t else
    var t1 := AddOne(t, snap, i, j - 1);
    var a, b := snap[i], snap[j - 1];
    AddConvert(AddConvert(t1, a.clock, b.clock, a.ts, b.ts), b.clock, a.clock, b.ts, a.ts)
  }

  /** The first n clocks against those after them. */
  function AddFirst(t: Table, snap: seq<SnapShot>, n: nat): (r: Table)
    requires n <= |snap|
  {
    if n == 0 then t else AddOne(AddFirst(t, snap, n - 1), snap, n - 1, |snap|)
  }

  function AddSnapshot(t: Table, snap: seq<SnapShot>): (r: Table)
    requires snap != []
  {
    AddFirst(t, snap, |snap| - 1)
  }

  // ---------------------------------------------------------------------------
  // Which entry is used
  // ---------------------------------------------------------------------------

  lemma {:induction false} UpperSpec(es: seq<Entry>, ts: u64, n: nat)
    requires Ordered(es) && n <= |es|
    ensures forall i :: 0 <= i < n ==> (es[i].ts <= ts <==> i < Upper(es, ts, n))
  {
    if n > 0 {
      UpperSpec(es, ts, n - 1);
    }
  }

  /** The latest entry at or before ts, or the earliest if there is none. */
  lemma PositionSpec(es: seq<Entry>, ts: u64)
    requires Ordered(es) && es != []
    ensures var k := Position(es, ts);
            && (forall i :: 0 <= i < |es| && es[i].ts <= ts ==> es[i].ts <= es[k].ts <= ts)
            && ((forall i :: 0 <= i < |es| ==> ts < es[i].ts) ==> forall i :: 0 <= i < |es| ==> es[k].ts <= es[i].ts)
  {
    UpperSpec(es, ts, |es|);
  }

  /** Inserting keeps the order, keeps every entry, and adds the time if it is new. */
  lemma {:induction false} InsertOrdered(es: seq<Entry>, e: Entry)
    requires Ordered(es)
    ensures Ordered(Insert(es, e))
    ensures forall x :: x in Insert(es, e) <==> x in es || (x == e && forall y :: y in es ==> y.ts != e.ts)
  {
    if es != [] {
      var n := |es| - 1;
      var front, last := es[..n], es[n];
      assert es == front + [last];
      if last.ts > e.ts {
        InsertOrdered(front, e);
        var r := Insert(front, e);
        forall i | 0 <= i < |r| ensures r[i].ts < last.ts {
          assert r[i] in r;
        }
      } else {
        forall y | y in es ensures y.ts <= last.ts {
        }
      }
    }
  }

  // ---------------------------------------------------------------------------
  // Keys do not clash
  // ---------------------------------------------------------------------------

  lemma KeyInjective(a: u32, b: u32, c: u32, d: u32)
    requires GenClockKey(a, b) == GenClockKey(c, d)
    ensures a == c && b == d
  {
    hide StrToL, GenClockKey;
    KeyReads(a, b);
    KeyReads(c, d);
  }

  /** Both clocks can be read off the key. */
  lemma KeyReads(a: u32, b: u32)
    ensures var s := GenClockKey(a, b);
            var first := StrToL(s, 0);
            && first.value == a && first.next < |s|
            && StrToL(s, first.next + 1).value == b
  {
    hide StrToL, Print;
    var s := GenClockKey(a, b);
    var p, q := Print(a), Print(b);
    assert HasAt(s, 0, p + ("," + q));
    HasAtParts(s, 0, p, "," + q);
    HasAtParts(s, |p|, ",", q);
    assert s[|p|] == ","[0];
    ReadPrinted(s, 0, a);
    ReadPrinted(s, |p| + 1, b);
  }

  // ---------------------------------------------------------------------------
  // The tables after snapshots
  // ---------------------------------------------------------------------------

  lemma AddConvertGet(t: Table, a: u32, b: u32, aTs: u64, bTs: u64, c: u32, d: u32)
    ensures Get(AddConvert(t, a, b, aTs, bTs), c, d) ==
            if (c, d) == (a, b) then Insert(Get(t, a, b), Entry(aTs, AsInt64(bTs - aTs))) else Get(t, c, d)
  {
    hide Insert, AsInt64;
    if GenClockKey(c, d) == GenClockKey(a, b) {
      KeyInjective(c, d, a, b);
    }
    hide GenClockKey;
  }

  ghost predicate DistinctClocks(snap: seq<SnapShot>) {
    forall i, j :: 0 <= i < j < |snap| ==> snap[i].clock != snap[j].clock
  }

  /** The reading of clocks c and d in a snapshot, if it has both. */
  function Reading(snap: seq<SnapShot>, c: u32, d: u32): (r: Option<(u64, u64)>) {
    var i, j := Find(snap, c, |snap|), Find(snap, d, |snap|);
    if i.Some? && j.Some? then Some((snap[i.value].ts, snap[j.value].ts)) else None
  }

  function Find(snap: seq<SnapShot>, c: u32, n: nat): (i: Option<nat>)
    requires n <= |snap|
    ensures i.Some? ==> i.value < n && snap[i.value].clock == c
    ensures i.None? ==> forall k :: 0 <= k < n ==> snap[k].clock != c
  {
    if n == 0 then None else if snap[n - 1].clock == c then Some(n - 1) else Find(snap, c, n - 1)
  }

  /** What a snapshot does to the entries of one pair of clocks. */
  function Read(es: seq<Entry>, r: Option<(u64, u64)>): (r': seq<Entry>) {
    if r.None? then es else Insert(es, Entry(r.value.0, AsInt64(r.value.1 - r.value.0)))
  }

  /** Clocks c and d at positions p and q; the pair is added when the smaller is i and the larger
      below j. */
  lemma {:induction false} AddOneGet(t: Table, snap: seq<SnapShot>, i: nat, j: nat, c: u32, d: u32)
    requires i < j <= |snap| && DistinctClocks(snap) && c != d
    ensures var p, q := Find(snap, c, |snap|), Find(snap, d, |snap|);
            Get(AddOne(t, snap, i, j), c, d) ==
            if p.Some? && q.Some? && ((p.value == i && i < q.value < j) || (q.value == i && i < p.value < j))
            then Read(Get(t, c, d), Reading(snap, c, d)) else Get(t, c, d)
    decreases j
  {
    hide Get, AddConvert, Insert, AsInt64;
    if j > i + 1 {
      AddOneGet(t, snap, i, j - 1, c, d);
      var t1 := AddOne(t, snap, i, j - 1);
      var a, b := snap[i], snap[j - 1];
      AddConvertGet(t1, a.clock, b.clock, a.ts, b.ts, c, d);
      AddConvertGet(AddConvert(t1, a.clock, b.clock, a.ts, b.ts), b.clock, a.clock, b.ts, a.ts, c, d);
    }
  }

  lemma {:induction false} AddFirstGet(t: Table, snap: seq<SnapShot>, n: nat, c: u32, d: u32)
    requires n <= |snap| && DistinctClocks(snap) && c != d
    ensures var p, q := Find(snap, c, |snap|), Find(snap, d, |snap|);
            Get(AddFirst(t, snap, n), c, d) ==
            if p.Some? && q.Some? && (p.value < n || q.value < n)
            then Read(Get(t, c, d), Reading(snap, c, d)) else Get(t, c, d)
  {
    hide Get, AddOne, Read, Reading;
    if n > 0 {
      AddFirstGet(t, snap, n - 1, c, d);
      AddOneGet(AddFirst(t, snap, n - 1), snap, n - 1, |snap|, c, d);
    }
  }

  /** A snapshot adds one entry for each ordered pair of its clocks and no other. */
  lemma SnapshotGet(t: Table, snap: seq<SnapShot>, c: u32, d: u32)
    requires snap != [] && DistinctClocks(snap) && c != d
    ensures Get(AddSnapshot(t, snap), c, d) == Read(Get(t, c, d), Reading(snap, c, d))
  {
    hide Get, AddFirst;
    AddFirstGet(t, snap, |snap| - 1, c, d);
  }

  /** The table after the first n snapshots. */
  function Tables(snaps: seq<seq<SnapShot>>, n: nat): (t: Table)
    requires n <= |snaps| && forall m :: 0 <= m < |snaps| ==> snaps[m] != []
  {
    if n == 0 then map[] else AddSnapshot(Tables(snaps, n - 1), snaps[n - 1])
  }

  /** The entries for clocks c and d, read off the snapshots. */
  function Entries(snaps: seq<seq<SnapShot>>, c: u32, d: u32, n: nat): (es: seq<Entry>)
    requires n <= |snaps|
  {
    if n == 0 then [] else Read(Entries(snaps, c, d, n - 1), Reading(snaps[n - 1], c, d))
  }

  ghost predicate Proper(snaps: seq<seq<SnapShot>>) {
    forall m :: 0 <= m < |snaps| ==> snaps[m] != [] && DistinctClocks(snaps[m])
  }

  lemma {:induction false} TablesGet(snaps: seq<seq<SnapShot>>, n: nat, c: u32, d: u32)
    requires Proper(snaps) && n <= |snaps| && c != d
    ensures Get(Tables(snaps, n), c, d) == Entries(snaps, c, d, n)
  {
    hide AddSnapshot, Get, Read, Reading;
    if n == 0 {
      NoEntries(c, d);
    } else {
      TablesGet(snaps, n - 1, c, d);
      SnapshotGet(Tables(snaps, n - 1), snaps[n - 1], c, d);
    }
  }

  lemma NoEntries(c: u32, d: u32)
    ensures Get(map[], c, d) == []
  {
  }

  // ---------------------------------------------------------------------------
  // Arithmetic modulo 2^64
  // ---------------------------------------------------------------------------

  lemma WrapAdd(x: int, y: int)
    ensures Wrap64(Wrap64(x) + y) == Wrap64(x + y)
  {
    assert x == TWO64 * (x / TWO64) + Wrap64(x);
    WrapShift(Wrap64(x) + y, x / TWO64);
  }

  lemma WrapShift(x: int, q: int)
    ensures Wrap64(TWO64 * q + x) == Wrap64(x)
  {
  }

  lemma ShiftBy(ts: u64, n: int)
    ensures Shift(ts, AsInt64(n)) == Wrap64(ts + n)
  {
    WrapAdd(AsInt64(n), ts);
    WrapAdd(n, ts);
  }

  // ---------------------------------------------------------------------------
  // One snapshot
  // ---------------------------------------------------------------------------

  lemma {:induction false} SelfAddOne(t: Table, snap: seq<SnapShot>, i: nat, j: nat, c: u32)
    requires i < j <= |snap| && DistinctClocks(snap)
    ensures Get(AddOne(t, snap, i, j), c, c) == Get(t, c, c)
    decreases j
  {
    hide Get, AddConvert, Insert, AsInt64;
    if j > i + 1 {
      SelfAddOne(t, snap, i, j - 1, c);
      var t1 := AddOne(t, snap, i, j - 1);
      var a, b := snap[i], snap[j - 1];
      AddConvertGet(t1, a.clock, b.clock, a.ts, b.ts, c, c);
      AddConvertGet(AddConvert(t1, a.clock, b.clock, a.ts, b.ts), b.clock, a.clock, b.ts, a.ts, c, c);
    }
  }

  lemma {:induction false} SelfAddFirst(t: Table, snap: seq<SnapShot>, n: nat, c: u32)
    requires n <= |snap| && DistinctClocks(snap)
    ensures Get(AddFirst(t, snap, n), c, c) == Get(t, c, c)
  {
    hide Get, AddOne;
    if n > 0 {
      SelfAddFirst(t, snap, n - 1, c);
      SelfAddOne(AddFirst(t, snap, n - 1), snap, n - 1, |snap|, c);
    }
  }

  /** With one snapshot, converting adds the distance of the two readings. */
  lemma OneSnapshot(snap: seq<SnapShot>, p: nat, q: nat, x: u64)
    requires DistinctClocks(snap) && p < |snap| && q < |snap|
    ensures Convert(AddSnapshot(map[], snap), snap[p].clock, x, snap[q].clock) == Wrap64(x + snap[q].ts - snap[p].ts)
  {
    hide AddFirst, Insert, Shift, AsInt64, Get, Position;
    var a, b := snap[p].clock, snap[q].clock;
    if p == q {
      SelfAddFirst(map[], snap, |snap| - 1, a);
      NoEntries(a, a);
    } else {
      SnapshotGet(map[], snap, a, b);
      NoEntries(a, b);
      FirstEntry(Entry(snap[p].ts, AsInt64(snap[q].ts - snap[p].ts)));
      ShiftBy(x, snap[q].ts - snap[p].ts);
    }
  }

  lemma {:induction false} FirstEntry(e: Entry)
    ensures Insert([], e) == [e]
  {
  }

  /** With one snapshot of distinct clocks conversions compose; with r == p they are inverse. */
  lemma ConversionsCompose(snap: seq<SnapShot>, p: nat, q: nat, r: nat, x: u64)
    requires DistinctClocks(snap) && p < |snap| && q < |snap| && r < |snap|
    ensures var t := AddSnapshot(map[], snap);
            var y := Convert(t, snap[p].clock, x, snap[q].clock);
            && Convert(t, snap[q].clock, y, snap[r].clock) == Convert(t, snap[p].clock, x, snap[r].clock)
            && (r == p ==> Convert(t, snap[q].clock, y, snap[r].clock) == x)
  {
    hide AddSnapshot, Convert;
    var y := Wrap64(x + snap[q].ts - snap[p].ts);
    OneSnapshot(snap, p, q, x);
    OneSnapshot(snap, q, r, y);
    OneSnapshot(snap, p, r, x);
    WrapAdd(x + snap[q].ts - snap[p].ts, snap[r].ts - snap[q].ts);
  }

  // ---------------------------------------------------------------------------
  // Many snapshots
  // ---------------------------------------------------------------------------

  /** Snapshot m reads c at time A and d at time B. */
  ghost predicate Reads(snaps: seq<seq<SnapShot>>, m: nat, c: u32, d: u32, A: u64, B: u64) {
    m < |snaps| && Reading(snaps[m], c, d) == Some((A, B))
  }

  /** No two snapshots read c at the same time, as far as they read d too. */
  ghost predicate Advances(snaps: seq<seq<SnapShot>>, c: u32, d: u32) {
    forall m, k, A: u64, B: u64, B': u64 :: Reads(snaps, m, c, d, A, B) && Reads(snaps, k, c, d, A, B') ==> m == k
  }

  /** Time x of clock c lies in the segment of snapshot m: it is the latest reading of c at or
      before x, or the earliest of all if there is none. */
  ghost predicate InSegment(snaps: seq<seq<SnapShot>>, m: nat, c: u32, d: u32, x: u64, A: u64, B: u64) {
    && Reads(snaps, m, c, d, A, B)
    && (forall k, A': u64, B': u64 :: Reads(snaps, k, c, d, A', B') ==> if A <= x then A' <= A || x < A' else A <= A')
  }

  ghost predicate From(snaps: seq<seq<SnapShot>>, c: u32, d: u32, n: nat, e: Entry) {
    exists m: nat, A: u64, B: u64 :: m < n && Reads(snaps, m, c, d, A, B) && e == Entry(A, AsInt64(B - A))
  }

  /** The entries are those of the snapshots. */
  lemma {:induction false} EntriesMembers(snaps: seq<seq<SnapShot>>, c: u32, d: u32, n: nat)
    requires n <= |snaps| && Advances(snaps, c, d)
    ensures Ordered(Entries(snaps, c, d, n))
    ensures forall e :: e in Entries(snaps, c, d, n) <==> From(snaps, c, d, n, e)
  {
    if n > 0 {
      EntriesMembers(snaps, c, d, n - 1);
      var es, r := Entries(snaps, c, d, n - 1), Reading(snaps[n - 1], c, d);
      if r.None? {
        SameFrom(snaps, c, d, n);
      } else {
        var A: int, B: int := r.value.0, r.value.1;
        var e := Entry(A, AsInt64(B - A));
        InsertOrdered(es, e);
        NewTime(snaps, c, d, n, e, B, es);
        MoreFrom(snaps, c, d, n, e);
        hide Advances, Reads, Reading, Ordered, From;
      }
    }
  }

  lemma SameFrom(snaps: seq<seq<SnapShot>>, c: u32, d: u32, n: nat)
    requires 0 < n <= |snaps| && Reading(snaps[n - 1], c, d) == None
    ensures forall e :: From(snaps, c, d, n, e) <==> From(snaps, c, d, n - 1, e)
  {
    hide Reading;
    forall e ensures From(snaps, c, d, n, e) <==> From(snaps, c, d, n - 1, e) {
    }
  }

  lemma MoreFrom(snaps: seq<seq<SnapShot>>, c: u32, d: u32, n: nat, x: Entry)
    requires 0 < n <= |snaps| && Reading(snaps[n - 1], c, d).Some?
    requires var r := Reading(snaps[n - 1], c, d).value; x == Entry(r.0, AsInt64(r.1 - r.0))
    ensures forall e :: From(snaps, c, d, n, e) <==> From(snaps, c, d, n - 1, e) || e == x
  {
    hide Reading, AsInt64;
    var r := Reading(snaps[n - 1], c, d).value;
    assert Reads(snaps, n - 1, c, d, r.0, r.1);
    forall e ensures From(snaps, c, d, n, e) <==> From(snaps, c, d, n - 1, e) || e == x {
    }
  }

  lemma NewTime(snaps: seq<seq<SnapShot>>, c: u32, d: u32, n: nat, x: Entry, B: u64, es: seq<Entry>)
    requires 0 < n <= |snaps| && Advances(snaps, c, d)
    requires forall e :: e in es ==> From(snaps, c, d, n - 1, e)
    requires Reads(snaps, n - 1, c, d, x.ts, B)
    ensures forall y :: y in es ==> y.ts != x.ts
  {
    hide Reads, Reading, AsInt64;
    forall y | y in es ensures y.ts != x.ts {
      assert From(snaps, c, d, n - 1, y);
      var m: nat, A': u64, B': u64 :| m < n - 1 && Reads(snaps, m, c, d, A', B') && y == Entry(A', AsInt64(B' - A'));
    }
  }

  /** In the segment of a snapshot its own distance is used. */
  lemma {:induction false} SegmentConvert(snaps: seq<seq<SnapShot>>, m: nat, c: u32, d: u32, x: u64, A: u64, B: u64)
    requires Proper(snaps) && Advances(snaps, c, d) && c != d && InSegment(snaps, m, c, d, x, A, B)
    ensures Convert(Tables(snaps, |snaps|), c, x, d) == Wrap64(x + B - A)
  {
    hide Advances, InSegment, Tables, Entries, Get, Shift, AsInt64, Position, From, Ordered;
    var n := |snaps|;
    TablesGet(snaps, n, c, d);
    EntriesMembers(snaps, c, d, n);
    UsedEntry(snaps, m, c, d, x, A, B, Entries(snaps, c, d, n));
    ShiftBy(x, B - A);
  }

  lemma UsedEntry(snaps: seq<seq<SnapShot>>, m: nat, c: u32, d: u32, x: u64, A: u64, B: u64, es: seq<Entry>)
    requires InSegment(snaps, m, c, d, x, A, B) && Advances(snaps, c, d)
    requires Ordered(es) && forall e :: e in es <==> From(snaps, c, d, |snaps|, e)
    ensures es != [] && es[Position(es, x)] == Entry(A, AsInt64(B - A))
  {
    hide Reading, AsInt64, Position, Advances, Ordered;
    var n, e := |snaps|, Entry(A, AsInt64(B - A));
    assert From(snaps, c, d, n, e);
    assert e in es;
    var f := es[Position(es, x)];
    assert f in es;
    assert From(snaps, c, d, n, f);
    var k: nat, A': u64, B': u64 :| k < n && Reads(snaps, k, c, d, A', B') && f == Entry(A', AsInt64(B' - A'));
    SegmentTime(snaps, m, c, d, x, A, B, es, k, A', B');
  }

  ghost predicate HasSegment(snaps: seq<seq<SnapShot>>, c: u32, d: u32, x: u64) {
    exists m: nat, A: u64, B: u64 :: InSegment(snaps, m, c, d, x, A, B)
  }

  /** Every time lies in the segment of a snapshot, once one reads both clocks. */
  lemma EveryTimeHasSegment(snaps: seq<seq<SnapShot>>, c: u32, d: u32, x: u64, m: nat, A: u64, B: u64)
    requires Advances(snaps, c, d) && Reads(snaps, m, c, d, A, B)
    ensures HasSegment(snaps, c, d, x)
  {
    hide Advances, Reading, AsInt64, Entries, Position, Ordered, Reads, From, Upper, Insert;
    var n := |snaps|;
    var es := Entries(snaps, c, d, n);
    EntriesMembers(snaps, c, d, n);
    FromRead(snaps, c, d, m, A, B);
    PositionSpec(es, x);
    PickedSegment(snaps, c, d, x, es);
  }

  lemma FromRead(snaps: seq<seq<SnapShot>>, c: u32, d: u32, m: nat, A: u64, B: u64)
    requires Reads(snaps, m, c, d, A, B)
    ensures From(snaps, c, d, |snaps|, Entry(A, AsInt64(B - A)))
  {
  }

  /** The entry that Convert uses belongs to the snapshot of the segment. */
  lemma PickedSegment(snaps: seq<seq<SnapShot>>, c: u32, d: u32, x: u64, es: seq<Entry>)
    requires Ordered(es) && es != [] && forall e :: e in es <==> From(snaps, c, d, |snaps|, e)
    ensures HasSegment(snaps, c, d, x)
  {
    hide Reading, AsInt64, Position, Ordered, Upper;
    var n := |snaps|;
    PositionSpec(es, x);
    var f := es[Position(es, x)];
    assert f in es && From(snaps, c, d, n, f);
    var k: nat, A': u64, B': u64 :| k < n && Reads(snaps, k, c, d, A', B') && f == Entry(A', AsInt64(B' - A'));
    forall j, A'': u64, B'': u64 | Reads(snaps, j, c, d, A'', B'')
      ensures if A' <= x then A'' <= A' || x < A'' else A' <= A''
    {
      FromRead(snaps, c, d, j, A'', B'');
      assert Entry(A'', AsInt64(B'' - A'')) in es;
    }
    assert InSegment(snaps, k, c, d, x, A', B');
  }

  /** Both the segment and the position single out the same time. */
  lemma SegmentTime(snaps: seq<seq<SnapShot>>, m: nat, c: u32, d: u32, x: u64, A: u64, B: u64, es: seq<Entry>, k: nat, A': u64, B': u64)
    requires InSegment(snaps, m, c, d, x, A, B) && Advances(snaps, c, d) && Reads(snaps, k, c, d, A', B')
    requires Ordered(es) && es != [] && es[Position(es, x)].ts == A' && exists e :: e in es && e.ts == A
    requires forall e :: e in es ==> From(snaps, c, d, |snaps|, e)
    ensures A == A' && B == B' && m == k
  {
    hide Reading, AsInt64, Position;
    PositionSpec(es, x);
    var e :| e in es && e.ts == A;
    if x < A {
      forall i | 0 <= i < |es| ensures x < es[i].ts {
        assert es[i] in es;
        assert From(snaps, c, d, |snaps|, es[i]);
      }
    }
  }

  /** A time and its image in the same snapshot's segment: converting there and back is the
      identity. */
  lemma {:induction false} SegmentRoundTrip(snaps: seq<seq<SnapShot>>, m: nat, c: u32, d: u32, x: u64, A: u64, B: u64)
    requires Proper(snaps) && Advances(snaps, c, d) && Advances(snaps, d, c) && c != d
    requires InSegment(snaps, m, c, d, x, A, B)
    requires InSegment(snaps, m, d, c, Convert(Tables(snaps, |snaps|), c, x, d), B, A)
    ensures var t := Tables(snaps, |snaps|);
            Convert(t, d, Convert(t, c, x, d), c) == x
  {
    hide Advances, InSegment, Convert, Tables;
    SegmentConvert(snaps, m, c, d, x, A, B);
    var y := Wrap64(x + B - A);
    SegmentConvert(snaps, m, d, c, y, B, A);
    WrapAdd(x + B - A, A - B);
  }

  /** With a time in the segment of one snapshot, which reads A and B, and its image in the segment
      of another, which reads A' and B', there and back is the identity if and only if the two
      clocks were the same distance apart, modulo 2^64. */
  lemma {:induction false} RoundTripIff(snaps: seq<seq<SnapShot>>, m: nat, k: nat, c: u32, d: u32, x: u64,
                     A: u64, B: u64, A': u64, B': u64)
    requires Proper(snaps) && Advances(snaps, c, d) && Advances(snaps, d, c) && c != d
    requires InSegment(snaps, m, c, d, x, A, B)
    requires InSegment(snaps, k, d, c, Convert(Tables(snaps, |snaps|), c, x, d), B', A')
    ensures var t := Tables(snaps, |snaps|);
            Convert(t, d, Convert(t, c, x, d), c) == x <==> Wrap64((B - A) - (B' - A')) == 0
  {
    hide Advances, InSegment, Convert, Tables, Wrap64;
    SegmentConvert(snaps, m, c, d, x, A, B);
    var y := Wrap64(x + B - A);
    SegmentConvert(snaps, k, d, c, y, B', A');
    WrapAdd(x + B - A, A' - B');
    SumWraps(x, (B - A) - (B' - A'));
    assert x + B - A + (A' - B') == x + ((B - A) - (B' - A'));
  }

  /** Two snapshots between which the second clock has gone slower: time 18 of the first clock
      becomes 108 and comes back as 23. */
  lemma DriftBreaksRoundTrip()
    ensures var snaps := [[SnapShot(0, 10), SnapShot(1, 100)], [SnapShot(0, 20), SnapShot(1, 105)]];
            var t := Tables(snaps, |snaps|);
            Convert(t, 0, 18, 1) == 108 && Convert(t, 1, 108, 0) == 23
  {
    var a, b := [SnapShot(0, 10), SnapShot(1, 100)], [SnapShot(0, 20), SnapShot(1, 105)];
    var snaps := [a, b];
    TwoReadings(a, 10, 100);
    TwoReadings(b, 20, 105);
    hide Reading, Convert, Tables;
    forall m: nat, A: u64, B: u64
      ensures Reads(snaps, m, 0, 1, A, B) ==> (m == 0 && A == 10 && B == 100) || (m == 1 && A == 20 && B == 105)
      ensures Reads(snaps, m, 1, 0, A, B) ==> (m == 0 && A == 100 && B == 10) || (m == 1 && A == 105 && B == 20)
    {
      if m < |snaps| {
        assert snaps[m] == if m == 0 then a else b;
      }
    }
    assert Reads(snaps, 0, 0, 1, 10, 100) && Reads(snaps, 1, 1, 0, 105, 20);
    assert Proper(snaps);
    SegmentConvert(snaps, 0, 0, 1, 18, 10, 100);
    SegmentConvert(snaps, 1, 1, 0, 108, 105, 20);
  }

  lemma TwoReadings(snap: seq<SnapShot>, A: u64, B: u64)
    requires snap == [SnapShot(0, A), SnapShot(1, B)]
    ensures DistinctClocks(snap) && Reading(snap, 0, 1) == Some((A, B)) && Reading(snap, 1, 0) == Some((B, A))
  {
    assert Find(snap, 0, 1) == Some(0) && Find(snap, 0, 2) == Some(0) && Find(snap, 1, 2) == Some(1);
  }

  lemma SumWraps(x: u64, n: int)
    ensures Wrap64(x + n) == x <==> Wrap64(n) == 0
  {
    WrapAdd(n, x);
  }

  // ---------------------------------------------------------------------------
  // The filter as an object
  // ---------------------------------------------------------------------------

  class Clocks {
    var clockMaps: Table

    constructor ()
      ensures clockMaps == map[]
    {
      clockMaps := map[];
    }

    method ConvertTs(srcClockId: u32, srcTs: u64, desClockId: u32) returns (r: u64)
      ensures r == Convert(clockMaps, srcClockId, srcTs, desClockId)
    {
      var key := GenClockKey(srcClockId, desClockId);
      if key !in clockMaps || clockMaps[key] == [] {
        return srcTs;
      }
      var es := clockMaps[key];
      var k := |es|;
      while k > 0 && es[k - 1].ts > srcTs
        invariant 0 <= k <= |es| && Upper(es, srcTs, k) == Upper(es, srcTs, |es|)
      {
        k := k - 1;
      }
      if k != 0 {
        k := k - 1;
      }
      r := Shift(srcTs, es[k].offset);
    }

    method AddConvertClockMap(src: u32, dst: u32, srcTs: u64, dstTs: u64)
      modifies this
      ensures clockMaps == AddConvert(old(clockMaps), src, dst, srcTs, dstTs)
    {
      var key := GenClockKey(src, dst);
      var e := Entry(srcTs, AsInt64(dstTs - srcTs));
      if key !in clockMaps {
        clockMaps := clockMaps[key := [e]];
      } else {
        clockMaps := clockMaps[key := Insert(clockMaps[key], e)];
      }
    }

    /** Called with at least one clock: the bound of the outer loop is the size less one. */
    method AddClockSnapshot(snapShot: seq<SnapShot>)
      requires snapShot != []
      modifies this
      ensures clockMaps == AddSnapshot(old(clockMaps), snapShot)
    {
      hide AddOne;
      var i := 0;
      while i < |snapShot| - 1
        invariant 0 <= i <= |snapShot| - 1 && clockMaps == AddFirst(old(clockMaps), snapShot, i)
      {
        AddAgainstLater(snapShot, i);
        i := i + 1;
      }
    }

    /** The inner loop. */
    method AddAgainstLater(snapShot: seq<SnapShot>, i: nat)
      requires i < |snapShot|
      modifies this
      ensures clockMaps == AddOne(old(clockMaps), snapShot, i, |snapShot|)
    {
      hide AddConvert;
      var j := i + 1;
      while j < |snapShot|
        invariant i < j <= |snapShot| && clockMaps == AddOne(old(clockMaps), snapShot, i, j)
      {
        AddConvertClockMap(snapShot[i].clock, snapShot[j].clock, snapShot[i].ts, snapShot[j].ts);
        AddConvertClockMap(snapShot[j].clock, snapShot[i].clock, snapShot[j].ts, snapShot[i].ts);
        j := j + 1;
      }
    }
  }
}
