/** Lanes for overlapping dlopen slices of a process: greedy interval colouring
    (trace_streamer/src/filter/app_start_filter.cpp:246-302). */
module LaneAssignment {
  import opened Words

  datatype Slice = Slice(start: u64, end: u64)

  /** An entry of the ordered map from end time to depth. */
  datatype Lane = Lane(end: u64, depth: nat)

  ghost predicate Ordered(es: seq<Lane>) {
    forall i, j :: 0 <= i < j < |es| ==> es[i].end < es[j].end
  }

  /** The entry to reuse among the first n: the one of least depth among the first entry and
      those that end before start. */
  function Best(es: seq<Lane>, start: u64, n: nat): (b: nat)
    requires 1 <= n <= |es|
    ensures b < n
    ensures b == 0 || es[b].end < start
  {
    if n == 1 then 0 else
    var b := Best(es, start, n - 1);
    if es[n - 1].end < start && es[n - 1].depth < es[b].depth then n - 1 else b
  }

  function Position(es: seq<Lane>, end: u64, n: nat): (k: nat)
    requires n <= |es|
    ensures k <= n
    ensures k == 0 || es[k - 1].end <= end
    ensures forall i :: k <= i < n ==> end < es[i].end
  {
    if n == 0 || es[n - 1].end <= end then n else Position(es, end, n - 1)
  }

  /** std::map::insert: an end time that is already a key keeps its entry. */
  function Insert(es: seq<Lane>, lane: Lane): (r: seq<Lane>) {
    var k := Position(es, lane.end, |es|);
    if 0 < k && es[k - 1].end == lane.end then es else es[..k] + [lane] + es[k..]
  }

  function Erase(es: seq<Lane>, i: nat): (r: seq<Lane>)
    requires i < |es|
    ensures |r| == |es| - 1
  {
    es[..i] + es[i + 1..]
  }

  /** CalcDepthByTimeStamp: a new lane if all are busy, otherwise a free one. */
  function Calc(es: seq<Lane>, s: Slice): (r: (seq<Lane>, nat)) {
    if es == [] then ([Lane(s.end, 0)], 0)
    else if es[0].end > s.start then (Insert(es, Lane(s.end, |es|)), |es|)
    else
      var b := Best(es, s.start, |es|);
      (Insert(Erase(es, b), Lane(s.end, es[b].depth)), es[b].depth)
  }

  /** The entries that CalcDepthByTimeStamp keeps before it inserts the new end. */
  function Survivors(es: seq<Lane>, s: Slice): (r: seq<Lane>) {
    if es == [] || es[0].end > s.start then es else Erase(es, Best(es, s.start, |es|))
  }

  predicate NoEnd(es: seq<Lane>, end: u64) {
    forall i :: 0 <= i < |es| ==> es[i].end != end
  }

  /** The guard of the insert: no entry that is kept has the new end as its key. */
  predicate Fresh(es: seq<Lane>, s: Slice) {
    NoEnd(Survivors(es, s), s.end)
  }

  /** The lanes and the depths after all slices of one process. */
  function Assign(slices: seq<Slice>): (r: (seq<Lane>, seq<nat>))
    ensures |r.1| == |slices|
  {
    if slices == [] then ([], []) else
    var (es, depths) := Assign(slices[..|slices| - 1]);
    var (es', depth) := Calc(es, slices[|slices| - 1]);
    (es', depths + [depth])
  }

  // ---------------------------------------------------------------------------
  // The ordered map
  // ---------------------------------------------------------------------------

  lemma EraseOrdered(es: seq<Lane>, i: nat)
    requires Ordered(es) && i < |es|
    ensures Ordered(Erase(es, i))
  {
    var r := Erase(es, i);
    forall a, b | 0 <= a < b < |r| ensures r[a].end < r[b].end {
      var a', b' := if a < i then a else a + 1, if b < i then b else b + 1;
      assert r[a] == es[a'] && r[b] == es[b'];
    }
  }

  lemma EraseMembers(es: seq<Lane>, i: nat, x: Lane)
    requires Ordered(es) && i < |es|
    ensures x in Erase(es, i) <==> x in es && x != es[i]
    ensures Ordered(Erase(es, i))
  {
    EraseOrdered(es, i);
    var r := Erase(es, i);
    if x in r {
      var k :| 0 <= k < |r| && r[k] == x;
      var k' := if k < i then k else k + 1;
      assert es[k'] == x && k' != i;
      assert if k' < i then es[k'].end < es[i].end else es[i].end < es[k'].end;
    }
    if x in es && x != es[i] {
      var k :| 0 <= k < |es| && es[k] == x;
      assert r[if k < i then k else k - 1] == x;
    }
  }

  lemma SpliceOrdered(es: seq<Lane>, k: nat, lane: Lane)
    requires Ordered(es) && k <= |es|
    requires forall i :: 0 <= i < k ==> es[i].end < lane.end
    requires forall i :: k <= i < |es| ==> lane.end < es[i].end
    ensures Ordered(es[..k] + [lane] + es[k..])
  {
    var r := es[..k] + [lane] + es[k..];
    forall a, b | 0 <= a < b < |r| ensures r[a].end < r[b].end {
      assert a < k ==> r[a] == es[a];
      assert k < a ==> r[a] == es[a - 1];
      assert b < k ==> r[b] == es[b];
      assert k < b ==> r[b] == es[b - 1];
    }
  }

  lemma SpliceMembers(es: seq<Lane>, k: nat, lane: Lane, x: Lane)
    requires k <= |es|
    ensures x in es[..k] + [lane] + es[k..] <==> x in es || x == lane
  {
    assert es == es[..k] + es[k..];
  }

  lemma InsertMembers(es: seq<Lane>, lane: Lane)
    requires Ordered(es) && NoEnd(es, lane.end)
    ensures var r := Insert(es, lane);
            |r| == |es| + 1 && Ordered(r) && forall x :: x in r <==> x in es || x == lane
  {
    var k := Position(es, lane.end, |es|);
    forall i | 0 <= i < k ensures es[i].end < lane.end {
      assert i < k - 1 ==> es[i].end < es[k - 1].end;
    }
    SpliceOrdered(es, k, lane);
    forall x ensures x in Insert(es, lane) <==> x in es || x == lane {
      SpliceMembers(es, k, lane, x);
    }
  }

  // ---------------------------------------------------------------------------
  // Validity and concurrency
  // ---------------------------------------------------------------------------

  predicate StartOrdered(slices: seq<Slice>) {
    forall i, j :: 0 <= i < j < |slices| ==> slices[i].start <= slices[j].start
  }

  predicate DistinctEnds(slices: seq<Slice>) {
    forall i, j :: 0 <= i < j < |slices| ==> slices[i].end != slices[j].end
  }

  /** No two overlapping slices share a lane: the earlier one has ended when the later starts. */
  ghost predicate ValidLanes(slices: seq<Slice>, lanes: seq<nat>) {
    |lanes| == |slices| &&
    forall i, j :: 0 <= i < j < |slices| && lanes[i] == lanes[j] ==> slices[i].end <= slices[j].start
  }

  /** The slices open when slice w starts, itself included. */
  ghost function OpenAt(slices: seq<Slice>, w: nat): (r: set<nat>)
    requires w < |slices|
  {
    (set j | 0 <= j < w && slices[j].end > slices[w].start) + {w}
  }

  ghost function Used(lanes: seq<nat>): (r: set<nat>) {
    set i | 0 <= i < |lanes| :: lanes[i]
  }

  /** The image of a set under a map that keeps its elements apart is as large as the set. */
  lemma {:induction false} InjectiveImage(dom: set<nat>, f: seq<nat>, image: set<nat>)
    requires forall i :: i in dom ==> i < |f| && f[i] in image
    requires forall i, j :: i in dom && j in dom && f[i] == f[j] ==> i == j
    ensures |dom| <= |image|
    decreases |dom|
  {
    if dom != {} {
      var i :| i in dom;
      InjectiveImage(dom - {i}, f, image - {f[i]});
    }
  }

  /** Every valid assignment needs a lane for each slice that is open at once. */
  lemma LanesNeeded(slices: seq<Slice>, lanes: seq<nat>, w: nat)
    requires StartOrdered(slices) && ValidLanes(slices, lanes) && w < |slices|
    ensures |OpenAt(slices, w)| <= |Used(lanes)|
  {
    assert forall i, j :: i in OpenAt(slices, w) && j in OpenAt(slices, w) && i < j ==> slices[j].start < slices[i].end;
    InjectiveImage(OpenAt(slices, w), lanes, Used(lanes));
  }

  // ---------------------------------------------------------------------------
  // The greedy assignment
  // ---------------------------------------------------------------------------

  /** The last slice that got depth d, or -1. */
  function LastIn(depths: seq<nat>, d: nat): (k: int)
    ensures -1 <= k < |depths|
    ensures k >= 0 ==> depths[k] == d
    ensures forall i :: k < i < |depths| ==> depths[i] != d
  {
    if depths == [] then -1
    else if depths[|depths| - 1] == d then |depths| - 1
    else LastIn(depths[..|depths| - 1], d)
  }

  lemma {:induction false} LastInAppend(depths: seq<nat>, depth: nat, d: nat)
    ensures LastIn(depths + [depth], d) == if depth == d then |depths| else LastIn(depths, d)
  {
    assert (depths + [depth])[..|depths|] == depths;
  }

  /** An entry holds the end of the last slice of its lane. */
  ghost predicate Tracks(slices: seq<Slice>, depths: seq<nat>, x: Lane)
    requires |depths| == |slices|
  {
    var k := LastIn(depths, x.depth);
    k >= 0 && slices[k].end == x.end
  }

  ghost predicate HasDepth(es: seq<Lane>, d: nat) {
    exists x :: x in es && x.depth == d
  }

  /** The entries are the lanes 0, 1, ... up to the number of entries. */
  ghost predicate Lanes(es: seq<Lane>) {
    && Ordered(es)
    && (forall x :: x in es ==> x.depth < |es|)
    && (forall x, y :: x in es && y in es && x.depth == y.depth ==> x == y)
    && (forall d: nat :: d < |es| ==> HasDepth(es, d))
  }

  ghost predicate Good(slices: seq<Slice>, es: seq<Lane>, depths: seq<nat>) {
    && |depths| == |slices|
    && Lanes(es)
    && (forall x :: x in es ==> Tracks(slices, depths, x))
    && (forall i :: 0 <= i < |depths| ==> depths[i] < |es|)
  }

  /** A slice in a lane whose last slice has ended overlaps none of the lane. */
  lemma {:induction false} AppendValid(slices: seq<Slice>, depths: seq<nat>, s: Slice, d: nat)
    requires ValidLanes(slices, depths) && StartOrdered(slices + [s])
    requires LastIn(depths, d) >= 0 ==> slices[LastIn(depths, d)].end <= s.start
    ensures ValidLanes(slices + [s], depths + [d])
  {
    var all, k := slices + [s], LastIn(depths, d);
    forall i | 0 <= i < |slices| && depths[i] == d ensures slices[i].end <= s.start {
      if i < k {
        assert slices[i].end <= slices[k].start;
        assert all[k].start <= all[|slices|].start;
      }
    }
  }

  lemma TracksAppend(slices: seq<Slice>, depths: seq<nat>, s: Slice, d: nat, x: Lane)
    requires |depths| == |slices|
    requires x == Lane(s.end, d) || (x.depth != d && Tracks(slices, depths, x))
    ensures Tracks(slices + [s], depths + [d], x)
  {
    LastInAppend(depths, d, x.depth);
  }

  /** All lanes busy: lane |es| is added. */
  lemma Grow(es: seq<Lane>, end: u64)
    requires Lanes(es) && NoEnd(es, end)
    ensures var r := Insert(es, Lane(end, |es|));
            Lanes(r) && |r| == |es| + 1 && forall x :: x in r <==> x in es || x == Lane(end, |es|)
  {
    var lane := Lane(end, |es|);
    var r := Insert(es, lane);
    InsertMembers(es, lane);
    forall d: nat | d < |r| ensures HasDepth(r, d) {
      if d < |es| {
        assert HasDepth(es, d);
        var x :| x in es && x.depth == d;
        assert x in r;
      } else {
        assert lane in r;
      }
    }
  }

  /** The entry of lane b is replaced by one with the new end. */
  lemma ReuseMembers(es: seq<Lane>, b: nat, end: u64)
    requires Ordered(es) && b < |es| && NoEnd(Erase(es, b), end)
    ensures var lane := Lane(end, es[b].depth);
            var r := Insert(Erase(es, b), lane);
            Ordered(r) && |r| == |es| && forall x :: x in r <==> (x in es && x != es[b]) || x == lane
  {
    var lane := Lane(end, es[b].depth);
    var e := Erase(es, b);
    forall x ensures x in e <==> x in es && x != es[b] {
      EraseMembers(es, b, x);
    }
    EraseOrdered(es, b);
    InsertMembers(e, lane);
  }

  /** Lane b is taken over: its entry gets the new end. */
  lemma Reuse(es: seq<Lane>, b: nat, end: u64)
    requires Lanes(es) && b < |es| && NoEnd(Erase(es, b), end)
    ensures var lane := Lane(end, es[b].depth);
            var r := Insert(Erase(es, b), lane);
            Lanes(r) && |r| == |es| && forall x :: x in r <==> (x in es && x != es[b]) || x == lane
  {
    var lane := Lane(end, es[b].depth);
    var r := Insert(Erase(es, b), lane);
    ReuseMembers(es, b, end);
    forall d: nat | d < |r| ensures HasDepth(r, d) {
      assert HasDepth(es, d);
      var x :| x in es && x.depth == d;
      assert x == es[b] || x in r;
      assert lane in r;
    }
  }

  ghost function Below(n: nat): (r: set<nat>)
    ensures forall d: nat :: d in r <==> d < n
    ensures |r| == n
  {
    if n == 0 then {} else Below(n - 1) + {n - 1}
  }

  /** The open slices in the first n lanes. */
  ghost function OpenIn(slices: seq<Slice>, depths: seq<nat>, start: u64, n: nat): (r: set<nat>)
    requires |depths| == |slices|
  {
    set j | 0 <= j < |slices| && slices[j].end > start && depths[j] < n
  }

  lemma {:induction false} OneOpenPerLane(slices: seq<Slice>, depths: seq<nat>, start: u64, n: nat)
    requires |depths| == |slices|
    requires forall d: nat :: d < n ==> LastIn(depths, d) >= 0 && slices[LastIn(depths, d)].end > start
    ensures |OpenIn(slices, depths, start, n)| >= n
  {
    if n > 0 {
      OneOpenPerLane(slices, depths, start, n - 1);
      var fewer := OpenIn(slices, depths, start, n - 1) + {LastIn(depths, n - 1)};
      SubsetSize(fewer, OpenIn(slices, depths, start, n));
    }
  }

  /** When all lanes are busy, each holds a slice that is still open. */
  lemma AllBusy(slices: seq<Slice>, es: seq<Lane>, depths: seq<nat>, s: Slice)
    requires Good(slices, es, depths) && forall x :: x in es ==> x.end > s.start
    ensures |OpenAt(slices + [s], |slices|)| >= |es| + 1
  {
    forall d: nat | d < |es| ensures LastIn(depths, d) >= 0 && slices[LastIn(depths, d)].end > s.start {
      assert HasDepth(es, d);
      var x :| x in es && x.depth == d;
      assert Tracks(slices, depths, x);
    }
    OneOpenPerLane(slices, depths, s.start, |es|);
    var open := OpenIn(slices, depths, s.start, |es|);
    assert |open + {|slices|}| == |open| + 1;
    SubsetSize(open + {|slices|}, OpenAt(slices + [s], |slices|));
  }

  lemma OpenAtAppend(slices: seq<Slice>, s: Slice, w: nat)
    requires w < |slices|
    ensures OpenAt(slices + [s], w) == OpenAt(slices, w)
  {
  }

  /** The ends held by the entries are ends of slices, so an end no slice has is fresh. */
  lemma EndIsNew(slices: seq<Slice>, es: seq<Lane>, depths: seq<nat>, s: Slice)
    requires Good(slices, es, depths) && forall i :: 0 <= i < |slices| ==> slices[i].end != s.end
    ensures Fresh(es, s)
  {
    var kept := Survivors(es, s);
    forall i | 0 <= i < |kept| ensures kept[i].end != s.end {
      assert kept[i] in es;
      assert Tracks(slices, depths, kept[i]);
    }
  }

  /** What CalcDepthByTimeStamp does when the guard is met. */
  lemma {:induction false} CalcShape(es: seq<Lane>, s: Slice)
    requires Fresh(es, s)
    ensures if es == [] || es[0].end > s.start then
              NoEnd(es, s.end) && Calc(es, s) == (Insert(es, Lane(s.end, |es|)), |es|)
            else
              var b := Best(es, s.start, |es|);
              && es[b].end <= s.start && NoEnd(Erase(es, b), s.end)
              && Calc(es, s) == (Insert(Erase(es, b), Lane(s.end, es[b].depth)), es[b].depth)
  {
    assert es == [] ==> Insert(es, Lane(s.end, 0)) == [Lane(s.end, 0)];
  }

  /** A table with an entry for the new slice in place of the lane's old one. */
  lemma NextGood(slices: seq<Slice>, es: seq<Lane>, depths: seq<nat>, s: Slice, es': seq<Lane>, d: nat)
    requires Good(slices, es, depths) && Lanes(es') && |es| <= |es'| && d < |es'|
    requires forall x :: x in es' ==> x == Lane(s.end, d) || (x in es && x.depth != d)
    ensures Good(slices + [s], es', depths + [d])
  {
    hide Lanes, Tracks, LastIn;
    forall x | x in es' ensures Tracks(slices + [s], depths + [d], x) {
      assert x in es ==> Tracks(slices, depths, x);
      TracksAppend(slices, depths, s, d, x);
    }
  }

  /** A depth that no slice has. */
  lemma {:induction false} NewDepth(slices: seq<Slice>, es: seq<Lane>, depths: seq<nat>)
    requires Good(slices, es, depths)
    ensures LastIn(depths, |es|) < 0 && Lanes(es) && forall x :: x in es ==> x.depth != |es|
  {
    hide LastIn, Tracks;
  }

  lemma GrowGood(slices: seq<Slice>, es: seq<Lane>, depths: seq<nat>, s: Slice)
    requires Good(slices, es, depths) && ValidLanes(slices, depths)
    requires StartOrdered(slices + [s]) && Fresh(es, s)
    requires es == [] || es[0].end > s.start
    ensures var (es', d) := Calc(es, s);
            && Good(slices + [s], es', depths + [d]) && ValidLanes(slices + [s], depths + [d])
            && |es'| == |es| + 1
  {
    hide Good, ValidLanes, StartOrdered, Fresh, Calc, Insert, Lanes, NoEnd, LastIn;
    CalcShape(es, s);
    NewDepth(slices, es, depths);
    Grow(es, s.end);
    AppendValid(slices, depths, s, |es|);
    NextGood(slices, es, depths, s, Calc(es, s).0, |es|);
  }

  /** The lane of an entry: its last slice ends with it, and no other entry has it. */
  lemma {:induction false} OldDepth(slices: seq<Slice>, es: seq<Lane>, depths: seq<nat>, b: nat)
    requires Good(slices, es, depths) && b < |es|
    ensures Lanes(es) && es[b].depth < |es| && LastIn(depths, es[b].depth) >= 0
    ensures |slices| == |depths| && slices[LastIn(depths, es[b].depth)].end == es[b].end
    ensures forall x :: x in es && x != es[b] ==> x.depth != es[b].depth
  {
    assert es[b] in es && Tracks(slices, depths, es[b]);
    hide LastIn;
  }

  lemma ReuseGood(slices: seq<Slice>, es: seq<Lane>, depths: seq<nat>, s: Slice)
    requires Good(slices, es, depths) && ValidLanes(slices, depths)
    requires StartOrdered(slices + [s]) && Fresh(es, s)
    requires es != [] && es[0].end <= s.start
    ensures var (es', d) := Calc(es, s);
            && Good(slices + [s], es', depths + [d]) && ValidLanes(slices + [s], depths + [d])
            && |es'| == |es|
  {
    hide Good, ValidLanes, StartOrdered, Fresh, Calc, Insert, Erase, Best, Lanes, NoEnd, LastIn;
    var b := Best(es, s.start, |es|);
    CalcShape(es, s);
    OldDepth(slices, es, depths, b);
    Reuse(es, b, s.end);
    AppendValid(slices, depths, s, es[b].depth);
    NextGood(slices, es, depths, s, Calc(es, s).0, es[b].depth);
  }

  /** What the greedy run keeps: a valid assignment, and a slice at whose start as many slices
      are open as there are lanes. */
  ghost predicate Tight(slices: seq<Slice>, es: seq<Lane>, depths: seq<nat>, w: nat) {
    && Good(slices, es, depths) && ValidLanes(slices, depths)
    && (slices == [] ==> es == [])
    && (slices != [] ==> w < |slices| && |OpenAt(slices, w)| >= |es|)
  }

  lemma CalcTight(slices: seq<Slice>, es: seq<Lane>, depths: seq<nat>, s: Slice, w: nat) returns (w': nat)
    requires Tight(slices, es, depths, w)
    requires StartOrdered(slices + [s]) && Fresh(es, s)
    ensures var (es', d) := Calc(es, s);
            Tight(slices + [s], es', depths + [d], w')
  {
    if es == [] || es[0].end > s.start {
      w' := |slices|;
      GrowGood(slices, es, depths, s);
      forall x | x in es ensures x.end > s.start {
        var i :| 0 <= i < |es| && es[i] == x;
        assert i == 0 || es[0].end < es[i].end;
      }
      AllBusy(slices, es, depths, s);
    } else {
      w' := w;
      ReuseGood(slices, es, depths, s);
      OpenAtAppend(slices, s, w);
    }
  }

  /** Every slice meets the guard when it comes in. */
  predicate Guarded(slices: seq<Slice>) {
    slices == [] ||
    var n := |slices| - 1;
    Guarded(slices[..n]) && Fresh(Assign(slices[..n]).0, slices[n])
  }

  lemma {:induction false} GreedyRun(slices: seq<Slice>) returns (w: nat)
    requires StartOrdered(slices) && Guarded(slices)
    ensures Tight(slices, Assign(slices).0, Assign(slices).1, w)
  {
    w := 0;
    if slices != [] {
      var n := |slices| - 1;
      var before, s := slices[..n], slices[n];
      assert slices == before + [s];
      assert StartOrdered(before);
      w := GreedyRun(before);
      hide Tight, Fresh;
      w := CalcTight(before, Assign(before).0, Assign(before).1, s, w);
    }
  }

  /** As many slices as there are lanes used are open when slice w starts. */
  ghost predicate Peak(slices: seq<Slice>, depths: seq<nat>, w: nat) {
    w < |slices| && |Used(depths)| == |OpenAt(slices, w)|
  }

  /** No two overlapping slices share a depth; the number of depths is the greatest number of
      slices open at once; and no assignment of lanes without overlaps gets by with fewer. */
  lemma {:induction false} GreedyIsOptimal(slices: seq<Slice>)
    requires StartOrdered(slices) && Guarded(slices)
    ensures var depths := Assign(slices).1;
            && ValidLanes(slices, depths)
            && (slices != [] ==> exists w: nat :: Peak(slices, depths, w))
            && (forall v: nat :: v < |slices| ==> |OpenAt(slices, v)| <= |Used(depths)|)
            && (forall lanes :: ValidLanes(slices, lanes) ==> |Used(depths)| <= |Used(lanes)|)
  {
    var w := GreedyRun(slices);
    var (es, depths) := Assign(slices);
    UsedAtMost(depths, |es|);
    forall v: nat | v < |slices| ensures |OpenAt(slices, v)| <= |Used(depths)| {
      LanesNeeded(slices, depths, v);
    }
    assert slices != [] ==> Peak(slices, depths, w);
    forall lanes | ValidLanes(slices, lanes) ensures |Used(depths)| <= |Used(lanes)| {
      if slices != [] {
        LanesNeeded(slices, lanes, w);
      }
    }
  }

  lemma UsedAtMost(depths: seq<nat>, n: nat)
    requires forall i :: 0 <= i < |depths| ==> depths[i] < n
    ensures |Used(depths)| <= n
  {
    SubsetSize(Used(depths), Below(n));
  }

  lemma {:induction false} SubsetSize(a: set<nat>, b: set<nat>)
    requires a <= b
    ensures |a| <= |b|
    decreases |a|
  {
    if a != {} {
      var x :| x in a;
      SubsetSize(a - {x}, b - {x});
    }
  }

  lemma {:induction false} AssignAppend(slices: seq<Slice>, s: Slice)
    ensures var (es, depths) := Assign(slices);
            Assign(slices + [s]) == (Calc(es, s).0, depths + [Calc(es, s).1])
  {
    assert (slices + [s])[..|slices|] == slices;
  }

  // ---------------------------------------------------------------------------
  // The loop over the slices of all processes
  // ---------------------------------------------------------------------------

  datatype Dlopen = Dlopen(pid: u32, slice: Slice)

  /** The slices of one process, in table order. */
  function OfPid(ds: seq<Dlopen>, pid: u32): (r: seq<Slice>) {
    if ds == [] then [] else
    var n := |ds| - 1;
    OfPid(ds[..n], pid) + if ds[n].pid == pid then [ds[n].slice] else []
  }

  /** The depths given to the slices of one process. */
  function DepthsOf(ds: seq<Dlopen>, depths: seq<nat>, pid: u32): (r: seq<nat>)
    requires |depths| == |ds|
  {
    if ds == [] then [] else
    var n := |ds| - 1;
    DepthsOf(ds[..n], depths[..n], pid) + if ds[n].pid == pid then [depths[n]] else []
  }

  lemma {:induction false} OfPidAppend(ds: seq<Dlopen>, depths: seq<nat>, d: Dlopen, depth: nat, pid: u32)
    requires |depths| == |ds|
    ensures OfPid(ds + [d], pid) == if d.pid == pid then OfPid(ds, pid) + [d.slice] else OfPid(ds, pid)
    ensures DepthsOf(ds + [d], depths + [depth], pid) ==
            if d.pid == pid then DepthsOf(ds, depths, pid) + [depth] else DepthsOf(ds, depths, pid)
  {
    assert (ds + [d])[..|ds|] == ds && (depths + [depth])[..|ds|] == depths;
  }

  method CalcDepthByTimeStamp(lanes: seq<Lane>, s: Slice) returns (lanes': seq<Lane>, depth: nat)
    ensures (lanes', depth) == Calc(lanes, s)
  {
    if |lanes| == 0 {
      return [Lane(s.end, 0)], 0;
    }
    if lanes[0].end > s.start {
      depth := |lanes|;
      lanes' := Insert(lanes, Lane(s.end, |lanes|));
      return;
    }
    var b := 0;
    depth := lanes[0].depth;
    for i := 1 to |lanes|
      invariant b == Best(lanes, s.start, i) && depth == lanes[b].depth
    {
      if lanes[i].end < s.start && depth > lanes[i].depth {
        depth := lanes[i].depth;
        b := i;
      }
    }
    lanes' := Insert(Erase(lanes, b), Lane(s.end, depth));
  }

  /** A process has the lanes and depths of its own slices. */
  ghost predicate Coloured(ds: seq<Dlopen>, depths: seq<nat>, lanesOf: map<u32, seq<Lane>>, pid: u32)
    requires |depths| == |ds|
  {
    && DepthsOf(ds, depths, pid) == Assign(OfPid(ds, pid)).1
    && Assign(OfPid(ds, pid)).0 == if pid in lanesOf then lanesOf[pid] else []
  }

  lemma ColourNext(ds: seq<Dlopen>, depths: seq<nat>, lanesOf: map<u32, seq<Lane>>, d: Dlopen, pid: u32)
    requires |depths| == |ds| && Coloured(ds, depths, lanesOf, pid) && Coloured(ds, depths, lanesOf, d.pid)
    ensures var (lanes, depth) := Calc(if d.pid in lanesOf then lanesOf[d.pid] else [], d.slice);
            Coloured(ds + [d], depths + [depth], lanesOf[d.pid := lanes], pid)
  {
    var (lanes, depth) := Calc(if d.pid in lanesOf then lanesOf[d.pid] else [], d.slice);
    OfPidAppend(ds, depths, d, depth, pid);
    var mine, all, allDepths := OfPid(ds, pid), ds + [d], depths + [depth];
    if d.pid == pid {
      AssignAppend(mine, d.slice);
      assert OfPid(all, pid) == mine + [d.slice];
      assert DepthsOf(all, allDepths, pid) == Assign(mine).1 + [depth];
    } else {
      assert OfPid(all, pid) == mine;
      assert DepthsOf(all, allDepths, pid) == Assign(mine).1;
    }
  }

  /** Each process is coloured on its own. */
  method ParserSoInitalization(ds: seq<Dlopen>) returns (depths: seq<nat>)
    ensures |depths| == |ds|
    ensures forall pid :: DepthsOf(ds, depths, pid) == Assign(OfPid(ds, pid)).1
  {
    depths := [];
    var lanesOf: map<u32, seq<Lane>> := map[];
    for i := 0 to |ds|
      invariant |depths| == i
      invariant forall pid :: Coloured(ds[..i], depths, lanesOf, pid)
    {
      var d := ds[i];
      var lanes, depth := CalcDepthByTimeStamp(if d.pid in lanesOf then lanesOf[d.pid] else [], d.slice);
      ghost var depths0, lanesOf0 := depths, lanesOf;
      lanesOf := lanesOf[d.pid := lanes];
      depths := depths + [depth];
      ghost var done := ds[..i + 1];
      assert done == ds[..i] + [d];
      forall pid ensures Coloured(done, depths, lanesOf, pid) {
        ColourNext(ds[..i], depths0, lanesOf0, d, pid);
      }
    }
    forall pid ensures DepthsOf(ds, depths, pid) == Assign(OfPid(ds, pid)).1 {
      assert ds[..|ds|] == ds;
      assert Coloured(ds[..|ds|], depths, lanesOf, pid);
    }
  }
}
