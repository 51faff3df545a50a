/** Exactly when the greedy lanes hold: the insert into the ordered map must not meet its own key
    (trace_streamer/src/filter/app_start_filter.cpp:246-271). */
module LaneGuard {
  import opened Words
  import opened LaneAssignment

  // ---------------------------------------------------------------------------
  // The guard is exact
  // ---------------------------------------------------------------------------

  /** An insert that meets its own key changes nothing. */
  lemma InsertLost(es: seq<Lane>, lane: Lane)
    requires Ordered(es) && !NoEnd(es, lane.end)
    ensures Insert(es, lane) == es
  {
    var i :| 0 <= i < |es| && es[i].end == lane.end;
    var k := Position(es, lane.end, |es|);
    assert i < k;
    assert forall j :: i < j < |es| ==> es[i].end < es[j].end;
  }

  /** Without the guard the table is what survives, and the lane of the slice is not in it. */
  lemma {:induction false} LossShape(es: seq<Lane>, s: Slice)
    requires Ordered(es) && !Fresh(es, s)
    ensures es != [] && Calc(es, s).0 == Survivors(es, s)
    ensures if es[0].end > s.start then Calc(es, s).1 == |es| else Calc(es, s).1 == es[Best(es, s.start, |es|)].depth
  {
    if es[0].end <= s.start {
      var b := Best(es, s.start, |es|);
      EraseOrdered(es, b);
      InsertLost(Erase(es, b), Lane(s.end, es[b].depth));
    } else {
      InsertLost(es, Lane(s.end, |es|));
    }
  }

  /** A lost lane leaves a depth at or above the number of entries. */
  lemma LossBreaksGood(slices: seq<Slice>, es: seq<Lane>, depths: seq<nat>, s: Slice)
    requires Good(slices, es, depths) && !Fresh(es, s)
    ensures !Good(slices + [s], Calc(es, s).0, depths + [Calc(es, s).1])
  {
    LossShape(es, s);
    var (es', d) := Calc(es, s);
    var all := depths + [d];
    if es[0].end > s.start {
      assert all[|depths|] == |es| == |es'|;
    } else {
      assert HasDepth(es, |es| - 1);
      var x :| x in es && x.depth == |es| - 1;
      assert Tracks(slices, depths, x);
      var k := LastIn(depths, x.depth);
      assert all[k] == |es| - 1 == |es'|;
    }
  }

  /** One slice keeps the table in step with the lanes if and only if it meets the guard. */
  lemma CalcGoodIff(slices: seq<Slice>, es: seq<Lane>, depths: seq<nat>, s: Slice)
    requires Good(slices, es, depths) && ValidLanes(slices, depths) && StartOrdered(slices + [s])
    ensures Good(slices + [s], Calc(es, s).0, depths + [Calc(es, s).1]) <==> Fresh(es, s)
  {
    if !Fresh(es, s) {
      LossBreaksGood(slices, es, depths, s);
    } else if es == [] || es[0].end > s.start {
      GrowGood(slices, es, depths, s);
    } else {
      ReuseGood(slices, es, depths, s);
    }
  }

  /** The table is in step after every slice. */
  ghost predicate GoodThroughout(slices: seq<Slice>) {
    && Good(slices, Assign(slices).0, Assign(slices).1)
    && (slices == [] || GoodThroughout(slices[..|slices| - 1]))
  }

  /** Over a whole stream: the table is in step throughout if and only if every slice meets the
      guard. */
  lemma {:induction false} GuardedIff(slices: seq<Slice>)
    requires StartOrdered(slices)
    ensures GoodThroughout(slices) <==> Guarded(slices)
  {
    if slices != [] {
      var n := |slices| - 1;
      var before, s := slices[..n], slices[n];
      assert slices == before + [s] && StartOrdered(before);
      GuardedIff(before);
      if Guarded(before) {
        GoodAfter(before);
        CalcGoodIff(before, Assign(before).0, Assign(before).1, s);
      }
    }
  }

  lemma {:induction false} GoodAfter(slices: seq<Slice>)
    requires StartOrdered(slices) && Guarded(slices)
    ensures Good(slices, Assign(slices).0, Assign(slices).1) && ValidLanes(slices, Assign(slices).1)
  {
    var w := GreedyRun(slices);
  }

  lemma {:induction false} DistinctEndsGuarded(slices: seq<Slice>)
    requires StartOrdered(slices) && DistinctEnds(slices)
    ensures Guarded(slices)
  {
    if slices != [] {
      var n := |slices| - 1;
      var before, s := slices[..n], slices[n];
      assert StartOrdered(before) && DistinctEnds(before);
      DistinctEndsGuarded(before);
      GoodAfter(before);
      EndIsNew(before, Assign(before).0, Assign(before).1, s);
    }
  }

  // ---------------------------------------------------------------------------
  // Which free lane is taken
  // ---------------------------------------------------------------------------

  /** Lane c has been used, and its last slice ends at end. */
  ghost predicate LaneEnds(slices: seq<Slice>, depths: seq<nat>, c: nat, end: u64)
    requires |depths| == |slices|
  {
    exists k: nat :: k < |slices| && depths[k] == c && slices[k].end == end && forall i :: k < i < |slices| ==> depths[i] != c
  }

  /** The lane of a new slice: the lowest of those that have ended before its start; otherwise the one
      that ends right there; otherwise the first that has not been used. */
  ghost predicate Lowest(slices: seq<Slice>, depths: seq<nat>, start: u64, d: nat)
    requires |depths| == |slices|
  {
    if exists c: nat, end: u64 :: LaneEnds(slices, depths, c, end) && end < start then
      && (exists end: u64 :: LaneEnds(slices, depths, d, end) && end < start)
      && (forall c: nat, end: u64 :: LaneEnds(slices, depths, c, end) && end < start ==> d <= c)
    else if exists c: nat :: LaneEnds(slices, depths, c, start) then
      LaneEnds(slices, depths, d, start)
    else
      !Taken(depths, d) && forall c: nat :: c < d ==> Taken(depths, c)
  }

  ghost predicate Taken(depths: seq<nat>, c: nat) {
    exists i :: 0 <= i < |depths| && depths[i] == c
  }

  lemma {:induction false} BestIsLowest(es: seq<Lane>, start: u64, n: nat)
    requires 1 <= n <= |es|
    ensures es[Best(es, start, n)].depth <= es[0].depth
    ensures forall i :: 0 <= i < n && es[i].end < start ==> es[Best(es, start, n)].depth <= es[i].depth
  {
    if n > 1 {
      BestIsLowest(es, start, n - 1);
    }
  }

  /** The entries are the used lanes with their ends. */
  lemma EntryIsLane(slices: seq<Slice>, es: seq<Lane>, depths: seq<nat>, c: nat, end: u64)
    requires Good(slices, es, depths)
    ensures LaneEnds(slices, depths, c, end) <==> Lane(end, c) in es
  {
    hide LastIn, Ordered;
    if LaneEnds(slices, depths, c, end) {
      var k: nat :| k < |slices| && depths[k] == c && slices[k].end == end && forall i :: k < i < |slices| ==> depths[i] != c;
      assert c < |es| && HasDepth(es, c);
      var x :| x in es && x.depth == c;
      assert Tracks(slices, depths, x) && LastIn(depths, c) == k;
    }
    if Lane(end, c) in es {
      assert Tracks(slices, depths, Lane(end, c));
    }
  }

  ghost predicate Listed(slices: seq<Slice>, depths: seq<nat>, es: seq<Lane>)
    requires |depths| == |slices|
  {
    forall c: nat, end: u64 :: LaneEnds(slices, depths, c, end) <==> Lane(end, c) in es
  }

  lemma GoodListed(slices: seq<Slice>, es: seq<Lane>, depths: seq<nat>)
    requires Good(slices, es, depths)
    ensures Listed(slices, depths, es) && Ordered(es)
  {
    hide LaneEnds;
    forall c: nat, end: u64 ensures LaneEnds(slices, depths, c, end) <==> Lane(end, c) in es {
      EntryIsLane(slices, es, depths, c, end);
    }
  }

  lemma NewIsLowest(slices: seq<Slice>, es: seq<Lane>, depths: seq<nat>, start: u64)
    requires |depths| == |slices| && Listed(slices, depths, es) && forall x :: x in es ==> x.end > start
    requires !Taken(depths, |es|) && forall c: nat :: c < |es| ==> Taken(depths, c)
    ensures Lowest(slices, depths, start, |es|)
  {
    hide LaneEnds, Taken;
    assert forall c: nat, end: u64 :: LaneEnds(slices, depths, c, end) ==> Lane(end, c).end > start;
  }

  lemma AbuttingIsLowest(slices: seq<Slice>, es: seq<Lane>, depths: seq<nat>, start: u64, x: Lane)
    requires |depths| == |slices| && Listed(slices, depths, es) && forall y :: y in es ==> y.end >= start
    requires x in es && x.end == start
    ensures Lowest(slices, depths, start, x.depth)
  {
    hide LaneEnds;
    assert x == Lane(start, x.depth);
    assert forall c: nat, end: u64 :: LaneEnds(slices, depths, c, end) ==> Lane(end, c).end >= start;
    assert LaneEnds(slices, depths, x.depth, start);
  }

  lemma EarlierIsLowest(slices: seq<Slice>, es: seq<Lane>, depths: seq<nat>, start: u64, x: Lane)
    requires |depths| == |slices| && Listed(slices, depths, es)
    requires x in es && x.end < start && forall y :: y in es && y.end < start ==> x.depth <= y.depth
    ensures Lowest(slices, depths, start, x.depth)
  {
    hide LaneEnds;
    assert x == Lane(x.end, x.depth);
    assert LaneEnds(slices, depths, x.depth, x.end);
    assert forall c: nat, end: u64 :: LaneEnds(slices, depths, c, end) ==> Lane(end, c) in es;
    assert forall c: nat, end: u64 :: LaneEnds(slices, depths, c, end) && end < start ==> x.depth <= Lane(end, c).depth;
  }

  lemma {:induction false} CalcLowest(slices: seq<Slice>, es: seq<Lane>, depths: seq<nat>, s: Slice)
    requires Good(slices, es, depths)
    ensures Lowest(slices, depths, s.start, Calc(es, s).1)
  {
    GoodListed(slices, es, depths);
    AllUsed(slices, es, depths);
    hide Good, Listed, Lowest, Taken, Insert, Erase;
    if es == [] || es[0].end > s.start {
      NoneEnded(es, s.start);
      NewIsLowest(slices, es, depths, s.start);
    } else {
      var b := Best(es, s.start, |es|);
      BestIsLowest(es, s.start, |es|);
      if es[0].end == s.start {
        NoneBefore(es, s.start);
        assert b == 0;
        AbuttingIsLowest(slices, es, depths, s.start, es[b]);
      } else {
        EarlierIsLowest(slices, es, depths, s.start, es[b]);
      }
    }
  }

  lemma NoneEnded(es: seq<Lane>, start: u64)
    requires Ordered(es) && (es == [] || es[0].end > start)
    ensures forall x :: x in es ==> x.end > start
  {
  }

  lemma NoneBefore(es: seq<Lane>, start: u64)
    requires Ordered(es) && es != [] && es[0].end == start
    ensures forall x :: x in es ==> x.end >= start
  {
  }

  lemma AllUsed(slices: seq<Slice>, es: seq<Lane>, depths: seq<nat>)
    requires Good(slices, es, depths)
    ensures !Taken(depths, |es|) && forall c: nat :: c < |es| ==> Taken(depths, c)
  {
    forall c: nat | c < |es| ensures Taken(depths, c) {
      assert HasDepth(es, c);
      var x :| x in es && x.depth == c;
      assert Tracks(slices, depths, x);
      assert depths[LastIn(depths, c)] == c;
    }
  }

  lemma {:induction false} AssignPrefix(slices: seq<Slice>, k: nat)
    requires k <= |slices|
    ensures Assign(slices).1[..k] == Assign(slices[..k]).1
    ensures Guarded(slices) ==> Guarded(slices[..k])
  {
    hide Calc, Fresh;
    if k < |slices| {
      AssignPrefix(slices[..|slices| - 1], k);
      assert slices[..|slices| - 1][..k] == slices[..k];
    } else {
      assert slices[..k] == slices;
    }
  }

  lemma OrderedPrefix(slices: seq<Slice>, k: nat)
    requires StartOrdered(slices) && k <= |slices|
    ensures StartOrdered(slices[..k])
  {
  }

  /** Over every guarded stream each slice takes the lowest free lane. */
  lemma {:induction false} GreedyTakesLowest(slices: seq<Slice>, k: nat)
    requires StartOrdered(slices) && Guarded(slices) && k < |slices|
    ensures Lowest(slices[..k], Assign(slices).1[..k], slices[k].start, Assign(slices).1[k])
  {
    hide *;
    var before := slices[..k];
    OrderedPrefix(slices, k);
    assert slices[..k + 1] == before + [slices[k]];
    AssignPrefix(slices, k);
    AssignPrefix(slices, k + 1);
    AssignAppend(before, slices[k]);
    GoodAfter(before);
    CalcLowest(before, Assign(before).0, Assign(before).1, slices[k]);
    assert Assign(slices).1[k] == Assign(slices).1[..k + 1][k];
  }

  // ---------------------------------------------------------------------------
  // A lost lane is handed out again
  // ---------------------------------------------------------------------------

  /** The table has lost lane d, whose last slice is open at t; the other lanes up to the number
      of entries are there. */
  ghost predicate Leaky(slices: seq<Slice>, es: seq<Lane>, depths: seq<nat>, d: nat, t: u64) {
    && |depths| == |slices| && Ordered(es) && d <= |es|
    && LastIn(depths, d) >= 0 && slices[LastIn(depths, d)].end > t
    && (forall x :: x in es ==> Tracks(slices, depths, x) && x.depth != d)
    && (forall x, y :: x in es && y in es && x.depth == y.depth ==> x == y)
    && (forall c: nat :: c <= |es| && c != d ==> HasDepth(es, c))
  }

  /** Losing a lane to a slice that is not empty leaves such a table. */
  lemma LossLeaks(slices: seq<Slice>, es: seq<Lane>, depths: seq<nat>, s: Slice)
    requires Good(slices, es, depths) && !Fresh(es, s) && s.start < s.end
    ensures Leaky(slices + [s], Calc(es, s).0, depths + [Calc(es, s).1], Calc(es, s).1, s.start)
  {
    LossShape(es, s);
    var (es', d) := Calc(es, s);
    LastInAppend(depths, d, d);
    if es[0].end > s.start {
      forall x | x in es' ensures Tracks(slices + [s], depths + [d], x) && x.depth != d {
        TracksAppend(slices, depths, s, d, x);
      }
    } else {
      ReuseLeaks(slices, es, depths, s);
    }
  }

  lemma {:induction false} ReuseLeaks(slices: seq<Slice>, es: seq<Lane>, depths: seq<nat>, s: Slice)
    requires Good(slices, es, depths) && es != [] && es[0].end <= s.start && s.start < s.end
    ensures var b := Best(es, s.start, |es|);
            Leaky(slices + [s], Erase(es, b), depths + [es[b].depth], es[b].depth, s.start)
  {
    var b := Best(es, s.start, |es|);
    var d, rest := es[b].depth, Erase(es, b);
    LastInAppend(depths, d, d);
    forall x ensures x in rest <==> x in es && x != es[b] {
      EraseMembers(es, b, x);
    }
    EraseOrdered(es, b);
    assert es[b] in es;
    forall x | x in rest ensures Tracks(slices + [s], depths + [d], x) && x.depth != d {
      TracksAppend(slices, depths, s, d, x);
    }
    forall c: nat | c <= |rest| && c != d ensures HasDepth(rest, c) {
      assert HasDepth(es, c);
      var x :| x in es && x.depth == c;
      assert x in rest;
    }
  }

  /** The lane handed out next is one that is busy. */
  lemma {:induction false} NextLaneIsBusy(slices: seq<Slice>, es: seq<Lane>, depths: seq<nat>, d: nat, t: u64, s: Slice)
    requires Leaky(slices, es, depths, d, t) && t <= s.start
    requires es == [] || es[0].end > s.start
    requires slices[LastIn(depths, d)].end > s.start
    ensures Calc(es, s).1 == |es| && !ValidLanes(slices + [s], depths + [|es|])
  {
    var all, lanes, n := slices + [s], depths + [|es|], |slices|;
    var k := LastIn(depths, |es|);
    if d != |es| {
      assert HasDepth(es, |es|);
      var x :| x in es && x.depth == |es|;
      var i :| 0 <= i < |es| && es[i] == x;
      assert i == 0 || es[0].end < es[i].end;
      assert Tracks(slices, depths, x);
    }
    assert lanes[k] == lanes[n] && all[k].end > all[n].start;
  }

  lemma NextLaneIsBusyAt(slices: seq<Slice>, es: seq<Lane>, depths: seq<nat>, d: nat, s: Slice)
    requires Leaky(slices, es, depths, d, s.start) && (es == [] || es[0].end > s.start)
    ensures Calc(es, s).1 == |es| && !ValidLanes(slices + [s], depths + [|es|])
  {
    NextLaneIsBusy(slices, es, depths, d, s.start, s);
  }

  /** When no lane is left free, every slice that starts before the next end shares a lane with a
      slice that is still open. */
  lemma LostLaneCollides(slices: seq<Slice>, es: seq<Lane>, depths: seq<nat>, s: Slice, next: Slice)
    requires Good(slices, es, depths) && !Fresh(es, s) && s.start < s.end
    requires s.start <= next.start < Survivors(es, s)[0].end
    ensures var (es', d) := Calc(es, s);
            !ValidLanes(slices + [s] + [next], depths + [d] + [Calc(es', next).1])
  {
    LossShape(es, s);
    LossLeaks(slices, es, depths, s);
    var (es', d) := Calc(es, s);
    LastInAppend(depths, d, d);
    SurvivorsOrdered(es, s);
    var kept := Survivors(es, s);
    var i :| 0 <= i < |kept| && kept[i].end == s.end;
    assert i == 0 || kept[0].end < kept[i].end;
    NextLaneIsBusy(slices + [s], es', depths + [d], d, s.start, next);
  }

  lemma SurvivorsOrdered(es: seq<Lane>, s: Slice)
    requires Ordered(es)
    ensures Ordered(Survivors(es, s))
  {
    if es != [] && es[0].end <= s.start {
      EraseOrdered(es, Best(es, s.start, |es|));
    }
  }

  // ---------------------------------------------------------------------------
  // Every loss can show
  // ---------------------------------------------------------------------------

  ghost function FreeLanes(es: seq<Lane>, t: u64): (r: set<Lane>) {
    set x | x in es && x.end <= t
  }

  /** A slice with a later end than all others takes a free lane and leaves one fewer. */
  lemma FillLeaks(slices: seq<Slice>, es: seq<Lane>, depths: seq<nat>, d: nat, s: Slice)
    requires Leaky(slices, es, depths, d, s.start) && es != [] && es[0].end <= s.start < s.end
    requires forall i :: 0 <= i < |slices| ==> slices[i].end < s.end
    ensures var (es', c) := Calc(es, s);
            && Leaky(slices + [s], es', depths + [c], d, s.start)
            && FreeLanes(es', s.start) < FreeLanes(es, s.start)
  {
    var b := Best(es, s.start, |es|);
    var (es', c) := Calc(es, s);
    assert es[b] in es;
    forall i | 0 <= i < |es| - 1 ensures Erase(es, b)[i].end != s.end {
      assert Erase(es, b)[i] in es;
      assert Tracks(slices, depths, Erase(es, b)[i]);
    }
    ReuseMembers(es, b, s.end);
    LastInAppend(depths, c, d);
    assert es[b] in FreeLanes(es, s.start) && es[b] !in FreeLanes(es', s.start);
    hide Calc;
    FillTracks(slices, es, depths, d, s, b, es');
  }

  lemma {:induction false} FillTracks(slices: seq<Slice>, es: seq<Lane>, depths: seq<nat>, d: nat, s: Slice, b: nat, es': seq<Lane>)
    requires Leaky(slices, es, depths, d, s.start) && b < |es|
    requires |es'| == |es| && Ordered(es')
    requires forall x :: x in es' <==> (x in es && x != es[b]) || x == Lane(s.end, es[b].depth)
    requires LastIn(depths + [es[b].depth], d) == LastIn(depths, d)
    ensures Leaky(slices + [s], es', depths + [es[b].depth], d, s.start)
  {
    var c := es[b].depth;
    assert es[b] in es;
    forall x | x in es' ensures Tracks(slices + [s], depths + [c], x) && x.depth != d {
      TracksAppend(slices, depths, s, c, x);
    }
    forall e: nat | e <= |es'| && e != d ensures HasDepth(es', e) {
      assert HasDepth(es, e);
      var x :| x in es && x.depth == e;
      assert x == es[b] || x in es';
      assert Lane(s.end, c) in es';
    }
  }

  /** Slices that start at t and whose ends grow from top on. */
  ghost predicate Fills(more: seq<Slice>, t: u64, top: int) {
    && (forall k :: 0 <= k < |more| ==> more[k].start == t && top <= more[k].end)
    && (forall j, k :: 0 <= j < k < |more| ==> more[j].end < more[k].end)
  }

  /** Once the free lanes are filled the next slice shares a lane with an open one. */
  lemma {:induction false} FillCollides(slices: seq<Slice>, d: nat, t: u64, top: int) returns (more: seq<Slice>)
    requires Leaky(slices, Assign(slices).0, Assign(slices).1, d, t)
    requires t < top && forall i :: 0 <= i < |slices| ==> slices[i].end < top
    requires top + |FreeLanes(Assign(slices).0, t)| < TWO64
    ensures Fills(more, t, top) && !ValidLanes(slices + more, Assign(slices + more).1)
    decreases |FreeLanes(Assign(slices).0, t)|
  {
    hide Leaky, Calc, FreeLanes, Assign, ValidLanes;
    var (es, depths) := Assign(slices);
    var s := Slice(t, top);
    AssignAppend(slices, s);
    if es == [] || es[0].end > t {
      NextLaneIsBusyAt(slices, es, depths, d, s);
      more := [s];
    } else {
      FillLeaks(slices, es, depths, d, s);
      var es' := Assign(slices + [s]).0;
      FewerThan(FreeLanes(es', t), FreeLanes(es, t));
      var rest := FillCollides(slices + [s], d, t, top + 1);
      more := [s] + rest;
      assert slices + more == (slices + [s]) + rest;
    }
  }

  lemma {:induction false} FewerThan(a: set<Lane>, b: set<Lane>)
    requires a < b
    ensures |a| < |b|
    decreases |b|
  {
    var x :| x in b && x !in a;
    if a <= b - {x} && a != b - {x} {
      FewerThan(a, b - {x});
    }
  }

  lemma {:induction false} AtMostAsMany(es: seq<Lane>, t: u64)
    ensures |FreeLanes(es, t)| <= |es|
  {
    if es != [] {
      var n := |es| - 1;
      AtMostAsMany(es[..n], t);
      assert es == es[..n] + [es[n]];
      var fewer := FreeLanes(es[..n], t);
      assert FreeLanes(es, t) == fewer || FreeLanes(es, t) == fewer + {es[n]};
    }
  }

  /** What may follow: slices in start order whose ends are new. */
  ghost predicate Follows(slices: seq<Slice>, more: seq<Slice>) {
    && StartOrdered(slices + more)
    && (forall i, k :: 0 <= i < |slices| && 0 <= k < |more| ==> slices[i].end != more[k].end)
    && (forall j, k :: 0 <= j < k < |more| ==> more[j].end != more[k].end)
  }

  lemma FollowsLast(slices: seq<Slice>, more: seq<Slice>)
    requires Follows(slices, more) && more != []
    ensures var n := |more| - 1;
            var before := slices + more[..n];
            && Follows(slices, more[..n]) && StartOrdered(before) && slices + more == before + [more[n]]
            && forall i :: 0 <= i < |before| ==> before[i].end != more[n].end
  {
    var n := |more| - 1;
    var before := slices + more[..n];
    assert forall i :: 0 <= i < |before| ==> before[i] == (slices + more)[i];
  }

  lemma {:induction false} GuardedNext(before: seq<Slice>, s: Slice)
    requires StartOrdered(before) && Guarded(before) && forall i :: 0 <= i < |before| ==> before[i].end != s.end
    ensures Guarded(before + [s])
  {
    GoodAfter(before);
    EndIsNew(before, Assign(before).0, Assign(before).1, s);
    assert (before + [s])[..|before|] == before;
  }

  lemma {:induction false} GuardedThrough(slices: seq<Slice>, more: seq<Slice>)
    requires Guarded(slices) && Follows(slices, more)
    ensures Guarded(slices + more)
  {
    hide Guarded, Follows, StartOrdered;
    if more == [] {
      assert slices + more == slices;
    } else {
      var n := |more| - 1;
      FollowsLast(slices, more);
      GuardedThrough(slices, more[..n]);
      GuardedNext(slices + more[..n], more[n]);
    }
  }

  /** There is room above all ends for one more end per lane. */
  ghost predicate Room(slices: seq<Slice>, top: int) {
    (forall i :: 0 <= i < |slices| ==> slices[i].end < top) && top + |Assign(slices).0| < TWO64
  }

  ghost predicate StaysValid(slices: seq<Slice>, more: seq<Slice>) {
    Follows(slices, more) ==> ValidLanes(slices + more, Assign(slices + more).1)
  }

  /** Main result: after a guarded stream, a slice that is not empty can be followed by anything
      with new ends without two overlapping slices on one lane, if and only if it meets the
      guard. */
  lemma {:induction false} SafeIff(slices: seq<Slice>, s: Slice, top: int)
    requires StartOrdered(slices + [s]) && Guarded(slices) && s.start < s.end && Room(slices + [s], top)
    ensures (forall more :: StaysValid(slices + [s], more)) <==> Fresh(Assign(slices).0, s)
  {
    var all := slices + [s];
    assert all[..|slices|] == slices;
    if Fresh(Assign(slices).0, s) {
      assert Guarded(all);
      forall more ensures StaysValid(all, more) {
        if Follows(all, more) {
          GuardedThrough(all, more);
          GoodAfter(all + more);
        }
      }
    } else {
      var more := LossShows(slices, s, top);
      assert !StaysValid(all, more);
    }
  }

  lemma LossShows(slices: seq<Slice>, s: Slice, top: int) returns (more: seq<Slice>)
    requires StartOrdered(slices + [s]) && Guarded(slices) && s.start < s.end && Room(slices + [s], top)
    requires !Fresh(Assign(slices).0, s)
    ensures !StaysValid(slices + [s], more)
  {
    var all := slices + [s];
    assert StartOrdered(slices) by {
      assert forall i :: 0 <= i < |slices| ==> all[i] == slices[i];
    }
    GoodAfter(slices);
    AssignAppend(slices, s);
    assert forall i :: 0 <= i < |all| ==> all[i].start <= s.start by {
      assert all[|slices|] == s;
    }
    hide Good, Fresh, Leaky, FreeLanes, Calc, Assign, ValidLanes;
    LossLeaks(slices, Assign(slices).0, Assign(slices).1, s);
    AtMostAsMany(Assign(all).0, s.start);
    assert all[|slices|] == s;
    more := FillCollides(all, Calc(Assign(slices).0, s).1, s.start, top);
    FillsFollow(all, more, s.start, top);
  }

  lemma FillsFollow(slices: seq<Slice>, more: seq<Slice>, t: u64, top: int)
    requires StartOrdered(slices) && Fills(more, t, top)
    requires forall i :: 0 <= i < |slices| ==> slices[i].start <= t && slices[i].end < top
    ensures Follows(slices, more)
  {
  }

  /** With equal end times an entry is lost and a busy lane is handed out again: the slices
      [1, 10) and [2, 5) both get depth 1. */
  lemma EqualEndsCollide()
    ensures var slices := [Slice(0, 10), Slice(1, 10), Slice(2, 5)];
            StartOrdered(slices) && Assign(slices).1 == [0, 1, 1] && !ValidLanes(slices, Assign(slices).1)
  {
    var a, b, c := Slice(0, 10), Slice(1, 10), Slice(2, 5);
    AssignAppend([], a);
    AssignAppend([a], b);
    AssignAppend([a, b], c);
    assert [] + [a] == [a] && [a] + [b] == [a, b] && [a, b] + [c] == [a, b, c];
    var depths := Assign([a, b, c]).1;
    assert depths[1] == depths[2];
  }
}
