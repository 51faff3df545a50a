/** The ordered table of memory maps kept for offline symbolization, and the
    address range that a new map invalidates
    (trace_streamer/src/filter/native_hook_filter.cpp:463-515 and 596-624).

    The std::map keyed by start address is a sequence strictly ordered by start;
    an iterator is an index into it. */
module AddressMaps {
  import opened Words

  datatype MapsInfo = MapsInfo(start: u64, end: u64, offset: u64, file: u32)

  /** The order a std::map keeps whatever is inserted. */
  predicate Sorted(ms: seq<MapsInfo>) {
    forall i, j :: 0 <= i < j < |ms| ==> ms[i].start < ms[j].start
  }

  /** Every map is a non-empty range [start, end) and no two of them overlap. */
  predicate WellFormed(ms: seq<MapsInfo>) {
    && (forall i :: 0 <= i < |ms| ==> ms[i].start < ms[i].end)
    && (forall i, j :: 0 <= i < j < |ms| ==> ms[i].end <= ms[j].start)
  }

  predicate Overlaps(m: MapsInfo, start: u64, end: u64) {
    m.start < end && start < m.end
  }

  /** std::map::upper_bound: the position of the first map that starts after x. */
  function UpperBound(ms: seq<MapsInfo>, x: int): (k: nat)
    requires Sorted(ms)
    ensures k <= |ms|
    ensures forall i :: 0 <= i < k ==> ms[i].start <= x
    ensures forall i :: k <= i < |ms| ==> x < ms[i].start
  {
    BoundBelow(ms, x, |ms|)
  }

  function BoundBelow(ms: seq<MapsInfo>, x: int, n: nat): (k: nat)
    requires Sorted(ms) && n <= |ms|
    requires forall i :: n <= i < |ms| ==> x < ms[i].start
    ensures k <= n
    ensures forall i :: 0 <= i < k ==> ms[i].start <= x
    ensures forall i :: k <= i < |ms| ==> x < ms[i].start
  {
    if n == 0 || ms[n - 1].start <= x then n else BoundBelow(ms, x, n - 1)
  }

  /** The first map that ends after x, when the maps are well formed. */
  function FirstEndingAfter(ms: seq<MapsInfo>, x: u64): (i: nat)
    requires Sorted(ms)
    ensures i <= |ms|
  {
    var k := UpperBound(ms, x);
    if 0 < k && x < ms[k - 1].end then k - 1 else k
  }

  /** The first map of the run of equal files that contains position i. */
  function RunStart(ms: seq<MapsInfo>, i: nat): (r: nat)
    requires i < |ms|
    ensures r <= i
    ensures forall j :: r <= j <= i ==> ms[j].file == ms[i].file
    ensures r == 0 || ms[r - 1].file != ms[i].file
  {
    if 0 < i && ms[i - 1].file == ms[i].file then RunStart(ms, i - 1) else i
  }

  /** The first position from k on whose map belongs to another file. */
  function RunEnd(ms: seq<MapsInfo>, k: nat, file: u32): (r: nat)
    requires k <= |ms|
    ensures k <= r <= |ms|
    ensures forall j :: k <= j < r ==> ms[j].file == file
    ensures r == |ms| || ms[r].file != file
    decreases |ms| - k
  {
    if k < |ms| && ms[k].file == file then RunEnd(ms, k + 1, file) else k
  }

  /** The range [start, end) of addresses a new map [lo, hi) makes stale:
      from the first touched map, widened backwards over its file, up to the
      first map behind hi, widened forwards over the last touched file. */
  function ConflictRange(ms: seq<MapsInfo>, lo: u64, hi: u64): (r: (u64, u64))
    requires Sorted(ms)
  {
    if lo >= hi then (INVALID_UINT64, INVALID_UINT64) else
    var i := FirstEndingAfter(ms, lo);
    var start := if i < |ms| then ms[RunStart(ms, i)].start else INVALID_UINT64;
    var k := UpperBound(ms, hi);
    if k == |ms| then (start, INVALID_UINT64)
    else if k == 0 then (INVALID_UINT64, INVALID_UINT64)
    else
      var e := RunEnd(ms, k, ms[k - 1].file);
      (start, if e < |ms| then ms[e].start else INVALID_UINT64)
  }

  predicate Conflicting(range: (u64, u64)) {
    range.0 != INVALID_UINT64 && range.0 != range.1
  }

  /** Which positions a new map [lo, hi) touches: exactly those from the first map
      that ends after lo up to the last one that starts before hi. */
  lemma TouchedPositions(ms: seq<MapsInfo>, lo: u64, hi: u64)
    requires WellFormed(ms) && Sorted(ms) && lo < hi
    ensures var i, k := FirstEndingAfter(ms, lo), UpperBound(ms, hi);
            && (k < |ms| ==> i <= k)
            && forall j :: 0 <= j < |ms| && Overlaps(ms[j], lo, hi) ==> i <= j < k
  {
    var i, k := FirstEndingAfter(ms, lo), UpperBound(ms, hi);
    assert forall j :: 0 <= j < i ==> ms[j].end <= lo;
  }

  /** The invalidation range is never inverted, and its upper end is open or the
      start of a stored map. */
  lemma RangeShape(ms: seq<MapsInfo>, lo: u64, hi: u64)
    requires WellFormed(ms) && Sorted(ms) && lo < hi
    ensures var (start, end) := ConflictRange(ms, lo, hi);
            start <= end && (end == INVALID_UINT64 || exists m :: m in ms && m.start == end)
  {
    hide RunStart, RunEnd, UpperBound, FirstEndingAfter, Overlaps, WellFormed;
    TouchedPositions(ms, lo, hi);
    var k := UpperBound(ms, hi);
    if 0 < k < |ms| {
      var e := RunEnd(ms, k, ms[k - 1].file);
      if e < |ms| {
        assert ms[e] in ms;
      }
    }
  }

  /** Position i is the first map that ends after x, or behind all of them. */
  ghost predicate FirstAfter(ms: seq<MapsInfo>, x: u64, i: nat) {
    i <= |ms| && (forall j :: 0 <= j < i ==> ms[j].end <= x) && (i < |ms| ==> x < ms[i].end)
  }

  /** Position k is the first map that starts after x, or behind all of them. */
  ghost predicate FirstBehind(ms: seq<MapsInfo>, x: u64, k: nat) {
    k <= |ms| && (forall j :: 0 <= j < k ==> ms[j].start <= x) && (k < |ms| ==> x < ms[k].start)
  }

  /** The maps from a to b, and no more on either side of them, are of the same file. */
  ghost predicate OpensRun(ms: seq<MapsInfo>, a: nat, i: nat) {
    a <= i < |ms| && (forall j :: a <= j <= i ==> ms[j].file == ms[i].file) && (a == 0 || ms[a - 1].file != ms[i].file)
  }

  ghost predicate ClosesRun(ms: seq<MapsInfo>, k: nat, e: nat) {
    && 0 < k <= e <= |ms| && (forall j :: k <= j < e ==> ms[j].file == ms[k - 1].file)
    && (e == |ms| || ms[e].file != ms[k - 1].file)
  }

  /** Exactly which range a new map makes stale. It opens with the run of equal files that holds the
      first map ending after lo, and there is none if no map does. It closes behind the run of the
      last map that starts at or before hi; it is open if none starts behind, and there is none if
      all do. */
  lemma RangeExact(ms: seq<MapsInfo>, lo: u64, hi: u64, i: nat, a: nat, k: nat, e: nat)
    requires WellFormed(ms) && Sorted(ms) && lo < hi
    requires FirstAfter(ms, lo, i) && FirstBehind(ms, hi, k)
    requires i < |ms| ==> OpensRun(ms, a, i)
    requires 0 < k ==> ClosesRun(ms, k, e)
    ensures var (start, end) := ConflictRange(ms, lo, hi);
            if k == 0 && ms != [] then start == INVALID_UINT64 && end == INVALID_UINT64
            else && start == (if i < |ms| then ms[a].start else INVALID_UINT64)
                 && end == (if k == |ms| || e == |ms| then INVALID_UINT64 else ms[e].start)
  {
    FirstEndingIs(ms, lo, i);
    FirstBehindIs(ms, hi, k);
    if i < |ms| {
      OneOpening(ms, i, a, RunStart(ms, i));
    }
    if 0 < k {
      OneClosing(ms, k, e, RunEnd(ms, k, ms[k - 1].file));
    }
    hide UpperBound, FirstEndingAfter, RunStart, RunEnd, WellFormed, Sorted, FirstAfter, FirstBehind, OpensRun, ClosesRun;
  }

  lemma FirstEndingIs(ms: seq<MapsInfo>, x: u64, i: nat)
    requires WellFormed(ms) && Sorted(ms) && FirstAfter(ms, x, i)
    ensures FirstEndingAfter(ms, x) == i
  {
    var u := FirstEndingAfter(ms, x);
    assert 0 < u ==> ms[u - 1].end <= x;
    assert u < |ms| ==> x < ms[u].end;
    assert 0 < i ==> ms[i - 1].end <= x;
    assert forall p, q :: 0 <= p < q < |ms| ==> ms[p].end < ms[q].end;
  }

  lemma FirstBehindIs(ms: seq<MapsInfo>, x: u64, k: nat)
    requires Sorted(ms) && FirstBehind(ms, x, k)
    ensures UpperBound(ms, x) == k
  {
    var u := UpperBound(ms, x);
    assert 0 < u ==> ms[u - 1].start <= x;
    assert 0 < k ==> ms[k - 1].start <= x;
  }

  lemma OneOpening(ms: seq<MapsInfo>, i: nat, a: nat, b: nat)
    requires OpensRun(ms, a, i) && OpensRun(ms, b, i)
    ensures a == b
  {
  }

  lemma OneClosing(ms: seq<MapsInfo>, k: nat, a: nat, b: nat)
    requires ClosesRun(ms, k, a) && ClosesRun(ms, k, b)
    ensures a == b
  {
  }

  /** The invalidation range reaches every stored map that overlaps the new one. */
  lemma RangeCovers(ms: seq<MapsInfo>, lo: u64, hi: u64, m: MapsInfo)
    requires WellFormed(ms) && Sorted(ms) && lo < hi
    requires m in ms && Overlaps(m, lo, hi)
    ensures var range := ConflictRange(ms, lo, hi);
            Conflicting(range) && range.0 <= m.start < range.1
  {
    var j :| 0 <= j < |ms| && ms[j] == m;
    hide RunStart, RunEnd, UpperBound, FirstEndingAfter;
    TouchedPositions(ms, lo, hi);
    assert Overlaps(ms[j], lo, hi);
    hide WellFormed, Overlaps;
    var i, k := FirstEndingAfter(ms, lo), UpperBound(ms, hi);
    var r := RunStart(ms, i);
    assert ms[r].start <= ms[j].start by {
      assert r == j || ms[r].start < ms[j].start;
    }
    if k < |ms| {
      var e := RunEnd(ms, k, ms[k - 1].file);
      assert e == |ms| || ms[j].start < ms[e].start;
      hide Sorted;
    }
  }

  /** Erasing the maps whose start lies in [start, end): the block between the two
      lower bounds. */
  function Outside(ms: seq<MapsInfo>, start: u64, end: u64): (r: seq<MapsInfo>)
    requires Sorted(ms)
  {
    var a, b := UpperBound(ms, start - 1), UpperBound(ms, end - 1);
    if a <= b then ms[..a] + ms[b..] else ms
  }

  /** Cutting the block [a, b) out of a table keeps its order and its disjointness. */
  lemma CutKeepsOrder(ms: seq<MapsInfo>, a: nat, b: nat)
    requires a <= b <= |ms|
    ensures Sorted(ms) ==> Sorted(ms[..a] + ms[b..])
    ensures WellFormed(ms) ==> WellFormed(ms[..a] + ms[b..])
  {
    var r := ms[..a] + ms[b..];
    forall i, j | 0 <= i < j < |r|
      ensures Sorted(ms) ==> r[i].start < r[j].start
      ensures WellFormed(ms) ==> r[i].end <= r[j].start
    {
      var i', j' := if i < a then i else i - a + b, if j < a then j else j - a + b;
      assert r[i] == ms[i'] && r[j] == ms[j'];
    }
    forall i | 0 <= i < |r| ensures WellFormed(ms) ==> r[i].start < r[i].end {
      assert r[i] == ms[if i < a then i else i - a + b];
    }
  }

  lemma CutMembers(ms: seq<MapsInfo>, a: nat, b: nat, m: MapsInfo)
    requires a <= b <= |ms|
    ensures m in ms[..a] + ms[b..] <==> exists i :: 0 <= i < |ms| && !(a <= i < b) && ms[i] == m
  {
    var r := ms[..a] + ms[b..];
    if m in r {
      var i :| 0 <= i < |r| && r[i] == m;
      assert ms[if i < a then i else i - a + b] == m;
    }
    if i :| 0 <= i < |ms| && !(a <= i < b) && ms[i] == m {
      assert r[if i < a then i else i - b + a] == m;
    }
  }

  lemma OutsideMembers(ms: seq<MapsInfo>, start: u64, end: u64, m: MapsInfo)
    requires Sorted(ms)
    ensures m in Outside(ms, start, end) <==> m in ms && !(start <= m.start < end)
  {
    var a, b := UpperBound(ms, start - 1), UpperBound(ms, end - 1);
    if a <= b {
      CutMembers(ms, a, b, m);
    }
  }

  lemma OutsideKeepsOrder(ms: seq<MapsInfo>, start: u64, end: u64)
    requires Sorted(ms)
    ensures Sorted(Outside(ms, start, end))
    ensures WellFormed(ms) ==> WellFormed(Outside(ms, start, end))
  {
    var a, b := UpperBound(ms, start - 1), UpperBound(ms, end - 1);
    if a <= b {
      CutKeepsOrder(ms, a, b);
    }
  }

  /** std::map::insert: a map whose start is already a key is dropped. */
  function InsertMap(ms: seq<MapsInfo>, m: MapsInfo): (r: seq<MapsInfo>)
    requires Sorted(ms)
    ensures Sorted(r)
  {
    var k := UpperBound(ms, m.start);
    if 0 < k && ms[k - 1].start == m.start then ms else
    SpliceSorted(ms, k, m);
    ms[..k] + [m] + ms[k..]
  }

  lemma SpliceSorted(ms: seq<MapsInfo>, k: nat, m: MapsInfo)
    requires Sorted(ms) && k <= |ms|
    requires forall i :: 0 <= i < k ==> ms[i].start < m.start
    requires forall i :: k <= i < |ms| ==> m.start < ms[i].start
    ensures Sorted(ms[..k] + [m] + ms[k..])
  {
    var r := ms[..k] + [m] + ms[k..];
    forall i, j | 0 <= i < j < |r| ensures r[i].start < r[j].start {
      assert i < k ==> r[i] == ms[i];
      assert k < i ==> r[i] == ms[i - 1];
      assert j < k ==> r[j] == ms[j];
      assert k < j ==> r[j] == ms[j - 1];
    }
  }

  /** The map table after a maps event. */
  function UpdateMaps(ms: seq<MapsInfo>, m: MapsInfo): (r: seq<MapsInfo>)
    requires Sorted(ms)
    ensures Sorted(r)
  {
    var range := ConflictRange(ms, m.start, m.end);
    OutsideKeepsOrder(ms, range.0, range.1);
    InsertMap(if Conflicting(range) then Outside(ms, range.0, range.1) else ms, m)
  }

  /** A well-formed table split around a map that overlaps none of it. */
  lemma SpliceWellFormed(ms: seq<MapsInfo>, k: nat, m: MapsInfo)
    requires WellFormed(ms) && k <= |ms| && m.start < m.end
    requires forall i :: 0 <= i < k ==> ms[i].end <= m.start
    requires forall i :: k <= i < |ms| ==> m.end <= ms[i].start
    ensures WellFormed(ms[..k] + [m] + ms[k..])
  {
    var after := ms[..k] + [m] + ms[k..];
    assert forall i :: 0 <= i < k ==> after[i] == ms[i];
    assert forall i :: k < i < |after| ==> after[i] == ms[i - 1];
  }

  /** Inserting a map that overlaps none keeps the table well formed. */
  lemma InsertWellFormed(ms: seq<MapsInfo>, m: MapsInfo)
    requires WellFormed(ms) && Sorted(ms) && m.start < m.end
    requires forall i :: 0 <= i < |ms| ==> !Overlaps(ms[i], m.start, m.end)
    ensures WellFormed(InsertMap(ms, m))
    ensures forall x :: x in InsertMap(ms, m) <==> x in ms || x == m
  {
    var k := UpperBound(ms, m.start);
    NoneOverlapSplits(ms, m, k);
    assert InsertMap(ms, m) == ms[..k] + [m] + ms[k..];
    hide WellFormed, Sorted, UpperBound, InsertMap, Overlaps;
    SpliceWellFormed(ms, k, m);
    forall x ensures x in InsertMap(ms, m) <==> x in ms || x == m {
      SplicedMembers(ms, k, m, x);
    }
  }

  /** Maps that do not overlap m lie before it or behind it. */
  lemma NoneOverlapSplits(ms: seq<MapsInfo>, m: MapsInfo, k: nat)
    requires WellFormed(ms) && m.start < m.end && k <= |ms|
    requires forall i :: 0 <= i < k ==> ms[i].start <= m.start
    requires forall i :: k <= i < |ms| ==> m.start < ms[i].start
    requires forall i :: 0 <= i < |ms| ==> !Overlaps(ms[i], m.start, m.end)
    ensures forall i :: 0 <= i < k ==> ms[i].end <= m.start && ms[i].start != m.start
    ensures forall i :: k <= i < |ms| ==> m.end <= ms[i].start
  {
    forall i | 0 <= i < |ms| ensures i < k ==> ms[i].end <= m.start && ms[i].start != m.start
                             ensures k <= i ==> m.end <= ms[i].start {
      assert !Overlaps(ms[i], m.start, m.end);
    }
  }

  lemma SplicedMembers(ms: seq<MapsInfo>, k: nat, m: MapsInfo, x: MapsInfo)
    requires k <= |ms|
    ensures x in ms[..k] + [m] + ms[k..] <==> x in ms || x == m
  {
    assert ms == ms[..k] + ms[k..];
  }

  /** A maps event with start < end keeps the stored maps pairwise disjoint, drops
      only maps of the invalidation range, and its final insert never collides with
      a key that is already there: the new map is always stored. */
  lemma MapsStayDisjoint(ms: seq<MapsInfo>, m: MapsInfo)
    requires WellFormed(ms) && Sorted(ms) && m.start < m.end
    ensures WellFormed(UpdateMaps(ms, m))
    ensures var range := ConflictRange(ms, m.start, m.end);
            forall x :: x in UpdateMaps(ms, m) <==>
              x == m || (x in ms && !(Conflicting(range) && range.0 <= x.start < range.1))
  {
    hide ConflictRange, Outside, InsertMap, WellFormed, Sorted, Overlaps;
    var range := ConflictRange(ms, m.start, m.end);
    var kept := if Conflicting(range) then Outside(ms, range.0, range.1) else ms;
    OutsideKeepsOrder(ms, range.0, range.1);
    forall x ensures x in kept <==> x in ms && !(Conflicting(range) && range.0 <= x.start < range.1) {
      OutsideMembers(ms, range.0, range.1, x);
    }
    forall i | 0 <= i < |kept| ensures !Overlaps(kept[i], m.start, m.end) {
      assert kept[i] in kept;
      if Overlaps(kept[i], m.start, m.end) {
        RangeCovers(ms, m.start, m.end, kept[i]);
      }
    }
    InsertWellFormed(kept, m);
  }
}
