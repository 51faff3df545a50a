/** The bounded buffer that puts native-hook main events back into time order
    (trace_streamer/src/filter/native_hook_filter.cpp:421-461 and 848-858,
    MAX_CACHE_SIZE at trace_streamer/src/filter/native_hook_filter.h:161).

    The std::multimap keyed by timestamp is a sequence ordered by timestamp in which
    equal timestamps keep their arrival order. */
module ReorderBuffer {
  import opened Words

  const MAX_CACHE_SIZE: nat := 200000

  /** What a main event reports; mappings, tags and statistics are not told apart. */
  datatype Body = AllocBody(addr: u64, size: u32) | FreeBody(addr: u64) | OtherBody

  /** `arrival` numbers the events of a stream; it is what "exactly once" and "stable"
      speak of. Stack id 0 means that the event has no call stack. */
  datatype MainEvent = MainEvent(ts: u64, arrival: nat, stackId: u32, body: Body)

  datatype Buffer = Buffer(handled: seq<MainEvent>, waiting: seq<MainEvent>) {
    /** The order in which everything is handled once the stream has ended. */
    function Output(): (r: seq<MainEvent>) {
      handled + waiting
    }
  }

  predicate TimeSorted(s: seq<MainEvent>) {
    forall i, j :: 0 <= i < j < |s| ==> s[i].ts <= s[j].ts
  }

  predicate Before(a: MainEvent, b: MainEvent) {
    a.ts < b.ts || (a.ts == b.ts && a.arrival < b.arrival)
  }

  predicate StablySorted(s: seq<MainEvent>) {
    forall i, j :: 0 <= i < j < |s| ==> Before(s[i], s[j])
  }

  predicate Numbered(s: seq<MainEvent>) {
    forall i, j :: 0 <= i < j < |s| ==> s[i].arrival < s[j].arrival
  }

  /** `out` holds the events of `s`, each exactly once, in stable timestamp order. */
  predicate IsStableSortOf(out: seq<MainEvent>, s: seq<MainEvent>) {
    multiset(out) == multiset(s) && StablySorted(out)
  }

  /** std::multimap::insert: behind every entry that is not later. */
  function Insert(s: seq<MainEvent>, e: MainEvent): (r: seq<MainEvent>)
    ensures |r| == |s| + 1
  {
    if s == [] || s[|s| - 1].ts <= e.ts then s + [e]
    else Insert(s[..|s| - 1], e) + [s[|s| - 1]]
  }

  function Arrive(b: Buffer, e: MainEvent, cap: nat): (r: Buffer) {
    var waiting := Insert(b.waiting, e);
    if |waiting| > cap then
      Buffer(b.handled + waiting[..|waiting| - cap], waiting[|waiting| - cap..])
    else
      Buffer(b.handled, waiting)
  }

  /** A stream of main events with no flush forced from outside. */
  function Feed(s: seq<MainEvent>, cap: nat): (r: Buffer) {
    if s == [] then Buffer([], []) else Arrive(Feed(s[..|s| - 1], cap), s[|s| - 1], cap)
  }

  /** How many entries are later than ts. */
  function Later(s: seq<MainEvent>, ts: u64): (n: nat)
    ensures n <= |s|
  {
    if s == [] then 0 else Later(s[..|s| - 1], ts) + if s[|s| - 1].ts > ts then 1 else 0
  }

  /** Every event is preceded in arrival by at most `cap` later ones. */
  predicate BoundedDisorder(s: seq<MainEvent>, cap: nat) {
    forall i :: 0 <= i < |s| ==> Later(s[..i], s[i].ts) <= cap
  }

  lemma {:induction false} LaterConcat(s: seq<MainEvent>, t: seq<MainEvent>, ts: u64)
    ensures Later(s + t, ts) == Later(s, ts) + Later(t, ts)
  {
    if t == [] {
      assert s + t == s;
    } else {
      var n := |t| - 1;
      assert (s + t)[..|s + t| - 1] == s + t[..n];
      LaterConcat(s, t[..n], ts);
    }
  }

  lemma {:induction false} LaterExists(s: seq<MainEvent>, ts: u64)
    ensures Later(s, ts) > 0 <==> exists i :: 0 <= i < |s| && s[i].ts > ts
  {
    if s != [] {
      var n := |s| - 1;
      LaterExists(s[..n], ts);
      if i :| 0 <= i < |s| && s[i].ts > ts {
        assert i < n ==> s[..n][i].ts > ts;
      }
      if i :| 0 <= i < n && s[..n][i].ts > ts {
        assert s[i].ts > ts;
      }
    }
  }

  lemma {:induction false} InsertIsPermutation(s: seq<MainEvent>, e: MainEvent)
    ensures multiset(Insert(s, e)) == multiset(s) + multiset{e}
  {
    if s != [] && s[|s| - 1].ts > e.ts {
      var n := |s| - 1;
      InsertIsPermutation(s[..n], e);
      assert s == s[..n] + [s[n]];
    }
  }

  lemma {:induction false} LaterInsert(s: seq<MainEvent>, e: MainEvent, ts: u64)
    ensures Later(Insert(s, e), ts) == Later(s, ts) + if e.ts > ts then 1 else 0
  {
    if s != [] && s[|s| - 1].ts > e.ts {
      LaterInsert(s[..|s| - 1], e, ts);
    }
  }

  /** Handing over the front of the buffer does not change the order of the whole. */
  lemma {:induction false} ArriveOutput(b: Buffer, e: MainEvent, cap: nat)
    ensures Arrive(b, e, cap).Output() == b.handled + Insert(b.waiting, e)
  {
    var w := Insert(b.waiting, e);
    if |w| > cap {
      var k := |w| - cap;
      assert (b.handled + w[..k]) + w[k..] == b.handled + w;
    }
  }

  lemma {:induction false} WaitingIsBounded(s: seq<MainEvent>, cap: nat)
    ensures |Feed(s, cap).waiting| == if |s| <= cap then |s| else cap
    ensures |Feed(s, cap).handled| + |Feed(s, cap).waiting| == |s|
  {
    if s != [] {
      WaitingIsBounded(s[..|s| - 1], cap);
    }
  }

  lemma ArriveConserves(b: Buffer, e: MainEvent, cap: nat)
    ensures multiset(Arrive(b, e, cap).Output()) == multiset(b.Output()) + multiset{e}
  {
    ArriveOutput(b, e, cap);
    InsertIsPermutation(b.waiting, e);
  }

  /** Whatever the timestamps, nothing is lost or duplicated. */
  lemma {:induction false} RunConserves(s: seq<MainEvent>, cap: nat)
    ensures multiset(Feed(s, cap).Output()) == multiset(s)
  {
    if s != [] {
      var n := |s| - 1;
      RunConserves(s[..n], cap);
      hide Arrive;
      ArriveConserves(Feed(s[..n], cap), s[n], cap);
      SplitLast(s);
    }
  }

  lemma SplitLast(s: seq<MainEvent>)
    requires s != []
    ensures multiset(s) == multiset(s[..|s| - 1]) + multiset{s[|s| - 1]}
  {
    assert s == s[..|s| - 1] + [s[|s| - 1]];
  }

  lemma {:induction false} LaterInOutput(s: seq<MainEvent>, cap: nat, ts: u64)
    ensures Later(Feed(s, cap).Output(), ts) == Later(s, ts)
  {
    if s != [] {
      var n := |s| - 1;
      var prev := Feed(s[..n], cap);
      LaterInOutput(s[..n], cap, ts);
      ArriveOutput(prev, s[n], cap);
      LaterInsert(prev.waiting, s[n], ts);
      LaterConcat(prev.handled, prev.waiting, ts);
      LaterConcat(prev.handled, Insert(prev.waiting, s[n]), ts);
    }
  }

  /** Inserting into a sorted sequence touches only its tail of `w` when at most that many
      entries are later. */
  lemma {:induction false} InsertIntoTail(h: seq<MainEvent>, w: seq<MainEvent>, e: MainEvent)
    requires TimeSorted(h + w) && Later(h + w, e.ts) <= |w|
    ensures Insert(h + w, e) == h + Insert(w, e)
  {
    var s := h + w;
    if w == [] {
      LaterExists(s, e.ts);
      assert s == h;
    } else {
      var n := |w| - 1;
      assert s[|s| - 1] == w[n];
      if w[n].ts <= e.ts {
        assert s + [e] == h + (w + [e]);
      } else {
        assert s[..|s| - 1] == h + w[..n];
        assert TimeSorted(h + w[..n]) && Later(h + w[..n], e.ts) <= n;
        hide TimeSorted, Later;
        InsertIntoTail(h, w[..n], e);
        Shift(h, Insert(w[..n], e), w[n]);
      }
    }
  }

  lemma Shift(a: seq<MainEvent>, b: seq<MainEvent>, e: MainEvent)
    ensures a + b + [e] == a + (b + [e])
  {
  }

  /** The reference: insertion sort of the whole stream. */
  function Sort(s: seq<MainEvent>): (r: seq<MainEvent>) {
    if s == [] then [] else Insert(Sort(s[..|s| - 1]), s[|s| - 1])
  }

  lemma {:induction false} InsertStable(s: seq<MainEvent>, e: MainEvent)
    requires StablySorted(s) && forall i :: 0 <= i < |s| ==> s[i].arrival < e.arrival
    ensures StablySorted(Insert(s, e))
  {
    if s != [] && s[|s| - 1].ts > e.ts {
      var n := |s| - 1;
      InsertStable(s[..n], e);
      InsertIsPermutation(s[..n], e);
      var r := Insert(s[..n], e);
      forall i | 0 <= i < |r| ensures Before(r[i], s[n]) {
        assert r[i] in multiset(r);
        assert r[i] == e || r[i] in s[..n];
      }
    }
  }

  lemma {:induction false} SortIsStableSort(s: seq<MainEvent>)
    requires Numbered(s)
    ensures IsStableSortOf(Sort(s), s)
  {
    if s != [] {
      var n := |s| - 1;
      SortIsStableSort(s[..n]);
      var r := Sort(s[..n]);
      forall i | 0 <= i < |r| ensures r[i].arrival < s[n].arrival {
        assert r[i] in multiset(s[..n]);
      }
      InsertStable(r, s[n]);
      InsertIsPermutation(r, s[n]);
      assert s == s[..n] + [s[n]];
    }
  }

  lemma StablySortedIsTimeSorted(s: seq<MainEvent>)
    requires StablySorted(s)
    ensures TimeSorted(s)
  {
    forall i, j | 0 <= i < j < |s| ensures s[i].ts <= s[j].ts {
      assert Before(s[i], s[j]);
    }
  }

  lemma {:induction false} BoundedRunSorts(s: seq<MainEvent>, cap: nat)
    requires Numbered(s) && BoundedDisorder(s, cap)
    ensures Feed(s, cap).Output() == Sort(s)
  {
    if s != [] {
      var n := |s| - 1;
      var prev, e := Feed(s[..n], cap), s[n];
      PrefixBounded(s, cap);
      hide Numbered, BoundedDisorder, Arrive, Later, Insert, TimeSorted, StablySorted, IsStableSortOf;
      BoundedRunSorts(s[..n], cap);
      SortIsStableSort(s[..n]);
      StablySortedIsTimeSorted(Sort(s[..n]));
      WaitingIsBounded(s[..n], cap);
      LaterInOutput(s[..n], cap, e.ts);
      InsertIntoTail(prev.handled, prev.waiting, e);
      ArriveOutput(prev, e, cap);
    }
  }

  /** What has been handled stays in front. */
  lemma {:induction false} PrefixBounded(s: seq<MainEvent>, cap: nat)
    requires Numbered(s) && BoundedDisorder(s, cap) && s != []
    ensures var n := |s| - 1;
            Numbered(s[..n]) && BoundedDisorder(s[..n], cap) && Later(s[..n], s[n].ts) <= cap
  {
    hide Later;
    var n := |s| - 1;
    forall i | 0 <= i < n ensures Later(s[..n][..i], s[..n][i].ts) <= cap {
      assert s[..n][..i] == s[..i];
      assert Later(s[..i], s[i].ts) <= cap;
    }
    assert Later(s[..n], s[n].ts) <= cap;
  }

  lemma {:induction false} HandledIsPrefix(s: seq<MainEvent>, k: nat, cap: nat)
    requires k <= |s|
    ensures Feed(s[..k], cap).handled <= Feed(s, cap).handled
  {
    if k < |s| {
      HandledIsPrefix(s[..|s| - 1], k, cap);
      assert s[..|s| - 1][..k] == s[..k];
    } else {
      assert s[..k] == s;
    }
  }

  lemma CountAfter(s: seq<MainEvent>, i: nat, e: MainEvent)
    requires i < |s| && s[i] == e
    ensures multiset(s)[e] > multiset(s[..i])[e]
  {
    assert s == s[..i] + s[i..];
    assert e in s[i..];
  }

  /** The event that arrives at position i is handled behind everything handled before. */
  lemma HandledLater(s: seq<MainEvent>, i: nat, cap: nat) returns (x: nat)
    requires i < |s|
    ensures Feed(s[..i], cap).handled <= Feed(s, cap).Output()
    ensures |Feed(s[..i], cap).handled| <= x < |Feed(s, cap).Output()|
    ensures Feed(s, cap).Output()[x] == s[i]
  {
    hide Feed;
    var b, out := Feed(s[..i], cap), Feed(s, cap).Output();
    RunConserves(s[..i], cap);
    RunConserves(s, cap);
    HandledIsPrefix(s, i, cap);
    CountAfter(s, i, s[i]);
    assert multiset(b.Output())[s[i]] == multiset(b.handled)[s[i]] + multiset(b.waiting)[s[i]];
    var y := FoundBehind(out, b.handled, s[i]);
    x := |b.handled| + y;
  }

  /** What occurs more often in a sequence than in a prefix occurs behind it. */
  lemma FoundBehind(out: seq<MainEvent>, prefix: seq<MainEvent>, e: MainEvent) returns (y: nat)
    requires prefix <= out && multiset(prefix)[e] < multiset(out)[e]
    ensures |prefix| + y < |out| && out[|prefix| + y] == e
  {
    var rest := out[|prefix|..];
    assert out == prefix + rest;
    assert multiset(out)[e] == multiset(prefix)[e] + multiset(rest)[e];
    assert e in multiset(rest);
    y :| 0 <= y < |rest| && rest[y] == e;
  }

  /** An event that arrives behind more than `cap` later ones finds one of them handled. */
  lemma {:induction false} OverflowMisorders(s: seq<MainEvent>, i: nat, cap: nat)
    requires i < |s| && Later(s[..i], s[i].ts) > cap
    ensures !TimeSorted(Feed(s, cap).Output())
  {
    var b := Feed(s[..i], cap);
    LaterInOutput(s[..i], cap, s[i].ts);
    WaitingIsBounded(s[..i], cap);
    LaterConcat(b.handled, b.waiting, s[i].ts);
    LaterExists(b.handled, s[i].ts);
    var y :| 0 <= y < |b.handled| && b.handled[y].ts > s[i].ts;
    var x := HandledLater(s, i, cap);
    assert Feed(s, cap).Output()[y].ts > Feed(s, cap).Output()[x].ts;
  }

  /** The buffer sorts a stream, stably, exactly when the disorder of the stream is bounded
      by its capacity. */
  lemma {:induction false} BufferSortsIff(s: seq<MainEvent>, cap: nat)
    requires Numbered(s)
    ensures IsStableSortOf(Feed(s, cap).Output(), s) <==> BoundedDisorder(s, cap)
  {
    if BoundedDisorder(s, cap) {
      BoundedRunSorts(s, cap);
      SortIsStableSort(s);
    } else {
      var i :| 0 <= i < |s| && Later(s[..i], s[i].ts) > cap;
      OverflowMisorders(s, i, cap);
      if StablySorted(Feed(s, cap).Output()) {
        StablySortedIsTimeSorted(Feed(s, cap).Output());
      }
    }
  }

  /** One early event behind cap + 1 later ones. */
  function Straggler(cap: nat): (s: seq<MainEvent>) {
    Row(cap + 1) + [MainEvent(0, cap + 1, 0, OtherBody)]
  }

  /** The events 0 .. n-1, all at time 1. */
  function Row(n: nat): (s: seq<MainEvent>)
    ensures |s| == n && forall i :: 0 <= i < n ==> s[i] == MainEvent(1, i, 0, OtherBody)
  {
    seq(n, i requires 0 <= i < n => MainEvent(1, i, 0, OtherBody))
  }

  lemma {:induction false} AllLater(s: seq<MainEvent>, ts: u64)
    requires forall i :: 0 <= i < |s| ==> s[i].ts > ts
    ensures Later(s, ts) == |s|
  {
    if s != [] {
      AllLater(s[..|s| - 1], ts);
    }
  }

  /** Whatever the capacity, one event more is handled out of order. */
  lemma {:induction false} StragglerMisordered(cap: nat)
    ensures Numbered(Straggler(cap)) && !IsStableSortOf(Feed(Straggler(cap), cap).Output(), Straggler(cap))
  {
    var s, n := Straggler(cap), cap + 1;
    AllLater(s[..n], 0);
    assert Later(s[..n], s[n].ts) > cap;
    BufferSortsIff(s, cap);
  }
}
