/** Main events are resolved to up-to-date call chains: whenever one is handled, the frame
    rows of its chain are the fresh symbolization of its stack
    (trace_streamer/src/filter/native_hook_filter.cpp:517-624 and 653-685). */
module ChainFreshness {
  import opened Words
  import opened AddressMaps
  import opened Symbolization
  import opened ReorderBuffer
  import opened NativeHook
  import opened NativeHookTheorems
  import opened CacheCoherence

  /** The frame rows of one call chain. */
  function RowsFor(rows: seq<FrameRow>, chain: nat): (r: seq<FrameRow>) {
    if rows == [] then [] else
    var n := |rows| - 1;
    RowsFor(rows[..n], chain) + if rows[n].chain == chain then [rows[n]] else []
  }

  lemma {:induction false} RowsForConcat(a: seq<FrameRow>, b: seq<FrameRow>, chain: nat)
    ensures RowsFor(a + b, chain) == RowsFor(a, chain) + RowsFor(b, chain)
  {
    if b == [] {
      assert a + b == a;
    } else {
      var n := |b| - 1;
      assert (a + b)[..|a + b| - 1] == a + b[..n];
      RowsForConcat(a, b[..n], chain);
    }
  }

  lemma {:induction false} RowsForUniform(rows: seq<FrameRow>, c: nat, chain: nat)
    requires forall i :: 0 <= i < |rows| ==> rows[i].chain == c
    ensures RowsFor(rows, chain) == if c == chain then rows else []
  {
    if rows != [] {
      RowsForUniform(rows[..|rows| - 1], c, chain);
    }
  }

  lemma {:induction false} RowsForAbsent(rows: seq<FrameRow>, chain: nat)
    requires forall i :: 0 <= i < |rows| ==> rows[i].chain != chain
    ensures RowsFor(rows, chain) == []
  {
    if rows != [] {
      RowsForAbsent(rows[..|rows| - 1], chain);
    }
  }

  /** Ids name one stack, and chain ids are never reused. */
  ghost predicate Tidy(s: Hook) {
    && (forall x, y :: x in s.all && y in s.all && x.id == y.id ==> x == y)
    && (forall x :: x in s.pending || x in s.reparse ==> x in s.all)
    && (forall id :: id in s.chains ==> HasId(s.all, id) && s.chains[id] <= s.lastChain)
    && (forall i :: 0 <= i < |s.rows| ==> s.rows[i].chain <= s.lastChain)
  }

  ghost predicate ChainCurrent(s: Hook, st: Stack, chain: nat)
    requires Sorted(s.maps)
  {
    RowsFor(s.rows, chain) == RowsOf(chain, FreshFrames(s.maps, s.tables, st.ips))
  }

  /** If the stack has a chain, it holds the fresh symbolization of the stack. */
  ghost predicate FreshFor(s: Hook, st: Stack)
    requires Sorted(s.maps)
  {
    st in s.all && st.id in s.chains ==> ChainCurrent(s, st, s.chains[st.id])
  }

  /** Every chain in use holds the fresh symbolization of its stack. */
  ghost predicate Current(s: Hook)
    requires Sorted(s.maps)
  {
    forall st :: FreshFor(s, st)
  }

  ghost predicate Orderly(s: Hook) {
    Sound(s) && Tidy(s)
  }

  ghost predicate Good(s: Hook) {
    Orderly(s) && Current(s)
  }

  lemma FillTidy(s: Hook, st: Stack)
    requires Sorted(s.maps) && Tidy(s) && st in s.all
    ensures Tidy(Fill(s, st))
  {
    var k :| 0 <= k < |s.all| && s.all[k] == st;
    assert HasId(s.all, st.id);
  }

  /** Appending rows of a new chain adds them to that chain only. */
  lemma {:induction false} AppendedRows(rows: seq<FrameRow>, added: seq<FrameRow>, c: nat, chain: nat)
    requires forall i :: 0 <= i < |rows| ==> rows[i].chain < c
    requires forall i :: 0 <= i < |added| ==> added[i].chain == c
    ensures RowsFor(rows + added, chain) == if chain == c then added else RowsFor(rows, chain)
  {
    RowsForConcat(rows, added, chain);
    RowsForUniform(added, c, chain);
    if chain == c {
      RowsForAbsent(rows, c);
    }
  }

  lemma FillRows(s: Hook, st: Stack)
    requires Sorted(s.maps) && Coherent(s.maps, s.tables, s.cache)
    ensures Fill(s, st).rows == s.rows + RowsOf(s.lastChain + 1, FreshFrames(s.maps, s.tables, st.ips))
    ensures Coherent(s.maps, s.tables, Fill(s, st).cache)
  {
    SymbolizeStackIsFresh(s.maps, s.tables, s.cache, st.ips);
  }

  lemma FillOrderly(s: Hook, st: Stack)
    requires Orderly(s) && st in s.all
    ensures Orderly(Fill(s, st))
  {
    FillTidy(s, st);
    FillRows(s, st);
  }

  lemma FillShape(s: Hook, st: Stack)
    requires Sorted(s.maps)
    ensures var r := Fill(s, st);
            && r.maps == s.maps && r.tables == s.tables && r.all == s.all
            && (forall id :: id in s.chains ==> id in r.chains && r.chains[id] == s.chains[id])
            && (forall id :: id in r.chains && id !in s.chains ==> id == st.id && r.chains[id] == s.lastChain + 1)
  {
  }

  /** Parsing a stack opens a new chain with fresh rows and leaves the others alone. */
  lemma FillFresh(s: Hook, st: Stack, x: Stack)
    requires Orderly(s) && st in s.all
    ensures FreshFor(Fill(s, st), x) <==> FreshFor(s, x)
  {
    var r, c := Fill(s, st), s.lastChain + 1;
    FillRows(s, st);
    FillShape(s, st);
    assert forall i :: 0 <= i < |s.rows| ==> s.rows[i].chain < c;
    if x in s.all && x.id in r.chains {
      assert x.id !in s.chains ==> x == st;
      assert x.id in s.chains ==> s.chains[x.id] <= s.lastChain;
      hide Fill, FreshFrames, RowsFor, HasId, Orderly;
      AppendedRows(s.rows, RowsOf(c, FreshFrames(s.maps, s.tables, st.ips)), c, r.chains[x.id]);
    }
  }

  lemma {:induction false} FillAllOrderly(s: Hook, stacks: seq<Stack>)
    requires Orderly(s) && forall x :: x in stacks ==> x in s.all
    ensures Orderly(FillAll(s, stacks)) && FillAll(s, stacks).all == s.all
  {
    if stacks != [] {
      var n := |stacks| - 1;
      FillAllOrderly(s, stacks[..n]);
      assert stacks[n] in stacks;
      FillOrderly(FillAll(s, stacks[..n]), stacks[n]);
    }
  }

  lemma {:induction false} FillAllFresh(s: Hook, stacks: seq<Stack>, x: Stack)
    requires Orderly(s) && forall x :: x in stacks ==> x in s.all
    ensures FreshFor(FillAll(s, stacks), x) <==> FreshFor(s, x)
  {
    assert Sorted(s.maps);
    hide Orderly, FreshFor, Fill, Sorted;
    if stacks != [] {
      var n := |stacks| - 1;
      FillAllFresh(s, stacks[..n], x);
      FillAllOrderly(s, stacks[..n]);
      assert stacks[n] in stacks;
      FillFresh(FillAll(s, stacks[..n]), stacks[n], x);
    }
  }

  lemma QueuesFresh(s: Hook, r: Hook, x: Stack)
    requires Orderly(s) && r == s.(pending := r.pending, reparse := r.reparse, waiting := r.waiting, handled := r.handled)
    requires forall x :: x in r.pending || x in r.reparse ==> x in r.all
    ensures Orderly(r) && (FreshFor(r, x) <==> FreshFor(s, x))
  {
  }

  /** Parsing what waits keeps every stack as fresh, or as stale, as it is. */
  lemma ParsingFresh(s: Hook, x: Stack)
    requires Orderly(s)
    ensures Orderly(ParsePending(s)) && Orderly(ParseAgain(ParsePending(s)))
    ensures FreshFor(ParsePending(s), x) <==> FreshFor(s, x)
    ensures FreshFor(ParseAgain(ParsePending(s)), x) <==> FreshFor(s, x)
  {
    assert Tidy(s);
    FillAllEffect(s, s.pending);
    var p := ParsePending(s);
    FillAllEffect(p, p.reparse);
    hide Orderly, FreshFor, FillAll;
    FillAllOrderly(s, s.pending);
    FillAllFresh(s, s.pending, x);
    QueuesFresh(FillAll(s, s.pending), p, x);
    FillAllOrderly(p, p.reparse);
    FillAllFresh(p, p.reparse, x);
    QueuesFresh(FillAll(p, p.reparse), ParseAgain(p), x);
  }

  /** Entry i is of the stack, and was handled with a chain that holds the stack's fresh frames. */
  ghost predicate ResolvedFresh(s: Hook, r: Hook, i: nat, st: Stack)
    requires Sorted(s.maps) && i < |r.handled|
  {
    var h := r.handled[i];
    h.chain.Some? && RowsFor(r.rows, h.chain.value) == RowsOf(h.chain.value, FreshFrames(s.maps, s.tables, st.ips))
  }

  /** What a step handles of the stack is fresh if and only if the stack was. */
  ghost predicate NewlyFreshIff(s: Hook, r: Hook, st: Stack)
    requires Sorted(s.maps)
  {
    forall i :: |s.handled| <= i < |r.handled| && r.handled[i].event.stackId == st.id != 0 ==>
      r.handled[i].chain.Some? && (ResolvedFresh(s, r, i, st) <==> FreshFor(s, st))
  }

  /** Handling events when every registered stack has a chain. */
  lemma FilterFresh(s: Hook, a: Hook, num: nat, st: Stack)
    requires Sorted(s.maps) && num <= |a.waiting| && st in s.all
    requires a.maps == s.maps && a.tables == s.tables && a.all == s.all && a.handled == s.handled
    requires AllChained(a) && (FreshFor(a, st) <==> FreshFor(s, st))
    ensures NewlyFreshIff(s, Filter(a, num), st)
  {
    var k :| 0 <= k < |a.all| && a.all[k] == st;
    assert HasId(a.all, st.id);
  }

  lemma FilterSame(a: Hook, num: nat, x: Stack)
    requires Orderly(a) && num <= |a.waiting|
    ensures Orderly(Filter(a, num)) && (FreshFor(Filter(a, num), x) <==> FreshFor(a, x))
  {
    QueuesFresh(a, Filter(a, num), x);
  }

  lemma BothParsedFresh(s: Hook, num: nat, st: Stack)
    requires Orderly(s) && StacksTracked(s) && num <= |s.waiting|
    ensures var a := ParseAgain(ParsePending(s));
            && a.waiting == s.waiting
            && Orderly(Filter(a, num)) && (FreshFor(Filter(a, num), st) <==> FreshFor(s, st))
            && (st in s.all ==> NewlyFreshIff(s, Filter(a, num), st))
  {
    var a := ParseAgain(ParsePending(s));
    BothParsed(s);
    hide Orderly, FreshFor, Filter, StacksTracked, ParseAgain, ParsePending, NewlyFreshIff;
    ParsingFresh(s, st);
    FilterSame(a, num, st);
    if st in s.all {
      FilterFresh(s, a, num, st);
    }
  }

  lemma FlushFresh(s: Hook, st: Stack)
    requires Orderly(s) && StacksTracked(s)
    ensures var f := Flush(s);
            && Orderly(f) && f.all == s.all && f.tables == s.tables
            && (FreshFor(f, st) <==> FreshFor(s, st))
            && (st in s.all ==> NewlyFreshIff(s, f, st))
  {
    PendingParsed(s);
    BothParsed(s);
    hide Orderly, FreshFor, StacksTracked, ParseAgain, ParsePending;
    ParsingFresh(s, st);
    BothParsedFresh(s, |s.waiting|, st);
  }

  lemma {:induction false} MarkTidy(s: Hook, n: nat, start: u64, end: u64)
    requires Tidy(s) && n <= |s.all|
    ensures Tidy(MarkFirst(s, n, start, end))
  {
    if n > 0 {
      MarkTidy(s, n - 1, start, end);
      assert s.all[n - 1] in s.all;
    }
  }

  /** Marking drops the chains of all stacks that have an ip in the range, and changes no other. */
  lemma {:induction false} MarkKeys(s: Hook, n: nat, start: u64, end: u64, id: u32)
    requires n <= |s.all|
    ensures var r := MarkFirst(s, n, start, end);
            && (id in r.chains <==>
                id in s.chains && forall i :: 0 <= i < n && s.all[i].id == id ==> !Hits(s.all[i].ips, start, end))
            && (id in r.chains ==> r.chains[id] == s.chains[id])
  {
    if n > 0 {
      MarkKeys(s, n - 1, start, end, id);
    }
  }

  /** No ip lies in [start, end). */
  predicate Clear(ips: seq<u64>, start: u64, end: u64) {
    forall i :: 0 <= i < |ips| ==> ips[i] < start || end <= ips[i]
  }

  lemma MarkEffect(s: Hook, start: u64, end: u64, st: Stack)
    requires Tidy(s) && st in s.all
    ensures var r := Mark(s, start, end);
            && (st.id in r.chains <==> st.id in s.chains && Clear(st.ips, start, end))
            && (st.id in r.chains ==> r.chains[st.id] == s.chains[st.id])
  {
    MarkKeys(s, |s.all|, start, end, st.id);
    var k :| 0 <= k < |s.all| && s.all[k] == st;
    hide MarkFirst;
    assert Hits(st.ips, start, end) <==> !Clear(st.ips, start, end);
    assert forall i :: 0 <= i < |s.all| && s.all[i].id == st.id ==> s.all[i] == st;
  }

  lemma SameRowsFresh(s: Hook, f: Hook, r: Hook, st: Stack)
    requires Sorted(s.maps) && NewlyFreshIff(s, f, st) && r.handled == f.handled && r.rows == f.rows
    ensures NewlyFreshIff(s, r, st)
  {
    forall i | |s.handled| <= i < |r.handled| && r.handled[i].event.stackId == st.id != 0
      ensures ResolvedFresh(s, r, i, st) <==> ResolvedFresh(s, f, i, st)
    {
    }
  }

  lemma OnStackTidy(s: Hook, st: Stack)
    requires Tidy(s) && !HasId(s.all, st.id)
    ensures Tidy(OnStack(s, st))
    ensures forall x :: x in OnStack(s, st).all <==> x in s.all || x == st
  {
    var r := OnStack(s, st);
    forall id ensures HasId(r.all, id) <==> HasId(s.all, id) || id == st.id {
      EmplaceIds(s.all, st, id);
    }
    EmplaceKeeps(s.all, st);
    forall x | x in s.all ensures x.id != st.id {
      var k :| 0 <= k < |s.all| && s.all[k] == x;
    }
  }

  lemma OnStackFresh(s: Hook, st: Stack, x: Stack)
    requires Orderly(s) && !HasId(s.all, st.id) && FreshFor(s, x)
    ensures Orderly(OnStack(s, st)) && FreshFor(OnStack(s, st), x) && OnStack(s, st).handled == s.handled
  {
    OnStackTidy(s, st);
  }

  lemma {:induction false} EmplaceKeeps(stacks: seq<Stack>, st: Stack)
    requires !HasId(stacks, st.id)
    ensures forall x :: x in Emplace(stacks, st) <==> x in stacks || x == st
  {
    if stacks != [] {
      var n := |stacks| - 1;
      assert stacks == stacks[..n] + [stacks[n]];
      HasIdAppend(stacks[..n], stacks[n], st.id);
      EmplaceKeeps(stacks[..n], st);
    }
  }

  lemma NoneHandled(s: Hook, r: Hook, st: Stack)
    requires Sorted(s.maps) && |r.handled| <= |s.handled|
    ensures NewlyFreshIff(s, r, st)
  {
  }

  lemma QueueingSame(s: Hook, waiting: seq<MainEvent>, st: Stack)
    requires Orderly(s) && StacksTracked(s)
    ensures var w := s.(waiting := waiting);
            Orderly(w) && StacksTracked(w) && (FreshFor(w, st) <==> FreshFor(s, st)) && Sorted(s.maps)
  {
  }

  /** A state that differs only in what waits. */
  lemma RequeuedFresh(s: Hook, w: Hook, r: Hook, st: Stack)
    requires Sorted(s.maps) && w == s.(waiting := w.waiting) && NewlyFreshIff(w, r, st)
    ensures NewlyFreshIff(s, r, st)
  {
    forall i | |s.handled| <= i < |r.handled| && r.handled[i].event.stackId == st.id != 0
      ensures ResolvedFresh(s, r, i, st) <==> ResolvedFresh(w, r, i, st)
    {
    }
  }

  lemma ArrivalFresh(s: Hook, e: MainEvent, cap: nat, st: Stack)
    requires Orderly(s) && StacksTracked(s)
    ensures var r := OnArrival(s, e, cap);
            && Orderly(r) && (FreshFor(r, st) <==> FreshFor(s, st))
            && (st in s.all ==> NewlyFreshIff(s, r, st))
  {
    hide *;
    var w := s.(waiting := Insert(s.waiting, e));
    QueueingSame(s, w.waiting, st);
    ArrivalIs(s, e, cap);
    var r := OnArrival(s, e, cap);
    if |w.waiting| > cap {
      OverflowFresh(s, w, r, cap, st);
    } else {
      NoneHandled(s, r, st);
    }
  }

  lemma {:induction false} ArrivalIs(s: Hook, e: MainEvent, cap: nat)
    requires Sorted(s.maps)
    ensures var w := s.(waiting := Insert(s.waiting, e));
            var a := ParseAgain(ParsePending(w));
            && (|w.waiting| <= cap ==> OnArrival(s, e, cap) == w)
            && (|w.waiting| > cap && |a.waiting| > cap ==> OnArrival(s, e, cap) == Filter(a, |a.waiting| - cap))
  {
    hide Insert, ParseAgain, ParsePending, Filter, Sorted;
  }

  lemma OverflowFresh(s: Hook, w: Hook, r: Hook, cap: nat, st: Stack)
    requires Sorted(s.maps) && w == s.(waiting := w.waiting) && |w.waiting| > cap
    requires Orderly(w) && StacksTracked(w)
    requires var a := ParseAgain(ParsePending(w));
             |a.waiting| > cap ==> r == Filter(a, |a.waiting| - cap)
    ensures Orderly(r) && (FreshFor(r, st) <==> FreshFor(w, st))
    ensures st in s.all ==> NewlyFreshIff(s, r, st)
  {
    hide *;
    BothParsedFresh(w, |w.waiting| - cap, st);
    if st in s.all {
      RequeuedFresh(s, w, r, st);
    }
  }

  lemma FinishFresh(s: Hook, st: Stack)
    requires Orderly(s) && StacksTracked(s)
    ensures var r := OnFinish(s);
            && Orderly(r) && (FreshFor(r, st) <==> FreshFor(s, st))
            && (st in s.all ==> NewlyFreshIff(s, r, st))
  {
    BothParsedFresh(s, |s.waiting|, st);
  }
}
