/** What every operation of the process filter keeps, and what repeated calls return. */
module ProcessIdentity {
  import opened Words
  import opened ProcessFilter

  /** Threads of one tid differ in their process, so at most one is unbound and at most one is
      bound to each pid; pids and internal pids are in bijection. */
  ghost predicate Distinct(w: World) {
    && Formed(w)
    && (forall i, j :: 0 <= i < j < |w.threads| && w.threads[i].tid == w.threads[j].tid ==>
          w.threads[i].ipid != w.threads[j].ipid)
    && (forall p :: p in w.pids ==> w.processes[w.pids[p]].pid == p)
    && (forall x :: 0 <= x < |w.processes| ==> w.processes[x].pid in w.pids && w.pids[w.processes[x].pid] == x)
  }

  ghost predicate IsMain(w: World, i: nat, pid: u32) {
    i < |w.threads| && pid in w.pids && w.threads[i].tid == pid && w.threads[i].ipid == Some(w.pids[pid])
  }

  ghost predicate HasMain(w: World, pid: u32) {
    exists i: nat :: IsMain(w, i, pid)
  }

  /** Every registered pid has a main thread. */
  ghost predicate Manned(w: World) {
    forall p :: p in w.pids ==> HasMain(w, p)
  }

  /** A process keeps its pid and, once it has one, its start time. */
  predicate SameProcess(p: Process, q: Process) {
    q.pid == p.pid && (p.startT != 0 ==> q.startT == p.startT)
  }

  /** Nothing is forgotten: threads keep their tid and, once bound, their process. */
  ghost predicate Extends(w: World, r: World) {
    && |w.threads| <= |r.threads| && |w.processes| <= |r.processes|
    && (forall i :: 0 <= i < |w.threads| ==> r.threads[i].tid == w.threads[i].tid)
    && (forall i :: 0 <= i < |w.threads| && w.threads[i].ipid.Some? ==> r.threads[i].ipid == w.threads[i].ipid)
    && (forall x :: 0 <= x < |w.processes| ==> SameProcess(w.processes[x], r.processes[x]))
    && (forall p :: p in w.pids ==> p in r.pids && r.pids[p] == w.pids[p])
  }

  /** The world except for names and start times. */
  ghost predicate SameBindings(w: World, r: World) {
    && |w.threads| == |r.threads| && |w.processes| == |r.processes| && r.pids == w.pids
    && (forall i :: 0 <= i < |w.threads| ==> r.threads[i].tid == w.threads[i].tid && r.threads[i].ipid == w.threads[i].ipid)
    && (forall x :: 0 <= x < |w.processes| ==> SameProcess(w.processes[x], r.processes[x]))
  }

  lemma SameKeeps(w: World, r: World)
    requires Distinct(w) && SameBindings(w, r)
    ensures Distinct(r) && Extends(w, r)
    ensures Manned(w) ==> Manned(r)
  {
    if Manned(w) {
      forall p | p in r.pids ensures HasMain(r, p) {
        assert HasMain(w, p);
        var i: nat :| IsMain(w, i, p);
        assert IsMain(r, i, p);
      }
    }
  }

  lemma ExtendsReflexive(w: World)
    ensures Extends(w, w)
  {
  }

  lemma ExtendsTransitive(a: World, b: World, c: World)
    requires Extends(a, b) && Extends(b, c)
    ensures Extends(a, c)
  {
  }

  /** A new pid with its main thread is all a larger world needs. */
  lemma ExtendsManned(w: World, r: World, pid: u32)
    requires Manned(w) && Extends(w, r) && HasMain(r, pid)
    requires forall p :: p in r.pids ==> p in w.pids || p == pid
    ensures Manned(r)
  {
    forall p | p in r.pids ensures HasMain(r, p) {
      if p != pid {
        assert HasMain(w, p);
        var i: nat :| IsMain(w, i, p);
        assert IsMain(r, i, p);
      }
    }
  }

  // ---------------------------------------------------------------------------
  // The elementary changes
  // ---------------------------------------------------------------------------

  /** A new thread keeps bindings distinct if its tid has no unbound thread. */
  lemma NewThreadDistinct(w: World, tid: u32)
    requires Distinct(w) && forall i :: 0 <= i < |w.threads| && w.threads[i].tid == tid ==> w.threads[i].ipid.Some?
    ensures Distinct(NewThread(w, tid)) && Extends(w, NewThread(w, tid))
  {
  }

  lemma NewProcessDistinct(w: World, pid: u32)
    requires Distinct(w) && pid !in w.pids
    ensures Distinct(NewProcess(w, pid)) && Extends(w, NewProcess(w, pid))
  {
  }

  /** Binding an unbound thread is safe when no other thread of its tid has that process. */
  lemma BindDistinct(w: World, itid: nat, ipid: nat)
    requires Distinct(w) && itid < |w.threads| && ipid < |w.processes|
    requires w.threads[itid].ipid.None? || w.threads[itid].ipid == Some(ipid)
    requires forall i :: 0 <= i < |w.threads| && i != itid && w.threads[i].tid == w.threads[itid].tid ==>
               w.threads[i].ipid != Some(ipid)
    ensures Distinct(Bind(w, itid, ipid)) && Extends(w, Bind(w, itid, ipid))
  {
  }

  lemma BeginSame(w: World, ipid: nat, startT: u64)
    requires ipid < |w.processes|
    ensures SameBindings(w, Begin(w, ipid, startT)) && Begin(w, ipid, startT).threads == w.threads
  {
  }

  /** Being bound to a pid, in terms of the registered process. */
  lemma BoundIsRegistered(w: World, i: nat, pid: u32)
    requires Distinct(w) && i < |w.threads|
    ensures BoundTo(w, i, pid) <==> pid in w.pids && w.threads[i].ipid == Some(w.pids[pid])
  {
  }

  // ---------------------------------------------------------------------------
  // Get or create
  // ---------------------------------------------------------------------------

  /** The thread GetOrCreate starts from: the one bound to pid, else the unbound one, else a new
      one. */
  function Chosen(w: World, tid: u32, pid: u32): (r: (World, nat))
    requires Formed(w)
    ensures Formed(r.0) && r.1 < |r.0.threads|
  {
    var found := Lookup(w, tid, pid);
    if found.Some? then (w, found.value) else (NewThread(w, tid), |w.threads|)
  }

  lemma ChosenEffect(w: World, tid: u32, pid: u32)
    requires Distinct(w)
    ensures var (r, x) := Chosen(w, tid, pid);
            && Distinct(r) && Extends(w, r) && r.threads[x].tid == tid
            && r.pids == w.pids && r.processes == w.processes
            && |r.threads| <= |w.threads| + 1 && (|r.threads| > |w.threads| ==> x == |w.threads|)
            && (forall i :: 0 <= i < |w.threads| ==> r.threads[i] == w.threads[i])
            && (pid != 0 && r.threads[x].ipid.Some? ==> pid in w.pids && r.threads[x].ipid == Some(w.pids[pid]))
            && (pid != 0 && r.threads[x].ipid.None? ==>
                  forall i: nat :: i < |r.threads| && r.threads[i].tid == tid ==> !BoundTo(r, i, pid))
  {
    var (r, x) := Chosen(w, tid, pid);
    if Lookup(w, tid, pid).None? {
      forall i | 0 <= i < |w.threads| && w.threads[i].tid == tid ensures w.threads[i].ipid.Some? {
        assert pid != 0 ==> !Fits(w, i, tid, pid);
      }
      NewThreadDistinct(w, tid);
    } else if pid != 0 {
      BoundIsRegistered(w, x, pid);
    }
    if pid != 0 && r.threads[x].ipid.None? {
      forall i: nat | i < |r.threads| && r.threads[i].tid == tid ensures !BoundTo(r, i, pid) {
        if i < |w.threads| {
          assert BoundTo(w, i, pid) ==> Fits(w, i, tid, pid);
        }
      }
    }
  }

  /** An unbound thread whose tid has none bound to pid is bound to the process of pid. */
  lemma RebindEffect(w: World, x: nat, pid: u32, startT: u64)
    requires Distinct(w) && pid in w.pids && x < |w.threads| && w.threads[x].ipid.None?
    requires forall i: nat :: i < |w.threads| && w.threads[i].tid == w.threads[x].tid ==> !BoundTo(w, i, pid)
    ensures var r := Bind(Begin(w, w.pids[pid], startT), x, w.pids[pid]);
            Distinct(r) && Extends(w, r)
  {
    var w2 := Begin(w, w.pids[pid], startT);
    BeginSame(w, w.pids[pid], startT);
    SameKeeps(w, w2);
    forall i | 0 <= i < |w2.threads| && i != x && w2.threads[i].tid == w2.threads[x].tid
      ensures w2.threads[i].ipid != Some(w.pids[pid])
    {
      BoundIsRegistered(w, i, pid);
    }
    BindDistinct(w2, x, w.pids[pid]);
  }

  /** What GetOrCreate does with the thread it has chosen, for a registered pid. */
  lemma {:induction false} ChosenFirst(w: World, tid: u32, pid: u32)
    requires Formed(w) && pid in w.pids && pid != 0
    ensures var (w1, x) := Chosen(w, tid, pid);
            && w1.pids == w.pids && w1.processes == w.processes && w.pids[pid] < |w.processes|
            && GetOrCreate(w, tid, pid) ==
               (if w1.threads[x].ipid.Some? then w1 else Bind(Begin(w1, w.pids[pid], w1.threads[x].startT), x, w.pids[pid]), x)
  {
  }

  lemma RebindShape(w: World, x: nat, pid: u32, startT: u64)
    requires Formed(w) && pid in w.pids && x < |w.threads|
    ensures var r := Bind(Begin(w, w.pids[pid], startT), x, w.pids[pid]);
            && r.pids == w.pids && |r.processes| == |w.processes| && |r.threads| == |w.threads|
            && r.threads[x] == w.threads[x].(ipid := Some(w.pids[pid]))
            && forall i :: 0 <= i < |w.threads| && i != x ==> r.threads[i] == w.threads[i]
  {
  }

  /** A registered pid: the chosen thread ends up bound to its process; nothing else moves. */
  lemma {:induction false} RegisteredEffect(w: World, tid: u32, pid: u32)
    requires Distinct(w) && pid in w.pids && pid != 0
    ensures var (r, x) := GetOrCreate(w, tid, pid);
            && Distinct(r) && Extends(w, r) && r.pids == w.pids && |r.processes| == |w.processes|
            && x == Chosen(w, tid, pid).1
            && r.threads[x].tid == tid && r.threads[x].ipid == Some(w.pids[pid])
            && |r.threads| <= |w.threads| + 1 && (|r.threads| > |w.threads| ==> x == |w.threads|)
            && (forall i :: 0 <= i < |w.threads| && i != x ==> r.threads[i] == w.threads[i])
  {
    ChosenEffect(w, tid, pid);
    var (w1, x) := Chosen(w, tid, pid);
    ChosenFirst(w, tid, pid);
    hide Distinct, Extends, Formed, GetOrCreate, Chosen, Bind, Begin, BoundTo;
    if w1.threads[x].ipid.None? {
      RebindEffect(w1, x, pid, w1.threads[x].startT);
      ExtendsTransitive(w, w1, GetOrCreate(w, tid, pid).0);
      RebindShape(w1, x, pid, w1.threads[x].startT);
    }
  }

  /** An unregistered pid: the process is new, and so is the binding of its main thread x. */
  lemma CreateEffect(w: World, pid: u32, startT: u64) returns (x: nat)
    requires Distinct(w) && pid !in w.pids && pid != 0
    ensures var r := CreateProcess(w, pid, startT).0;
            && Distinct(r) && Extends(w, r) && r.pids == w.pids[pid := |w.processes|]
            && IsMain(r, x, pid)
            && |r.threads| <= |w.threads| + 1 && (|r.threads| > |w.threads| ==> x == |w.threads|)
            && (forall i :: 0 <= i < |w.threads| && i != x ==> r.threads[i] == w.threads[i])
    ensures forall t: nat :: t < |w.threads| && w.threads[t].tid == pid && w.threads[t].ipid.None? ==> t == x
  {
    hide Extends, Distinct, SameProcess, GetOrCreate, Begin;
    var w1 := NewProcess(w, pid);
    NewProcessDistinct(w, pid);
    RegisteredEffect(w1, pid, pid);
    var w2 := GetOrCreate(w1, pid, pid).0;
    x := GetOrCreate(w1, pid, pid).1;
    var r := Begin(w2, |w.processes|, startT);
    BeginSame(w2, |w.processes|, startT);
    SameKeeps(w2, r);
    ExtendsTransitive(w, w1, w2);
    ExtendsTransitive(w, w2, r);
    forall t: nat | t < |w.threads| && w.threads[t].tid == pid && w.threads[t].ipid.None? ensures t == x {
      ChosenIsUnbound(w, w1, pid, t);
    }
  }

  lemma ChosenIsUnbound(w: World, w1: World, pid: u32, t: nat)
    requires Distinct(w) && pid !in w.pids && pid != 0 && w1 == NewProcess(w, pid) && Distinct(w1)
    requires t < |w.threads| && w.threads[t].tid == pid && w.threads[t].ipid.None?
    ensures Chosen(w1, pid, pid).1 == t
  {
    assert Fits(w1, t, pid, pid);
    var x := Find(w1, pid, pid, |w1.threads|).value;
    assert !BoundTo(w1, x, pid) by {
      assert w1.threads[x] == w.threads[x];
    }
  }

  lemma {:induction false} GetOrCreateUnregistered(w: World, tid: u32, pid: u32)
    requires Distinct(w) && pid !in w.pids && pid != 0
    ensures var (r, x) := GetOrCreate(w, tid, pid);
            && Distinct(r) && Extends(w, r) && r.pids == w.pids[pid := |w.processes|]
            && r.threads[x].tid == tid && r.threads[x].ipid == Some(r.pids[pid])
            && HasMain(r, pid)
  {
    ChosenEffect(w, tid, pid);
    var (w1, x) := Chosen(w, tid, pid);
    assert w1.threads[x].ipid.None?;
    assert GetOrCreate(w, tid, pid) ==
           (Bind(CreateProcess(w1, pid, w1.threads[x].startT).0, x, CreateProcess(w1, pid, w1.threads[x].startT).1), x);
    hide Distinct, Extends, CreateProcess, GetOrCreate, Chosen, Formed, BoundTo;
    var m := CreateEffect(w1, pid, w1.threads[x].startT);
    var (w2, ipid) := CreateProcess(w1, pid, w1.threads[x].startT);
    forall i | 0 <= i < |w2.threads| && i != x && w2.threads[i].tid == tid ensures w2.threads[i].ipid != Some(ipid) {
      OnlyMainIsBound(w1, w2, pid, m, x, i);
    }
    assert w2.threads[x].ipid.None? || w2.threads[x].ipid == Some(ipid);
    BindDistinct(w2, x, ipid);
    ExtendsTransitive(w, w1, w2);
    ExtendsTransitive(w, w2, Bind(w2, x, ipid));
    assert IsMain(Bind(w2, x, ipid), m, pid);
  }

  /** After the process is created only its main thread is bound to it. */
  lemma OnlyMainIsBound(w1: World, w2: World, pid: u32, m: nat, x: nat, i: nat)
    requires Distinct(w1) && pid !in w1.pids
    requires w2.pids == w1.pids[pid := |w1.processes|] && IsMain(w2, m, pid)
    requires |w1.threads| <= |w2.threads| <= |w1.threads| + 1 && (|w2.threads| > |w1.threads| ==> m == |w1.threads|)
    requires forall k :: 0 <= k < |w1.threads| && k != m ==> w2.threads[k] == w1.threads[k]
    requires x < |w1.threads| && w1.threads[x].ipid.None? && w2.threads[x].tid == w1.threads[x].tid
    requires w1.threads[x].tid == pid ==> x == m
    requires i < |w2.threads| && i != x && w2.threads[i].tid == w1.threads[x].tid
    ensures w2.threads[i].ipid != Some(|w1.processes|)
  {
  }

  lemma StaysManned(w: World, r: World)
    requires Manned(w) && Extends(w, r) && r.pids.Keys == w.pids.Keys
    ensures Manned(r)
  {
    forall p | p in r.pids ensures HasMain(r, p) {
      assert p in w.pids.Keys;
      assert HasMain(w, p);
      var i: nat :| IsMain(w, i, p);
      assert IsMain(r, i, p);
    }
  }

  /** The invariant of the filter. */
  ghost predicate Valid(w: World) {
    Distinct(w) && Manned(w) && 0 in w.pids
  }

  /** Main contract of GetOrCreateThreadWithPid: it returns a thread of that tid, bound to the
      process registered for pid, and keeps the world. */
  lemma {:induction false} GetOrCreateEffect(w: World, tid: u32, pid: u32)
    requires Valid(w)
    ensures var (r, x) := GetOrCreate(w, tid, pid);
            && Valid(r) && Extends(w, r) && r.threads[x].tid == tid
            && (pid != 0 ==> pid in r.pids && r.threads[x].ipid == Some(r.pids[pid]))
  {
    var r := GetOrCreate(w, tid, pid).0;
    hide Manned, BoundTo;
    if pid == 0 {
      ChosenEffect(w, tid, pid);
      StaysManned(w, r);
    } else if pid in w.pids {
      RegisteredEffect(w, tid, pid);
      StaysManned(w, r);
    } else {
      GetOrCreateUnregistered(w, tid, pid);
      ExtendsManned(w, r, pid);
    }
  }

  /** CreateProcessMaybe returns the one process of pid. */
  lemma {:induction false} CreateProcessEffect(w: World, pid: u32, startT: u64)
    requires Valid(w)
    ensures var (r, ipid) := CreateProcess(w, pid, startT);
            Valid(r) && Extends(w, r) && pid in r.pids && ipid == r.pids[pid]
  {
    var r := CreateProcess(w, pid, startT).0;
    if pid in w.pids {
      BeginSame(w, w.pids[pid], startT);
      SameKeeps(w, r);
    } else {
      var x := CreateEffect(w, pid, startT);
      ExtendsManned(w, r, pid);
    }
  }

  lemma NameThreadsEffect(w: World, tid: u32, name: u64)
    requires Valid(w)
    ensures var (r, x) := NameThreads(w, tid, name);
            Valid(r) && Extends(w, r) && x < |r.threads| && r.threads[x].tid == tid
  {
    assert Formed(w);
    var r := NameThreads(w, tid, name).0;
    if Last(w, tid, |w.threads|).None? {
      var w1 := NewThread(w, tid);
      NewThreadDistinct(w, tid);
      assert SameBindings(w1, r) && r.pids == w.pids;
      hide Distinct, Extends, Manned, SameBindings, NameThreads, Formed;
      SameKeeps(w1, r);
      ExtendsTransitive(w, w1, r);
      StaysManned(w, r);
    } else {
      assert SameBindings(w, r) && r.pids == w.pids;
      hide Distinct, Extends, Manned, SameBindings, Formed;
      SameKeeps(w, r);
    }
  }

  lemma LabelSame(w: World, pid: u32, ipid: nat, name: u64)
    requires Formed(w) && ipid < |w.processes|
    ensures SameBindings(w, Label(w, pid, ipid, name))
  {
  }

  lemma NameProcessEffect(w: World, pid: u32, name: u64)
    requires Valid(w)
    ensures var (r, ipid) := NameProcess(w, pid, name);
            Valid(r) && Extends(w, r) && pid in r.pids && ipid == r.pids[pid]
  {
    assert Formed(w);
    hide Extends, Manned, Distinct, CreateProcess;
    CreateProcessEffect(w, pid, 0);
    var w1, r := CreateProcess(w, pid, 0).0, NameProcess(w, pid, name).0;
    LabelSame(w1, pid, w1.pids[pid], name);
    hide Label;
    SameKeeps(w1, r);
    ExtendsTransitive(w, w1, r);
  }

  /** The process takes a name that is not empty, and its main thread has the name of the process. */
  lemma NameProcessSets(w: World, pid: u32, name: u64, i: nat)
    requires Valid(w)
    ensures var (r, ipid) := NameProcess(w, pid, name);
            && ipid < |r.processes| && (name != 0 ==> r.processes[ipid].name == name)
            && (IsMain(r, i, pid) ==> r.threads[i].name == r.processes[ipid].name)
  {
    assert Formed(w);
    CreateProcessEffect(w, pid, 0);
    NameProcessEffect(w, pid, name);
    hide Extends, CreateProcess;
    var w1 := CreateProcess(w, pid, 0).0;
    LabelMain(w1, pid, name, i);
  }

  lemma LabelMain(w: World, pid: u32, name: u64, i: nat)
    requires Valid(w) && pid in w.pids
    ensures var r := Label(w, pid, w.pids[pid], name);
            && (name != 0 ==> r.processes[w.pids[pid]].name == name)
            && (IsMain(r, i, pid) ==> r.threads[i].name == r.processes[w.pids[pid]].name)
  {
    var r := Label(w, pid, w.pids[pid], name);
    LabelSame(w, pid, w.pids[pid], name);
    if IsMain(r, i, pid) {
      var w1 := if name != 0 then w.(processes := w.processes[w.pids[pid] := w.processes[w.pids[pid]].(name := name)]) else w;
      SameKeeps(w, w1);
      BoundIsRegistered(w1, i, pid);
      assert Fits(w1, i, pid, pid);
      var x := Find(w1, pid, pid, |w1.threads|).value;
      BoundIsRegistered(w1, x, pid);
    }
  }

  /** Exactly the threads of the tid take the name. */
  lemma NameThreadsSets(w: World, tid: u32, name: u64, i: nat)
    requires Formed(w) && name != 0 && i < |NameThreads(w, tid, name).0.threads|
    ensures var r := NameThreads(w, tid, name).0;
            if r.threads[i].tid == tid then r.threads[i].name == name
            else i < |w.threads| && r.threads[i].name == w.threads[i].name
  {
    if Last(w, tid, |w.threads|).Some? {
      var list := Range(w.threads, tid, |w.threads|);
      RenamedAt(w.threads, list, |list|, name, i);
      InRange(w.threads, tid, |w.threads|, i);
      assert list[..|list|] == list;
    }
  }

  lemma {:induction false} RenamedAt(threads: seq<Thread>, list: seq<nat>, k: nat, name: u64, i: nat)
    requires k <= |list| && i < |threads| && forall j :: 0 <= j < |list| ==> list[j] < |threads|
    ensures RenamedBy(threads, list, k, name)[i].name == if i in list[..k] then name else threads[i].name
  {
    if k > 0 {
      RenamedAt(threads, list, k - 1, name, i);
      assert list[..k] == list[..k - 1] + [list[k - 1]];
    }
  }

  lemma {:induction false} InRange(threads: seq<Thread>, tid: u32, n: nat, i: nat)
    requires n <= |threads| && i < |threads|
    ensures i in Range(threads, tid, n) <==> i < n && threads[i].tid == tid
  {
    if n > 0 {
      InRange(threads, tid, n - 1, i);
    }
  }

  lemma StaysBound(w: World, r: World, x: nat, pid: u32)
    requires Extends(w, r) && x < |w.threads|
    requires pid != 0 ==> pid in w.pids && w.threads[x].ipid == Some(w.pids[pid])
    ensures x < |r.threads| && r.threads[x].tid == w.threads[x].tid
    ensures pid != 0 ==> pid in r.pids && r.threads[x].ipid == Some(r.pids[pid])
  {
  }

  lemma SameButName(w: World, r: World, x: nat, name: u64)
    requires Valid(w) && x < |w.threads| && r == w.(threads := w.threads[x := w.threads[x].(name := name)])
    ensures Valid(r) && Extends(w, r) && Formed(r)
  {
    assert SameBindings(w, r);
    hide SameBindings, Manned;
    SameKeeps(w, r);
  }

  lemma NameThreadOfEffect(w: World, tid: u32, pid: u32, name: u64)
    requires Valid(w)
    ensures var (r, x) := NameThreadOf(w, tid, pid, name);
            && Valid(r) && Extends(w, r) && x < |r.threads| && r.threads[x].tid == tid
            && (pid != 0 ==> pid in r.pids && r.threads[x].ipid == Some(r.pids[pid]))
  {
    assert Formed(w);
    hide Extends, Valid, GetOrCreate, NameProcess, Formed;
    GetOrCreateEffect(w, tid, pid);
    var (w1, x) := GetOrCreate(w, tid, pid);
    var w2 := w1.(threads := w1.threads[x := w1.threads[x].(name := name)]);
    SameButName(w1, w2, x, name);
    ExtendsTransitive(w, w1, w2);
    if tid == pid {
      var r := NameProcess(w2, pid, name).0;
      NameProcessEffect(w2, pid, name);
      ExtendsTransitive(w, w2, r);
      StaysBound(w2, r, x, pid);
    }
  }

  lemma StepEffect(w: World, op: Op)
    requires Valid(w)
    ensures Valid(Step(w, op).0) && Extends(w, Step(w, op).0)
  {
    hide Valid, Extends;
    match op {
      case GetThread(tid, pid) => GetOrCreateEffect(w, tid, pid);
      case GetProcess(pid, startT) => GetProcessEffect(w, pid, startT);
      case SetThreadName(tid, name) => NameThreadsEffect(w, tid, name);
      case SetProcessName(pid, name) => NameProcessEffect(w, pid, name);
      case SetThreadNameOf(tid, pid, name) => NameThreadOfEffect(w, tid, pid, name);
    }
  }

  lemma GetProcessEffect(w: World, pid: u32, startT: u64)
    requires Valid(w)
    ensures Valid(Step(w, GetProcess(pid, startT)).0) && Extends(w, Step(w, GetProcess(pid, startT)).0)
  {
    ExtendsReflexive(w);
    CreateProcessEffect(w, pid, startT);
    hide Extends, Manned, Distinct;
  }

  // ---------------------------------------------------------------------------
  // Every run
  // ---------------------------------------------------------------------------

  lemma InitialValid()
    ensures Valid(INITIAL)
  {
    assert IsMain(INITIAL, 0, 0);
  }

  lemma {:induction false} RunValid(ops: seq<Op>, n: nat)
    requires n <= |ops|
    ensures Valid(Run(ops, n))
  {
    hide Valid;
    if n == 0 {
      InitialValid();
    } else {
      RunValid(ops, n - 1);
      StepEffect(Run(ops, n - 1), ops[n - 1]);
    }
  }

  /** A binding never changes, whatever follows. */
  lemma {:induction false} BindingsStay(ops: seq<Op>, n: nat, m: nat)
    requires n <= m <= |ops|
    ensures Extends(Run(ops, n), Run(ops, m))
  {
    hide Valid, Step, Extends;
    if n == m {
      ExtendsReflexive(Run(ops, n));
    } else {
      BindingsStay(ops, n, m - 1);
      RunValid(ops, m - 1);
      StepEffect(Run(ops, m - 1), ops[m - 1]);
      ExtendsTransitive(Run(ops, n), Run(ops, m - 1), Run(ops, m));
    }
  }

  /** Whatever lies between two requests for the same tid and pid, they get the same thread. */
  lemma {:induction false} RepeatedCallsAgree(ops: seq<Op>, n: nat, m: nat)
    requires n < m < |ops| && ops[n] == ops[m] && ops[n].GetThread? && ops[n].pid != 0
    ensures Step(Run(ops, n), ops[n]).1 == Step(Run(ops, m), ops[m]).1
  {
    hide *;
    var k := n + 1;
    RunNext(ops, n);
    BindingsStay(ops, k, m);
    RequestEffect(ops, n);
    RequestEffect(ops, m);
    SameThread(Run(ops, k), Run(ops, m), Step(Run(ops, m), ops[m]).0, Step(Run(ops, n), ops[n]).1,
               Step(Run(ops, m), ops[m]).1, ops[n].pid);
  }

  lemma {:induction false} RunNext(ops: seq<Op>, n: nat)
    requires n < |ops|
    ensures Run(ops, n + 1) == Step(Run(ops, n), ops[n]).0
  {
  }

  lemma {:induction false} RequestEffect(ops: seq<Op>, n: nat)
    requires n < |ops| && ops[n].GetThread? && ops[n].pid != 0
    ensures var (r, x) := Step(Run(ops, n), ops[n]);
            && Valid(r) && Extends(Run(ops, n), r) && x < |r.threads| && r.threads[x].tid == ops[n].tid
            && ops[n].pid in r.pids && r.threads[x].ipid == Some(r.pids[ops[n].pid])
  {
    RunValid(ops, n);
    hide Valid, Extends, GetOrCreate, Run;
    GetOrCreateEffect(Run(ops, n), ops[n].tid, ops[n].pid);
  }

  lemma SameThread(a: World, b: World, c: World, x: nat, y: nat, pid: u32)
    requires Valid(c) && Extends(a, b) && Extends(b, c)
    requires x < |a.threads| && pid in a.pids && a.threads[x].ipid == Some(a.pids[pid])
    requires y < |c.threads| && pid in c.pids && c.threads[y].ipid == Some(c.pids[pid])
    requires a.threads[x].tid == c.threads[y].tid
    ensures x == y
  {
  }

  /** Every registered pid has exactly one main thread. */
  lemma {:induction false} OneMainThread(ops: seq<Op>, n: nat, pid: u32)
    requires n <= |ops| && pid in Run(ops, n).pids
    ensures exists i: nat :: IsMain(Run(ops, n), i, pid) && forall j: nat :: IsMain(Run(ops, n), j, pid) ==> j == i
  {
    RunValid(ops, n);
    var w := Run(ops, n);
    assert HasMain(w, pid);
    var i: nat :| IsMain(w, i, pid);
    assert forall j: nat :: IsMain(w, j, pid) ==> j == i;
  }

  /** At most one unbound thread per tid, and at most one bound per tid and pid. */
  lemma {:induction false} OneThreadPerBinding(ops: seq<Op>, n: nat, i: nat, j: nat, pid: u32)
    requires n <= |ops| && i < |Run(ops, n).threads| && j < |Run(ops, n).threads|
    requires Run(ops, n).threads[i].tid == Run(ops, n).threads[j].tid
    requires var w := Run(ops, n);
             (w.threads[i].ipid.None? && w.threads[j].ipid.None?) || (BoundTo(w, i, pid) && BoundTo(w, j, pid))
    ensures i == j
  {
    RunValid(ops, n);
  }

  /** With pid 0 a request returns the newest thread of the tid, so two requests agree exactly
      when no thread of that tid has come into being between them. */
  lemma {:induction false} ZeroPidAgreesIff(ops: seq<Op>, n: nat, m: nat)
    requires n < m < |ops| && ops[n] == ops[m] && ops[n].GetThread? && ops[n].pid == 0
    ensures Step(Run(ops, n), ops[n]).1 == Step(Run(ops, m), ops[m]).1 <==>
            forall i :: |Run(ops, n + 1).threads| <= i < |Run(ops, m).threads| ==> Run(ops, m).threads[i].tid != ops[n].tid
  {
    var k, tid := n + 1, ops[n].tid;
    BindingsStay(ops, k, m);
    var a, b, c := Run(ops, n), Run(ops, k), Run(ops, m);
    assert Run(ops, k) == Step(Run(ops, n), ops[n]).0;
    hide Run;
    var x := GetOrCreate(a, tid, 0).1;
    assert x < |b.threads| && b.threads[x].tid == tid;
    assert forall i :: 0 <= i < |b.threads| && b.threads[i].tid == tid ==> i <= x;
    assert Last(c, tid, |c.threads|).Some? by {
      assert c.threads[x].tid == tid;
    }
  }

  /** The world after the first request for thread 7 of process 1. */
  lemma {:induction false} FirstRequest(ops: seq<Op>)
    requires ops != [] && ops[0] == GetThread(7, 1)
    ensures var w := Run(ops, 1);
            && w.threads == [Thread(0, Some(0), 0, 0), Thread(7, Some(1), 0, 0), Thread(1, Some(1), 0, 0)]
            && w.processes == [Process(0, 0, 0), Process(1, 0, 0)] && w.pids == map[0 := 0, 1 := 1]
  {
    assert Find(INITIAL, 7, 1, 0) == None;
    assert Lookup(INITIAL, 7, 1) == None;
    var a := NewThread(INITIAL, 7);
    SecondProcess(a);
    assert Run(ops, 0) == INITIAL;
    var r := Bind(CreateProcess(a, 1, 0).0, 1, 1);
    assert GetOrCreate(INITIAL, 7, 1) == (r, 1);
    hide CreateProcess;
  }

  /** Creating process 1 creates its main thread, too. */
  lemma {:induction false} SecondProcess(a: World)
    requires a == NewThread(INITIAL, 7)
    ensures CreateProcess(a, 1, 0) == (Bind(NewThread(NewProcess(a, 1), 1), 2, 1), 1)
  {
    var b := NewProcess(a, 1);
    assert Find(b, 1, 1, 0) == None && Find(b, 1, 1, 1) == None && Find(b, 1, 1, 2) == None;
    var c := NewThread(b, 1);
    StartsAtZero(c, 1);
    StartsAtZero(Bind(c, 2, 1), 1);
    assert CreateProcess(c, 1, 0) == (c, 1);
    assert GetOrCreate(b, 1, 1) == (Bind(c, 2, 1), 2);
  }

  lemma StartsAtZero(w: World, ipid: nat)
    requires ipid < |w.processes| && w.processes[ipid].startT == 0
    ensures Begin(w, ipid, 0) == w
  {
    assert w.processes[ipid := w.processes[ipid].(startT := 0)] == w.processes;
  }

  /** Two requests for thread 7 without a process, around one for thread 7 of process 2, return
      different threads. */
  lemma ZeroPidMoves()
    ensures var ops := [GetThread(7, 1), GetThread(7, 0), GetThread(7, 2), GetThread(7, 0)];
            Step(Run(ops, 1), ops[1]).1 != Step(Run(ops, 3), ops[3]).1
  {
    var ops := [GetThread(7, 1), GetThread(7, 0), GetThread(7, 2), GetThread(7, 0)];
    FirstRequest(ops);
    var w := Run(ops, 1);
    NothingBut(w);
    assert Run(ops, 2) == GetOrCreate(w, 7, 0).0 == w;
    assert Run(ops, 3) == GetOrCreate(w, 7, 2).0;
    RunValid(ops, 2);
    hide Run, GetOrCreate;
    NewThreadAppears(w, 7, 2);
    ZeroPidAgreesIff(ops, 1, 3);
  }

  /** Thread 1 is the newest of tid 7, and none fits process 2. */
  lemma NothingBut(w: World)
    requires w.threads == [Thread(0, Some(0), 0, 0), Thread(7, Some(1), 0, 0), Thread(1, Some(1), 0, 0)]
    requires w.processes == [Process(0, 0, 0), Process(1, 0, 0)] && w.pids == map[0 := 0, 1 := 1]
    ensures Formed(w) && Lookup(w, 7, 0) == Some(1) && Lookup(w, 7, 2) == None
  {
    assert Last(w, 7, 2) == Some(1);
    assert Find(w, 7, 2, 0) == None && Find(w, 7, 2, 1) == None && Find(w, 7, 2, 2) == None && Find(w, 7, 2, 3) == None;
  }

  /** Without a thread to choose, the new thread comes after all others. */
  lemma {:induction false} NewThreadAppears(w: World, tid: u32, pid: u32)
    requires Valid(w) && pid != 0 && Lookup(w, tid, pid) == None
    ensures var r := GetOrCreate(w, tid, pid).0;
            |w.threads| < |r.threads| && r.threads[|w.threads|].tid == tid
  {
    GetOrCreateEffect(w, tid, pid);
    assert GetOrCreate(w, tid, pid).1 == |w.threads|;
  }
}
