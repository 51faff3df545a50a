/** Internal identities of processes and threads whose pids and tids the kernel reuses
    (trace_streamer/src/filter/process_filter.cpp:28-34, 81-192 and 227-263; table operations at
    trace_streamer/src/trace_data/trace_data_cache_writer.cpp:22-53 and
    trace_streamer/src/trace_data/trace_data_cache_base.cpp:21-30). */
module ProcessFilter {
  import opened Words

  /** A thread without an internal pid is not bound to a process yet. Name 0 is the empty name. */
  datatype Thread = Thread(tid: u32, ipid: Option<nat>, name: u64, startT: u64)

  datatype Process = Process(pid: u32, startT: u64, name: u64)

  datatype World = World(threads: seq<Thread>, processes: seq<Process>, pids: map<u32, nat>)

  /** Thread 0 and process 0 exist from the start. */
  const INITIAL := World([Thread(0, Some(0), 0, 0)], [Process(0, 0, 0)], map[0 := 0])

  predicate Formed(w: World) {
    && (forall i :: 0 <= i < |w.threads| && w.threads[i].ipid.Some? ==> w.threads[i].ipid.value < |w.processes|)
    && (forall p :: p in w.pids ==> w.pids[p] < |w.processes|)
  }

  predicate BoundTo(w: World, i: nat, pid: u32)
    requires Formed(w) && i < |w.threads|
  {
    w.threads[i].ipid.Some? && w.processes[w.threads[i].ipid.value].pid == pid
  }

  /** Thread i can stand for (tid, pid): it is bound to pid, or still unbound. */
  predicate Fits(w: World, i: nat, tid: u32, pid: u32)
    requires Formed(w) && i < |w.threads|
  {
    w.threads[i].tid == tid && (w.threads[i].ipid.None? || BoundTo(w, i, pid))
  }

  /** GetInternalTid(tid, pid) over the first n threads: the first bound to pid, otherwise the
      last unbound one. */
  function Find(w: World, tid: u32, pid: u32, n: nat): (r: Option<nat>)
    requires Formed(w) && n <= |w.threads|
    ensures r.Some? ==> r.value < n && Fits(w, r.value, tid, pid)
    ensures forall i :: 0 <= i < n && Fits(w, i, tid, pid) ==>
              r.Some? && (BoundTo(w, i, pid) ==> BoundTo(w, r.value, pid))
  {
    if n == 0 then None else
    var r := Find(w, tid, pid, n - 1);
    if r.Some? && BoundTo(w, r.value, pid) then r
    else if Fits(w, n - 1, tid, pid) then Some(n - 1) else r
  }

  /** GetInternalTid(tid) over the first n threads: the last one. */
  function Last(w: World, tid: u32, n: nat): (r: Option<nat>)
    requires n <= |w.threads|
    ensures r.Some? ==> r.value < n && w.threads[r.value].tid == tid
    ensures forall i :: 0 <= i < n && w.threads[i].tid == tid ==> r.Some? && i <= r.value
  {
    if n == 0 then None
    else if w.threads[n - 1].tid == tid then Some(n - 1)
    else Last(w, tid, n - 1)
  }

  function Lookup(w: World, tid: u32, pid: u32): (r: Option<nat>)
    requires Formed(w)
  {
    if pid == 0 then Last(w, tid, |w.threads|) else Find(w, tid, pid, |w.threads|)
  }

  function NewThread(w: World, tid: u32): (r: World) {
    w.(threads := w.threads + [Thread(tid, None, 0, 0)])
  }

  function NewProcess(w: World, pid: u32): (r: World) {
    w.(processes := w.processes + [Process(pid, 0, 0)], pids := w.pids[pid := |w.processes|])
  }

  function Bind(w: World, itid: nat, ipid: nat): (r: World)
    requires itid < |w.threads|
  {
    w.(threads := w.threads[itid := w.threads[itid].(ipid := Some(ipid))])
  }

  function Begin(w: World, ipid: nat, startT: u64): (r: World)
    requires ipid < |w.processes|
  {
    if w.processes[ipid].startT != 0 then w
    else w.(processes := w.processes[ipid := w.processes[ipid].(startT := startT)])
  }

  /** Registering a process asks for its main thread, and binding a thread asks for its process. */
  function GetOrCreate(w: World, tid: u32, pid: u32): (r: (World, nat))
    requires Formed(w)
    ensures Formed(r.0) && r.1 < |r.0.threads|
    ensures |w.threads| <= |r.0.threads| && |w.processes| <= |r.0.processes|
    decreases if pid in w.pids then 0 else 1, 1
  {
    var found := Lookup(w, tid, pid);
    var itid := if found.Some? then found.value else |w.threads|;
    var w1 := if found.Some? then w else NewThread(w, tid);
    if w1.threads[itid].ipid.Some? || pid == 0 then (w1, itid) else
    var (w2, ipid) := CreateProcess(w1, pid, w1.threads[itid].startT);
    (Bind(w2, itid, ipid), itid)
  }

  function CreateProcess(w: World, pid: u32, startT: u64): (r: (World, nat))
    requires Formed(w)
    ensures Formed(r.0) && r.1 < |r.0.processes|
    ensures |w.threads| <= |r.0.threads| && |w.processes| <= |r.0.processes|
    decreases if pid in w.pids then 0 else 1, 0
  {
    if pid in w.pids then (Begin(w, w.pids[pid], startT), w.pids[pid])
    else (Begin(GetOrCreate(NewProcess(w, pid), pid, pid).0, |w.processes|, startT), |w.processes|)
  }

  /** UpdateOrCreateThreadWithNameIndex: every thread of that tid takes the name. A new thread
      keeps the start time 0, since no timestamp is below it. */
  function NameThreads(w: World, tid: u32, name: u64): (r: (World, nat))
    requires Formed(w)
    ensures Formed(r.0)
  {
    var last := Last(w, tid, |w.threads|);
    if last.None? then
      (w.(threads := w.threads + [Thread(tid, None, name, 0)]), |w.threads|)
    else if name == 0 then (w, last.value)
    else var list := Range(w.threads, tid, |w.threads|);
         (w.(threads := RenamedBy(w.threads, list, |list|, name)), last.value)
  }

  /** The threads of a list, one after the other, take the name. */
  function RenamedBy(threads: seq<Thread>, list: seq<nat>, k: nat, name: u64): (r: seq<Thread>)
    requires k <= |list| && forall i :: 0 <= i < |list| ==> list[i] < |threads|
    ensures |r| == |threads| && forall i :: 0 <= i < |r| ==> r[i] == threads[i].(name := r[i].name)
  {
    if k == 0 then threads else
    var r := RenamedBy(threads, list, k - 1, name);
    r[list[k - 1] := r[list[k - 1]].(name := name)]
  }

  /** The threads of a tid among the first n, oldest first. */
  function Range(threads: seq<Thread>, tid: u32, n: nat): (r: seq<nat>)
    requires n <= |threads|
    ensures forall k :: 0 <= k < |r| ==> r[k] < n && threads[r[k]].tid == tid
  {
    if n == 0 then []
    else if threads[n - 1].tid == tid then Range(threads, tid, n - 1) + [n - 1]
    else Range(threads, tid, n - 1)
  }

  /** A process takes the name, unless it is empty, and its main thread the name of the process. */
  function Label(w: World, pid: u32, ipid: nat, name: u64): (r: World)
    requires Formed(w) && ipid < |w.processes|
    ensures Formed(r)
  {
    var w1 := if name != 0 then w.(processes := w.processes[ipid := w.processes[ipid].(name := name)]) else w;
    var main := Find(w1, pid, pid, |w1.threads|);
    if main.None? then w1
    else w1.(threads := w1.threads[main.value := w1.threads[main.value].(name := w1.processes[ipid].name)])
  }

  /** UpdateOrCreateProcessWithName. */
  function NameProcess(w: World, pid: u32, name: u64): (r: (World, nat))
    requires Formed(w)
    ensures Formed(r.0)
  {
    var (w1, ipid) := CreateProcess(w, pid, 0);
    (Label(w1, pid, ipid, name), ipid)
  }

  /** UpdateOrCreateThreadWithPidAndName. */
  function NameThreadOf(w: World, tid: u32, pid: u32, name: u64): (r: (World, nat))
    requires Formed(w)
    ensures Formed(r.0)
  {
    var (w1, itid) := GetOrCreate(w, tid, pid);
    var w2 := w1.(threads := w1.threads[itid := w1.threads[itid].(name := name)]);
    (if tid == pid then NameProcess(w2, pid, name).0 else w2, itid)
  }

  datatype Op =
    | GetThread(tid: u32, pid: u32)
    | GetProcess(pid: u32, startT: u64)
    | SetThreadName(tid: u32, name: u64)
    | SetProcessName(pid: u32, name: u64)
    | SetThreadNameOf(tid: u32, pid: u32, name: u64)

  function Step(w: World, op: Op): (r: (World, nat))
    requires Formed(w)
    ensures Formed(r.0)
  {
    match op
    case GetThread(tid, pid) => GetOrCreate(w, tid, pid)
    case GetProcess(pid, startT) => if pid in w.pids then (w, w.pids[pid]) else CreateProcess(w, pid, startT)
    case SetThreadName(tid, name) => NameThreads(w, tid, name)
    case SetProcessName(pid, name) => NameProcess(w, pid, name)
    case SetThreadNameOf(tid, pid, name) => NameThreadOf(w, tid, pid, name)
  }

  function Run(ops: seq<Op>, n: nat): (w: World)
    requires n <= |ops|
    ensures Formed(w)
  {
    if n == 0 then INITIAL else Step(Run(ops, n - 1), ops[n - 1]).0
  }

  // ---------------------------------------------------------------------------
  // The filter as an object
  // ---------------------------------------------------------------------------

  /** Appending threads and renaming or binding them does not move earlier ones. */
  lemma {:induction false} RangeSame(a: seq<Thread>, b: seq<Thread>, tid: u32, n: nat)
    requires n <= |a| && n <= |b| && forall i :: 0 <= i < n ==> a[i].tid == b[i].tid
    ensures Range(a, tid, n) == Range(b, tid, n)
  {
    if n > 0 {
      RangeSame(a, b, tid, n - 1);
    }
  }

  /** The scan over the list of a tid, stopping at the first thread bound to pid. */
  function Scan(w: World, pid: u32, list: seq<nat>, k: nat): (r: Option<nat>)
    requires Formed(w) && k <= |list| && forall i :: 0 <= i < |list| ==> list[i] < |w.threads|
    ensures r.Some? ==> r.value < |w.threads|
  {
    if k == 0 then None else
    var r := Scan(w, pid, list, k - 1);
    if r.Some? && BoundTo(w, r.value, pid) then r
    else if w.threads[list[k - 1]].ipid.None? || BoundTo(w, list[k - 1], pid) then Some(list[k - 1]) else r
  }

  lemma {:induction false} ScanPrefix(w: World, pid: u32, list: seq<nat>, more: seq<nat>, k: nat)
    requires Formed(w) && k <= |list| && list <= more
    requires forall i :: 0 <= i < |more| ==> more[i] < |w.threads|
    ensures Scan(w, pid, list, k) == Scan(w, pid, more, k)
  {
    if k > 0 {
      ScanPrefix(w, pid, list, more, k - 1);
    }
  }

  lemma {:induction false} ScanFinds(w: World, tid: u32, pid: u32, n: nat)
    requires Formed(w) && n <= |w.threads|
    ensures var list := Range(w.threads, tid, n);
            Scan(w, pid, list, |list|) == Find(w, tid, pid, n)
  {
    hide Formed, BoundTo;
    if n > 0 {
      ScanFinds(w, tid, pid, n - 1);
      var before, list := Range(w.threads, tid, n - 1), Range(w.threads, tid, n);
      assert list == if w.threads[n - 1].tid == tid then before + [n - 1] else before;
      ScanPrefix(w, pid, before, list, |before|);
      hide Range;
      ScanLast(w, tid, pid, n, before, list);
    }
  }

  lemma {:induction false} ScanLast(w: World, tid: u32, pid: u32, n: nat, before: seq<nat>, list: seq<nat>)
    requires Formed(w) && 0 < n <= |w.threads| && forall i :: 0 <= i < |list| ==> list[i] < |w.threads|
    requires list == if w.threads[n - 1].tid == tid then before + [n - 1] else before
    requires Scan(w, pid, list, |before|) == Find(w, tid, pid, n - 1)
    ensures Scan(w, pid, list, |list|) == Find(w, tid, pid, n)
  {
    hide Formed, BoundTo;
  }

  /** Once a thread bound to pid is found the rest of the list does not matter. */
  lemma {:induction false} ScanStops(w: World, pid: u32, list: seq<nat>, k: nat, n: nat)
    requires Formed(w) && k <= n <= |list| && forall i :: 0 <= i < |list| ==> list[i] < |w.threads|
    requires Scan(w, pid, list, k).Some? && BoundTo(w, Scan(w, pid, list, k).value, pid)
    ensures Scan(w, pid, list, n) == Scan(w, pid, list, k)
  {
    if k < n {
      ScanStops(w, pid, list, k, n - 1);
    }
  }

  lemma {:induction false} LastOfRange(w: World, tid: u32, n: nat)
    requires n <= |w.threads|
    ensures var list := Range(w.threads, tid, n);
            Last(w, tid, n) == if list == [] then None else Some(list[|list| - 1])
  {
    if n > 0 {
      LastOfRange(w, tid, n - 1);
    }
  }

  class Filter {
    var threads: seq<Thread>
    var processes: seq<Process>
    var tidMapping: map<u32, seq<nat>>
    var pidToInternalPid: map<u32, nat>

    ghost function State(): (w: World)
      reads this
    {
      World(threads, processes, pidToInternalPid)
    }

    ghost predicate Valid()
      reads this
    {
      && Formed(State())
      && forall t: u32 :: TidsOf(t) == Range(threads, t, |threads|)
    }

    function TidsOf(tid: u32): (r: seq<nat>)
      reads this
    {
      if tid in tidMapping then tidMapping[tid] else []
    }

    constructor ()
      ensures Valid() && State() == INITIAL
    {
      threads, processes := [Thread(0, Some(0), 0, 0)], [Process(0, 0, 0)];
      tidMapping, pidToInternalPid := map[0 := [0]], map[0 := 0];
      new;
      forall t: u32 ensures TidsOf(t) == Range(threads, t, |threads|) {
        assert Range(threads, t, 0) == [];
      }
    }

    method GetInternalTid(tid: u32, pid: u32) returns (internalTid: Option<nat>)
      requires Valid()
      ensures internalTid == Find(State(), tid, pid, |threads|)
    {
      var list := TidsOf(tid);
      ghost var w := State();
      internalTid := None;
      ScanFinds(w, tid, pid, |threads|);
      var k := 0;
      while k < |list|
        invariant k <= |list| && internalTid == Scan(w, pid, list, k)
        invariant internalTid.Some? ==> !BoundTo(w, internalTid.value, pid)
      {
        var thread := threads[list[k]];
        if thread.ipid.None? {
          internalTid := Some(list[k]);
        } else if processes[thread.ipid.value].pid == pid {
          internalTid := Some(list[k]);
          ScanStops(w, pid, list, k + 1, |list|);
          return;
        }
        k := k + 1;
      }
    }

    method NewInternalThread(tid: u32) returns (internalTid: nat)
      requires Valid()
      modifies this
      ensures Valid() && State() == NewThread(old(State()), tid) && internalTid == |old(threads)|
    {
      ghost var before := threads;
      internalTid := |threads|;
      threads := threads + [Thread(tid, None, 0, 0)];
      tidMapping := tidMapping[tid := TidsOf(tid) + [internalTid]];
      forall t: u32 ensures TidsOf(t) == Range(threads, t, |threads|) {
        RangeSame(before, threads, t, |before|);
      }
    }

    /** Changing fields of threads other than the tid keeps the index. */
    lemma {:induction false} KeepsIndex(before: seq<Thread>)
      requires |before| == |threads| && forall i :: 0 <= i < |threads| ==> before[i].tid == threads[i].tid
      requires forall t: u32 :: TidsOf(t) == Range(before, t, |before|)
      ensures forall t: u32 :: TidsOf(t) == Range(threads, t, |threads|)
    {
      forall t: u32 ensures TidsOf(t) == Range(threads, t, |threads|) {
        RangeSame(before, threads, t, |threads|);
      }
    }

    method GetOrCreateThreadWithPid(tid: u32, pid: u32) returns (internalTid: nat)
      requires Valid()
      modifies this
      ensures Valid() && (State(), internalTid) == GetOrCreate(old(State()), tid, pid)
      decreases if pid in pidToInternalPid then 0 else 1, 1
    {
      var found: Option<nat>;
      if pid == 0 {
        var list := TidsOf(tid);
        LastOfRange(State(), tid, |threads|);
        found := if list == [] then None else Some(list[|list| - 1]);
      } else {
        found := GetInternalTid(tid, pid);
      }
      if found.Some? {
        internalTid := found.value;
      } else {
        internalTid := NewInternalThread(tid);
      }
      if threads[internalTid].ipid.None? && pid != 0 {
        var ipid := CreateProcessMaybe(pid, threads[internalTid].startT);
        ghost var before := threads;
        threads := threads[internalTid := threads[internalTid].(ipid := Some(ipid))];
        KeepsIndex(before);
      }
    }

    method CreateProcessMaybe(pid: u32, startT: u64) returns (internalPid: nat)
      requires Valid()
      modifies this
      ensures Valid() && (State(), internalPid) == CreateProcess(old(State()), pid, startT)
      decreases if pid in pidToInternalPid then 0 else 1, 0
    {
      if pid in pidToInternalPid {
        internalPid := pidToInternalPid[pid];
      } else {
        internalPid := |processes|;
        processes := processes + [Process(pid, 0, 0)];
        pidToInternalPid := pidToInternalPid[pid := internalPid];
        var _ := GetOrCreateThreadWithPid(pid, pid);
      }
      if processes[internalPid].startT == 0 {
        processes := processes[internalPid := processes[internalPid].(startT := startT)];
      }
    }

    method GetOrCreateInternalPid(pid: u32, startT: u64) returns (internalPid: nat)
      requires Valid()
      modifies this
      ensures Valid() && (State(), internalPid) == Step(old(State()), GetProcess(pid, startT))
    {
      if pid in pidToInternalPid {
        return pidToInternalPid[pid];
      }
      internalPid := CreateProcessMaybe(pid, startT);
    }

    method UpdateOrCreateProcessWithName(pid: u32, name: u64) returns (internalPid: nat)
      requires Valid()
      modifies this
      ensures Valid() && (State(), internalPid) == NameProcess(old(State()), pid, name)
    {
      internalPid := CreateProcessMaybe(pid, 0);
      SetProcessName(pid, internalPid, name);
    }

    method SetProcessName(pid: u32, ipid: nat, name: u64)
      requires Valid() && ipid < |processes|
      modifies this
      ensures Valid() && State() == Label(old(State()), pid, ipid, name)
    {
      hide Find, Range;
      if name != 0 {
        assert processes[ipid].name == name ==> processes[ipid := processes[ipid].(name := name)] == processes;
        if processes[ipid].name != name {
          processes := processes[ipid := processes[ipid].(name := name)];
        }
      }
      var main := GetInternalTid(pid, pid);
      if main.Some? {
        SetName(main.value, processes[ipid].name);
      }
    }

    method SetName(itid: nat, name: u64)
      requires Valid() && itid < |threads|
      modifies this`threads
      ensures Valid() && threads == old(threads)[itid := old(threads)[itid].(name := name)]
    {
      ghost var before := threads;
      threads := threads[itid := threads[itid].(name := name)];
      KeepsIndex(before);
    }

    method UpdateOrCreateThreadWithPidAndName(tid: u32, pid: u32, name: u64) returns (internalTid: nat)
      requires Valid()
      modifies this
      ensures Valid() && (State(), internalTid) == NameThreadOf(old(State()), tid, pid, name)
    {
      internalTid := GetOrCreateThreadWithPid(tid, pid);
      SetName(internalTid, name);
      if tid == pid {
        var _ := UpdateOrCreateProcessWithName(pid, name);
      }
    }

    method RenameThreads(tid: u32, name: u64)
      requires Valid()
      modifies this`threads
      ensures Valid()
      ensures var list := Range(old(threads), tid, |old(threads)|);
              threads == RenamedBy(old(threads), list, |list|, name)
    {
      var list := TidsOf(tid);
      ghost var before := threads;
      var k := 0;
      while k < |list|
        invariant k <= |list| && |threads| == |before| && threads == RenamedBy(before, list, k, name)
      {
        threads := threads[list[k] := threads[list[k]].(name := name)];
        k := k + 1;
      }
      KeepsIndex(before);
    }

    method UpdateOrCreateThreadWithNameIndex(tid: u32, name: u64) returns (internalTid: nat)
      requires Valid()
      modifies this
      ensures Valid() && (State(), internalTid) == NameThreads(old(State()), tid, name)
    {
      var list := TidsOf(tid);
      LastOfRange(State(), tid, |threads|);
      if list != [] {
        internalTid := list[|list| - 1];
        if name != 0 {
          RenameThreads(tid, name);
        }
      } else {
        internalTid := NewInternalThread(tid);
        ghost var before := threads;
        threads := threads[internalTid := threads[internalTid].(name := name)];
        KeepsIndex(before);
        assert threads == old(threads) + [Thread(tid, None, name, 0)];
      }
    }
  }
}
