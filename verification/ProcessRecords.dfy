/** The start times and names of processes and threads: which operation gave them
    (trace_streamer/src/filter/process_filter.cpp:28-34, 81-192 and 212-263). */
module ProcessRecords {
  import opened Words
  import opened ProcessFilter
  import opened ProcessIdentity

  /** No thread has a start time; the filter never gives one a time other than 0. */
  ghost predicate Unstarted(w: World) {
    forall i :: 0 <= i < |w.threads| ==> w.threads[i].startT == 0
  }

  /** Names stay, and what is new has none. */
  ghost predicate Quiet(w: World, r: World) {
    && |w.threads| <= |r.threads| && |w.processes| <= |r.processes|
    && (forall i :: 0 <= i < |r.threads| ==> r.threads[i].name == if i < |w.threads| then w.threads[i].name else 0)
    && (forall x :: 0 <= x < |r.processes| ==> r.processes[x].name == if x < |w.processes| then w.processes[x].name else 0)
  }

  function StartOf(w: World, x: nat): (ts: u64) {
    if x < |w.processes| then w.processes[x].startT else 0
  }

  /** Start times stay, but that of process x, which takes the given one if it has none. */
  ghost predicate StartsBut(w: World, r: World, ipid: nat, startT: u64) {
    forall x: nat :: x < |r.processes| ==>
      StartOf(r, x) == if x == ipid && StartOf(w, x) == 0 then startT else StartOf(w, x)
  }

  ghost predicate SameStarts(w: World, r: World) {
    forall x: nat :: x < |r.processes| ==> StartOf(r, x) == StartOf(w, x)
  }

  lemma {:induction false} GetOrCreateQuiet(w: World, tid: u32, pid: u32)
    requires Formed(w) && Unstarted(w)
    ensures var r := GetOrCreate(w, tid, pid).0;
            Quiet(w, r) && Unstarted(r) && SameStarts(w, r)
    decreases if pid in w.pids then 0 else 1, 1
  {
    hide *;
    var (w1, itid) := Chosen(w, tid, pid);
    ChosenQuiet(w, tid, pid);
    ChosenThen(w, tid, pid);
    if w1.threads[itid].ipid.None? && pid != 0 {
      CreateProcessQuiet(w1, pid, 0);
      var (w2, ipid) := CreateProcess(w1, pid, 0);
      BindQuiet(w2, itid, ipid);
      QuietTransitive(w, w1, w2);
      QuietTransitive(w, w2, Bind(w2, itid, ipid));
      BoundStarts(w, w1, w2, Bind(w2, itid, ipid), ipid);
    } else {
      SameProcesses(w, w1);
    }
  }

  lemma ChosenQuiet(w: World, tid: u32, pid: u32)
    requires Formed(w) && Unstarted(w)
    ensures var (w1, itid) := Chosen(w, tid, pid);
            && Quiet(w, w1) && Unstarted(w1) && w1.processes == w.processes && w1.pids == w.pids
            && w1.threads[itid].startT == 0
  {
  }

  lemma {:induction false} ChosenThen(w: World, tid: u32, pid: u32)
    requires Formed(w)
    ensures var (w1, itid) := Chosen(w, tid, pid);
            GetOrCreate(w, tid, pid) ==
            if w1.threads[itid].ipid.Some? || pid == 0 then (w1, itid)
            else var (w2, ipid) := CreateProcess(w1, pid, w1.threads[itid].startT);
                 (Bind(w2, itid, ipid), itid)
  {
  }

  lemma SameProcesses(w: World, r: World)
    requires r.processes == w.processes
    ensures SameStarts(w, r)
  {
  }

  lemma BoundStarts(w: World, w1: World, w2: World, r: World, ipid: nat)
    requires w1.processes == w.processes && StartsBut(w1, w2, ipid, 0) && r.processes == w2.processes
    ensures SameStarts(w, r)
  {
    forall x: nat | x < |r.processes| ensures StartOf(r, x) == StartOf(w, x) {
      assert StartOf(w2, x) == StartOf(w1, x);
    }
  }

  lemma BindQuiet(w: World, itid: nat, ipid: nat)
    requires itid < |w.threads| && Unstarted(w)
    ensures var r := Bind(w, itid, ipid);
            Quiet(w, r) && Unstarted(r) && r.processes == w.processes
  {
  }

  lemma QuietTransitive(a: World, b: World, c: World)
    requires Quiet(a, b) && Quiet(b, c)
    ensures Quiet(a, c)
  {
  }

  lemma BeginStarts(w: World, ipid: nat, startT: u64)
    requires ipid < |w.processes|
    ensures var r := Begin(w, ipid, startT);
            Quiet(w, r) && r.threads == w.threads && |r.processes| == |w.processes| && StartsBut(w, r, ipid, startT)
  {
  }

  /** CreateProcessMaybe: afterwards the process has the start time it had, or else the given one. */
  lemma {:induction false} CreateProcessQuiet(w: World, pid: u32, startT: u64)
    requires Formed(w) && Unstarted(w)
    ensures var (r, ipid) := CreateProcess(w, pid, startT);
            && Quiet(w, r) && Unstarted(r) && ipid < |r.processes| && StartsBut(w, r, ipid, startT)
    decreases if pid in w.pids then 0 else 1, 0
  {
    if pid in w.pids {
      BeginStarts(w, w.pids[pid], startT);
    } else {
      var w1 := NewProcess(w, pid);
      assert Quiet(w, w1) && Unstarted(w1) && SameStarts(w, w1);
      GetOrCreateQuiet(w1, pid, pid);
      var w2 := GetOrCreate(w1, pid, pid).0;
      BeginStarts(w2, |w.processes|, startT);
      hide GetOrCreate, Begin, NewProcess, Formed;
      QuietTransitive(w, w1, w2);
      QuietTransitive(w, w2, Begin(w2, |w.processes|, startT));
      NewStart(w, w1, w2, Begin(w2, |w.processes|, startT), startT);
    }
  }

  lemma NewStart(w: World, w1: World, w2: World, r: World, startT: u64)
    requires |w1.processes| <= |w2.processes| == |r.processes|
    requires SameStarts(w, w1) && SameStarts(w1, w2) && StartsBut(w2, r, |w.processes|, startT)
    requires |w1.processes| == |w.processes| + 1
    ensures StartsBut(w, r, |w.processes|, startT)
  {
    forall x: nat | x < |r.processes|
      ensures StartOf(r, x) == if x == |w.processes| && StartOf(w, x) == 0 then startT else StartOf(w, x)
    {
      assert StartOf(w2, x) == StartOf(w1, x);
      assert x < |w1.processes| ==> StartOf(w1, x) == StartOf(w, x);
    }
  }

  // ---------------------------------------------------------------------------
  // Naming
  // ---------------------------------------------------------------------------

  function NameOfThread(w: World, i: nat): (name: u64) {
    if i < |w.threads| then w.threads[i].name else 0
  }

  function NameOfProcess(w: World, x: nat): (name: u64) {
    if x < |w.processes| then w.processes[x].name else 0
  }

  /** The main thread of a process is found. */
  lemma {:induction false} MainFound(w: World, pid: u32, i: nat)
    requires Valid(w) && pid in w.pids && i < |w.threads|
    ensures IsMain(w, i, pid) <==> Find(w, pid, pid, |w.threads|) == Some(i)
  {
    assert HasMain(w, pid);
    var m: nat :| IsMain(w, m, pid);
    BoundIsRegistered(w, m, pid);
    assert Fits(w, m, pid, pid);
    var x := Find(w, pid, pid, |w.threads|).value;
    BoundIsRegistered(w, x, pid);
    assert x == m;
  }

  /** Naming a process names it and its main thread, and no other. */
  lemma LabelNames(w: World, pid: u32, name: u64)
    requires Valid(w) && pid in w.pids
    ensures var r, ipid := Label(w, pid, w.pids[pid], name), w.pids[pid];
            && |r.threads| == |w.threads| && |r.processes| == |w.processes| && r.pids == w.pids
            && (forall x :: 0 <= x < |r.processes| ==>
                  r.processes[x] == w.processes[x].(name := if x == ipid && name != 0 then name else w.processes[x].name))
            && (forall i :: 0 <= i < |r.threads| ==>
                  r.threads[i] == w.threads[i].(name := if IsMain(w, i, pid) then r.processes[ipid].name else w.threads[i].name))
  {
    var ipid := w.pids[pid];
    var w1 := if name != 0 then w.(processes := w.processes[ipid := w.processes[ipid].(name := name)]) else w;
    RelabelledValid(w, ipid, name);
    forall i | 0 <= i < |w.threads| ensures IsMain(w, i, pid) <==> Find(w1, pid, pid, |w1.threads|) == Some(i) {
      MainFound(w1, pid, i);
      hide Valid, Find, Distinct, Manned;
    }
    hide IsMain, Valid, Find, Distinct, Manned, Formed;
  }

  lemma RelabelledValid(w: World, ipid: nat, name: u64)
    requires Valid(w) && ipid < |w.processes|
    ensures Valid(w.(processes := w.processes[ipid := w.processes[ipid].(name := name)]))
  {
    var r := w.(processes := w.processes[ipid := w.processes[ipid].(name := name)]);
    assert SameBindings(w, r);
    hide SameBindings, Manned;
    SameKeeps(w, r);
  }

  lemma {:induction false} NameThreadsQuiet(w: World, tid: u32, name: u64)
    requires Formed(w) && Unstarted(w)
    ensures var r := NameThreads(w, tid, name).0;
            Unstarted(r) && r.processes == w.processes
  {
  }

  lemma NameProcessQuiet(w: World, pid: u32, name: u64)
    requires Valid(w) && Unstarted(w)
    ensures var r := NameProcess(w, pid, name).0;
            Unstarted(r) && SameStarts(w, r)
  {
    assert Formed(w);
    hide CreateProcess, Label, Valid, Extends, Quiet, Formed, StartOf, Unstarted;
    CreateProcessQuiet(w, pid, 0);
    CreateProcessEffect(w, pid, 0);
    var w1, ipid := CreateProcess(w, pid, 0).0, CreateProcess(w, pid, 0).1;
    LabelStarts(w1, pid, ipid, name);
  }

  lemma LabelStarts(w: World, pid: u32, ipid: nat, name: u64)
    requires Formed(w) && ipid < |w.processes| && Unstarted(w)
    ensures var r := Label(w, pid, ipid, name);
            Unstarted(r) && |r.processes| == |w.processes| && SameStarts(w, r)
  {
    hide Find;
  }

  lemma NamedThread(w: World, x: nat, name: u64)
    requires Valid(w) && Unstarted(w) && x < |w.threads|
    ensures var r := w.(threads := w.threads[x := w.threads[x].(name := name)]);
            Valid(r) && Extends(w, r) && Formed(r) && Unstarted(r)
  {
    SameButName(w, w.(threads := w.threads[x := w.threads[x].(name := name)]), x, name);
    hide Valid, Extends;
  }

  lemma NameThreadOfQuiet(w: World, tid: u32, pid: u32, name: u64)
    requires Valid(w) && Unstarted(w)
    ensures var r := NameThreadOf(w, tid, pid, name).0;
            Unstarted(r) && SameStarts(w, r)
  {
    assert Formed(w);
    GetOrCreateQuiet(w, tid, pid);
    GetOrCreateEffect(w, tid, pid);
    hide GetOrCreate, NameProcess, Valid, Extends;
    var (w1, x) := GetOrCreate(w, tid, pid);
    var w2 := w1.(threads := w1.threads[x := w1.threads[x].(name := name)]);
    NamedThread(w1, x, name);
    SameProcesses(w1, w2);
    StartsTransitive(w, w1, w2);
    if tid == pid {
      NameProcessQuiet(w2, pid, name);
      NameProcessEffect(w2, pid, name);
      MoreProcesses(w2, NameProcess(w2, pid, name).0);
      StartsTransitive(w, w2, NameProcess(w2, pid, name).0);
    }
  }

  lemma MoreProcesses(w: World, r: World)
    requires Extends(w, r)
    ensures |w.processes| <= |r.processes|
  {
  }

  lemma StartsTransitive(a: World, b: World, c: World)
    requires SameStarts(a, b) && SameStarts(b, c) && |a.processes| <= |b.processes| <= |c.processes|
    ensures SameStarts(a, c)
  {
    forall x: nat | x < |c.processes| ensures StartOf(c, x) == StartOf(a, x) {
      assert StartOf(c, x) == StartOf(b, x);
      assert x < |b.processes| ==> StartOf(b, x) == StartOf(a, x);
    }
  }

  // ---------------------------------------------------------------------------
  // Start times over every run
  // ---------------------------------------------------------------------------

  /** Start times stay, and those of new processes are the given one. */
  ghost predicate NewStarts(w: World, r: World, startT: u64) {
    forall x: nat :: x < |r.processes| ==> StartOf(r, x) == if x >= |w.processes| then startT else StartOf(w, x)
  }

  lemma SameIsNew(w: World, r: World)
    requires SameStarts(w, r)
    ensures NewStarts(w, r, 0)
  {
  }

  /** An operation gives no start time but that of a process it registers, and only GetProcess a time
      other than 0. */
  lemma StepStarts(w: World, op: Op)
    requires Valid(w) && Unstarted(w)
    ensures Unstarted(Step(w, op).0)
    ensures NewStarts(w, Step(w, op).0, if op.GetProcess? then op.startT else 0)
  {
    assert Formed(w);
    hide Valid, GetOrCreate, CreateProcess, NameThreads, NameProcess, NameThreadOf, NewStarts, SameStarts;
    var r := Step(w, op).0;
    match op {
      case GetThread(tid, pid) =>
        GetOrCreateQuiet(w, tid, pid);
        SameIsNew(w, r);
      case GetProcess(pid, startT) =>
        GetProcessStarts(w, pid, startT);
      case SetThreadName(tid, name) =>
        NameThreadsQuiet(w, tid, name);
        SameProcesses(w, r);
        SameIsNew(w, r);
      case SetProcessName(pid, name) =>
        NameProcessQuiet(w, pid, name);
        SameIsNew(w, r);
      case SetThreadNameOf(tid, pid, name) =>
        NameThreadOfQuiet(w, tid, pid, name);
        SameIsNew(w, r);
    }
  }

  lemma GetProcessStarts(w: World, pid: u32, startT: u64)
    requires Valid(w) && Unstarted(w)
    ensures var r := Step(w, GetProcess(pid, startT)).0;
            Unstarted(r) && NewStarts(w, r, startT)
  {
    if pid !in w.pids {
      NewProcessStarts(w, pid, startT);
    }
    hide CreateProcess;
  }

  lemma {:induction false} NewProcessStarts(w: World, pid: u32, startT: u64)
    requires Valid(w) && Unstarted(w) && pid !in w.pids
    ensures var r := CreateProcess(w, pid, startT).0;
            Unstarted(r) && NewStarts(w, r, startT)
  {
    var (r, ipid) := CreateProcess(w, pid, startT);
    assert ipid == |w.processes| && Formed(w) && Distinct(w) && pid != 0;
    hide CreateProcess, Distinct, Extends, Valid, Quiet, IsMain, Formed, StartOf, Unstarted;
    CreateProcessQuiet(w, pid, startT);
    var m := CreateEffect(w, pid, startT);
    forall x: nat | x < |r.processes| ensures StartOf(r, x) == if x >= |w.processes| then startT else StartOf(w, x) {
      OneMore(w, r, pid, x);
      NoStartYet(w, x);
      assert StartOf(r, x) == if x == ipid && StartOf(w, x) == 0 then startT else StartOf(w, x);
    }
  }

  lemma NoStartYet(w: World, x: nat)
    ensures x >= |w.processes| ==> StartOf(w, x) == 0
  {
  }

  lemma OneMore(w: World, r: World, pid: u32, x: nat)
    requires Formed(w) && Distinct(r) && r.pids == w.pids[pid := |w.processes|] && x < |r.processes|
    ensures x <= |w.processes|
  {
    assert r.pids[r.processes[x].pid] == x;
  }

  lemma {:induction false} RunUnstarted(ops: seq<Op>, n: nat)
    requires n <= |ops|
    ensures Unstarted(Run(ops, n))
  {
    hide Step, Valid;
    if n > 0 {
      RunUnstarted(ops, n - 1);
      RunValid(ops, n - 1);
      StepStarts(Run(ops, n - 1), ops[n - 1]);
    }
  }

  /** Operation k registers the pid. */
  ghost predicate Registers(ops: seq<Op>, k: nat, pid: u32) {
    k < |ops| && pid !in Run(ops, k).pids && pid in Run(ops, k + 1).pids
  }

  /** Every registered pid was registered by an operation, but for pid 0. */
  lemma {:induction false} Registration(ops: seq<Op>, n: nat, pid: u32) returns (k: nat)
    requires n <= |ops| && pid != 0 && pid in Run(ops, n).pids
    ensures k < n && Registers(ops, k, pid)
  {
    hide Step;
    k := 0;
    if n > 0 && pid in Run(ops, n - 1).pids {
      k := Registration(ops, n - 1, pid);
    } else if n > 0 {
      k := n - 1;
    }
  }

  lemma NewIndex(w: World, r: World, pid: u32)
    requires Distinct(w) && Distinct(r) && Extends(w, r) && pid !in w.pids && pid in r.pids
    ensures |w.processes| <= r.pids[pid] < |r.processes|
  {
    assert forall x :: 0 <= x < |w.processes| ==> SameProcess(w.processes[x], r.processes[x]);
  }

  lemma {:induction false} GivenAtRegistration(ops: seq<Op>, k: nat, pid: u32)
    requires Registers(ops, k, pid)
    ensures var r := Run(ops, k + 1);
            && r.pids[pid] < |r.processes|
            && r.processes[r.pids[pid]].startT == if ops[k].GetProcess? then ops[k].startT else 0
  {
    RunValid(ops, k);
    RunUnstarted(ops, k);
    var w, op := Run(ops, k), ops[k];
    StepStarts(w, op);
    StepEffect(w, op);
    RunNext(ops, k);
    hide Step, Run, Extends, Unstarted, Manned, Distinct;
    var r := Run(ops, k + 1);
    NewIndex(w, r, pid);
    assert StartOf(r, r.pids[pid]) == if op.GetProcess? then op.startT else 0;
  }

  lemma {:induction false} StepKeepsStart(ops: seq<Op>, n: nat, pid: u32)
    requires n < |ops| && pid in Run(ops, n).pids
    ensures var w, r := Run(ops, n), Run(ops, n + 1);
            && pid in r.pids && w.pids[pid] < |w.processes| && r.pids[pid] < |r.processes|
            && r.processes[r.pids[pid]].startT == w.processes[w.pids[pid]].startT
  {
    RunValid(ops, n);
    RunUnstarted(ops, n);
    var w, op := Run(ops, n), ops[n];
    StepStarts(w, op);
    StepEffect(w, op);
    RunNext(ops, n);
    hide Step, Run, Unstarted, Manned;
    var r := Run(ops, n + 1);
    assert StartOf(r, w.pids[pid]) == StartOf(w, w.pids[pid]);
  }

  /** Main result on start times, over every run: a process has the one given by the operation that
      registered it, which is 0 unless that was GetProcess. */
  lemma {:induction false} StartIsRegistered(ops: seq<Op>, k: nat, n: nat, pid: u32)
    requires Registers(ops, k, pid) && k < n <= |ops|
    ensures var w := Run(ops, n);
            && pid in w.pids && w.pids[pid] < |w.processes|
            && w.processes[w.pids[pid]].startT == if ops[k].GetProcess? then ops[k].startT else 0
    decreases n
  {
    hide Run;
    if n == k + 1 {
      GivenAtRegistration(ops, k, pid);
    } else {
      StartIsRegistered(ops, k, n - 1, pid);
      StepKeepsStart(ops, n - 1, pid);
    }
  }

  /** GetProcess registers no pid but its own. */
  lemma {:induction false} GetProcessRegisters(ops: seq<Op>, k: nat, pid: u32)
    requires Registers(ops, k, pid) && ops[k].GetProcess?
    ensures ops[k].pid == pid
  {
    RunValid(ops, k);
    RunNext(ops, k);
    var w, p := Run(ops, k), ops[k].pid;
    hide Run;
    if p !in w.pids {
      var m := CreateEffect(w, p, ops[k].startT);
      hide CreateProcess;
    }
  }

  // ---------------------------------------------------------------------------
  // Names
  // ---------------------------------------------------------------------------

  /** Whether the operation names a process, and which name it gives. */
  predicate NamesProcess(op: Op) {
    op.SetProcessName? || (op.SetThreadNameOf? && op.tid == op.pid)
  }

  /** The name of process x behind an operation, from its name before. */
  function ProcessNameAfter(r: World, op: Op, x: nat, before: u64): (name: u64) {
    if NamesProcess(op) && op.pid in r.pids && r.pids[op.pid] == x && op.name != 0 then op.name else before
  }

  /** The name of thread i behind an operation that returned thread x, from its name before. A main
      thread follows its process. */
  ghost function ThreadNameAfter(r: World, op: Op, x: nat, i: nat, before: u64): (name: u64)
    requires i < |r.threads|
  {
    if NamesProcess(op) && IsMain(r, i, op.pid) then NameOfProcess(r, r.pids[op.pid])
    else if op.SetThreadNameOf? && i == x then op.name
    else if op.SetThreadName? && r.threads[i].tid == op.tid && op.name != 0 then op.name
    else before
  }

  ghost predicate NamesAfter(w: World, op: Op, r: World, x: nat) {
    && (forall y: nat :: y < |r.processes| ==> NameOfProcess(r, y) == ProcessNameAfter(r, op, y, NameOfProcess(w, y)))
    && (forall i: nat :: i < |r.threads| ==> NameOfThread(r, i) == ThreadNameAfter(r, op, x, i, NameOfThread(w, i)))
  }

  lemma QuietNames(w: World, op: Op, r: World, x: nat)
    requires Quiet(w, r) && (op.GetThread? || op.GetProcess?)
    ensures NamesAfter(w, op, r, x)
  {
  }

  lemma ThreadsNamed(w: World, tid: u32, name: u64)
    requires Formed(w)
    ensures var (r, x) := NameThreads(w, tid, name);
            NamesAfter(w, SetThreadName(tid, name), r, x)
  {
    var (r, x) := NameThreads(w, tid, name);
    assert r.processes == w.processes;
    if name != 0 {
      forall i: nat | i < |r.threads|
        ensures r.threads[i].name == if r.threads[i].tid == tid then name else NameOfThread(w, i)
      {
        NameThreadsSets(w, tid, name, i);
      }
    }
    hide NameThreads;
  }

  /** Labelling after a quiet change. */
  lemma LabelledNames(w: World, w1: World, op: Op, x: nat)
    requires Valid(w1) && Quiet(w, w1) && op.SetProcessName? && op.pid in w1.pids
    ensures NamesAfter(w, op, Label(w1, op.pid, w1.pids[op.pid], op.name), x)
  {
    var r := Label(w1, op.pid, w1.pids[op.pid], op.name);
    LabelNames(w1, op.pid, op.name);
    hide Label, Valid;
    forall i: nat | i < |r.threads| ensures IsMain(r, i, op.pid) <==> IsMain(w1, i, op.pid) {
    }
  }

  lemma ProcessNamed(w: World, pid: u32, name: u64)
    requires Valid(w) && Unstarted(w)
    ensures var (r, x) := NameProcess(w, pid, name);
            NamesAfter(w, SetProcessName(pid, name), r, x)
  {
    assert Formed(w);
    CreateProcessQuiet(w, pid, 0);
    CreateProcessEffect(w, pid, 0);
    hide CreateProcess, Label, Valid, Extends, Quiet, NamesAfter;
    var (w1, ipid) := CreateProcess(w, pid, 0);
    LabelledNames(w, w1, SetProcessName(pid, name), ipid);
  }

  /** A thread is named first, and then its process if it is a main thread. */
  lemma BothNamed(w: World, w2: World, r: World, x: nat, tid: u32, pid: u32, name: u64, y: nat)
    requires |w.threads| <= |w2.threads| <= |r.threads| && |w2.processes| <= |r.processes|
    requires forall i: nat :: i < |w2.threads| ==> NameOfThread(w2, i) == if i == x then name else NameOfThread(w, i)
    requires forall i: nat :: i < |w2.processes| ==> NameOfProcess(w2, i) == NameOfProcess(w, i)
    requires |w.processes| <= |w2.processes| && x < |w2.threads|
    requires if tid == pid then NamesAfter(w2, SetProcessName(pid, name), r, y) else r == w2
    ensures NamesAfter(w, SetThreadNameOf(tid, pid, name), r, x)
  {
    if tid == pid {
      forall i: nat | i < |r.processes|
        ensures NameOfProcess(r, i) == ProcessNameAfter(r, SetThreadNameOf(tid, pid, name), i, NameOfProcess(w, i))
      {
        assert NameOfProcess(r, i) == ProcessNameAfter(r, SetProcessName(pid, name), i, NameOfProcess(w2, i));
        assert i < |w2.processes| ==> NameOfProcess(w2, i) == NameOfProcess(w, i);
      }
      forall i: nat | i < |r.threads|
        ensures NameOfThread(r, i) == ThreadNameAfter(r, SetThreadNameOf(tid, pid, name), x, i, NameOfThread(w, i))
      {
        assert NameOfThread(r, i) == ThreadNameAfter(r, SetProcessName(pid, name), y, i, NameOfThread(w2, i));
        assert i < |w2.threads| ==> NameOfThread(w2, i) == if i == x then name else NameOfThread(w, i);
      }
    }
  }

  lemma NamedAfterQuiet(w: World, w1: World, x: nat, name: u64)
    requires Quiet(w, w1) && x < |w1.threads|
    ensures var w2 := w1.(threads := w1.threads[x := w1.threads[x].(name := name)]);
            && (forall i: nat :: i < |w2.threads| ==> NameOfThread(w2, i) == if i == x then name else NameOfThread(w, i))
            && (forall i: nat :: i < |w2.processes| ==> NameOfProcess(w2, i) == NameOfProcess(w, i))
  {
  }

  lemma ThreadOfNamed(w: World, tid: u32, pid: u32, name: u64)
    requires Valid(w) && Unstarted(w)
    ensures var (r, x) := NameThreadOf(w, tid, pid, name);
            NamesAfter(w, SetThreadNameOf(tid, pid, name), r, x)
  {
    assert Formed(w);
    GetOrCreateQuiet(w, tid, pid);
    GetOrCreateEffect(w, tid, pid);
    var (w1, x) := GetOrCreate(w, tid, pid);
    assert |w.threads| <= |w1.threads| && |w.processes| <= |w1.processes|;
    hide GetOrCreate, NameProcess, Valid, Extends, Quiet, NamesAfter, Formed;
    var w2 := w1.(threads := w1.threads[x := w1.threads[x].(name := name)]);
    NamedThread(w1, x, name);
    NamedAfterQuiet(w, w1, x, name);
    var r := NameThreadOf(w, tid, pid, name).0;
    var y := if tid == pid then NameProcess(w2, pid, name).1 else 0;
    if tid == pid {
      ProcessNamed(w2, pid, name);
      NameProcessEffect(w2, pid, name);
      MoreOfBoth(w2, r);
    }
    BothNamed(w, w2, r, x, tid, pid, name, y);
  }

  lemma MoreOfBoth(w: World, r: World)
    requires Extends(w, r)
    ensures |w.threads| <= |r.threads| && |w.processes| <= |r.processes|
  {
  }

  /** Main result on names: an operation names the process it is about and its main thread, or the
      thread or threads it is about, and leaves every other name. */
  lemma StepNames(w: World, op: Op)
    requires Valid(w) && Unstarted(w)
    ensures NamesAfter(w, op, Step(w, op).0, Step(w, op).1)
  {
    assert Formed(w);
    hide Valid, GetOrCreate, CreateProcess, NameThreads, NameProcess, NameThreadOf, NamesAfter;
    match op {
      case GetThread(tid, pid) =>
        GetOrCreateQuiet(w, tid, pid);
        QuietNames(w, op, Step(w, op).0, Step(w, op).1);
      case GetProcess(pid, startT) =>
        CreateProcessQuiet(w, pid, startT);
        QuietNames(w, op, Step(w, op).0, Step(w, op).1);
      case SetThreadName(tid, name) => ThreadsNamed(w, tid, name);
      case SetProcessName(pid, name) => ProcessNamed(w, pid, name);
      case SetThreadNameOf(tid, pid, name) => ThreadOfNamed(w, tid, pid, name);
    }
  }

  /** Over every run. */
  lemma {:induction false} RunNames(ops: seq<Op>, n: nat)
    requires n < |ops|
    ensures NamesAfter(Run(ops, n), ops[n], Run(ops, n + 1), Step(Run(ops, n), ops[n]).1)
  {
    hide Step, Valid, Unstarted, NamesAfter;
    RunValid(ops, n);
    RunUnstarted(ops, n);
    StepNames(Run(ops, n), ops[n]);
  }
}
