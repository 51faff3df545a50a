/** The address range that replacing a symbol table invalidates, and exactly when it
    reaches all maps of the file
    (trace_streamer/src/filter/native_hook_filter.cpp:670-680). */
module TableScan {
  import opened Words
  import opened AddressMaps
  import opened NativeHook

  /** The scanned range reaches every map of the file. */
  ghost predicate ScanCovers(ms: seq<MapsInfo>, file: u32) {
    var (start, end) := TableRange(ms, file, 0, INVALID_UINT32, 0);
    forall i :: 0 <= i < |ms| && ms[i].file == file ==> start <= ms[i].start && ms[i].end <= end
  }

  /** The position of the first map of a file. */
  function FirstOf(ms: seq<MapsInfo>, file: u32, i: nat): (r: nat)
    requires i <= |ms|
    ensures i <= r <= |ms|
    ensures forall j :: i <= j < r ==> ms[j].file != file
    ensures r < |ms| ==> ms[r].file == file
    decreases |ms| - i
  {
    if i == |ms| || ms[i].file == file then i else FirstOf(ms, file, i + 1)
  }

  /** The file has no maps, or its first map starts at or above the scan's sentinel, or its
      first run of maps is its only one. */
  ghost predicate Reachable(ms: seq<MapsInfo>, file: u32) {
    var a := FirstOf(ms, file, 0);
    || a == |ms|
    || INVALID_UINT32 <= ms[a].start
    || forall k :: RunEnd(ms, a + 1, file) <= k < |ms| ==> ms[k].file != file
  }

  /** Once a low start is found the scan ends with the run. */
  lemma {:induction false} ScanRun(ms: seq<MapsInfo>, file: u32, i: nat, start: u64, end: u64)
    requires WellFormed(ms) && 0 < i <= |ms| && start < INVALID_UINT32
    requires start <= ms[i - 1].start && end == ms[i - 1].end
    ensures TableRange(ms, file, i, start, end) == (start, ms[RunEnd(ms, i, file) - 1].end)
    decreases |ms| - i
  {
    if i < |ms| && ms[i].file == file {
      assert ms[i - 1].end <= ms[i].start < ms[i].end;
      ScanRun(ms, file, i + 1, start, ms[i].end);
    }
  }

  /** Above the sentinel the scan never stops early. */
  lemma {:induction false} ScanHigh(ms: seq<MapsInfo>, file: u32, i: nat, end: u64)
    requires i <= |ms|
    requires forall j :: i <= j < |ms| ==> INVALID_UINT32 <= ms[j].start
    ensures var r := TableRange(ms, file, i, INVALID_UINT32, end);
            r.0 == INVALID_UINT32 && end <= r.1 &&
            forall j :: i <= j < |ms| && ms[j].file == file ==> ms[j].end <= r.1
    decreases |ms| - i
  {
    if i < |ms| {
      ScanHigh(ms, file, i + 1, if ms[i].file == file then Max(ms[i].end, end) else end);
    }
  }

  /** The scan skips what comes before the first map of the file. */
  lemma {:induction false} ScanSkips(ms: seq<MapsInfo>, file: u32, i: nat)
    requires i <= |ms| && forall j :: 0 <= j < i ==> ms[j].file != file
    ensures TableRange(ms, file, 0, INVALID_UINT32, 0) == TableRange(ms, file, i, INVALID_UINT32, 0)
  {
    if i > 0 {
      ScanSkips(ms, file, i - 1);
    }
  }

  /** Where the scan ends when the file starts low at position a. */
  lemma LowRange(ms: seq<MapsInfo>, file: u32, a: nat)
    requires WellFormed(ms) && a < |ms| && ms[a].file == file && ms[a].start < INVALID_UINT32
    requires forall j :: 0 <= j < a ==> ms[j].file != file
    ensures TableRange(ms, file, 0, INVALID_UINT32, 0) == (ms[a].start, ms[RunEnd(ms, a + 1, file) - 1].end)
  {
    ScanSkips(ms, file, a);
    ScanRun(ms, file, a + 1, ms[a].start, ms[a].end);
  }

  lemma {:induction false} LowCoversIff(ms: seq<MapsInfo>, file: u32, a: nat)
    requires WellFormed(ms) && Sorted(ms) && a < |ms| && ms[a].file == file && ms[a].start < INVALID_UINT32
    requires forall j :: 0 <= j < a ==> ms[j].file != file
    ensures ScanCovers(ms, file) <==> forall k :: RunEnd(ms, a + 1, file) <= k < |ms| ==> ms[k].file != file
  {
    LowRange(ms, file, a);
    var e := RunEnd(ms, a + 1, file);
    assert forall k :: a <= k < e ==> ms[a].start <= ms[k].start && ms[k].end <= ms[e - 1].end by {
      forall k | a <= k < e ensures ms[a].start <= ms[k].start && ms[k].end <= ms[e - 1].end {
        assert k == a || ms[a].start < ms[k].start;
        assert k == e - 1 || ms[k].end <= ms[e - 1].start < ms[e - 1].end;
      }
    }
    assert forall k :: e <= k < |ms| ==> ms[e - 1].end < ms[k].end;
  }

  /** The scan of a replaced table reaches all maps of its file exactly when they form one
      run or start at or above INVALID_UINT32. */
  lemma ScanCoversIff(ms: seq<MapsInfo>, file: u32)
    requires WellFormed(ms) && Sorted(ms)
    ensures ScanCovers(ms, file) <==> Reachable(ms, file)
  {
    var a := FirstOf(ms, file, 0);
    if a < |ms| && ms[a].start < INVALID_UINT32 {
      LowCoversIff(ms, file, a);
    } else if a < |ms| {
      ScanSkips(ms, file, a);
      assert forall j :: a <= j < |ms| ==> INVALID_UINT32 <= ms[j].start;
      ScanHigh(ms, file, a, 0);
    }
  }

  /** A file mapped below and above another one: the scan ends with the first of its maps. */
  lemma ScanMisses()
    ensures var ms := [MapsInfo(0x1000, 0x2000, 0, 7), MapsInfo(0x2000, 0x3000, 0, 8), MapsInfo(0x3000, 0x4000, 0, 7)];
            WellFormed(ms) && TableRange(ms, 7, 0, INVALID_UINT32, 0) == (0x1000, 0x2000) && !ScanCovers(ms, 7)
  {
    var ms := [MapsInfo(0x1000, 0x2000, 0, 7), MapsInfo(0x2000, 0x3000, 0, 8), MapsInfo(0x3000, 0x4000, 0, 7)];
    LowRange(ms, 7, 0);
    assert RunEnd(ms, 1, 7) == 1;
    assert ms[2].file == 7 && ms[2].end == 0x4000;
  }
}
