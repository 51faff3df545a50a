/** What a lookup puts into a frame, said of the maps and the symbol table alone
    (trace_streamer/src/filter/offline_symbolization_filter.cpp:39-148 and
    trace_streamer/src/filter/native_hook_filter.cpp:627-640). */
module SymbolFrames {
  import opened Words
  import opened AddressMaps
  import opened Symbolization
  import opened NativeHook
  import opened CacheCoherence

  /** A symbol that can be found: the second bit of its info is set and its value is not 0. */
  ghost predicate Function(t: SymbolTable, i: nat) {
    i < |t.syms| && t.syms[i].info % 4 >= 2 && t.syms[i].value != 0
  }

  /** Entry i is the function symbol with the greatest value up to v, the last of that value. */
  ghost predicate Precedes(t: SymbolTable, i: nat, v: u64) {
    && Function(t, i) && t.syms[i].value <= v
    && forall j: nat :: Function(t, j) && t.syms[j].value <= v ==>
         t.syms[j].value < t.syms[i].value || (t.syms[j].value == t.syms[i].value && j <= i)
  }

  /** The symbol reaches to v: its end is computed in the width of the entry. */
  ghost predicate Reaches(t: SymbolTable, s: ElfSym, v: u64) {
    var end := s.value + s.size;
    v <= if t.is32 then end % 0x1_0000_0000 else end % 0x1_0000_0000_0000_0000
  }

  /** The bytes from start up to the first 0 or the end. */
  ghost predicate StringAt(strtab: seq<u8>, start: nat, name: seq<u8>) {
    && start + |name| <= |strtab| && strtab[start..start + |name|] == name && 0 !in name
    && (start + |name| == |strtab| || strtab[start + |name|] == 0)
  }

  ghost predicate NamedBy(t: SymbolTable, s: ElfSym, v: u64) {
    Reaches(t, s, v) && s.name < |t.strtab| && s.name != 0xffff_ffff
  }

  /** The two virtual addresses are as far apart as the two file offsets. */
  ghost predicate Shifted(m: MapsInfo, t: SymbolTable, ip: u64, v: u64) {
    ((v - t.textVaddr) - ((ip - m.start + m.offset) - t.textOffset)) % 0x1_0000_0000_0000_0000 == 0
  }

  /** The frame of an ip in map m whose file has the table t. */
  ghost predicate Symbolizes(f: FrameInfo, m: MapsInfo, t: SymbolTable, ip: u64) {
    && Shifted(m, t, ip, f.symVaddr)
    && ((forall i: nat :: !Function(t, i)) ==> f.symbol.None? && f.offset == f.symbolOffset == INVALID_UINT64)
    && (forall i: nat :: Precedes(t, i, f.symVaddr) && NamedBy(t, t.syms[i], f.symVaddr) ==>
          && f.symbol.Some? && StringAt(t.strtab, t.syms[i].name, f.symbol.value)
          && f.offset == t.syms[i].value && f.offset + f.symbolOffset == f.symVaddr)
    && ((exists i: nat :: Function(t, i)) && (forall i: nat :: Precedes(t, i, f.symVaddr) ==> !NamedBy(t, t.syms[i], f.symVaddr)) ==>
          f.symbol.None? && f.offset == ip && f.symbolOffset == 0)
  }

  /** The frame of an ip in map m. */
  ghost predicate Describes(f: FrameInfo, m: MapsInfo, tables: map<u32, SymbolTable>, ip: u64) {
    && f.file == m.file && f.ip == ip
    && if m.file in tables then Symbolizes(f, m, tables[m.file], ip)
       else f.symbol.None? && f.offset == f.symbolOffset == f.symVaddr == INVALID_UINT64
  }

  lemma SecondBit(s: ElfSym)
    ensures s.info / 2 % 2 == 1 <==> s.info % 4 >= 2
  {
  }

  lemma FunctionIs(t: SymbolTable, i: nat)
    requires i < |t.syms|
    ensures IsFunc(t.syms[i]) <==> Function(t, i)
  {
    SecondBit(t.syms[i]);
  }

  /** The search returns the last entry of the greatest value, and nothing only if there is none. */
  lemma {:induction false} NearestPrecedes(syms: seq<ElfSym>, x: u64) returns (i: nat)
    ensures Nearest(syms, x).Some? ==>
              && i < |syms| && syms[i] == Nearest(syms, x).value && IsFunc(syms[i]) && syms[i].value <= x
              && forall j :: 0 <= j < |syms| && IsFunc(syms[j]) && syms[j].value <= x ==>
                   syms[j].value < syms[i].value || (syms[j].value == syms[i].value && j <= i)
    ensures Nearest(syms, x).None? ==> forall j :: 0 <= j < |syms| && IsFunc(syms[j]) ==> x < syms[j].value
  {
    i := 0;
    if syms != [] {
      var n := |syms| - 1;
      hide IsFunc;
      i := NearestPrecedes(syms[..n], x);
      var r := Nearest(syms[..n], x);
      if IsFunc(syms[n]) && syms[n].value <= x && (r.None? || r.value.value <= syms[n].value) {
        i := n;
      }
    }
  }

  lemma {:induction false} StringAtStart(strtab: seq<u8>, start: nat)
    requires start <= |strtab|
    ensures StringAt(strtab, start, CString(strtab, start))
    decreases |strtab| - start
  {
    if start < |strtab| && strtab[start] != 0 {
      StringAtStart(strtab, start + 1);
      var rest, name := CString(strtab, start + 1), CString(strtab, start);
      assert name == [strtab[start]] + rest;
      assert strtab[start..start + |name|] == [strtab[start]] + strtab[start + 1..start + 1 + |rest|];
    }
  }

  lemma VaddrShifted(m: MapsInfo, t: SymbolTable, ip: u64)
    ensures Shifted(m, t, ip, SymVaddr(m, t, ip))
  {
    var x := ip - m.start + m.offset + t.textVaddr - t.textOffset;
    var q := x / TWO64;
    assert Wrap64(x) == x - TWO64 * q;
    assert (SymVaddr(m, t, ip) - t.textVaddr) - ((ip - m.start + m.offset) - t.textOffset) == -q * TWO64;
    Multiple(-q);
  }

  lemma Multiple(q: int)
    ensures q * TWO64 % TWO64 == 0
  {
  }

  lemma OnePrecedes(t: SymbolTable, i: nat, j: nat, v: u64)
    requires Precedes(t, i, v) && Precedes(t, j, v)
    ensures i == j
  {
  }

  /** When the search finds entry i. */
  lemma FoundSymbolizes(m: MapsInfo, tables: map<u32, SymbolTable>, ip: u64, i: nat)
    requires m.file in tables
    requires var t := tables[m.file];
             var v := SymVaddr(m, t, ip);
             HasFuncs(t.syms) && Precedes(t, i, v) && Nearest(t.syms, v) == Some(t.syms[i])
    ensures Symbolizes(Resolve(m, tables, ip), m, tables[m.file], ip)
  {
    var t, f := tables[m.file], Resolve(m, tables, ip);
    var v := SymVaddr(m, t, ip);
    assert f.symVaddr == v;
    VaddrShifted(m, t, ip);
    var s := t.syms[i];
    assert SymEnd(s, t.is32) >= v <==> Reaches(t, s, v);
    if s.name < |t.strtab| {
      StringAtStart(t.strtab, s.name);
    }
    assert NamedBy(t, s, v) ==> f.symbol == Some(CString(t.strtab, s.name)) && f.offset == s.value && f.symbolOffset == v - s.value;
    assert !NamedBy(t, s, v) ==> f.symbol.None? && f.offset == ip && f.symbolOffset == 0;
    hide Resolve, NamedBy, SymVaddr, Shifted, Reaches, SymEnd, CString, StringAt;
    forall j: nat | Precedes(t, j, v) ensures j == i {
      OnePrecedes(t, i, j, v);
    }
  }

  lemma ResolveSymbolizes(m: MapsInfo, tables: map<u32, SymbolTable>, ip: u64)
    requires m.file in tables
    ensures Symbolizes(Resolve(m, tables, ip), m, tables[m.file], ip)
  {
    var t, f := tables[m.file], Resolve(m, tables, ip);
    var v := SymVaddr(m, t, ip);
    VaddrShifted(m, t, ip);
    forall i | 0 <= i < |t.syms| ensures IsFunc(t.syms[i]) <==> Function(t, i) {
      FunctionIs(t, i);
    }
    var i := NearestPrecedes(t.syms, v);
    assert HasFuncs(t.syms) <==> exists j: nat :: Function(t, j);
    if HasFuncs(t.syms) {
      if Nearest(t.syms, v).Some? {
        assert Precedes(t, i, v);
        FoundSymbolizes(m, tables, ip, i);
      } else {
        assert forall j: nat :: !Precedes(t, j, v);
      }
    }
  }

  /** Every lookup among disjoint maps: a frame for exactly the ips in a map with a file, with the
      contents that the map and the file's table give. */
  lemma LookupDescribes(ms: seq<MapsInfo>, tables: map<u32, SymbolTable>, ip: u64)
    requires WellFormed(ms) && Sorted(ms)
    ensures Lookup(ms, tables, ip).Some? <==>
            exists m :: m in ms && m.start <= ip < m.end && m.file != INVALID_UINT32
    ensures forall m :: m in ms && m.start <= ip < m.end && Lookup(ms, tables, ip).Some? ==>
              Describes(Lookup(ms, tables, ip).value, m, tables, ip)
  {
    hide Resolve, Symbolizes;
    forall m | m in ms && m.start <= ip < m.end
      ensures Covering(ms, ip) == Some(m)
    {
      CoveringContains(ms, ip, m);
    }
    if Covering(ms, ip).Some? {
      var m := Covering(ms, ip).value;
      hide Covering;
      if m.file in tables {
        ResolveSymbolizes(m, tables, ip);
      } else {
        PlainFrame(m, tables, ip);
      }
    }
  }

  lemma PlainFrame(m: MapsInfo, tables: map<u32, SymbolTable>, ip: u64)
    requires m.file !in tables
    ensures Describes(Resolve(m, tables, ip), m, tables, ip)
  {
  }

  /** Over every admissible run, each cached frame is the one its map and table give. */
  lemma {:induction false} CachedFramesDescribe(events: seq<Event>, cap: nat, ip: u64)
    requires AdmissibleRun(events, cap) && ip in Run(events, cap).cache
    ensures var s := Run(events, cap);
            exists m :: m in s.maps && m.start <= ip < m.end && Describes(s.cache[ip], m, s.tables, ip)
  {
    RunSound(events, cap);
    var s := Run(events, cap);
    hide Run, AdmissibleRun, Describes;
    LookupDescribes(s.maps, s.tables, ip);
    hide Lookup;
    assert Lookup(s.maps, s.tables, ip) == Some(s.cache[ip]);
  }

  /** The n-th fresh frame of a stack is the lookup of its n-th ip, and the frames stop at the first
      ip without one. */
  lemma {:induction false} FramesAreLookups(ms: seq<MapsInfo>, tables: map<u32, SymbolTable>, ips: seq<u64>)
    requires Sorted(ms)
    ensures var frames := FreshFrames(ms, tables, ips);
            && |frames| <= |ips|
            && (forall i :: 0 <= i < |frames| ==> Lookup(ms, tables, ips[i]) == Some(frames[i]))
            && (|frames| < |ips| ==> Lookup(ms, tables, ips[|frames|]).None?)
  {
    hide Lookup;
    if ips != [] && Lookup(ms, tables, ips[0]).Some? {
      FramesAreLookups(ms, tables, ips[1..]);
    }
  }
}
