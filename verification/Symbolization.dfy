/** Resolving an instruction pointer to a frame through the memory maps and the ELF
    symbol tables (trace_streamer/src/filter/offline_symbolization_filter.cpp:39-148).

    Interned names are modelled by the mangled name itself: the dictionary is injective
    and demangling is a function of the name. */
module Symbolization {
  import opened Words
  import opened AddressMaps

  /** One entry of the section "Symbol Table" of the System V ABI; only the fields that
      are read. */
  datatype ElfSym = ElfSym(name: u32, info: u8, value: u64, size: u64)

  datatype SymbolTable = SymbolTable(is32: bool, textVaddr: u64, textOffset: u64,
                                     syms: seq<ElfSym>, strtab: seq<u8>)

  datatype FrameInfo = FrameInfo(file: u32, ip: u64, symbol: Option<seq<u8>>,
                                 offset: u64, symbolOffset: u64, symVaddr: u64)

  /** Symbols that enter the index: bit STT_FUNC (2) of st_info is set and st_value is not 0. */
  predicate IsFunc(s: ElfSym) {
    s.info / 2 % 2 == 1 && s.value != 0
  }

  predicate HasFuncs(syms: seq<ElfSym>) {
    exists i :: 0 <= i < |syms| && IsFunc(syms[i])
  }

  /** The index by st_value that ParseSymbolTableEvent builds: the last entry of a value wins. */
  function FuncIndex(syms: seq<ElfSym>): (index: map<u64, ElfSym>) {
    if syms == [] then map[] else
    var s := syms[|syms| - 1];
    var index := FuncIndex(syms[..|syms| - 1]);
    if IsFunc(s) then index[s.value := s] else index
  }

  /** What upper_bound and one step back find in the index: the function symbol with the
      greatest value that is at most x. */
  function Nearest(syms: seq<ElfSym>, x: u64): (r: Option<ElfSym>)
    ensures r.Some? ==> IsFunc(r.value) && r.value.value <= x
    ensures r.Some? ==> HasFuncs(syms)
  {
    if syms == [] then None else
    var s := syms[|syms| - 1];
    var r := Nearest(syms[..|syms| - 1], x);
    if IsFunc(s) && s.value <= x && (r.None? || r.value.value <= s.value) then Some(s) else r
  }

  /** The search agrees with the index: it returns the entry of the greatest key that is
      at most x, and nothing only when every key is greater. */
  lemma {:induction false} NearestIsIndexPredecessor(syms: seq<ElfSym>, x: u64)
    ensures Nearest(syms, x).None? ==> forall k :: k in FuncIndex(syms) ==> x < k
    ensures Nearest(syms, x).Some? ==>
              var s := Nearest(syms, x).value;
              && s.value in FuncIndex(syms) && FuncIndex(syms)[s.value] == s
              && forall k :: k in FuncIndex(syms) && k <= x ==> k <= s.value
    ensures FuncIndex(syms) != map[] <==> HasFuncs(syms)
  {
    if syms != [] {
      var n := |syms| - 1;
      NearestIsIndexPredecessor(syms[..n], x);
      var prior := FuncIndex(syms[..n]);
      if IsFunc(syms[n]) {
        assert FuncIndex(syms) == prior[syms[n].value := syms[n]];
        assert syms[n].value in FuncIndex(syms);
        assert forall k :: k in FuncIndex(syms) <==> k in prior || k == syms[n].value;
        assert Nearest(syms, x).None? ==> x < syms[n].value;
      } else if HasFuncs(syms) {
        var i :| 0 <= i < |syms| && IsFunc(syms[i]);
        assert IsFunc(syms[..n][i]);
      }
    }
  }

  /** Building the index entry by entry, as the table is parsed. */
  method BuildIndex(syms: seq<ElfSym>) returns (index: map<u64, ElfSym>)
    ensures index == FuncIndex(syms)
  {
    index := map[];
    for i := 0 to |syms|
      invariant index == FuncIndex(syms[..i])
    {
      assert syms[..i + 1][..i] == syms[..i];
      if IsFunc(syms[i]) {
        index := index[syms[i].value := syms[i]];
      }
    }
    assert syms[..|syms|] == syms;
  }

  /** The NUL-terminated string at an offset of the string table. */
  function CString(strtab: seq<u8>, start: nat): (r: seq<u8>)
    decreases |strtab| - start
  {
    if start >= |strtab| || strtab[start] == 0 then [] else [strtab[start]] + CString(strtab, start + 1)
  }

  /** st_value + st_size in the width of the entry. */
  function SymEnd(s: ElfSym, is32: bool): (r: int) {
    (s.value + s.size) % (if is32 then TWO32 else TWO64)
  }

  function SymVaddr(m: MapsInfo, t: SymbolTable, ip: u64): (r: u64) {
    Wrap64(ip - m.start + m.offset + t.textVaddr - t.textOffset)
  }

  /** The frame of an ip inside map m. */
  function Resolve(m: MapsInfo, tables: map<u32, SymbolTable>, ip: u64): (f: FrameInfo)
    ensures f.file == m.file && f.ip == ip
  {
    if m.file !in tables then
      FrameInfo(m.file, ip, None, INVALID_UINT64, INVALID_UINT64, INVALID_UINT64)
    else
      var t := tables[m.file];
      var v := SymVaddr(m, t, ip);
      if !HasFuncs(t.syms) then
        FrameInfo(m.file, ip, None, INVALID_UINT64, INVALID_UINT64, v)
      else
        match Nearest(t.syms, v)
        case Some(s) =>
          if SymEnd(s, t.is32) >= v && s.name != INVALID_UINT32 && s.name < |t.strtab| then
            FrameInfo(m.file, ip, Some(CString(t.strtab, s.name)), s.value, v - s.value, v)
          else
            FrameInfo(m.file, ip, None, ip, 0, v)
        case None => FrameInfo(m.file, ip, None, ip, 0, v)
  }

  /** The map FillFrameInfo selects: the last one that starts at or before ip, if ip lies
      before its end. */
  function Covering(ms: seq<MapsInfo>, ip: u64): (r: Option<MapsInfo>)
    requires Sorted(ms)
    ensures r.Some? ==> r.value in ms && r.value.start <= ip < r.value.end
  {
    var k := UpperBound(ms, ip);
    if 0 < k && ip < ms[k - 1].end then Some(ms[k - 1]) else None
  }

  /** The uncached lookup. */
  function Lookup(ms: seq<MapsInfo>, tables: map<u32, SymbolTable>, ip: u64): (r: Option<FrameInfo>)
    requires Sorted(ms)
    ensures r.Some? ==> r.value.ip == ip
  {
    match Covering(ms, ip)
    case None => None
    case Some(m) => if m.file == INVALID_UINT32 then None else Some(Resolve(m, tables, ip))
  }

  /** Every cached frame is what an uncached lookup of its ip gives now. */
  predicate Coherent(ms: seq<MapsInfo>, tables: map<u32, SymbolTable>, cache: map<u64, FrameInfo>)
    requires Sorted(ms)
  {
    forall ip :: ip in cache ==> Lookup(ms, tables, ip) == Some(cache[ip])
  }

  /** Among disjoint maps the selected one is the one that contains the address. */
  lemma CoveringContains(ms: seq<MapsInfo>, ip: u64, m: MapsInfo)
    requires WellFormed(ms) && Sorted(ms)
    ensures Covering(ms, ip) == Some(m) <==> m in ms && m.start <= ip < m.end
  {
    if m in ms && m.start <= ip < m.end {
      var j :| 0 <= j < |ms| && ms[j] == m;
      var k := UpperBound(ms, ip);
      assert j < k;
      assert forall i :: j < i < |ms| ==> ms[j].end <= ms[i].start;
    }
  }

  /** A proper maps event changes the selected map only inside the invalidation range or
      inside the new map. */
  lemma CoveringAfterMaps(ms: seq<MapsInfo>, m: MapsInfo, ip: u64)
    requires WellFormed(ms) && Sorted(ms) && m.start < m.end
    requires var range := ConflictRange(ms, m.start, m.end);
             Conflicting(range) ==> !(range.0 <= ip < range.1)
    requires Covering(ms, ip).Some? || !(m.start <= ip < m.end)
    ensures Covering(UpdateMaps(ms, m), ip) == Covering(ms, ip)
  {
    var range := ConflictRange(ms, m.start, m.end);
    var ms' := UpdateMaps(ms, m);
    MapsStayDisjoint(ms, m);
    RangeShape(ms, m.start, m.end);
    match Covering(ms, ip) {
      case Some(x) =>
        // a map in the range whose ip lies behind it would meet the map at the range's end
        assert !(Conflicting(range) && range.0 <= x.start < range.1);
        CoveringContains(ms', ip, x);
      case None =>
        match Covering(ms', ip) {
          case None =>
          case Some(y) =>
            CoveringContains(ms', ip, y);
            CoveringContains(ms, ip, y);
        }
    }
  }
}
