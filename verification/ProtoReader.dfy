/** Storage of parsed fields: a slot per id for the latest occurrence, earlier ones appended
    behind the slots (trace_streamer/src/proto_reader/proto_reader.cpp:22-43, 170-235 and
    trace_streamer/src/proto_reader/include/proto_reader.h:37-106, 223-238). */
module ProtoReader {
  import opened Words
  import opened Chunks
  import opened ProtoWire

  /** One field comes in: the slot takes it, and what the slot held moves to the end. */
  function Store(areas: seq<Area>, count: nat, a: Area): (r: seq<Area>)
    requires count <= |areas|
    ensures |areas| <= |r|
  {
    if a.id >= count then areas
    else if areas[a.id].id == 0 then areas[a.id := a]
    else areas[a.id := a] + [areas[a.id]]
  }

  function Blank(count: nat): (r: seq<Area>)
    ensures |r| == count && forall i :: 0 <= i < count ==> r[i] == NONE
  {
    seq(count, _ => NONE)
  }

  /** The storage after the first n fields. */
  function StoreAll(count: nat, list: seq<Area>, n: nat): (r: seq<Area>)
    requires n <= |list|
    ensures count <= |r|
  {
    if n == 0 then Blank(count) else Store(StoreAll(count, list, n - 1), count, list[n - 1])
  }

  /** The entries with an id, from lo to hi. */
  function Keep(areas: seq<Area>, id: u16, lo: nat, hi: nat): (r: seq<Area>)
    requires hi <= |areas|
  {
    if hi <= lo then []
    else if areas[hi - 1].id == id then Keep(areas, id, lo, hi - 1) + [areas[hi - 1]]
    else Keep(areas, id, lo, hi - 1)
  }

  /** What the repeated-field iterator visits: the entries behind the slots, then the slot. */
  function Repeated(areas: seq<Area>, count: nat, id: u16): (r: seq<Area>)
    requires id < count <= |areas|
  {
    Keep(areas, id, count, |areas|) + if areas[id].id != 0 then [areas[id]] else []
  }

  /** Every slot is empty or holds its own id, and what lies behind them has a slot. */
  ghost predicate Filed(areas: seq<Area>, count: nat) {
    && count <= |areas| && (forall i :: 0 <= i < count ==> areas[i].id == 0 || areas[i].id == i)
    && (forall i :: count <= i < |areas| ==> 0 < areas[i].id < count)
  }

  lemma {:induction false} KeepSame(a: seq<Area>, b: seq<Area>, id: u16, lo: nat, hi: nat)
    requires hi <= |a| && hi <= |b| && forall i :: lo <= i < hi ==> a[i] == b[i]
    ensures Keep(a, id, lo, hi) == Keep(b, id, lo, hi)
  {
    if lo < hi {
      KeepSame(a, b, id, lo, hi - 1);
    }
  }

  /** Storing a field appends it to the occurrences of its id and leaves the others alone. */
  lemma StoreAppends(areas: seq<Area>, count: nat, a: Area, id: u16)
    requires Filed(areas, count) && id < count && a.id != 0
    ensures Filed(Store(areas, count, a), count)
    ensures Repeated(Store(areas, count, a), count, id) ==
            Repeated(areas, count, id) + if a.id == id then [a] else []
  {
    var r := Store(areas, count, a);
    KeepSame(areas, r, id, count, |areas|);
    if a.id < count && areas[a.id].id != 0 {
      var n := |areas|;
      assert |r| == n + 1 && r[n] == areas[a.id];
      assert Keep(r, id, count, n + 1) == Keep(r, id, count, n) + if a.id == id then [areas[id]] else [];
    }
  }

  /** Over all fields: the occurrences of an id are its fields in wire order. */
  lemma {:induction false} StoredInOrder(count: nat, list: seq<Area>, n: nat, id: u16)
    requires n <= |list| && id < count && forall k :: 0 <= k < |list| ==> list[k].id != 0
    ensures Filed(StoreAll(count, list, n), count)
    ensures Repeated(StoreAll(count, list, n), count, id) == Keep(list, id, 0, n)
  {
    if n > 0 {
      StoredInOrder(count, list, n - 1, id);
      StoreAppends(StoreAll(count, list, n - 1), count, list[n - 1], id);
    }
  }

  function FieldsWith(fields: seq<Field>, id: u16, n: nat): (r: seq<Field>)
    requires n <= |fields|
  {
    if n == 0 then []
    else if fields[n - 1].id == id then FieldsWith(fields, id, n - 1) + [fields[n - 1]]
    else FieldsWith(fields, id, n - 1)
  }

  lemma {:induction false} KeepDenotes(bytes: seq<u8>, areas: seq<Area>, fields: seq<Field>, id: u16, n: nat)
    requires DenoteAll(bytes, areas, fields) && n <= |fields|
    ensures n <= |areas| && DenoteAll(bytes, Keep(areas, id, 0, n), FieldsWith(fields, id, n))
  {
    if n > 0 {
      KeepDenotes(bytes, areas, fields, id, n - 1);
      assert Denotes(bytes, areas[n - 1], fields[n - 1]);
      assert areas[n - 1].id == fields[n - 1].id;
      hide Denotes;
    }
  }

  /** Round trip: after parsing an encoded message, the occurrences of each id are exactly the
      fields with that id, in wire order. */
  lemma {:induction false} ParseRoundTrip(fields: seq<Field>, count: nat, id: u16)
    requires id < count && forall k :: 0 <= k < |fields| ==> Encodable(fields[k])
    ensures var bytes := EncodeAll(fields);
            var areas := Areas(bytes, 0);
            DenoteAll(bytes, Repeated(StoreAll(count, areas, |areas|), count, id), FieldsWith(fields, id, |fields|))
  {
    hide DenoteAll, Encodable, Areas;
    var bytes := EncodeAll(fields);
    var areas := Areas(bytes, 0);
    MessageRoundTrip(bytes, 0, fields);
    StoredInOrder(count, areas, |areas|, id);
    KeepDenotes(bytes, areas, fields, id, |fields|);
    SameLength(bytes, areas, fields);
  }

  lemma SameLength(bytes: seq<u8>, areas: seq<Area>, fields: seq<Field>)
    requires DenoteAll(bytes, areas, fields)
    ensures |areas| == |fields|
  {
  }

  // ---------------------------------------------------------------------------
  // Reading field by field
  // ---------------------------------------------------------------------------

  /** ReadNextDataArea: the next field that is not skipped, and the new position. After an abort
      the area may already carry an id. */
  function ReadNext(bytes: seq<u8>, i: nat): (r: Parsed)
    ensures r.status != Skip
    ensures if r.status == Abort then r.next >= i else i < r.next <= |bytes|
    decreases |bytes| - i
  {
    var p := ParseOne(bytes, i);
    if p.status == Skip then ReadNext(bytes, p.next) else p
  }

  /** The read with number n from the start of the buffer. */
  function Nth(bytes: seq<u8>, n: nat): (r: Parsed) {
    ReadNext(bytes, if n == 0 then 0 else Nth(bytes, n - 1).next)
  }

  /** The area at which parsing aborts. */
  function Leftover(bytes: seq<u8>, i: nat): (r: Area)
    decreases |bytes| - i
  {
    var p := ParseOne(bytes, i);
    if p.status == Abort then p.area else Leftover(bytes, p.next)
  }

  /** The search for an id ends with read n. */
  predicate StopsAt(bytes: seq<u8>, id: u32, n: nat) {
    Nth(bytes, n).area.id == 0 || Nth(bytes, n).area.id == id
  }

  lemma {:induction false} ReadNextAreas(bytes: seq<u8>, i: nat)
    ensures var p := ReadNext(bytes, i);
            if p.status == Ok then
              && p.area.id != 0 && Areas(bytes, i) == [p.area] + Areas(bytes, p.next)
              && Leftover(bytes, i) == Leftover(bytes, p.next)
            else
              && Areas(bytes, i) == [] && p.area == Leftover(bytes, i) && ReadNext(bytes, p.next) == p
    decreases |bytes| - i
  {
    var p := ParseOne(bytes, i);
    if p.status == Skip {
      ReadNextAreas(bytes, p.next);
    }
  }

  /** The reads deliver the fields, and then the leftover for ever. */
  lemma {:induction false} NthRead(bytes: seq<u8>, n: nat)
    ensures var areas, p := Areas(bytes, 0), Nth(bytes, n);
            if n < |areas| then
              && p.status == Ok && p.area == areas[n] && areas[n + 1..] == Areas(bytes, p.next)
              && Leftover(bytes, p.next) == Leftover(bytes, 0)
            else p.status == Abort && p.area == Leftover(bytes, 0) && ReadNext(bytes, p.next) == p
  {
    hide ParseOne, Areas, Leftover, ReadNext;
    if n == 0 {
      ReadNextAreas(bytes, 0);
    } else {
      NthRead(bytes, n - 1);
      ReadNextAreas(bytes, Nth(bytes, n - 1).next);
    }
  }

  ghost predicate Present(areas: seq<Area>, id: u32) {
    exists k :: 0 <= k < |areas| && areas[k].id == id
  }

  /** FindDataArea comes to an end exactly when the id occurs, or the field at which parsing
      aborts has this id or none: otherwise the read at the abort repeats for ever. */
  lemma {:induction false} FindEndsIff(bytes: seq<u8>, id: u32)
    ensures (exists n: nat :: StopsAt(bytes, id, n)) <==>
            Present(Areas(bytes, 0), id) || Leftover(bytes, 0).id == 0 || Leftover(bytes, 0).id == id
  {
    var areas := Areas(bytes, 0);
    hide Areas, Leftover, Nth;
    if n: nat :| StopsAt(bytes, id, n) {
      NthRead(bytes, n);
    }
    if Present(areas, id) {
      var k: nat :| k < |areas| && areas[k].id == id;
      NthRead(bytes, k);
      assert StopsAt(bytes, id, k);
    } else if Leftover(bytes, 0).id == 0 || Leftover(bytes, 0).id == id {
      NthRead(bytes, |areas|);
      assert StopsAt(bytes, id, |areas|);
    }
  }

  /** A buffer that ends inside a field: the search for id 2 in a truncated field 1 does not end. */
  lemma TruncatedFieldHangs(n: nat)
    ensures !StopsAt([0x08, 0x80], 2, n)
  {
    var bytes: seq<u8> := [0x08, 0x80];
    assert Digits(bytes, 1, 0) == None;
    assert ParseOne(bytes, 0) == Parsed(Abort, 0, Area(1, VARINT, 0, 0));
    NthRead(bytes, n);
  }

  /** What the search returns when it ends: the first field with the id, or the field at which
      parsing aborts. */
  function Found(areas: seq<Area>, leftover: Area, id: u32): (r: Area) {
    if areas == [] then (if leftover.id != 0 && leftover.id == id then leftover else NONE)
    else if areas[0].id == id then areas[0]
    else Found(areas[1..], leftover, id)
  }

  lemma WrapMultiple(x: u64, q: nat)
    ensures Wrap64(x + TWO64 * q) == x
  {
  }

  /** Shifting the tenth digit by 63 keeps only its lowest bit. */
  lemma TenthDigit(temp: nat, b: nat)
    requires temp < 0x8000_0000_0000_0000
    ensures Wrap64(temp + 0x8000_0000_0000_0000 * b) == temp + Wrap64(0x8000_0000_0000_0000 * b)
  {
    var q, bit := b / 2, b % 2;
    assert 0x8000_0000_0000_0000 * b == 0x8000_0000_0000_0000 * bit + TWO64 * q;
    WrapMultiple(temp + 0x8000_0000_0000_0000 * bit, q);
    WrapMultiple(0x8000_0000_0000_0000 * bit, q);
  }

  /** A digit in its place. */
  function Place(k: nat, d: nat): (r: nat) {
    Power(k) * d
  }

  /** What VarIntDecode adds for the next digit never carries. */
  lemma {:induction false} NextDigit(temp: nat, b: u8, k: nat)
    requires k < MAX_VARINT_BYTES && temp < Power(k) && b < 128
    ensures Wrap64(temp + Place(k, b)) == temp + Wrap64(Place(k, b))
    ensures k < 9 ==> Wrap64(Place(k, b)) == Place(k, b)
    ensures temp + Place(k, b) < Power(k) * 128
  {
    var p := Power(k);
    if k < 9 {
      SmallPower(k);
      hide Power;
      DigitBelow(p, b);
      SmallDigit(temp, p, p * b);
    } else {
      assert Power(4) == 0x1000_0000;
      assert Power(9) == 0x8000_0000_0000_0000;
      hide Power;
      DigitBelow(p, b);
      TenthDigit(temp, b);
    }
  }

  lemma SmallDigit(temp: nat, p: nat, n: nat)
    requires temp < p <= 0x100_0000_0000_0000 && n + p <= p * 128
    ensures Wrap64(temp + n) == temp + Wrap64(n) && Wrap64(n) == n && temp + n < p * 128
  {
  }

  lemma DigitBelow(p: nat, b: u8)
    requires b < 128
    ensures p * b + p <= p * 128
  {
    assert p * (b + 1) <= p * 128;
  }

  lemma Distribute(p: nat, d: nat, rest: nat)
    ensures p * (d + 128 * rest) == p * d + (128 * p) * rest
  {
  }

  lemma {:induction false} SmallPower(k: nat)
    requires k < 9
    ensures Power(k) <= 0x100_0000_0000_0000
  {
    assert Power(4) == 0x1000_0000;
    assert Power(8) == 0x100_0000_0000_0000;
    PowerGrows(k, 8);
  }

  lemma {:induction false} PowerGrows(k: nat, n: nat)
    requires k <= n
    ensures Power(k) <= Power(n)
  {
    if k < n {
      PowerGrows(k, n - 1);
    }
  }

  /** How the number at start follows from the digits read so far and those to come. */
  ghost predicate Continues(bytes: seq<u8>, start: nat, cursor: nat, k: nat, temp: nat)
    requires start < |bytes| && cursor < |bytes|
  {
    Digits(bytes, start, 0) ==
    match Digits(bytes, cursor, k)
    case None => None
    case Some((rest, next)) => Some((temp + Place(k, rest), next))
  }

  lemma {:induction false} ContinuesNext(bytes: seq<u8>, start: nat, cursor: nat, k: nat, temp: nat)
    requires start < |bytes| && cursor + 1 < |bytes| && k + 1 < MAX_VARINT_BYTES
    requires Continues(bytes, start, cursor, k, temp) && bytes[cursor] >= 128
    ensures Continues(bytes, start, cursor + 1, k + 1, temp + Place(k, bytes[cursor] - 128))
  {
    var r := Digits(bytes, cursor + 1, k + 1);
    if r.Some? {
      Distribute(Power(k), bytes[cursor] - 128, r.value.0);
    }
  }

  lemma DecodeStart(bytes: seq<u8>, start: nat)
    requires start < |bytes|
    ensures Continues(bytes, start, start, 0, 0) && Power(0) == 1
  {
  }

  /** The last digit, or none within ten bytes. */
  lemma {:induction false} DecodeEnd(bytes: seq<u8>, start: nat, cursor: nat, k: nat, temp: nat)
    requires start < |bytes| && cursor < |bytes| && k < MAX_VARINT_BYTES && temp < Power(k)
    requires Continues(bytes, start, cursor, k, temp)
    ensures bytes[cursor] < 128 ==>
              VarInt(bytes, start) == Some((Wrap64(temp + Place(k, bytes[cursor])), cursor + 1))
    ensures bytes[cursor] >= 128 && (cursor + 1 == |bytes| || k + 1 == MAX_VARINT_BYTES) ==> VarInt(bytes, start) == None
  {
  }

  lemma DecodeNext(bytes: seq<u8>, start: nat, cursor: nat, k: nat, temp: nat)
    requires start < |bytes| && cursor + 1 < |bytes| && k + 1 < MAX_VARINT_BYTES
    requires Continues(bytes, start, cursor, k, temp) && bytes[cursor] >= 128 && temp < Power(k)
    ensures var temp' := temp + Wrap64(Place(k, bytes[cursor] % 128));
            Continues(bytes, start, cursor + 1, k + 1, temp') && temp' < Power(k + 1)
  {
    hide Continues, Wrap64, Digits;
    assert bytes[cursor] % 128 == bytes[cursor] - 128;
    NextDigit(temp, bytes[cursor] - 128, k);
    ContinuesNext(bytes, start, cursor, k, temp);
  }

  lemma {:induction false} AreasSkip(bytes: seq<u8>, i: nat)
    requires ParseOne(bytes, i).status == Skip
    ensures Areas(bytes, i) == Areas(bytes, ParseOne(bytes, i).next)
  {
  }

  lemma {:induction false} AreasEnd(bytes: seq<u8>, i: nat)
    requires ParseOne(bytes, i).status == Abort
    ensures Areas(bytes, i) == []
  {
  }

  class Reader {
    const bytes: seq<u8>
    const count: nat
    var areas: array<Area>
    var size: nat
    var currentRead: nat

    ghost predicate Valid()
      reads this
    {
      count <= size <= areas.Length
    }

    ghost function Contents(): (s: seq<Area>)
      requires Valid()
      reads this, areas
    {
      areas[..size]
    }

    constructor (count: nat, bytes: seq<u8>)
      ensures Valid() && fresh(areas) && this.count == count && this.bytes == bytes
      ensures Contents() == Blank(count) && currentRead == 0
    {
      this.count, this.bytes := count, bytes;
      areas := new Area[count](_ => NONE);
      size, currentRead := count, 0;
    }

    method VarIntDecode(start: nat) returns (r: Option<(u64, nat)>)
      requires start < |bytes|
      ensures r == VarInt(bytes, start)
    {
      hide Power, Digits, Continues, VarInt, Wrap64, Place;
      var cursor: nat, temp: nat, shift: nat := start, 0, 0;
      ghost var k: nat := 0;
      DecodeStart(bytes, start);
      while true
        invariant start <= cursor < |bytes| && k < MAX_VARINT_BYTES && shift == 7 * k && temp < Power(k)
        invariant Continues(bytes, start, cursor, k, temp)
        decreases |bytes| - cursor
      {
        var b := bytes[cursor];
        ghost var before := temp;
        NextDigit(temp, b % 128, k);
        DecodeEnd(bytes, start, cursor, k, temp);
        temp := temp + Wrap64(Place(shift / 7, b % 128));
        if b < 128 {
          return Some((temp, cursor + 1));
        }
        shift := shift + 7;
        if !(cursor + 1 < |bytes| && shift < 64) {
          return None;
        }
        DecodeNext(bytes, start, cursor, k, before);
        cursor, k := cursor + 1, k + 1;
      }
    }

    method GetNextProtoTag(start: nat) returns (r: Option<(u64, nat)>)
      requires start < |bytes|
      ensures r == NextTag(bytes, start)
    {
      var tag, cursor := bytes[start], start + 1;
      if bytes[start] >= 128 {
        var n := VarIntDecode(start);
        if n.None? {
          return None;
        }
        tag, cursor := n.value.0, n.value.1;
      }
      if cursor >= |bytes| {
        return None;
      }
      return Some((tag, cursor));
    }

    method ParseOneDataArea(start: nat) returns (r: Parsed)
      ensures r == ParseOne(bytes, start)
    {
      r := Parsed(Abort, start, NONE);
      if start >= |bytes| {
        return;
      }
      var next := GetNextProtoTag(start);
      if next.None? {
        return;
      }
      var (tag, cursor) := next.value;
      var id := (tag / 8) % TWO32;
      if id == 0 {
        return;
      }
      if id > 0xFFFF {
        return Parsed(Skip, cursor, NONE);
      }
      var kind := tag % 8;
      r := Parsed(Abort, start, Area(id, kind, 0, 0));
      if kind == VARINT || kind == LENGTH_DELIMITED {
        var n := VarIntDecode(cursor);
        if n.None? {
          return;
        }
        var (value, after) := n.value;
        if kind == VARINT {
          return Parsed(Ok, after, Area(id, kind, value, 0));
        }
        if value > |bytes| - after {
          return;
        }
        r := Parsed(if value > MAX_MESSAGE_LENGTH then Skip else Ok, after + value, Area(id, kind, after, value % TWO32));
      } else if kind == FIXED64 && cursor + 8 <= |bytes| {
        var value := Copy(cursor, 8);
        r := Parsed(Ok, cursor + 8, Area(id, kind, value, 0));
      } else if kind == FIXED32 && cursor + 4 <= |bytes| {
        var value := Copy(cursor, 4);
        r := Parsed(Ok, cursor + 4, Area(id, kind, value, 0));
      }
    }

    /** The bytes copied into an integer on a little-endian machine. */
    method Copy(start: nat, n: nat) returns (value: nat)
      requires start + n <= |bytes|
      ensures value == Little(bytes, start, n)
    {
      value := 0;
      var k := n;
      while k > 0
        invariant 0 <= k <= n && value == Little(bytes, start + k, n - k)
      {
        k := k - 1;
        value := bytes[start + k] + 256 * value;
      }
    }

    method MoveToLargerHeapStorage()
      requires Valid() && size == areas.Length > 0
      modifies this`areas
      ensures Valid() && fresh(areas) && Contents() == old(Contents()) && size < areas.Length == 2 * old(areas.Length)
    {
      var larger := new Area[2 * areas.Length](_ => NONE);
      var i := 0;
      while i < size
        invariant i <= size <= larger.Length && areas == old(areas) && fresh(larger)
        invariant areas[..] == old(areas[..])
        invariant larger[..i] == areas[..i]
      {
        larger[i] := areas[i];
        i := i + 1;
      }
      areas := larger;
    }

    /** One parsed field goes to its slot. */
    method Put(a: Area)
      requires Valid() && a.id != 0
      modifies this`areas, this`size, areas
      ensures Valid() && (areas == old(areas) || fresh(areas))
      ensures Contents() == Store(old(Contents()), count, a)
    {
      if a.id >= count {
        return;
      }
      if areas[a.id].id == 0 {
        areas[a.id] := a;
      } else {
        if size >= areas.Length {
          MoveToLargerHeapStorage();
        }
        areas[size] := areas[a.id];
        size := size + 1;
        areas[a.id] := a;
      }
    }

    method ParseAllDataAreas()
      requires Valid() && Contents() == Blank(count)
      modifies this, areas
      ensures Valid()
      ensures Contents() == StoreAll(count, Areas(bytes, 0), |Areas(bytes, 0)|)
      ensures currentRead <= |bytes| && ParseOne(bytes, currentRead).status == Abort
    {
      hide ParseOne, Store, Areas;
      var cur := 0;
      ghost var all := Areas(bytes, 0);
      ghost var n := 0;
      var result := ParseOneDataArea(cur);
      while result.status != Abort
        invariant Valid() && (areas == old(areas) || fresh(areas))
        invariant cur <= |bytes| && result == ParseOne(bytes, cur)
        invariant n <= |all| && all[n..] == Areas(bytes, cur)
        invariant Contents() == StoreAll(count, all, n)
        decreases |bytes| - cur
      {
        if result.status == Ok {
          AreasAfter(bytes, cur);
          assert all[n..][0] == all[n] && all[n..][1..] == all[n + 1..];
          Put(result.area);
          n := n + 1;
        } else {
          AreasSkip(bytes, cur);
        }
        cur := result.next;
        result := ParseOneDataArea(cur);
      }
      AreasEnd(bytes, cur);
      currentRead := result.next;
    }

    method ReadNextDataArea() returns (r: Parsed)
      modifies this`currentRead
      ensures r == ReadNext(bytes, old(currentRead)) && currentRead == r.next
    {
      r := ParseOneDataArea(currentRead);
      currentRead := r.next;
      while r.status == Skip
        invariant currentRead == r.next
        invariant r.status == Skip ==> ReadNext(bytes, r.next) == ReadNext(bytes, old(currentRead))
        invariant r.status != Skip ==> r == ReadNext(bytes, old(currentRead))
        decreases if r.status == Skip then 1 else 0, |bytes| - currentRead
      {
        r := ParseOneDataArea(currentRead);
        currentRead := r.next;
      }
    }

    /** Called where the search comes to an end. */
    method FindDataArea(id: u32) returns (r: Area)
      requires Present(Areas(bytes, 0), id) || Leftover(bytes, 0).id == 0 || Leftover(bytes, 0).id == id
      modifies this`currentRead
      ensures currentRead == old(currentRead)
      ensures r == Found(Areas(bytes, 0), Leftover(bytes, 0), id)
    {
      var temp := currentRead;
      currentRead := 0;
      ghost var at := currentRead;
      r := NONE;
      var next := ReadNextDataArea();
      while next.area.id != 0
        invariant next == ReadNext(bytes, at) && currentRead == next.next
        invariant Found(Areas(bytes, at), Leftover(bytes, at), id) == Found(Areas(bytes, 0), Leftover(bytes, 0), id)
        invariant Present(Areas(bytes, at), id) || Leftover(bytes, at).id == 0 || Leftover(bytes, at).id == id
        invariant r == NONE
        decreases |bytes| - at
      {
        ReadNextAreas(bytes, at);
        if next.area.id == id {
          r := next.area;
          currentRead := temp;
          return;
        }
        at := currentRead;
        next := ReadNextDataArea();
      }
      ReadNextAreas(bytes, at);
      currentRead := temp;
    }

    /** Walks what the repeated-field iterator walks. */
    method GetRepeated(id: u16) returns (list: seq<Area>)
      requires Valid() && id < count
      ensures list == Repeated(Contents(), count, id)
    {
      list := [];
      var i := count;
      while i < size
        invariant count <= i <= size && list == Keep(Contents(), id, count, i)
      {
        if areas[i].id == id {
          list := list + [areas[i]];
        }
        i := i + 1;
      }
      if areas[id].id != 0 {
        list := list + [areas[id]];
      }
    }
  }
}
