/** The wire format of the protobuf reader
    (trace_streamer/src/proto_reader/proto_reader.cpp:46-168 and
    trace_streamer/src/proto_reader/include/proto_reader_help.h:106-142), against an encoder that
    follows the sections "Base 128 Varints" and "Message Structure" of the Protocol Buffers
    Encoding guide. An address is an index into the buffer, whose end is the end of the buffer. */
module ProtoWire {
  import opened Words
  import opened Chunks

  const MAX_MESSAGE_LENGTH := 0xFFF_FFFF
  const MAX_VARINT_BYTES := 10

  const VARINT: u8 := 0
  const FIXED64: u8 := 1
  const LENGTH_DELIMITED: u8 := 2
  const FIXED32: u8 := 5

  /** The value is the index of the payload when the type is length-delimited. */
  datatype Area = Area(id: u16, kind: u8, value: nat, size: u32)

  const NONE := Area(0, 0, 0, 0)

  datatype Status = Abort | Skip | Ok

  datatype Parsed = Parsed(status: Status, next: nat, area: Area)

  // ---------------------------------------------------------------------------
  // Decoding
  // ---------------------------------------------------------------------------

  /** The base 128 number at i, of which k bytes have been read; the index after it. */
  function Digits(bytes: seq<u8>, i: nat, k: nat): (r: Option<(nat, nat)>)
    requires i < |bytes|
    ensures r.Some? ==> i < r.value.1 <= |bytes|
    decreases |bytes| - i
  {
    var b := bytes[i];
    if b < 128 then Some((b, i + 1))
    else if i + 1 < |bytes| && k + 1 < MAX_VARINT_BYTES then
      match Digits(bytes, i + 1, k + 1)
      case None => None
      case Some((rest, next)) => Some((b - 128 + 128 * rest, next))
    else None
  }

  /** VarIntDecode: at most ten bytes, kept modulo 2^64; None where the source returns its start. */
  function VarInt(bytes: seq<u8>, i: nat): (r: Option<(u64, nat)>)
    requires i < |bytes|
    ensures r.Some? ==> i < r.value.1 <= |bytes|
  {
    match Digits(bytes, i, 0)
    case None => None
    case Some((n, next)) => Some((Wrap64(n), next))
  }

  /** A little-endian number of n bytes. */
  function Little(bytes: seq<u8>, i: nat, n: nat): (r: nat)
    requires i + n <= |bytes|
    decreases n
  {
    if n == 0 then 0 else bytes[i] + 256 * Little(bytes, i + 1, n - 1)
  }

  /** GetNextProtoTag: a tag that is followed by at least one byte. */
  function NextTag(bytes: seq<u8>, i: nat): (r: Option<(u64, nat)>)
    requires i < |bytes|
    ensures r.Some? ==> i < r.value.1 < |bytes|
  {
    if bytes[i] >= 128 then
      match VarInt(bytes, i)
      case None => None
      case Some((tag, next)) => if next >= |bytes| then None else Some((tag, next))
    else if i + 1 >= |bytes| then None else Some((bytes[i], i + 1))
  }

  /** The four value parsers. */
  function Value(bytes: seq<u8>, start: nat, at: nat, id: u16, kind: u8): (r: Parsed)
    requires start < at < |bytes|
    ensures if r.status == Abort then r.next == start else at < r.next <= |bytes|
    ensures r.area.id == id
  {
    var failed := Parsed(Abort, start, Area(id, kind, 0, 0));
    if kind == VARINT then
      match VarInt(bytes, at)
      case None => failed
      case Some((v, next)) => Parsed(Ok, next, Area(id, kind, v, 0))
    else if kind == FIXED64 then
      if at + 8 > |bytes| then failed else Parsed(Ok, at + 8, Area(id, kind, Little(bytes, at, 8), 0))
    else if kind == LENGTH_DELIMITED then
      match VarInt(bytes, at)
      case None => failed
      case Some((length, next)) =>
        if length > |bytes| - next then failed
        else Parsed(if length > MAX_MESSAGE_LENGTH then Skip else Ok, next + length, Area(id, kind, next, length % TWO32))
    else if kind == FIXED32 then
      if at + 4 > |bytes| then failed else Parsed(Ok, at + 4, Area(id, kind, Little(bytes, at, 4), 0))
    else failed
  }

  /** ParseOneDataArea: the cursor moves on unless the parse aborts, and stays in the buffer. */
  function ParseOne(bytes: seq<u8>, i: nat): (r: Parsed)
    ensures if r.status == Abort then r.next == i else i < r.next <= |bytes|
    ensures r.status == Ok ==> r.area.id != 0
  {
    if i >= |bytes| then Parsed(Abort, i, NONE) else
    match NextTag(bytes, i)
    case None => Parsed(Abort, i, NONE)
    case Some((tag, at)) =>
      var id := (tag / 8) % TWO32;
      if id == 0 then Parsed(Abort, i, NONE)
      else if id > 0xFFFF then Parsed(Skip, at, NONE)
      else Value(bytes, i, at, id, tag % 8)
  }

  /** What ParseAllDataAreas reads from i on: the fields up to the first abort. */
  function Areas(bytes: seq<u8>, i: nat): (r: seq<Area>)
    ensures forall k :: 0 <= k < |r| ==> r[k].id != 0
    decreases |bytes| - i
  {
    var p := ParseOne(bytes, i);
    match p.status
    case Abort => []
    case Skip => Areas(bytes, p.next)
    case Ok => [p.area] + Areas(bytes, p.next)
  }

  // ---------------------------------------------------------------------------
  // Encoding
  // ---------------------------------------------------------------------------

  /** Field numbers go up to 2^29 - 1. */
  type FieldId = n: int | 0 < n < 0x2000_0000 witness 1

  datatype Field =
    | VarIntField(id: FieldId, value: u64)
    | Fixed64Field(id: FieldId, value: u64)
    | BytesField(id: FieldId, payload: seq<u8>)
    | Fixed32Field(id: FieldId, word: u32)

  /** The payload's length can be written. */
  predicate Writable(f: Field) {
    f.BytesField? ==> |f.payload| < TWO64
  }

  /** The reader is made for 16-bit ids and bounded payloads. */
  predicate Encodable(f: Field) {
    f.id <= 0xFFFF && (f.BytesField? ==> |f.payload| <= MAX_MESSAGE_LENGTH)
  }

  function EncodeVarInt(v: nat): (r: seq<u8>)
    ensures |r| > 0
  {
    if v < 128 then [v] else [v % 128 + 128] + EncodeVarInt(v / 128)
  }

  function EncodeLittle(v: nat, n: nat): (r: seq<u8>)
    ensures |r| == n
  {
    if n == 0 then [] else [v % 256] + EncodeLittle(v / 256, n - 1)
  }

  function Kind(f: Field): (k: u8) {
    match f
    case VarIntField(_, _) => VARINT
    case Fixed64Field(_, _) => FIXED64
    case BytesField(_, _) => LENGTH_DELIMITED
    case Fixed32Field(_, _) => FIXED32
  }

  function EncodeValue(f: Field): (r: seq<u8>)
    ensures |r| > 0
  {
    match f
    case VarIntField(_, v) => EncodeVarInt(v)
    case Fixed64Field(_, v) => EncodeLittle(v, 8)
    case BytesField(_, payload) => EncodeVarInt(|payload|) + payload
    case Fixed32Field(_, v) => EncodeLittle(v, 4)
  }

  function Encode(f: Field): (r: seq<u8>) {
    EncodeVarInt(f.id * 8 + Kind(f)) + EncodeValue(f)
  }

  function EncodeAll(fields: seq<Field>): (r: seq<u8>) {
    if fields == [] then [] else Encode(fields[0]) + EncodeAll(fields[1..])
  }

  /** The field an area stands for. */
  predicate Denotes(bytes: seq<u8>, a: Area, f: Field) {
    && a.id == f.id && a.kind == Kind(f)
    && match f
       case VarIntField(_, v) => a.value == v
       case Fixed64Field(_, v) => a.value == v
       case BytesField(_, payload) => a.value + a.size <= |bytes| && bytes[a.value..a.value + a.size] == payload
       case Fixed32Field(_, v) => a.value == v
  }

  // ---------------------------------------------------------------------------
  // Round trip
  // ---------------------------------------------------------------------------

  /** 128 to the power n. */
  function Power(n: nat): (r: nat)
    ensures r > 0
  {
    if n == 0 then 1 else 128 * Power(n - 1)
  }

  /** A number below 128^n takes at most n bytes. */
  lemma {:induction false} VarIntLength(v: nat, n: nat)
    requires v < Power(n) && n > 0
    ensures |EncodeVarInt(v)| <= n
  {
    if v >= 128 {
      assert Power(n) == 128 * Power(n - 1);
      assert n > 1;
      VarIntLength(v / 128, n - 1);
    }
  }

  lemma {:induction false} DigitsRoundTrip(bytes: seq<u8>, i: nat, k: nat, v: nat)
    requires HasAt(bytes, i, EncodeVarInt(v)) && k + |EncodeVarInt(v)| <= MAX_VARINT_BYTES
    ensures i < |bytes| && Digits(bytes, i, k) == Some((v, i + |EncodeVarInt(v)|))
    decreases v
  {
    assert bytes[i] == EncodeVarInt(v)[0];
    if v >= 128 {
      HasAtParts(bytes, i, [v % 128 + 128], EncodeVarInt(v / 128));
      DigitsRoundTrip(bytes, i + 1, k + 1, v / 128);
    }
  }

  lemma {:induction false} VarIntRoundTrip(bytes: seq<u8>, i: nat, v: u64)
    requires HasAt(bytes, i, EncodeVarInt(v))
    ensures i < |bytes| && VarInt(bytes, i) == Some((v, i + |EncodeVarInt(v)|))
  {
    assert Power(5) == 0x8_0000_0000;
    assert Power(10) == 0x8_0000_0000 * 0x8_0000_0000;
    VarIntLength(v, 10);
    DigitsRoundTrip(bytes, i, 0, v);
  }

  lemma {:induction false} LittleRoundTrip(bytes: seq<u8>, i: nat, v: nat, n: nat, limit: nat)
    requires HasAt(bytes, i, EncodeLittle(v, n)) && v < limit && limit == Bytes(n)
    ensures Little(bytes, i, n) == v
    decreases n
  {
    if n > 0 {
      HasAtParts(bytes, i, [v % 256], EncodeLittle(v / 256, n - 1));
      assert bytes[i] == EncodeLittle(v, n)[0];
      LittleRoundTrip(bytes, i + 1, v / 256, n - 1, Bytes(n - 1));
    }
  }

  /** 256 to the power n. */
  function Bytes(n: nat): (r: nat) {
    if n == 0 then 1 else 256 * Bytes(n - 1)
  }

  lemma {:induction false} TagRoundTrip(bytes: seq<u8>, i: nat, tag: u64)
    requires HasAt(bytes, i, EncodeVarInt(tag)) && i + |EncodeVarInt(tag)| < |bytes|
    ensures NextTag(bytes, i) == Some((tag, i + |EncodeVarInt(tag)|))
  {
    VarIntRoundTrip(bytes, i, tag);
    assert bytes[i] == EncodeVarInt(tag)[0];
  }

  /** What the value parsers make of an encoded value. */
  lemma ValueRoundTrip(bytes: seq<u8>, start: nat, at: nat, id: u16, f: Field)
    requires Writable(f) && start < at && HasAt(bytes, at, EncodeValue(f))
    ensures at < |bytes|
    ensures var p := Value(bytes, start, at, id, Kind(f));
            && p.next == at + |EncodeValue(f)| && (id == f.id && p.status == Ok ==> Denotes(bytes, p.area, f))
            && p.status == if f.BytesField? && |f.payload| > MAX_MESSAGE_LENGTH then Skip else Ok
  {
    hide EncodeVarInt, VarInt, EncodeLittle, Little;
    match f {
      case VarIntField(_, v) =>
        VarIntRoundTrip(bytes, at, v);
      case Fixed64Field(_, v) =>
        assert Bytes(4) == TWO32 && Bytes(8) == TWO64;
        LittleRoundTrip(bytes, at, v, 8, TWO64);
      case BytesField(_, payload) =>
        var head := EncodeVarInt(|payload|);
        HasAtParts(bytes, at, head, payload);
        VarIntRoundTrip(bytes, at, |payload|);
        var from := at + |head|;
        assert bytes[from..from + |payload|] == payload;
      case Fixed32Field(_, v) =>
        assert Bytes(4) == TWO32;
        LittleRoundTrip(bytes, at, v, 4, TWO32);
    }
  }

  /** One encoded field, wherever it stands: with an id that fits 16 bits it is consumed whole,
      and delivered unless its payload is too long; with a larger id only its tag is. */
  lemma FieldRead(bytes: seq<u8>, i: nat, f: Field)
    requires Writable(f) && HasAt(bytes, i, Encode(f))
    ensures var p, tag := ParseOne(bytes, i), EncodeVarInt(f.id * 8 + Kind(f));
            if f.id > 0xFFFF then p == Parsed(Skip, i + |tag|, NONE)
            else
              && p.next == i + |Encode(f)| && (p.status == Ok ==> Denotes(bytes, p.area, f))
              && p.status == if f.BytesField? && |f.payload| > MAX_MESSAGE_LENGTH then Skip else Ok
  {
    hide HasAt, Value, Denotes, EncodeVarInt, EncodeValue, NextTag, Writable;
    var tag := f.id * 8 + Kind(f);
    assert tag / 8 == f.id && tag % 8 == Kind(f);
    HasAtParts(bytes, i, EncodeVarInt(tag), EncodeValue(f));
    ValueRoundTrip(bytes, i, i + |EncodeVarInt(tag)|, if f.id > 0xFFFF then 0 else f.id, f);
    TagRoundTrip(bytes, i, tag);
  }

  /** One encoded field is read back, wherever it stands. */
  lemma FieldRoundTrip(bytes: seq<u8>, i: nat, f: Field)
    requires Encodable(f) && HasAt(bytes, i, Encode(f))
    ensures var p := ParseOne(bytes, i);
            p.status == Ok && p.next == i + |Encode(f)| && Denotes(bytes, p.area, f)
  {
    hide HasAt, Encode, ParseOne, Denotes;
    FieldRead(bytes, i, f);
  }

  /** A field of any type is consumed whole if and only if its id fits 16 bits; otherwise the
      reader goes on with the bytes of its value. */
  lemma ConsumedIff(bytes: seq<u8>, i: nat, f: Field)
    requires Writable(f) && HasAt(bytes, i, Encode(f))
    ensures ParseOne(bytes, i).next == i + |Encode(f)| <==> f.id <= 0xFFFF
    ensures f.id > 0xFFFF ==> ParseOne(bytes, i).next + |EncodeValue(f)| == i + |Encode(f)|
  {
    hide HasAt, ParseOne, Denotes, EncodeVarInt, EncodeValue;
    FieldRead(bytes, i, f);
  }

  /** A field is delivered if and only if its id fits 16 bits and its payload is not too long. */
  lemma DeliveredIff(bytes: seq<u8>, i: nat, f: Field)
    requires Writable(f) && HasAt(bytes, i, Encode(f))
    ensures ParseOne(bytes, i).status == Ok && Denotes(bytes, ParseOne(bytes, i).area, f) <==> Encodable(f)
  {
    hide HasAt, ParseOne, Denotes, Encode;
    FieldRead(bytes, i, f);
  }

  /** The areas stand for the fields, one by one. */
  ghost predicate DenoteAll(bytes: seq<u8>, areas: seq<Area>, fields: seq<Field>) {
    |areas| == |fields| && forall k :: 0 <= k < |fields| ==> Denotes(bytes, areas[k], fields[k])
  }

  lemma DenoteMore(bytes: seq<u8>, a: Area, areas: seq<Area>, f: Field, fields: seq<Field>)
    requires Denotes(bytes, a, f) && DenoteAll(bytes, areas, fields)
    ensures DenoteAll(bytes, [a] + areas, [f] + fields)
  {
    hide Denotes;
  }

  lemma {:induction false} NothingLeft(bytes: seq<u8>)
    ensures DenoteAll(bytes, Areas(bytes, |bytes|), [])
  {
    assert ParseOne(bytes, |bytes|).status == Abort;
  }

  lemma {:induction false} AreasAfter(bytes: seq<u8>, i: nat)
    requires ParseOne(bytes, i).status == Ok
    ensures Areas(bytes, i) == [ParseOne(bytes, i).area] + Areas(bytes, ParseOne(bytes, i).next)
  {
  }

  /** The reader sees exactly the encoded fields, in wire order. */
  lemma {:induction false} MessageRoundTrip(bytes: seq<u8>, i: nat, fields: seq<Field>)
    requires forall k :: 0 <= k < |fields| ==> Encodable(fields[k])
    requires HasAt(bytes, i, EncodeAll(fields)) && i + |EncodeAll(fields)| == |bytes|
    ensures DenoteAll(bytes, Areas(bytes, i), fields)
    decreases |fields|
  {
    hide HasAt, Denotes, DenoteAll, ParseOne, Encode, Encodable, Areas;
    if fields == [] {
      NothingLeft(bytes);
    } else {
      var head, rest := Encode(fields[0]), fields[1..];
      HasAtParts(bytes, i, head, EncodeAll(rest));
      FieldRoundTrip(bytes, i, fields[0]);
      AreasAfter(bytes, i);
      MessageRoundTrip(bytes, i + |head|, rest);
      DenoteMore(bytes, ParseOne(bytes, i).area, Areas(bytes, i + |head|), fields[0], rest);
      assert fields == [fields[0]] + rest;
    }
  }

  /** An id above 65535 derails the reader: the field (65536, 8) in front of (2, 5) turns into the
      field (1, 16). */
  lemma BigIdDerails()
    ensures var bytes := EncodeAll([VarIntField(65536, 8), VarIntField(2, 5)]);
            Areas(bytes, 0) == [Area(1, VARINT, 16, 0)]
  {
    var bytes: seq<u8> := [0x80, 0x80, 0x20, 0x08, 0x10, 0x05];
    EncodeBig();
    hide EncodeAll;
    assert Digits(bytes, 2, 2) == Some((0x20, 3));
    assert Digits(bytes, 1, 1) == Some((0x1000, 3));
    assert Digits(bytes, 0, 0) == Some((0x80000, 3));
    assert ParseOne(bytes, 0) == Parsed(Skip, 3, NONE);
    assert ParseOne(bytes, 3) == Parsed(Ok, 5, Area(1, VARINT, 16, 0));
    assert ParseOne(bytes, 5).status == Abort;
  }

  lemma EncodeBig()
    ensures EncodeAll([VarIntField(65536, 8), VarIntField(2, 5)]) == [0x80, 0x80, 0x20, 0x08, 0x10, 0x05]
  {
    var a, b := VarIntField(65536, 8), VarIntField(2, 5);
    assert EncodeVarInt(0x20) == [0x20];
    assert EncodeVarInt(0x1000) == [0x80, 0x20];
    assert EncodeVarInt(0x80000) == [0x80, 0x80, 0x20];
    assert Encode(a) == [0x80, 0x80, 0x20, 0x08] && Encode(b) == [0x10, 0x05];
    assert [a, b][1..] == [b] && [b][1..] == [];
    assert EncodeAll([b]) == [0x10, 0x05] + EncodeAll([]);
  }
}
