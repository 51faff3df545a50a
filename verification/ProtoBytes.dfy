/** Exactly which bytes the protobuf reader takes for a field, malformed ones included
    (trace_streamer/src/proto_reader/proto_reader.cpp:46-168). */
module ProtoBytes {
  import opened Words
  import opened ProtoWire

  /** The number of the base 128 digits from i to next, lowest first. */
  function Number(bytes: seq<u8>, i: nat, next: nat): (n: nat)
    requires next <= |bytes|
    decreases next - i
  {
    if next <= i then 0 else bytes[i] % 128 + 128 * Number(bytes, i + 1, next)
  }

  /** One to ten bytes, of which only the last is below 128, with the number v modulo 2^64. */
  ghost predicate VarIntAt(bytes: seq<u8>, i: nat, next: nat, v: nat) {
    && i < next <= |bytes| && next <= i + 10
    && (forall k :: i <= k < next - 1 ==> bytes[k] >= 128) && bytes[next - 1] < 128
    && v == Number(bytes, i, next) % 0x1_0000_0000_0000_0000
  }

  /** Where the base 128 number that starts at i ends, if it does within the bytes allowed. */
  ghost predicate DigitsAt(bytes: seq<u8>, i: nat, k: nat, next: nat) {
    && i < next <= |bytes| && next - i <= 10 - k
    && (forall j :: i <= j < next - 1 ==> bytes[j] >= 128) && bytes[next - 1] < 128
  }

  lemma {:induction false} DigitsMean(bytes: seq<u8>, i: nat, k: nat, next: nat)
    requires i < |bytes| && k < 10
    ensures DigitsAt(bytes, i, k, next) ==> Digits(bytes, i, k) == Some((Number(bytes, i, next), next))
    ensures Digits(bytes, i, k).Some? && Digits(bytes, i, k).value.1 == next ==> DigitsAt(bytes, i, k, next)
    decreases |bytes| - i
  {
    if bytes[i] < 128 {
      assert DigitsAt(bytes, i, k, next) ==> next == i + 1;
      assert next == i + 1 ==> Number(bytes, i, next) == bytes[i];
    } else if i + 1 < |bytes| && k + 1 < 10 {
      DigitsMean(bytes, i + 1, k + 1, next);
      assert DigitsAt(bytes, i, k, next) <==> DigitsAt(bytes, i + 1, k + 1, next);
    }
  }

  lemma VarIntIff(bytes: seq<u8>, i: nat, v: nat, next: nat)
    requires i < |bytes|
    ensures VarIntAt(bytes, i, next, v) <==> VarInt(bytes, i).Some? && VarInt(bytes, i).value.0 == v && VarInt(bytes, i).value.1 == next
  {
    DigitsMean(bytes, i, 0, next);
    assert VarIntAt(bytes, i, next, v) ==> DigitsAt(bytes, i, 0, next);
  }

  /** A tag is a number that is followed by at least one byte. */
  lemma TagIff(bytes: seq<u8>, i: nat, tag: nat, at: nat)
    requires i < |bytes|
    ensures VarIntAt(bytes, i, at, tag) && at < |bytes| <==>
            NextTag(bytes, i).Some? && NextTag(bytes, i).value.0 == tag && NextTag(bytes, i).value.1 == at
  {
    VarIntIff(bytes, i, tag, at);
    if bytes[i] < 128 {
      assert VarIntAt(bytes, i, at, tag) ==> at == i + 1;
      assert at == i + 1 ==> Number(bytes, i, at) == bytes[i];
    }
  }

  /** A value of the kind lies from at to next: a number, eight or four bytes, or a length and that many
      bytes. */
  ghost predicate ValueAt(bytes: seq<u8>, at: nat, kind: u8, next: nat, value: nat, size: u32) {
    match kind
    case 0 => VarIntAt(bytes, at, next, value) && size == 0
    case 1 => next == at + 8 <= |bytes| && value == Little(bytes, at, 8) && size == 0
    case 2 => value <= next <= |bytes| && VarIntAt(bytes, at, value, next - value) && size == (next - value) % 0x1_0000_0000
    case 5 => next == at + 4 <= |bytes| && value == Little(bytes, at, 4) && size == 0
    case _ => false
  }

  /** What the value parsers make of a value. */
  lemma {:induction false} ValueMeans(bytes: seq<u8>, start: nat, at: nat, id: u16, kind: u8, next: nat, value: nat, size: u32)
    requires start < at < |bytes|
    ensures ValueAt(bytes, at, kind, next, value, size) ==>
              Value(bytes, start, at, id, kind) ==
              Parsed(if kind == 2 && next - value > 0xFFF_FFFF then Skip else Ok, next, Area(id, kind, value, size))
    ensures var p := Value(bytes, start, at, id, kind);
            p.status != Abort && p.next == next && p.area == Area(id, kind, value, size) ==> ValueAt(bytes, at, kind, next, value, size)
  {
    hide Little, VarIntAt;
    if kind == 0 {
      if VarInt(bytes, at).Some? {
        VarIntIff(bytes, at, VarInt(bytes, at).value.0, VarInt(bytes, at).value.1);
      }
      if VarIntAt(bytes, at, next, value) {
        VarIntIff(bytes, at, value, next);
      }
    } else if kind == 2 {
      if VarInt(bytes, at).Some? {
        VarIntIff(bytes, at, VarInt(bytes, at).value.0, VarInt(bytes, at).value.1);
      }
      if value <= next && VarIntAt(bytes, at, value, next - value) {
        VarIntIff(bytes, at, next - value, value);
      }
    }
  }

  /** A tag at i with this id and kind, and a byte behind it at `at`. */
  ghost predicate TagAt(bytes: seq<u8>, i: nat, at: nat, id: nat, kind: nat) {
    at < |bytes| && exists tag: nat :: VarIntAt(bytes, i, at, tag) && id == tag / 8 % 0x1_0000_0000 && kind == tag % 8
  }

  lemma {:induction false} TagMeans(bytes: seq<u8>, i: nat, at: nat, id: nat, kind: nat)
    requires i < |bytes|
    ensures TagAt(bytes, i, at, id, kind) <==>
            && NextTag(bytes, i).Some? && NextTag(bytes, i).value.1 == at
            && id == NextTag(bytes, i).value.0 / 8 % TWO32 && kind == NextTag(bytes, i).value.0 % 8
  {
    hide VarIntAt;
    if TagAt(bytes, i, at, id, kind) {
      var tag: nat :| VarIntAt(bytes, i, at, tag) && id == tag / 8 % 0x1_0000_0000 && kind == tag % 8;
      TagIff(bytes, i, tag, at);
    }
    if NextTag(bytes, i).Some? {
      TagIff(bytes, i, NextTag(bytes, i).value.0, NextTag(bytes, i).value.1);
    }
  }

  /** A field at i that is delivered: its id fits, its value is whole, and its payload not too long. */
  ghost predicate FieldAt(bytes: seq<u8>, i: nat, next: nat, a: Area) {
    && i < |bytes| && 0 < a.id
    && (exists at: nat :: i < at < |bytes| && TagAt(bytes, i, at, a.id, a.kind) && ValueAt(bytes, at, a.kind, next, a.value, a.size))
    && (a.kind == 2 ==> next - a.value <= 0xFFF_FFFF)
  }

  /** A tag at i whose id does not fit, or a payload that is too long. */
  ghost predicate SkippedAt(bytes: seq<u8>, i: nat, next: nat) {
    && i < |bytes|
    && ((exists id: nat, kind: nat :: TagAt(bytes, i, next, id, kind) && id > 0xFFFF)
        || exists at: nat, id: nat, value: nat, size: u32 ::
             i < at < |bytes| && TagAt(bytes, i, at, id, 2) && 0 < id <= 0xFFFF && ValueAt(bytes, at, 2, next, value, size) && next - value > 0xFFF_FFFF)
  }

  /** Exactly what is delivered, from any bytes. */
  lemma {:induction false} DeliversIff(bytes: seq<u8>, i: nat, next: nat, a: Area)
    ensures ParseOne(bytes, i) == Parsed(Ok, next, a) <==> FieldAt(bytes, i, next, a)
  {
    hide VarIntAt, ValueAt, TagAt, Value, NextTag;
    if i < |bytes| {
      if FieldAt(bytes, i, next, a) {
        var at: nat :| i < at < |bytes| && TagAt(bytes, i, at, a.id, a.kind) && ValueAt(bytes, at, a.kind, next, a.value, a.size);
        TagMeans(bytes, i, at, a.id, a.kind);
        ValueMeans(bytes, i, at, a.id, a.kind, next, a.value, a.size);
      }
      if ParseOne(bytes, i) == Parsed(Ok, next, a) {
        var at := NextTag(bytes, i).value.1;
        TagMeans(bytes, i, at, a.id, NextTag(bytes, i).value.0 % 8);
        ValueMeans(bytes, i, at, a.id, NextTag(bytes, i).value.0 % 8, next, a.value, a.size);
        KindStays(bytes, i, at, a.id, NextTag(bytes, i).value.0 % 8);
      }
    }
  }

  lemma KindStays(bytes: seq<u8>, start: nat, at: nat, id: u16, kind: u8)
    requires start < at < |bytes|
    ensures Value(bytes, start, at, id, kind).area.kind == kind
  {
  }

  /** Exactly what is skipped, and up to where. Everything else makes the reader stop. */
  lemma {:induction false} SkipsIff(bytes: seq<u8>, i: nat, next: nat)
    ensures ParseOne(bytes, i).status == Skip && ParseOne(bytes, i).next == next <==> SkippedAt(bytes, i, next)
  {
    hide VarIntAt, ValueAt, TagAt, Value, NextTag;
    if i < |bytes| {
      if SkippedAt(bytes, i, next) {
        SkippedSkips(bytes, i, next);
      }
      if ParseOne(bytes, i).status == Skip && ParseOne(bytes, i).next == next {
        SkipsSkipped(bytes, i, next);
      }
    }
  }

  lemma {:induction false} SkippedSkips(bytes: seq<u8>, i: nat, next: nat)
    requires SkippedAt(bytes, i, next)
    ensures ParseOne(bytes, i).status == Skip && ParseOne(bytes, i).next == next
  {
    hide VarIntAt, ValueAt, TagAt, Value, NextTag;
    if id: nat, kind: nat :| TagAt(bytes, i, next, id, kind) && id > 0xFFFF {
      TagMeans(bytes, i, next, id, kind);
    } else {
      var at: nat, id: nat, value: nat, size: u32 :|
        i < at < |bytes| && TagAt(bytes, i, at, id, 2) && 0 < id <= 0xFFFF && ValueAt(bytes, at, 2, next, value, size) && next - value > 0xFFF_FFFF;
      TagMeans(bytes, i, at, id, 2);
      ValueMeans(bytes, i, at, id, 2, next, value, size);
    }
  }

  lemma {:induction false} SkipsSkipped(bytes: seq<u8>, i: nat, next: nat)
    requires i < |bytes| && ParseOne(bytes, i).status == Skip && ParseOne(bytes, i).next == next
    ensures SkippedAt(bytes, i, next)
  {
    hide VarIntAt, ValueAt, TagAt, Value, NextTag;
    var (tag, at) := NextTag(bytes, i).value;
    var id, kind := tag / 8 % TWO32, tag % 8;
    TagMeans(bytes, i, at, id, kind);
    if id <= 0xFFFF {
      var a := ParseOne(bytes, i).area;
      KindStays(bytes, i, at, id, kind);
      ValueMeans(bytes, i, at, id, kind, next, a.value, a.size);
      assert ValueAt(bytes, at, kind, next, a.value, a.size);
    }
  }
}
