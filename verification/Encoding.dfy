/** What nanopb's encoder produces, as functions from a struct to bytes.
    The methods in PbEncode are proved to write exactly these bytes. */
module Encoding {
  import opened Bits
  import opened PbTypes
  import Varint

  /** Outcome of an encoder: whether it succeeds, and the bytes it produces up to its end or its first error. */
  datatype Enc = Enc(ok: bool, bytes: seq<byte>)

  const NOTHING: Enc := Enc(true, [])
  const FAILED: Enc := Enc(false, [])

  /** b runs after a, and only if a succeeds. */
  function Then(a: Enc, b: Enc): Enc
  {
    if a.ok then Enc(b.ok, a.bytes + b.bytes) else a
  }

  // ---------------------------------------------------------------- tags

  const WT_VARINT: nat := 0
  const WT_64BIT: nat := 1
  const WT_STRING: nat := 2
  const WT_32BIT: nat := 5

  /** pb_encode_tag: the three low bits are the wire type. */
  function EncodeTag(wireType: nat, tag: nat): seq<byte>
  {
    Varint.Encode(tag * 8 + wireType)
  }

  function WireType(l: LType): nat
    requires !l.EXTENSION?
  {
    match l
    case BOOL | VARINT | UVARINT | SVARINT => WT_VARINT
    case FIXED32 => WT_32BIT
    case FIXED64 => WT_64BIT
    case BYTES | STRING | SUBMESSAGE | FIXED_LENGTH_BYTES => WT_STRING
  }

  // ---------------------------------------------------------------- values

  /** n as count little-endian bytes. */
  function LittleEndian(n: nat, count: nat): (bs: seq<byte>)
    ensures |bs| == count
  {
    if count == 0 then [] else [n % 256] + LittleEndian(n / 256, count - 1)
  }

  lemma LittleEndian4(n: nat)
    ensures LittleEndian(n, 4) == [n % 256, n / 0x100 % 256, n / 0x1_0000 % 256, n / 0x100_0000 % 256]
  {
    assert LittleEndian(n / 0x100_0000, 1) == [n / 0x100_0000 % 256];
    assert LittleEndian(n / 0x1_0000, 2) == [n / 0x1_0000 % 256] + LittleEndian(n / 0x100_0000, 1);
    assert LittleEndian(n / 0x100, 3) == [n / 0x100 % 256] + LittleEndian(n / 0x1_0000, 2);
  }

  lemma LittleEndianPair(n: nat, count: nat)
    ensures LittleEndian(n, count + 2) == [n % 256, n / 0x100 % 256] + LittleEndian(n / 0x1_0000, count)
  {
    assert n / 0x100 / 0x100 == n / 0x1_0000;
    assert LittleEndian(n / 0x100, count + 1) == [n / 0x100 % 256] + LittleEndian(n / 0x1_0000, count);
    assert LittleEndian(n, count + 2) == [n % 256] + LittleEndian(n / 0x100, count + 1);
  }

  lemma LittleEndian8(n: nat)
    ensures LittleEndian(n, 8) == LittleEndian(n, 4) + LittleEndian(n / 0x1_0000_0000, 4)
  {
    var half := n / 0x1_0000;
    assert half / 0x1_0000 == n / 0x1_0000_0000;
    LittleEndianPair(n, 6);
    LittleEndianPair(half, 4);
    LittleEndianPair(n, 2);
    LittleEndianPair(half, 0);
  }

  function LengthPrefixed(payload: seq<byte>): seq<byte>
  {
    Varint.Encode(|payload|) + payload
  }

  /** The pb_enc_* functions other than pb_enc_submessage. */
  function EncodeScalar(f: Field, v: Value): Enc
    requires Holds(f, v) && !f.ltype.SUBMESSAGE?
  {
    match f.ltype
    case BOOL => Enc(true, Varint.Encode(if v.b then 1 else 0))
    case VARINT => if IntSize(f.dataSize) then Enc(true, Varint.Encode(v.n % TWO64)) else FAILED
    case UVARINT => if IntSize(f.dataSize) then Enc(true, Varint.Encode(v.n)) else FAILED
    case SVARINT => if IntSize(f.dataSize) then Enc(true, Varint.Encode(Varint.ZigZag(v.n))) else FAILED
    case FIXED32 => Enc(true, LittleEndian(v.n, 4))
    case FIXED64 => Enc(true, LittleEndian(v.n, 8))
    case BYTES => if |v.data| + BYTES_OFFSET > f.dataSize then FAILED else Enc(true, LengthPrefixed(v.data))
    case STRING => Enc(true, LengthPrefixed(CString(v.data)))
    case FIXED_LENGTH_BYTES => Enc(true, LengthPrefixed(v.data))
  }

  /** pb_enc_submessage: the submessage is measured first, so nothing is written when it cannot be encoded. */
  function EncodeValue(f: Field, v: Value): Enc
    requires ValueMatches(f, v)
    decreases f, 0
  {
    if !f.ltype.SUBMESSAGE? then EncodeScalar(f, v)
    else if !f.ptr.Fields? then FAILED
    else
      var m := EncodeMessage(f.ptr.fields, v.slots);
      if m.ok then Enc(true, LengthPrefixed(m.bytes)) else FAILED
  }

  function EncodeTagged(f: Field, v: Value): Enc
    requires ValueMatches(f, v)
    decreases f, 1
  {
    Then(Enc(true, EncodeTag(WireType(f.ltype), f.tag)), EncodeValue(f, v))
  }

  // ---------------------------------------------------------------- arrays

  /** The elements of a packed array, back to back. */
  function EncodePacked(f: Field, items: seq<Value>): Enc
    requires Packable(f.ltype) && forall j :: 0 <= j < |items| ==> Holds(f, items[j])
  {
    if items == [] then NOTHING
    else Then(EncodeScalar(f, items[0]), EncodePacked(f, items[1..]))
  }

  function EncodeUnpacked(f: Field, items: seq<Value>): Enc
    requires forall j :: 0 <= j < |items| ==> ValueMatches(f, items[j])
    decreases f, 2, |items|
  {
    if items == [] then NOTHING
    else Then(EncodeTagged(f, items[0]), EncodeUnpacked(f, items[1..]))
  }

  /** encode_array: arrays are packed whenever the type allows it. */
  function EncodeArray(f: Field, items: seq<Value>): Enc
    requires forall j :: 0 <= j < |items| ==> ValueMatches(f, items[j])
    decreases f, 3
  {
    if items == [] then NOTHING
    else if |items| > f.arraySize then FAILED
    else if Packable(f.ltype) then
      assert forall j :: 0 <= j < |items| ==> ValueMatches(f, items[j]) && Holds(f, items[j]);
      var payload := EncodePacked(f, items);
      Then(Enc(true, EncodeTag(WT_STRING, f.tag)),
           if payload.ok then Enc(true, LengthPrefixed(payload.bytes)) else FAILED)
    else EncodeUnpacked(f, items)
  }

  // ---------------------------------------------------------------- proto3 implicit presence

  /** pb_check_proto3_default_value for a singular value: is it the zero value? */
  predicate IsZero(f: Field, v: Value)
    requires ValueMatches(f, v)
    decreases f, 0
  {
    match f.ltype
    case BOOL => !v.b
    case VARINT | UVARINT | SVARINT | FIXED32 | FIXED64 => v.n == 0
    case BYTES => v.data == []
    case STRING => v.data == [] || v.data[0] == 0
    case FIXED_LENGTH_BYTES => f.dataSize == 0
    case SUBMESSAGE =>
      f.ptr.Fields? ==> AllDefault(f.ptr.fields, v.slots, 0)
  }

  /** pb_check_proto3_default_value for one member of a submessage. */
  predicate SlotIsDefault(f: Field, slot: Slot)
    requires SlotMatches(f, slot)
    decreases f, 1
  {
    match f.htype
    case REQUIRED => false
    case REPEATED => slot.items == []
    case ONEOF => slot.NoMember?
    case OPTIONAL => if f.sizeOffset != 0 then !slot.has else IsZero(f, slot.v)
  }

  predicate AllDefault(fs: seq<Field>, slots: seq<Slot>, i: nat)
    requires i <= |fs| && MatchesFrom(fs, slots, i)
    decreases fs, |fs| - i
  {
    i == |fs| || (SlotIsDefault(fs[i], slots[SlotOf(fs, i)]) && AllDefault(fs, slots, i + 1))
  }

  // ---------------------------------------------------------------- fields and messages

  /** Is the field written at all? */
  predicate Present(f: Field, slot: Slot)
    requires SlotMatches(f, slot)
  {
    match f.htype
    case REQUIRED => true
    case OPTIONAL => if f.sizeOffset != 0 then slot.has else !IsZero(f, slot.v)
    case REPEATED => slot.items != []
    case ONEOF => slot.Member? && slot.which == f.tag
  }

  /** encode_basic_field. */
  function EncodeField(f: Field, slot: Slot): Enc
    requires SlotMatches(f, slot)
    decreases f, 4
  {
    if !Present(f, slot) then NOTHING
    else if f.htype.REPEATED? then EncodeArray(f, slot.items)
    else EncodeTagged(f, slot.v)
  }

  /** The fields from entry i on, in descriptor order. */
  function EncodeFrom(fs: seq<Field>, slots: seq<Slot>, i: nat): Enc
    requires i <= |fs| && MatchesFrom(fs, slots, i)
    decreases fs, |fs| - i
  {
    if i == |fs| then NOTHING
    else Then(EncodeField(fs[i], slots[SlotOf(fs, i)]), EncodeFrom(fs, slots, i + 1))
  }

  /** pb_encode. */
  function EncodeMessage(fs: seq<Field>, slots: seq<Slot>): Enc
    requires Matches(fs, slots)
    decreases fs, |fs| + 1
  {
    EncodeFrom(fs, slots, 0)
  }
}
