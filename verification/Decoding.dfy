/** What nanopb's decoder makes of a byte sequence, as functions on the bytes left in the stream.
    A result is None where the C function returns false; the methods in PbDecode are proved to compute these. */
module Decoding {
  import opened Bits
  import opened PbTypes
  import Varint
  import E = Encoding

  type Read<T> = Varint.Read<T>

  // ---------------------------------------------------------------- raw reads

  /** pb_read. */
  function ReadBytes(s: seq<byte>, count: nat): Read<seq<byte>>
  {
    if count <= |s| then Some((s[..count], s[count..])) else None
  }

  /** pb_make_string_substream, with the rest of the parent stream. */
  function ReadString(s: seq<byte>): (r: Read<seq<byte>>)
    ensures r.Some? ==> |r.value.1| < |s|
  {
    match Varint.Decode32(s)
    case None => None
    case Some((size, rest)) => ReadBytes(rest, size)
  }

  datatype TagResult =
    | Tag(wireType: nat, tag: nat, rest: seq<byte>)
    | EndOfMessage(rest: seq<byte>)   // a zero tag ends the message
    | BadTag

  /** pb_decode_tag. */
  function DecodeTag(s: seq<byte>): (r: TagResult)
    ensures r.Tag? ==> |r.rest| < |s|
  {
    match Varint.Decode32(s)
    case None => if s == [] then EndOfMessage(s) else BadTag
    case Some((t, rest)) => if t == 0 then EndOfMessage(rest) else Tag(t % 8, t / 8, rest)
  }

  /** pb_skip_varint. */
  function SkipVarint(s: seq<byte>): (r: Option<seq<byte>>)
    ensures r.Some? ==> |r.value| < |s|
  {
    if s == [] then None else if s[0] < 128 then Some(s[1..]) else SkipVarint(s[1..])
  }

  function Rest<T>(r: Read<T>): Option<seq<byte>>
  {
    if r.Some? then Some(r.value.1) else None
  }

  /** pb_skip_field. */
  function SkipField(wireType: nat, s: seq<byte>): (r: Option<seq<byte>>)
    ensures r.Some? ==> |r.value| < |s|
  {
    if wireType == E.WT_VARINT then SkipVarint(s)
    else if wireType == E.WT_64BIT then Rest(ReadBytes(s, 8))
    else if wireType == E.WT_STRING then Rest(ReadString(s))
    else if wireType == E.WT_32BIT then Rest(ReadBytes(s, 4))
    else None
  }

  // ---------------------------------------------------------------- values

  /** The cast of a word to a signed integer of the given width. */
  function Signed(v: nat, size: nat): int
    requires IntSize(size)
  {
    var w := v % (2 * Half(size));
    if w < Half(size) then w else w - 2 * Half(size)
  }

  function FromLittleEndian(bs: seq<byte>): nat
  {
    if bs == [] then 0 else bs[0] + 256 * FromLittleEndian(bs[1..])
  }

  /** pb_dec_varint after the read: fields of 32 bits and less are cast through int32_t first. */
  function NarrowVarint(f: Field, v: nat): Option<Value>
  {
    if !IntSize(f.dataSize) then None
    else
      var svalue := if f.dataSize == 8 then Signed(v, 8) else Signed(v, 4);
      if Signed(svalue % TWO64, f.dataSize) == svalue then Some(Int(svalue)) else None
  }

  function NarrowUnsigned(f: Field, v: nat): Option<Value>
  {
    if IntSize(f.dataSize) && v % (2 * Half(f.dataSize)) == v then Some(Int(v)) else None
  }

  function NarrowSigned(f: Field, n: int): Option<Value>
  {
    if IntSize(f.dataSize) && Signed(n % TWO64, f.dataSize) == n then Some(Int(n)) else None
  }

  function Zeros(n: nat): (bs: seq<byte>)
    ensures |bs| == n
  {
    seq(n, _ => 0)
  }

  function WithRest(v: Option<Value>, rest: seq<byte>): Read<Value>
  {
    if v.Some? then Some((v.value, rest)) else None
  }

  /** pb_dec_bytes, pb_dec_string and pb_dec_fixed_length_bytes after the length is read. */
  function DecodeSized(f: Field, size: nat, s: seq<byte>): Read<Value>
  {
    var fits :=
      match f.ltype
      case BYTES => size <= PB_SIZE_MAX && size + BYTES_OFFSET <= f.dataSize
      case STRING => size + 1 <= f.dataSize
      case _ => size <= PB_SIZE_MAX && (size == 0 || size == f.dataSize);
    if !fits then None
    else if f.ltype.FIXED_LENGTH_BYTES? && size == 0 then Some((Bytes(Zeros(f.dataSize)), s))
    else
      match ReadBytes(s, size)
      case None => None
      case Some((data, rest)) => Some((Bytes(data), rest))
  }

  /** The pb_dec_* functions other than pb_dec_submessage. */
  function DecodeScalar(f: Field, s: seq<byte>): (r: Read<Value>)
    ensures r.Some? ==> |r.value.1| < |s|
  {
    match f.ltype
    case BOOL =>
      (match Varint.Decode32(s)
       case None => None
       case Some((v, rest)) => Some((Bool(v != 0), rest)))
    case VARINT =>
      (match Varint.Decode64(s)
       case None => None
       case Some((v, rest)) => WithRest(NarrowVarint(f, v), rest))
    case UVARINT =>
      (match Varint.Decode64(s)
       case None => None
       case Some((v, rest)) => WithRest(NarrowUnsigned(f, v), rest))
    case SVARINT =>
      (match Varint.Decode64(s)
       case None => None
       case Some((v, rest)) => WithRest(NarrowSigned(f, Varint.UnZigZag(v % TWO64)), rest))
    case FIXED32 =>
      (match ReadBytes(s, 4)
       case None => None
       case Some((bs, rest)) => Some((Int(FromLittleEndian(bs)), rest)))
    case FIXED64 =>
      (match ReadBytes(s, 8)
       case None => None
       case Some((bs, rest)) => Some((Int(FromLittleEndian(bs)), rest)))
    case BYTES | STRING | FIXED_LENGTH_BYTES =>
      (match Varint.Decode32(s)
       case None => None
       case Some((size, rest)) => DecodeSized(f, size, rest))
    case SUBMESSAGE | EXTENSION => None
  }

  // ---------------------------------------------------------------- defaults

  /** pb_field_set_to_default for the value of a field. */
  function DefaultValue(f: Field): Value
    decreases f, 0
  {
    match f.ltype
    case SUBMESSAGE => Message(if f.ptr.Fields? then Defaults(f.ptr.fields) else [])
    case _ =>
      if f.ptr.Default? then f.ptr.value
      else if f.ltype.BOOL? then Bool(false)
      else if Packable(f.ltype) then Int(0)
      else if f.ltype.FIXED_LENGTH_BYTES? then Bytes(Zeros(f.dataSize))
      else Bytes([])
  }

  /** pb_field_set_to_default. */
  function DefaultSlot(f: Field): Slot
    decreases f, 1
  {
    match f.htype
    case REQUIRED => Single(DefaultValue(f))
    case OPTIONAL => if f.sizeOffset != 0 then Opt(false, DefaultValue(f)) else Single(DefaultValue(f))
    case REPEATED => Array([])
    case ONEOF => NoMember
  }

  function DefaultsUpTo(fs: seq<Field>, n: nat): (slots: seq<Slot>)
    requires n <= |fs|
    ensures |slots| == if n == 0 then 0 else SlotOf(fs, n - 1) + 1
    decreases fs, n
  {
    if n == 0 then []
    else if n >= 2 && SharesUnion(fs[n - 2], fs[n - 1]) then DefaultsUpTo(fs, n - 1)
    else DefaultsUpTo(fs, n - 1) + [DefaultSlot(fs[n - 1])]
  }

  /** pb_message_set_to_defaults. */
  function Defaults(fs: seq<Field>): (slots: seq<Slot>)
    ensures |slots| == SlotCount(fs)
    decreases fs, |fs| + 1
  {
    DefaultsUpTo(fs, |fs|)
  }

  /** What a value is before a field is decoded: the default value of the descriptor, or else zero. */
  predicate InitialValue(f: Field, v: Value)
    decreases f, 0
  {
    if f.ltype.SUBMESSAGE? then
      v.Message? && (if f.ptr.Fields? then Initial(f.ptr.fields, v.slots) else v.slots == [])
    else if f.ptr.Default? then v == f.ptr.value
    else
      match f.ltype
      case BOOL => v == Bool(false)
      case VARINT | UVARINT | SVARINT | FIXED32 | FIXED64 => v == Int(0)
      case FIXED_LENGTH_BYTES =>
        v.Bytes? && |v.data| == f.dataSize && forall k :: 0 <= k < |v.data| ==> v.data[k] == 0
      case _ => v == Bytes([])
  }

  /** No optional field is present, arrays are empty, and unions hold no member. */
  predicate InitialSlot(f: Field, slot: Slot)
    decreases f, 1
  {
    match f.htype
    case REQUIRED => slot.Single? && InitialValue(f, slot.v)
    case OPTIONAL =>
      if f.sizeOffset != 0 then slot.Opt? && !slot.has && InitialValue(f, slot.v)
      else slot.Single? && InitialValue(f, slot.v)
    case REPEATED => slot == Array([])
    case ONEOF => slot == NoMember
  }

  predicate InitialFrom(fs: seq<Field>, slots: seq<Slot>, i: nat)
    requires i <= |fs|
    decreases fs, |fs| - i
  {
    i == |fs|
    || (SlotOf(fs, i) < |slots| && InitialSlot(fs[i], slots[SlotOf(fs, i)]) && InitialFrom(fs, slots, i + 1))
  }

  predicate Initial(fs: seq<Field>, slots: seq<Slot>)
    decreases fs, |fs| + 1
  {
    |slots| == SlotCount(fs) && InitialFrom(fs, slots, 0)
  }

  lemma {:induction false} DefaultIsInitial(f: Field)
    ensures InitialValue(f, DefaultValue(f)) && InitialSlot(f, DefaultSlot(f))
    decreases f, 0
  {
    if f.ltype.SUBMESSAGE? && f.ptr.Fields? {
      DefaultsAreInitial(f.ptr.fields, 0);
    }
  }

  lemma {:induction false} DefaultsAreInitial(fs: seq<Field>, i: nat)
    requires i <= |fs|
    ensures InitialFrom(fs, Defaults(fs), i)
    decreases fs, |fs| - i
  {
    if i == |fs| {
    } else {
      DefaultsUpToSlot(fs, |fs|, i);
      DefaultIsInitial(fs[i]);
      DefaultsAreInitial(fs, i + 1);
    }
  }

  lemma {:induction false} DefaultsUpToSlot(fs: seq<Field>, n: nat, i: nat)
    requires i < n <= |fs|
    ensures SlotOf(fs, i) < |DefaultsUpTo(fs, n)| && DefaultsUpTo(fs, n)[SlotOf(fs, i)] == DefaultSlot(fs[i])
  {
    SlotOfMonotone(fs, i, n - 1);
    if i < n - 1 {
      DefaultsUpToSlot(fs, n - 1, i);
    } else if n >= 2 && SharesUnion(fs[n - 2], fs[n - 1]) {
      DefaultsUpToSlot(fs, n - 1, n - 2);
    }
  }

  /** Every entry's slot starts with that entry's default, also inside a union: not present, empty, without a member,
      with the value of the descriptor or zero. */
  lemma DefaultsSlot(fs: seq<Field>, i: nat)
    requires i < |fs|
    ensures SlotOf(fs, i) < |Defaults(fs)| && Defaults(fs)[SlotOf(fs, i)] == DefaultSlot(fs[i])
    ensures InitialSlot(fs[i], Defaults(fs)[SlotOf(fs, i)])
  {
    DefaultsUpToSlot(fs, |fs|, i);
    DefaultIsInitial(fs[i]);
  }

  // ---------------------------------------------------------------- fields

  /** Where pb_field_iter_find stops: the entry with this tag, or |fs|. */
  function Find(fs: seq<Field>, tag: nat): (i: nat)
    ensures i <= |fs|
    ensures i < |fs| ==> fs[i].tag == tag && !fs[i].ltype.EXTENSION?
    ensures forall j :: 0 <= j < i ==> fs[j].tag != tag || fs[j].ltype.EXTENSION?
  {
    FindFrom(fs, tag, 0)
  }

  function FindFrom(fs: seq<Field>, tag: nat, i: nat): (k: nat)
    requires i <= |fs|
    ensures i <= k <= |fs|
    ensures k < |fs| ==> fs[k].tag == tag && !fs[k].ltype.EXTENSION?
    ensures forall j :: i <= j < k ==> fs[j].tag != tag || fs[j].ltype.EXTENSION?
    decreases |fs| - i
  {
    if i == |fs| || (fs[i].tag == tag && !fs[i].ltype.EXTENSION?) then i else FindFrom(fs, tag, i + 1)
  }

  /** The elements of a packed array appended to those already there. */
  function DecodePacked(f: Field, s: seq<byte>, items: seq<Value>): Option<seq<Value>>
    decreases |s|
  {
    if s == [] then Some(items)
    else if |items| >= f.arraySize then None
    else
      match DecodeScalar(f, s)
      case None => None
      case Some((v, rest)) => DecodePacked(f, rest, items + [v])
  }

  /** What a decoder starts from and ends with: the struct and the required-field indices seen. */
  datatype State = State(slots: seq<Slot>, seen: set<nat>)

  /** pb_dec_* on the memory of one item; prior is what the memory holds. */
  function DecodeValue(f: Field, s: seq<byte>, prior: Value): (r: Read<Value>)
    ensures r.Some? ==> |r.value.1| < |s|
    decreases f, 0
  {
    if !f.ltype.SUBMESSAGE? then DecodeScalar(f, s)
    else
      match ReadString(s)
      case None => None
      case Some((sub, rest)) =>
        if !f.ptr.Fields? || !prior.Message? then None
        else
          var start := if f.htype.REPEATED? || f.htype.ONEOF? then Defaults(f.ptr.fields) else prior.slots;
          match DecodeMessage(f.ptr.fields, sub, start)
          case None => None
          case Some((slots, _)) => Some((Message(slots), rest))
  }

  /** decode_static_field on the slot the field lives in. */
  function DecodeField(f: Field, wireType: nat, s: seq<byte>, slot: Slot): (r: Read<Slot>)
    ensures r.Some? ==> |r.value.1| < |s|
    decreases f, 1
  {
    match f.htype
    case REQUIRED =>
      if !slot.Single? then None
      else (match DecodeValue(f, s, slot.v)
            case None => None
            case Some((v, rest)) => Some((Single(v), rest)))
    case OPTIONAL =>
      if !(if f.sizeOffset != 0 then slot.Opt? else slot.Single?) then None
      else (match DecodeValue(f, s, slot.v)
            case None => None
            case Some((v, rest)) => Some((if f.sizeOffset != 0 then Opt(true, v) else Single(v), rest)))
    case REPEATED =>
      if !slot.Array? then None
      else if wireType == E.WT_STRING && Packable(f.ltype) then
        (match ReadString(s)
         case None => None
         case Some((sub, rest)) =>
           match DecodePacked(f, sub, slot.items)
           case None => None
           case Some(items) => Some((Array(items), rest)))
      else if |slot.items| >= f.arraySize then None
      else (match DecodeValue(f, s, DefaultValue(f))
            case None => None
            case Some((v, rest)) => Some((Array(slot.items + [v]), rest)))
    case ONEOF =>
      if !(slot.NoMember? || slot.Member?) then None
      else (match DecodeValue(f, s, DefaultValue(f))
            case None => None
            case Some((v, rest)) => Some((Member(f.tag, v), rest)))
  }

  // ---------------------------------------------------------------- the decoding loop

  datatype StepResult =
    | Next(st: State, rest: seq<byte>)
    | Stop(rest: seq<byte>)
    | Fail

  /** One turn of the loop of pb_decode_noinit. On an empty descriptor the iterator rests on the terminating
      entry, whose tag is 0 and whose type reads as a bool. */
  function Step(fs: seq<Field>, s: seq<byte>, st: State): (r: StepResult)
    ensures r.Next? ==> |r.rest| < |s|
    decreases fs, |s|, 0
  {
    match DecodeTag(s)
    case BadTag => Fail
    case EndOfMessage(rest) => Stop(rest)
    case Tag(wireType, tag, rest) =>
      var i := Find(fs, tag);
      if i < |fs| then
        var k := SlotOf(fs, i);
        if k >= |st.slots| then Fail
        else
          match DecodeField(fs[i], wireType, rest, st.slots[k])
          case None => Fail
          case Some((slot, rest')) => Next(State(st.slots[k := slot], Mark(fs, i, st.seen)), rest')
      else
        var skipped := if fs == [] && tag == 0 then Rest(Varint.Decode32(rest)) else SkipField(wireType, rest);
        if skipped.None? then Fail else Next(st, skipped.value)
  }

  /** fields_seen after entry i was met. */
  function Mark(fs: seq<Field>, i: nat, seen: set<nat>): set<nat>
    requires i < |fs|
  {
    if fs[i].htype.REQUIRED? && RequiredBefore(fs, i) < PB_MAX_REQUIRED_FIELDS
    then seen + {RequiredBefore(fs, i)} else seen
  }

  function Loop(fs: seq<Field>, s: seq<byte>, st: State): Read<State>
    decreases fs, |s|, 1
  {
    if s == [] then Some((st, []))
    else
      match Step(fs, s, st)
      case Fail => None
      case Stop(rest) => Some((st, rest))
      case Next(st', rest) => Loop(fs, rest, st')
  }

  /** Every one of the first 64 required entries was met. */
  predicate AllRequiredSeen(fs: seq<Field>, seen: set<nat>)
  {
    forall i :: 0 <= i < |fs| && fs[i].htype.REQUIRED? && RequiredBefore(fs, i) < PB_MAX_REQUIRED_FIELDS
      ==> RequiredBefore(fs, i) in seen
  }

  /** pb_decode_noinit. */
  function DecodeMessage(fs: seq<Field>, s: seq<byte>, slots: seq<Slot>): Read<seq<Slot>>
    decreases fs, |s|, 2
  {
    match Loop(fs, s, State(slots, {}))
    case None => None
    case Some((st, rest)) => if AllRequiredSeen(fs, st.seen) then Some((st.slots, rest)) else None
  }

  /** pb_decode. */
  function Decode(fs: seq<Field>, s: seq<byte>): Read<seq<Slot>>
  {
    DecodeMessage(fs, s, Defaults(fs))
  }
}
