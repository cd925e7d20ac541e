/** The encoder of pb_encode.c, writing to a memory buffer or, when it has no callback, only counting.
    Every method is proved to produce what module Encoding says, on both kinds of stream. */
module PbEncode {
  import opened Bits
  import opened PbTypes
  import opened Encoding
  import opened PbCommon
  import Varint

  /** The number of values of a size_t. */
  const SIZE_MOD: int := TWO64

  datatype Error =
    | NoError | StreamFull | ArrayMaxSizeExceeded | BytesSizeExceeded
    | InvalidDataSize | InvalidFieldDescriptor | SubmsgSizeChanged

  // ---------------------------------------------------------------- streams

  /** A stream at one moment. */
  datatype OState = OState(
    sizing: bool, memory: seq<byte>, state: nat, maxSize: nat, bytesWritten: nat, errmsg: Error)

  /** pb_ostream_t. The stream is sizing when its callback is null; otherwise its callback is buf_write and
      state is an index into buf. */
  class OStream {
    const sizing: bool
    const buf: array<byte>
    var state: nat
    var maxSize: nat
    var bytesWritten: nat
    var errmsg: Error

    /** What is left to write fits the memory behind the stream. */
    ghost predicate Valid()
      reads this
    {
      && maxSize < SIZE_MOD && bytesWritten < SIZE_MOD
      && (!sizing ==> bytesWritten <= maxSize && state + (maxSize - bytesWritten) <= buf.Length)
    }

    ghost function Snap(): OState
      reads this, buf
    {
      OState(sizing, buf[..], state, maxSize, bytesWritten, errmsg)
    }

    /** pb_ostream_from_buffer. */
    constructor FromBuffer(buf: array<byte>, bufsize: nat)
      requires bufsize <= buf.Length && bufsize < SIZE_MOD
      ensures Valid() && Snap() == OState(false, buf[..], 0, bufsize, 0, NoError) && this.buf == buf
    {
      sizing, this.buf := false, buf;
      state, maxSize, bytesWritten, errmsg := 0, bufsize, 0, NoError;
    }

    /** PB_OSTREAM_SIZING. */
    constructor Sizing()
      ensures Valid() && fresh(buf)
      ensures Snap() == OState(true, [], 0, 0, 0, NoError)
    {
      sizing, buf := true, new byte[0];
      state, maxSize, bytesWritten, errmsg := 0, 0, 0, NoError;
    }

    /** The writing substream of pb_encode_submessage. */
    constructor Substream(parent: OStream, size: nat)
      requires parent.Valid() && !parent.sizing && parent.bytesWritten + size <= parent.maxSize
      ensures Valid() && buf == parent.buf
      ensures Snap() == OState(false, buf[..], parent.state, size, 0, NoError)
    {
      sizing, buf := false, parent.buf;
      state, maxSize, bytesWritten, errmsg := parent.state, size, 0, NoError;
    }

    /** PB_SET_ERROR: the first error is kept. */
    method SetError(e: Error)
      requires Valid() && e != SubmsgSizeChanged
      modifies this
      ensures Valid() && Snap() == old(Snap()).(errmsg := errmsg)
      ensures errmsg == if old(errmsg) == NoError then e else old(errmsg)
    {
      if errmsg == NoError {
        errmsg := e;
      }
    }
  }

  // ---------------------------------------------------------------- what a call does to a stream

  predicate NoWrap(a: OState, e: Enc)
  {
    a.bytesWritten + |e.bytes| < SIZE_MOD
  }

  /** Only the memory the stream may still write to can have changed. */
  predicate Confined(a: OState, b: OState)
  {
    && |b.memory| == |a.memory|
    && a.bytesWritten <= a.maxSize && a.state + (a.maxSize - a.bytesWritten) <= |a.memory|
    && b.memory[..a.state] == a.memory[..a.state]
    && b.memory[a.state + (a.maxSize - a.bytesWritten)..] == a.memory[a.state + (a.maxSize - a.bytesWritten)..]
  }

  /** b follows a after producing e with outcome ok. A sizing stream fails only where e fails, and counts the bytes.
      A buffer stream succeeds exactly when e does and its bytes fit; then they are in memory, in place, and nothing
      else has changed. No call ever reports that a submessage changed size. */
  predicate Wrote(a: OState, b: OState, e: Enc, ok: bool)
  {
    && b.sizing == a.sizing && b.maxSize == a.maxSize
    && (b.errmsg == SubmsgSizeChanged ==> a.errmsg == SubmsgSizeChanged)
    && if a.sizing then
         && ok == e.ok && b.memory == a.memory && b.state == a.state
         && (ok && NoWrap(a, e) ==> b.bytesWritten == a.bytesWritten + |e.bytes|)
       else
         && (ok <==> e.ok && a.bytesWritten + |e.bytes| <= a.maxSize)
         && Confined(a, b)
         && (ok ==> && b.bytesWritten == a.bytesWritten + |e.bytes|
                    && b.state == a.state + |e.bytes|
                    && b.memory == a.memory[..a.state] + e.bytes + a.memory[b.state..])
  }

  /** Calls in sequence. */
  lemma WroteThen(a: OState, b: OState, c: OState, e1: Enc, e2: Enc, ok: bool)
    requires Wrote(a, b, e1, true) && Wrote(b, c, e2, ok)
    ensures Wrote(a, c, Then(e1, e2), ok)
  {
    if !a.sizing {
      var limit := a.state + (a.maxSize - a.bytesWritten);
      assert b.memory[limit..] == a.memory[limit..];
      assert c.memory[..a.state] == c.memory[..b.state][..a.state];
      assert b.memory[..b.state] == a.memory[..a.state] + e1.bytes;
      if ok {
        assert b.memory[c.state..] == a.memory[c.state..];
        assert c.memory == a.memory[..a.state] + (e1.bytes + e2.bytes) + a.memory[c.state..];
      }
    }
  }

  lemma WroteFailed(a: OState, b: OState, e1: Enc, e2: Enc)
    requires Wrote(a, b, e1, false)
    ensures Wrote(a, b, Then(e1, e2), false)
  {
  }

  lemma WroteNothing(a: OState)
    requires a.sizing || (a.bytesWritten <= a.maxSize && a.state + (a.maxSize - a.bytesWritten) <= |a.memory|)
    ensures Wrote(a, a, NOTHING, true)
  {
    if !a.sizing {
      assert a.memory == a.memory[..a.state] + [] + a.memory[a.state..];
    }
  }

  // ---------------------------------------------------------------- pb_write

  /** buf_write. */
  method BufWrite(stream: OStream, data: seq<byte>)
    requires stream.state + |data| <= stream.buf.Length
    modifies stream`state, stream.buf
    ensures stream.state == old(stream.state) + |data|
    ensures stream.buf[..] == old(stream.buf[..stream.state]) + data + old(stream.buf[stream.state + |data|..])
  {
    var dest := stream.state;
    stream.state := dest + |data|;
    ghost var before := stream.buf[..];
    for i := 0 to |data|
      invariant stream.state == dest + |data|
      invariant stream.buf[..] == before[..dest] + data[..i] + before[dest + i..]
    {
      stream.buf[dest + i] := data[i];
    }
    assert data[..|data|] == data;
  }

  /** pb_write. */
  method PbWrite(stream: OStream, data: seq<byte>) returns (ok: bool)
    requires stream.Valid() && |data| < SIZE_MOD
    modifies stream, stream.buf
    ensures stream.Valid()
    ensures Wrote(old(stream.Snap()), stream.Snap(), Enc(true, data), ok)
  {
    var count := |data|;
    if count > 0 && !stream.sizing {
      var sum := (stream.bytesWritten + count) % SIZE_MOD;
      if sum < stream.bytesWritten || sum > stream.maxSize {
        stream.SetError(StreamFull);
        return false;
      }
      BufWrite(stream, data);
    }
    stream.bytesWritten := (stream.bytesWritten + count) % SIZE_MOD;
    if count == 0 {
      WroteNothing(old(stream.Snap()));
    }
    return true;
  }

  /** pb_write with a null buffer on a sizing stream. */
  method PbWriteNull(stream: OStream, count: nat) returns (ok: bool)
    requires stream.Valid() && stream.sizing
    modifies stream
    ensures stream.Valid() && ok
    ensures stream.Snap() == old(stream.Snap()).(bytesWritten := (old(stream.bytesWritten) + count) % SIZE_MOD)
  {
    stream.bytesWritten := (stream.bytesWritten + count) % SIZE_MOD;
    return true;
  }

  // ---------------------------------------------------------------- numbers

  /** One turn of the loop of pb_encode_varint. */
  lemma EncodeStep(whole: seq<byte>, done: seq<byte>, v: nat)
    requires v > 0 && whole == done + Varint.Encode(v)
    ensures v / 128 != 0 ==> whole == done + [v % 128 + 128] + Varint.Encode(v / 128)
    ensures v / 128 == 0 ==> whole == done + [v]
  {
  }

  /** pb_encode_varint. */
  method PbEncodeVarint(stream: OStream, value: nat) returns (ok: bool)
    requires stream.Valid() && value < TWO64
    modifies stream, stream.buf
    ensures stream.Valid()
    ensures Wrote(old(stream.Snap()), stream.Snap(), Enc(true, Varint.Encode(value)), ok)
  {
    if value <= 0x7F {
      ok := PbWrite(stream, [value]);
      return;
    }
    Varint.EncodeFitsBuffer(value);
    var buffer := new byte[10];
    var i, v := 0, value;
    while v != 0
      invariant 0 <= i <= 10
      invariant v != 0 ==> Varint.Encode(value) == buffer[..i] + Varint.Encode(v)
      invariant v == 0 ==>
        i > 0 && buffer[i - 1] >= 128 && Varint.Encode(value) == buffer[..i - 1] + [buffer[i - 1] - 128]
      modifies buffer
      decreases v
    {
      ghost var done := buffer[..i];
      EncodeStep(Varint.Encode(value), done, v);
      buffer[i] := v % 128 + 128;
      assert buffer[..i] == done;
      assert buffer[..i + 1] == done + [v % 128 + 128];
      v := v / 128;
      i := i + 1;
    }
    buffer[i - 1] := buffer[i - 1] % 128;
    assert buffer[..i] == Varint.Encode(value);
    ok := PbWrite(stream, buffer[..i]);
  }

  /** pb_encode_svarint. */
  method PbEncodeSvarint(stream: OStream, value: int) returns (ok: bool)
    requires stream.Valid() && -TWO63 <= value < TWO63
    modifies stream, stream.buf
    ensures stream.Valid()
    ensures Wrote(old(stream.Snap()), stream.Snap(), Enc(true, Varint.Encode(Varint.ZigZag(value))), ok)
  {
    Varint.ZigZagMeaning(value);
    var zigzagged: nat;
    if value < 0 {
      zigzagged := TWO64 - 1 - (value + TWO64) * 2 % TWO64;
    } else {
      zigzagged := value * 2 % TWO64;
    }
    ok := PbEncodeVarint(stream, zigzagged);
  }

  /** pb_encode_fixed32. */
  method PbEncodeFixed32(stream: OStream, value: nat) returns (ok: bool)
    requires stream.Valid() && value < TWO32
    modifies stream, stream.buf
    ensures stream.Valid()
    ensures Wrote(old(stream.Snap()), stream.Snap(), Enc(true, LittleEndian(value, 4)), ok)
  {
    LittleEndian4(value);
    ok := PbWrite(stream, [value % 256, value / 0x100 % 256, value / 0x1_0000 % 256, value / 0x100_0000 % 256]);
  }

  /** pb_encode_fixed64. */
  method PbEncodeFixed64(stream: OStream, value: nat) returns (ok: bool)
    requires stream.Valid() && value < TWO64
    modifies stream, stream.buf
    ensures stream.Valid()
    ensures Wrote(old(stream.Snap()), stream.Snap(), Enc(true, LittleEndian(value, 8)), ok)
  {
    LittleEndian8(value);
    LittleEndian4(value);
    var high := value / 0x1_0000_0000;
    LittleEndian4(high);
    ok := PbWrite(stream, [value % 256, value / 0x100 % 256, value / 0x1_0000 % 256, value / 0x100_0000 % 256,
                           high % 256, high / 0x100 % 256, high / 0x1_0000 % 256, high / 0x100_0000 % 256]);
  }

  /** pb_encode_tag_for_field. */
  method PbEncodeTag(stream: OStream, wireType: nat, tag: nat) returns (ok: bool)
    requires stream.Valid() && wireType < 8 && tag < TWO32
    modifies stream, stream.buf
    ensures stream.Valid()
    ensures Wrote(old(stream.Snap()), stream.Snap(), Enc(true, EncodeTag(wireType, tag)), ok)
  {
    ok := PbEncodeVarint(stream, tag * 8 + wireType);
  }

  /** pb_encode_string. */
  method PbEncodeString(stream: OStream, data: seq<byte>) returns (ok: bool)
    requires stream.Valid() && |data| < SIZE_MOD
    modifies stream, stream.buf
    ensures stream.Valid()
    ensures Wrote(old(stream.Snap()), stream.Snap(), Enc(true, LengthPrefixed(data)), ok)
  {
    ghost var s0 := stream.Snap();
    ok := PbEncodeVarint(stream, |data|);
    ghost var e1, e2 := Enc(true, Varint.Encode(|data|)), Enc(true, data);
    if !ok {
      WroteFailed(s0, stream.Snap(), e1, e2);
      return;
    }
    ghost var s1 := stream.Snap();
    ok := PbWrite(stream, data);
    WroteThen(s0, s1, stream.Snap(), e1, e2, ok);
  }

  // ---------------------------------------------------------------- composing outcomes

  lemma ThenAssociates(a: Enc, b: Enc, c: Enc)
    ensures Then(Then(a, b), c) == Then(a, Then(b, c))
  {
    assert a.bytes + b.bytes + c.bytes == a.bytes + (b.bytes + c.bytes);
  }

  lemma ThenNothing(a: Enc)
    ensures Then(a, NOTHING) == a && Then(NOTHING, a) == a
  {
    assert a.bytes + [] == a.bytes && [] + a.bytes == a.bytes;
  }

  /** The next part of an encoding already done up to here does not wrap when the whole does not. */
  lemma NextPart(a: OState, b: OState, done: Enc, next: Enc, rest: Enc, whole: Enc)
    requires Wrote(a, b, done, true) && !a.sizing && NoWrap(a, whole)
    requires whole == Then(done, Then(next, rest))
    ensures NoWrap(b, next)
  {
  }

  /** One more part done, or failed. */
  lemma OnePart(a: OState, b: OState, c: OState, done: Enc, next: Enc, rest: Enc, whole: Enc, ok: bool)
    requires Wrote(a, b, done, true) && Wrote(b, c, next, ok)
    requires whole == Then(done, Then(next, rest))
    ensures Wrote(a, c, Then(done, next), ok)
    ensures whole == Then(Then(done, next), rest)
    ensures !ok ==> Wrote(a, c, whole, false)
  {
    ThenAssociates(done, next, rest);
    WroteThen(a, b, c, done, next, ok);
    if !ok { WroteFailed(a, c, Then(done, next), rest); }
  }

  /** Giving up without writing. */
  lemma WroteError(a: OState, b: OState)
    requires b == a.(errmsg := b.errmsg) && (b.errmsg == SubmsgSizeChanged ==> a.errmsg == SubmsgSizeChanged)
    requires a.sizing || (a.bytesWritten <= a.maxSize && a.state + (a.maxSize - a.bytesWritten) <= |a.memory|)
    ensures Wrote(a, b, FAILED, false)
  {
  }

  // ---------------------------------------------------------------- scalar fields

  /** pb_enc_bool. */
  method PbEncBool(stream: OStream, f: Field, v: Value) returns (ok: bool)
    requires stream.Valid() && f.ltype.BOOL? && Holds(f, v)
    modifies stream, stream.buf
    ensures stream.Valid()
    ensures Wrote(old(stream.Snap()), stream.Snap(), EncodeScalar(f, v), ok)
  {
    ok := PbEncodeVarint(stream, if v.b then 1 else 0);
  }

  /** pb_enc_varint, pb_enc_uvarint and pb_enc_svarint. */
  method PbEncInteger(stream: OStream, f: Field, v: Value) returns (ok: bool)
    requires stream.Valid() && (f.ltype.VARINT? || f.ltype.UVARINT? || f.ltype.SVARINT?) && Holds(f, v)
    modifies stream, stream.buf
    ensures stream.Valid()
    ensures Wrote(old(stream.Snap()), stream.Snap(), EncodeScalar(f, v), ok)
  {
    if f.dataSize != 1 && f.dataSize != 2 && f.dataSize != 4 && f.dataSize != 8 {
      stream.SetError(InvalidDataSize);
      WroteError(old(stream.Snap()), stream.Snap());
      return false;
    }
    match f.ltype
    case VARINT => ok := PbEncodeVarint(stream, v.n % TWO64);
    case UVARINT => ok := PbEncodeVarint(stream, v.n);
    case SVARINT => ok := PbEncodeSvarint(stream, v.n);
  }

  /** pb_enc_bytes. */
  method PbEncBytes(stream: OStream, f: Field, v: Value) returns (ok: bool)
    requires stream.Valid() && f.ltype.BYTES? && Holds(f, v)
    modifies stream, stream.buf
    ensures stream.Valid()
    ensures Wrote(old(stream.Snap()), stream.Snap(), EncodeScalar(f, v), ok)
  {
    var allocsize := |v.data| + BYTES_OFFSET;
    if allocsize > f.dataSize {
      stream.SetError(BytesSizeExceeded);
      WroteError(old(stream.Snap()), stream.Snap());
      return false;
    }
    ok := PbEncodeString(stream, v.data);
  }

  /** pb_enc_string: the length is found by a bounded search for the NUL. */
  method PbEncString(stream: OStream, f: Field, v: Value) returns (ok: bool)
    requires stream.Valid() && f.ltype.STRING? && Holds(f, v)
    modifies stream, stream.buf
    ensures stream.Valid()
    ensures Wrote(old(stream.Snap()), stream.Snap(), EncodeScalar(f, v), ok)
  {
    var size := 0;
    while size < f.dataSize && size < |v.data| && v.data[size] != 0
      invariant 0 <= size <= |v.data|
      invariant forall i :: 0 <= i < size ==> v.data[i] != 0
    {
      size := size + 1;
    }
    CStringUnique(v.data, size);
    ok := PbEncodeString(stream, v.data[..size]);
  }

  /** The entry of PB_ENCODERS for a type that is not a submessage. */
  method EncodeScalarItem(stream: OStream, f: Field, v: Value) returns (ok: bool)
    requires stream.Valid() && Holds(f, v) && !f.ltype.SUBMESSAGE?
    modifies stream, stream.buf
    ensures stream.Valid()
    ensures Wrote(old(stream.Snap()), stream.Snap(), EncodeScalar(f, v), ok)
  {
    match f.ltype
    case BOOL => ok := PbEncBool(stream, f, v);
    case VARINT | UVARINT | SVARINT => ok := PbEncInteger(stream, f, v);
    case FIXED32 => ok := PbEncodeFixed32(stream, v.n);
    case FIXED64 => ok := PbEncodeFixed64(stream, v.n);
    case BYTES => ok := PbEncBytes(stream, f, v);
    case STRING => ok := PbEncString(stream, f, v);
    case FIXED_LENGTH_BYTES => ok := PbEncodeString(stream, v.data);
  }

  // ---------------------------------------------------------------- packed arrays

  lemma ScalarSize(f: Field, v: Value)
    requires Packable(f.ltype) && Holds(f, v)
    ensures |EncodeScalar(f, v).bytes| <= 10
    ensures f.ltype.FIXED32? ==> EncodeScalar(f, v).ok && |EncodeScalar(f, v).bytes| == 4
    ensures f.ltype.FIXED64? ==> EncodeScalar(f, v).ok && |EncodeScalar(f, v).bytes| == 8
  {
    match f.ltype
    case BOOL => Varint.EncodeFitsBuffer(if v.b then 1 else 0);
    case VARINT => Varint.EncodeFitsBuffer(v.n % TWO64);
    case UVARINT => Varint.EncodeFitsBuffer(v.n);
    case SVARINT => Varint.ZigZagMeaning(v.n); Varint.EncodeFitsBuffer(Varint.ZigZag(v.n));
    case FIXED32 =>
    case FIXED64 =>
  }

  /** encode_array computes the size of a packed fixed-width array without encoding it. */
  lemma {:induction false} PackedSize(f: Field, items: seq<Value>)
    requires Packable(f.ltype) && forall j :: 0 <= j < |items| ==> Holds(f, items[j])
    ensures |EncodePacked(f, items).bytes| <= 10 * |items|
    ensures f.ltype.FIXED32? ==> EncodePacked(f, items).ok && |EncodePacked(f, items).bytes| == 4 * |items|
    ensures f.ltype.FIXED64? ==> EncodePacked(f, items).ok && |EncodePacked(f, items).bytes| == 8 * |items|
  {
    if items == [] {
    } else {
      ScalarSize(f, items[0]);
      PackedSize(f, items[1..]);
    }
  }

  /** The element loops of encode_array: the same elements to a sizing stream or to the stream itself. */
  method EncodePackedItems(stream: OStream, f: Field, items: seq<Value>) returns (ok: bool)
    requires stream.Valid() && Packable(f.ltype) && forall j :: 0 <= j < |items| ==> Holds(f, items[j])
    modifies stream, stream.buf
    ensures stream.Valid()
    ensures Wrote(old(stream.Snap()), stream.Snap(), EncodePacked(f, items), ok)
  {
    ghost var s0, whole := stream.Snap(), EncodePacked(f, items);
    ghost var done := NOTHING;
    WroteNothing(s0);
    ThenNothing(whole);
    assert items[0..] == items;
    for i := 0 to |items|
      invariant stream.Valid() && Wrote(s0, stream.Snap(), done, true)
      invariant whole == Then(done, EncodePacked(f, items[i..]))
    {
      ghost var s1, next, rest := stream.Snap(), EncodeScalar(f, items[i]), EncodePacked(f, items[i + 1..]);
      assert items[i..][0] == items[i] && items[i..][1..] == items[i + 1..];
      ok := EncodeScalarItem(stream, f, items[i]);
      OnePart(s0, s1, stream.Snap(), done, next, rest, whole, ok);
      if !ok {
        return;
      }
      done := Then(done, next);
    }
    assert items[|items|..] == [];
    ThenNothing(done);
    return true;
  }

  /** The size of a packed array: a product for fixed widths, a sizing pass otherwise. */
  method MeasurePacked(f: Field, items: seq<Value>) returns (ok: bool, size: nat)
    requires Packable(f.ltype) && |items| <= PB_SIZE_MAX && forall j :: 0 <= j < |items| ==> Holds(f, items[j])
    ensures ok == EncodePacked(f, items).ok
    ensures ok ==> size == |EncodePacked(f, items).bytes| < SIZE_MOD
  {
    PackedSize(f, items);
    if f.ltype.FIXED32? {
      return true, 4 * |items|;
    } else if f.ltype.FIXED64? {
      return true, 8 * |items|;
    }
    var sizestream := new OStream.Sizing();
    ok := EncodePackedItems(sizestream, f, items);
    size := sizestream.bytesWritten;
  }

  /** The part of encode_array after the tag of a packed array. */
  method EncodePackedPayload(stream: OStream, f: Field, items: seq<Value>) returns (ok: bool)
    requires stream.Valid() && Packable(f.ltype) && |items| <= PB_SIZE_MAX
    requires forall j :: 0 <= j < |items| ==> Holds(f, items[j])
    modifies stream, stream.buf
    ensures stream.Valid()
    ensures var payload := EncodePacked(f, items);
      Wrote(old(stream.Snap()), stream.Snap(),
            if payload.ok then Enc(true, LengthPrefixed(payload.bytes)) else FAILED, ok)
  {
    ghost var s0, payload := stream.Snap(), EncodePacked(f, items);
    var size: nat;
    ok, size := MeasurePacked(f, items);
    if !ok {
      WroteError(s0, stream.Snap());
      return;
    }
    ghost var e1 := Enc(true, Varint.Encode(size));
    ok := PbEncodeVarint(stream, size);
    if !ok {
      WroteFailed(s0, stream.Snap(), e1, payload);
      return;
    }
    ghost var s1 := stream.Snap();
    if stream.sizing {
      ok := PbWriteNull(stream, size);
    } else {
      ok := EncodePackedItems(stream, f, items);
    }
    WroteThen(s0, s1, stream.Snap(), e1, payload, ok);
  }

  // ---------------------------------------------------------------- fields and messages

  /** pb_check_proto3_default_value. */
  method CheckProto3Default(f: Field, slot: Slot) returns (zero: bool)
    requires SlotMatches(f, slot) && StaticField(f)
    ensures zero == SlotIsDefault(f, slot)
    decreases f
  {
    if f.htype.REQUIRED? {
      return false;
    } else if f.htype.REPEATED? {
      return |slot.items| == 0;
    } else if f.htype.ONEOF? {
      return slot.NoMember?;
    } else if f.sizeOffset != 0 {
      return !slot.has;
    }
    var v := slot.v;
    match f.ltype
    case BYTES => return |v.data| == 0;
    case STRING => return |v.data| == 0 || v.data[0] == 0;
    case FIXED_LENGTH_BYTES => return f.dataSize == 0;
    case SUBMESSAGE =>
      if !f.ptr.Fields? {
        return true;
      }
      zero := CheckAllDefault(f.ptr.fields, v.slots);
    case BOOL => return !v.b;
    case VARINT | UVARINT | SVARINT | FIXED32 | FIXED64 => return v.n == 0;
  }

  /** The walk of pb_check_proto3_default_value over a submessage. */
  method CheckAllDefault(fs: seq<Field>, slots: seq<Slot>) returns (zero: bool)
    requires StaticDescriptor(fs) && MatchesFrom(fs, slots, 0)
    ensures zero == AllDefault(fs, slots, 0)
    decreases fs
  {
    if fs == [] {
      return true;
    }
    NonZeroTags(fs);
    var iter := new FieldIter(fs, 0);
    var more := true;
    ghost var i := 0;
    while more
      invariant fresh(iter) && iter.Valid() && iter.start == fs && i <= |fs|
      invariant if more then i < |fs| && iter.pos == i else i == |fs|
      invariant MatchesFrom(fs, slots, i) && AllDefault(fs, slots, 0) == AllDefault(fs, slots, i)
      decreases |fs| - i
    {
      StaticAt(fs, 0, i);
      var isDefault := CheckProto3Default(fs[iter.pos], slots[SlotOf(fs, iter.pos)]);
      if !isDefault {
        return false;
      }
      more := iter.Next();
      i := i + 1;
    }
    return true;
  }

  /** pb_encode_submessage: a sizing pass, the length, and the same message again on a substream of that length.
      The substream cannot come out a different size. */
  method PbEncodeSubmessage(stream: OStream, f: Field, v: Value) returns (ok: bool)
    requires stream.Valid() && ValueMatches(f, v) && StaticField(f) && f.ltype.SUBMESSAGE?
    requires !stream.sizing ==> NoWrap(stream.Snap(), EncodeValue(f, v))
    modifies stream, stream.buf
    ensures stream.Valid()
    ensures Wrote(old(stream.Snap()), stream.Snap(), EncodeValue(f, v), ok)
    decreases f, 0
  {
    ghost var s0 := stream.Snap();
    if !f.ptr.Fields? {
      stream.SetError(InvalidFieldDescriptor);
      WroteError(s0, stream.Snap());
      return false;
    }
    ghost var m := EncodeMessage(f.ptr.fields, v.slots);
    var sizer := new OStream.Sizing();
    ok := PbEncode(sizer, f.ptr.fields, v.slots);
    if !ok {
      stream.errmsg := sizer.errmsg;
      WroteError(s0, stream.Snap());
      return;
    }
    var size := sizer.bytesWritten;
    ok := WriteMeasured(stream, f.ptr.fields, v.slots, size);
  }

  /** The rest of pb_encode_submessage, once the message is known to encode in size bytes. */
  method WriteMeasured(stream: OStream, fs: seq<Field>, slots: seq<Slot>, size: nat) returns (ok: bool)
    requires stream.Valid() && StaticDescriptor(fs) && Matches(fs, slots) && size < SIZE_MOD
    requires EncodeMessage(fs, slots).ok
    requires |EncodeMessage(fs, slots).bytes| < SIZE_MOD ==> size == |EncodeMessage(fs, slots).bytes|
    requires !stream.sizing ==> NoWrap(stream.Snap(), Enc(true, LengthPrefixed(EncodeMessage(fs, slots).bytes)))
    modifies stream, stream.buf
    ensures stream.Valid()
    ensures Wrote(old(stream.Snap()), stream.Snap(), Enc(true, LengthPrefixed(EncodeMessage(fs, slots).bytes)), ok)
    decreases fs, |fs| + 3
  {
    ghost var s0, m := stream.Snap(), EncodeMessage(fs, slots);
    ghost var e1 := Enc(true, Varint.Encode(|m.bytes|));
    ok := PbEncodeVarint(stream, size);
    if !ok {
      WroteFailed(s0, stream.Snap(), e1, m);
      return;
    }
    ghost var s1 := stream.Snap();
    if stream.sizing {
      ok := PbWriteNull(stream, size);
      return;
    }
    if (stream.bytesWritten + size) % SIZE_MOD > stream.maxSize {
      stream.SetError(StreamFull);
      TooLong(s1, stream.Snap(), m);
      WroteThen(s0, s1, stream.Snap(), e1, m, false);
      return false;
    }
    ok := WriteSubstream(stream, fs, slots, size);
    WroteThen(s0, s1, stream.Snap(), e1, m, ok);
  }

  /** The second pass of pb_encode_submessage. The source then compares sizes and reports "submsg size changed" when
      they differ; the comparison is kept here as what it is, a test that cannot fail. */
  method WriteSubstream(stream: OStream, fs: seq<Field>, slots: seq<Slot>, size: nat) returns (status: bool)
    requires stream.Valid() && !stream.sizing && StaticDescriptor(fs) && Matches(fs, slots)
    requires EncodeMessage(fs, slots).ok && size == |EncodeMessage(fs, slots).bytes| < SIZE_MOD
    requires stream.bytesWritten + size <= stream.maxSize
    modifies stream, stream.buf
    ensures stream.Valid() && status
    ensures Wrote(old(stream.Snap()), stream.Snap(), EncodeMessage(fs, slots), status)
    decreases fs, |fs| + 2
  {
    ghost var s1 := stream.Snap();
    var substream := new OStream.Substream(stream, size);
    ghost var sub0 := substream.Snap();
    status := PbEncode(substream, fs, slots);
    stream.bytesWritten := stream.bytesWritten + substream.bytesWritten;
    stream.state := substream.state;
    stream.errmsg := substream.errmsg;
    if substream.bytesWritten != size {
      assert false;   // "submsg size changed"
    }
    SubstreamDone(s1, stream.Snap(), sub0, substream.Snap(), EncodeMessage(fs, slots));
  }

  lemma TooLong(a: OState, b: OState, m: Enc)
    requires !a.sizing && a.bytesWritten <= a.maxSize && a.state + (a.maxSize - a.bytesWritten) <= |a.memory|
    requires b == a.(errmsg := b.errmsg) && (b.errmsg == SubmsgSizeChanged ==> a.errmsg == SubmsgSizeChanged)
    requires a.bytesWritten + |m.bytes| > a.maxSize
    ensures Wrote(a, b, m, false)
  {
  }

  /** What the substream wrote, seen from the parent stream. */
  lemma SubstreamDone(a: OState, b: OState, sub0: OState, sub1: OState, m: Enc)
    requires !a.sizing && a.bytesWritten + |m.bytes| <= a.maxSize
      && a.state + (a.maxSize - a.bytesWritten) <= |a.memory|
    requires sub0 == OState(false, a.memory, a.state, |m.bytes|, 0, NoError) && Wrote(sub0, sub1, m, true)
    requires b == OState(false, sub1.memory, sub1.state, a.maxSize, a.bytesWritten + sub1.bytesWritten, sub1.errmsg)
    ensures Wrote(a, b, m, true)
  {
    var limit := a.state + (a.maxSize - a.bytesWritten);
    assert b.memory[limit..] == a.memory[limit..];
  }

  /** The entry of PB_ENCODERS for the field's type. */
  method EncodeItem(stream: OStream, f: Field, v: Value) returns (ok: bool)
    requires stream.Valid() && ValueMatches(f, v) && StaticField(f)
    requires !stream.sizing ==> NoWrap(stream.Snap(), EncodeValue(f, v))
    modifies stream, stream.buf
    ensures stream.Valid()
    ensures Wrote(old(stream.Snap()), stream.Snap(), EncodeValue(f, v), ok)
    decreases f, 1
  {
    if f.ltype.SUBMESSAGE? {
      ok := PbEncodeSubmessage(stream, f, v);
    } else {
      ok := EncodeScalarItem(stream, f, v);
    }
  }

  /** A tag and the item it announces. */
  method EncodeTaggedItem(stream: OStream, f: Field, v: Value) returns (ok: bool)
    requires stream.Valid() && ValueMatches(f, v) && StaticField(f)
    requires !stream.sizing ==> NoWrap(stream.Snap(), EncodeTagged(f, v))
    modifies stream, stream.buf
    ensures stream.Valid()
    ensures Wrote(old(stream.Snap()), stream.Snap(), EncodeTagged(f, v), ok)
    decreases f, 2
  {
    ghost var s0 := stream.Snap();
    ghost var e1, e2 := Enc(true, EncodeTag(WireType(f.ltype), f.tag)), EncodeValue(f, v);
    ok := PbEncodeTag(stream, WireType(f.ltype), f.tag);
    if !ok {
      WroteFailed(s0, stream.Snap(), e1, e2);
      return;
    }
    ghost var s1 := stream.Snap();
    ok := EncodeItem(stream, f, v);
    WroteThen(s0, s1, stream.Snap(), e1, e2, ok);
  }

  /** The loop of encode_array over elements that cannot be packed. */
  method EncodeUnpackedItems(stream: OStream, f: Field, items: seq<Value>) returns (ok: bool)
    requires stream.Valid() && StaticField(f) && forall j :: 0 <= j < |items| ==> ValueMatches(f, items[j])
    requires !stream.sizing ==> NoWrap(stream.Snap(), EncodeUnpacked(f, items))
    modifies stream, stream.buf
    ensures stream.Valid()
    ensures Wrote(old(stream.Snap()), stream.Snap(), EncodeUnpacked(f, items), ok)
    decreases f, 3
  {
    ghost var s0, whole := stream.Snap(), EncodeUnpacked(f, items);
    ghost var done := NOTHING;
    WroteNothing(s0);
    ThenNothing(whole);
    assert items[0..] == items;
    for i := 0 to |items|
      invariant stream.Valid() && Wrote(s0, stream.Snap(), done, true)
      invariant whole == Then(done, EncodeUnpacked(f, items[i..]))
    {
      ghost var s1, next, rest := stream.Snap(), EncodeTagged(f, items[i]), EncodeUnpacked(f, items[i + 1..]);
      assert items[i..][0] == items[i] && items[i..][1..] == items[i + 1..];
      if !stream.sizing { NextPart(s0, s1, done, next, rest, whole); }
      ok := EncodeTaggedItem(stream, f, items[i]);
      OnePart(s0, s1, stream.Snap(), done, next, rest, whole, ok);
      if !ok {
        return;
      }
      done := Then(done, next);
    }
    assert items[|items|..] == [];
    ThenNothing(done);
    return true;
  }

  /** encode_array. */
  method EncodeArrayField(stream: OStream, f: Field, items: seq<Value>) returns (ok: bool)
    requires stream.Valid() && StaticField(f) && f.arraySize <= PB_SIZE_MAX
    requires forall j :: 0 <= j < |items| ==> ValueMatches(f, items[j])
    requires !stream.sizing ==> NoWrap(stream.Snap(), EncodeArray(f, items))
    modifies stream, stream.buf
    ensures stream.Valid()
    ensures Wrote(old(stream.Snap()), stream.Snap(), EncodeArray(f, items), ok)
    decreases f, 4
  {
    ghost var s0 := stream.Snap();
    if |items| == 0 {
      WroteNothing(s0);
      return true;
    }
    if |items| > f.arraySize {
      stream.SetError(ArrayMaxSizeExceeded);
      WroteError(s0, stream.Snap());
      return false;
    }
    if !Packable(f.ltype) {
      ok := EncodeUnpackedItems(stream, f, items);
      return;
    }
    assert forall j :: 0 <= j < |items| ==> ValueMatches(f, items[j]) && Holds(f, items[j]);
    ghost var payload := EncodePacked(f, items);
    ghost var e1 := Enc(true, EncodeTag(WT_STRING, f.tag));
    ghost var e2 := if payload.ok then Enc(true, LengthPrefixed(payload.bytes)) else FAILED;
    ok := PbEncodeTag(stream, WT_STRING, f.tag);
    if !ok {
      WroteFailed(s0, stream.Snap(), e1, e2);
      return;
    }
    ghost var s1 := stream.Snap();
    ok := EncodePackedPayload(stream, f, items);
    WroteThen(s0, s1, stream.Snap(), e1, e2, ok);
  }

  /** encode_basic_field. */
  method EncodeBasicField(stream: OStream, f: Field, slot: Slot) returns (ok: bool)
    requires stream.Valid() && StaticField(f) && SlotMatches(f, slot)
    requires !stream.sizing ==> NoWrap(stream.Snap(), EncodeField(f, slot))
    modifies stream, stream.buf
    ensures stream.Valid()
    ensures Wrote(old(stream.Snap()), stream.Snap(), EncodeField(f, slot), ok)
    decreases f, 5
  {
    WroteNothing(stream.Snap());
    match f.htype
    case REQUIRED => ok := EncodeTaggedItem(stream, f, slot.v);
    case OPTIONAL =>
      var has: bool;
      if f.sizeOffset != 0 {
        has := slot.has;
      } else {
        var zero := CheckProto3Default(f, slot);
        has := !zero;
      }
      if !has {
        return true;
      }
      ok := EncodeTaggedItem(stream, f, slot.v);
    case REPEATED => ok := EncodeArrayField(stream, f, slot.items);
    case ONEOF =>
      if !(slot.Member? && slot.which == f.tag) {
        return true;
      }
      ok := EncodeTaggedItem(stream, f, slot.v);
  }

  /** pb_encode. */
  method PbEncode(stream: OStream, fs: seq<Field>, slots: seq<Slot>) returns (ok: bool)
    requires stream.Valid() && StaticDescriptor(fs) && Matches(fs, slots)
    requires !stream.sizing ==> NoWrap(stream.Snap(), EncodeMessage(fs, slots))
    modifies stream, stream.buf
    ensures stream.Valid()
    ensures Wrote(old(stream.Snap()), stream.Snap(), EncodeMessage(fs, slots), ok)
    decreases fs, |fs| + 1
  {
    ghost var s0, whole := stream.Snap(), EncodeMessage(fs, slots);
    WroteNothing(s0);
    if fs == [] {
      return true;
    }
    NonZeroTags(fs);
    var iter := new FieldIter(fs, 0);
    var more := true;
    ghost var i, done := 0, NOTHING;
    ThenNothing(whole);
    while more
      invariant fresh(iter) && iter.Valid() && iter.start == fs && i <= |fs|
      invariant if more then i < |fs| && iter.pos == i else i == |fs|
      invariant stream.Valid() && Wrote(s0, stream.Snap(), done, true)
      invariant MatchesFrom(fs, slots, i) && whole == Then(done, EncodeFrom(fs, slots, i))
      decreases |fs| - i
    {
      var f, slot := fs[iter.pos], slots[SlotOf(fs, iter.pos)];
      StaticAt(fs, 0, i);
      ghost var s1, next, rest := stream.Snap(), EncodeField(f, slot), EncodeFrom(fs, slots, i + 1);
      if !stream.sizing { NextPart(s0, s1, done, next, rest, whole); }
      ok := EncodeBasicField(stream, f, slot);
      OnePart(s0, s1, stream.Snap(), done, next, rest, whole, ok);
      if !ok {
        return;
      }
      done := Then(done, next);
      more := iter.Next();
      i := i + 1;
    }
    ThenNothing(done);
    return true;
  }

  /** pb_get_encoded_size. */
  method PbGetEncodedSize(fs: seq<Field>, slots: seq<Slot>) returns (ok: bool, size: nat)
    requires StaticDescriptor(fs) && Matches(fs, slots)
    ensures ok == EncodeMessage(fs, slots).ok
    ensures ok && |EncodeMessage(fs, slots).bytes| < SIZE_MOD ==> size == |EncodeMessage(fs, slots).bytes|
  {
    var stream := new OStream.Sizing();
    ok := PbEncode(stream, fs, slots);
    size := stream.bytesWritten;
  }

  /** Sizing agrees with writing, on any buffer stream. When pb_get_encoded_size gives n bytes, pb_encode succeeds
      exactly when n bytes remain and then advances the stream by exactly n; when it fails, so does pb_encode. A
      submessage is never reported to have changed size. */
  method SizingAgreesWithWriting(stream: OStream, fs: seq<Field>, slots: seq<Slot>)
    returns (sized: bool, n: nat, ok: bool)
    requires stream.Valid() && !stream.sizing && StaticDescriptor(fs) && Matches(fs, slots)
    requires NoWrap(stream.Snap(), EncodeMessage(fs, slots))
    modifies stream, stream.buf
    ensures stream.Valid()
    ensures sized ==> (ok <==> n <= old(stream.maxSize) - old(stream.bytesWritten))
    ensures !sized ==> !ok
    ensures ok ==> stream.bytesWritten == old(stream.bytesWritten) + n && stream.state == old(stream.state) + n
    ensures ok ==> stream.buf[old(stream.state)..stream.state] == EncodeMessage(fs, slots).bytes
    ensures old(stream.errmsg) == NoError ==> stream.errmsg != SubmsgSizeChanged
  {
    sized, n := PbGetEncodedSize(fs, slots);
    ok := PbEncode(stream, fs, slots);
  }

  /** A buffer of pb_get_encoded_size bytes is always enough: the second pass fills it to the last byte. */
  method EncodeToBuffer(fs: seq<Field>, slots: seq<Slot>) returns (ok: bool, bytes: seq<byte>)
    requires StaticDescriptor(fs) && Matches(fs, slots) && |EncodeMessage(fs, slots).bytes| < SIZE_MOD
    ensures ok == EncodeMessage(fs, slots).ok
    ensures ok ==> bytes == EncodeMessage(fs, slots).bytes
  {
    var size: nat;
    ok, size := PbGetEncodedSize(fs, slots);
    if !ok {
      return false, [];
    }
    var buf := new byte[size];
    var stream := new OStream.FromBuffer(buf, size);
    ok := PbEncode(stream, fs, slots);
    bytes := buf[..stream.bytesWritten];
  }
}
