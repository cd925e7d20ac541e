/** The decoder of pb_decode.c on a memory buffer. Every method is proved to compute what module Decoding says of
    the bytes left in the stream. Struct memory is passed in and returned as a value. */
module PbDecode {
  import opened Bits
  import opened PbTypes
  import opened Decoding
  import opened PbCommon
  import E = Encoding
  import Varint

  // ---------------------------------------------------------------- streams

  /** pb_istream_t with the callback buf_read; state is an index into buf. */
  class IStream {
    const buf: array<byte>
    var state: nat
    var bytesLeft: nat

    ghost predicate Valid()
      reads this
    {
      End() <= buf.Length
    }

    /** Where the stream ends in the buffer. */
    ghost function End(): nat
      reads this
    {
      state + bytesLeft
    }

    /** The bytes that are left. */
    ghost function Left(): seq<byte>
      requires Valid()
      reads this, buf
    {
      buf[state..state + bytesLeft]
    }

    /** pb_istream_from_buffer, and the copies made by pb_make_string_substream. */
    constructor (buf: array<byte>, state: nat, bytesLeft: nat)
      requires state + bytesLeft <= buf.Length
      ensures Valid() && this.buf == buf && this.state == state && this.bytesLeft == bytesLeft
    {
      this.buf := buf;
      this.state := state;
      this.bytesLeft := bytesLeft;
    }
  }

  /** A call's outcome is the one the specification gives. */
  ghost predicate Returned<T>(r: Read<T>, ok: bool, value: T, left: seq<byte>)
  {
    if ok then r == Some((value, left)) else r == None
  }

  /** A successful call keeps the stream's end; a failed one does not move it forward. */
  predicate Kept(end0: nat, end1: nat, ok: bool)
  {
    end1 <= end0 && (ok ==> end1 == end0)
  }

  // ---------------------------------------------------------------- raw reads

  /** pb_readbyte. */
  method PbReadByte(stream: IStream) returns (ok: bool, b: byte)
    requires stream.Valid()
    modifies stream
    ensures stream.Valid() && Kept(old(stream.End()), stream.End(), true)
    ensures ok <==> old(stream.Left()) != []
    ensures ok ==> b == old(stream.Left())[0] && stream.Left() == old(stream.Left())[1..]
    ensures !ok ==> stream.Left() == []
  {
    if stream.bytesLeft == 0 {
      return false, 0;
    }
    b := stream.buf[stream.state];
    stream.state := stream.state + 1;
    stream.bytesLeft := stream.bytesLeft - 1;
    return true, b;
  }

  lemma SliceSlice(s: seq<byte>, lo: nat, mid: nat, hi: nat)
    requires lo <= mid <= hi <= |s|
    ensures s[lo..hi][..mid - lo] == s[lo..mid] && s[lo..hi][mid - lo..] == s[mid..hi]
  {
  }

  /** pb_read. */
  method PbRead(stream: IStream, count: nat) returns (ok: bool, data: seq<byte>)
    requires stream.Valid()
    modifies stream
    ensures stream.Valid() && Kept(old(stream.End()), stream.End(), true)
    ensures Returned(ReadBytes(old(stream.Left()), count), ok, data, stream.Left())
  {
    if stream.bytesLeft < count {
      return false, [];
    }
    data := stream.buf[stream.state..stream.state + count];
    ghost var left := stream.Left();
    stream.state := stream.state + count;
    stream.bytesLeft := stream.bytesLeft - count;
    SliceSlice(stream.buf[..], stream.state - count, stream.state, stream.End());
    assert left == stream.buf[..][stream.state - count..stream.End()];
    return true, data;
  }

  /** pb_decode_varint. */
  method PbDecodeVarint(stream: IStream) returns (ok: bool, dest: nat)
    requires stream.Valid()
    modifies stream
    ensures stream.Valid() && Kept(old(stream.End()), stream.End(), true)
    ensures Returned(Varint.Decode64(old(stream.Left())), ok, dest, stream.Left())
  {
    var bitpos: nat, result: nat := 0, 0;
    while true
      invariant stream.Valid() && stream.End() == old(stream.End())
      invariant Varint.Decode64(old(stream.Left())) == Varint.Loop64(stream.Left(), bitpos, result)
      decreases stream.bytesLeft
    {
      if bitpos >= 64 {
        return false, 0;
      }
      var more, b := PbReadByte(stream);
      if !more {
        return false, 0;
      }
      result := Or(result, Shl(b % 128, bitpos) % TWO64);
      bitpos := bitpos + 7;
      if b < 128 {
        return true, result;
      }
    }
  }

  /** pb_decode_varint32_eof. */
  method PbDecodeVarint32(stream: IStream) returns (ok: bool, dest: nat, eof: bool)
    requires stream.Valid()
    modifies stream
    ensures stream.Valid() && Kept(old(stream.End()), stream.End(), true)
    ensures Returned(Varint.Decode32(old(stream.Left())), ok, dest, stream.Left())
    ensures eof <==> old(stream.Left()) == []
    ensures eof ==> stream.Left() == []
  {
    var more, b := PbReadByte(stream);
    if !more {
      return false, 0, true;
    }
    if b < 128 {
      return true, b, false;
    }
    var bitpos: nat, result: nat := 7, b % 128;
    while true
      invariant stream.Valid() && stream.End() == old(stream.End())
      invariant Varint.Decode32(old(stream.Left())) == Varint.Loop32(stream.Left(), bitpos, result)
      decreases stream.bytesLeft
    {
      more, b := PbReadByte(stream);
      if !more {
        return false, 0, false;
      }
      if bitpos >= 32 {
        var signExtension := if bitpos < 63 then 0xFF else 0x01;
        if b % 128 != 0 && (result / TWO31 == 0 || b != signExtension) {
          return false, 0, false;
        }
      } else {
        result := Or(result, Shl(b % 128, bitpos) % TWO32);
      }
      bitpos := (bitpos + 7) % 256;
      if b < 128 {
        if bitpos == 35 && b / 16 % 8 != 0 {
          return false, 0, false;
        }
        return true, result, false;
      }
    }
  }

  /** pb_decode_tag. */
  method PbDecodeTag(stream: IStream) returns (ok: bool, wireType: nat, tag: nat, eof: bool)
    requires stream.Valid()
    modifies stream
    ensures stream.Valid() && Kept(old(stream.End()), stream.End(), true)
    ensures match DecodeTag(old(stream.Left()))
            case Tag(w, t, rest) => ok && wireType == w && tag == t && stream.Left() == rest
            case EndOfMessage(rest) => !ok && eof && stream.Left() == rest
            case BadTag => !ok && !eof
  {
    wireType, tag := 0, 0;
    var temp: nat;
    ok, temp, eof := PbDecodeVarint32(stream);
    if !ok {
      return;
    }
    if temp == 0 {
      return false, 0, 0, true;
    }
    return true, temp % 8, temp / 8, eof;
  }

  // ---------------------------------------------------------------- skipping

  /** pb_skip_varint. */
  method PbSkipVarint(stream: IStream) returns (ok: bool)
    requires stream.Valid()
    modifies stream
    ensures stream.Valid() && Kept(old(stream.End()), stream.End(), true)
    ensures SkipVarint(old(stream.Left())) == if ok then Some(stream.Left()) else None
  {
    while true
      invariant stream.Valid() && stream.End() == old(stream.End())
      invariant SkipVarint(old(stream.Left())) == SkipVarint(stream.Left())
      decreases stream.bytesLeft
    {
      var more, b := PbReadByte(stream);
      if !more {
        return false;
      }
      if b < 128 {
        return true;
      }
    }
  }

  /** pb_skip_field. */
  method PbSkipField(stream: IStream, wireType: nat) returns (ok: bool)
    requires stream.Valid()
    modifies stream
    ensures stream.Valid() && Kept(old(stream.End()), stream.End(), true)
    ensures SkipField(wireType, old(stream.Left())) == if ok then Some(stream.Left()) else None
  {
    var data: seq<byte>;
    if wireType == E.WT_VARINT {
      ok := PbSkipVarint(stream);
    } else if wireType == E.WT_64BIT {
      ok, data := PbRead(stream, 8);
    } else if wireType == E.WT_STRING {
      var length, eof;
      ok, length, eof := PbDecodeVarint32(stream);
      if ok {
        ok, data := PbRead(stream, length);
      }
    } else if wireType == E.WT_32BIT {
      ok, data := PbRead(stream, 4);
    } else {
      return false;
    }
  }

  // ---------------------------------------------------------------- substreams

  /** pb_make_string_substream: the parent gives up the bytes but its state stays at their start. */
  method PbMakeSubstream(stream: IStream) returns (ok: bool, sub: IStream)
    requires stream.Valid()
    modifies stream
    ensures stream.Valid() && sub.Valid() && stream.End() <= old(stream.End())
    ensures ok <==> ReadString(old(stream.Left())).Some?
    ensures ok ==> fresh(sub) && sub.buf == stream.buf && sub.state == stream.state
    ensures ok ==> sub.Left() == ReadString(old(stream.Left())).value.0
    ensures ok ==> sub.End() + stream.bytesLeft == old(stream.End())
    ensures ok ==> stream.buf[sub.End()..old(stream.End())] == ReadString(old(stream.Left())).value.1
  {
    var size, eof;
    ok, size, eof := PbDecodeVarint32(stream);
    if !ok {
      return false, stream;
    }
    if stream.bytesLeft < size {
      return false, stream;
    }
    sub := new IStream(stream.buf, stream.state, size);
    ghost var left := stream.Left();
    stream.bytesLeft := stream.bytesLeft - size;
    assert left[..size] == sub.Left();
    assert left[size..] == stream.buf[sub.End()..old(stream.End())];
  }

  /** pb_close_string_substream: whatever is left of the substream is skipped. */
  method PbCloseSubstream(stream: IStream, sub: IStream)
    requires stream.Valid() && sub.Valid() && stream != sub && sub.buf == stream.buf
    requires sub.End() + stream.bytesLeft <= stream.buf.Length
    modifies stream, sub
    ensures stream.Valid() && stream.state == old(sub.End()) && stream.bytesLeft == old(stream.bytesLeft)
  {
    if sub.bytesLeft > 0 {
      var ok, data := PbRead(sub, sub.bytesLeft);
    }
    stream.state := sub.state;
  }

  // ---------------------------------------------------------------- scalar fields

  /** pb_decode_fixed32. */
  method PbDecodeFixed32(stream: IStream) returns (ok: bool, value: nat)
    requires stream.Valid()
    modifies stream
    ensures stream.Valid() && Kept(old(stream.End()), stream.End(), true)
    ensures ok <==> ReadBytes(old(stream.Left()), 4).Some?
    ensures ok ==> Some((FromLittleEndian(ReadBytes(old(stream.Left()), 4).value.0), stream.Left())) ==
                   Some((value, ReadBytes(old(stream.Left()), 4).value.1))
  {
    var bytes;
    ok, bytes := PbRead(stream, 4);
    if !ok {
      return false, 0;
    }
    FromLittleEndian4(bytes);
    value := bytes[0] as int + bytes[1] as int * 0x100 + bytes[2] as int * 0x1_0000 + bytes[3] as int * 0x100_0000;
  }

  lemma FromLittleEndian4(bs: seq<byte>)
    requires |bs| >= 4
    ensures FromLittleEndian(bs) ==
            bs[0] as int + bs[1] as int * 0x100 + bs[2] as int * 0x1_0000 + bs[3] as int * 0x100_0000
              + 0x1_0000_0000 * FromLittleEndian(bs[4..])
  {
    assert bs[1..][1..] == bs[2..] && bs[2..][1..] == bs[3..] && bs[3..][1..] == bs[4..];
    assert FromLittleEndian(bs[3..]) == bs[3] + 256 * FromLittleEndian(bs[4..]);
    assert FromLittleEndian(bs[2..]) == bs[2] + 256 * FromLittleEndian(bs[3..]);
    assert FromLittleEndian(bs[1..]) == bs[1] + 256 * FromLittleEndian(bs[2..]);
  }

  /** pb_decode_fixed64. */
  method PbDecodeFixed64(stream: IStream) returns (ok: bool, value: nat)
    requires stream.Valid()
    modifies stream
    ensures stream.Valid() && Kept(old(stream.End()), stream.End(), true)
    ensures ok <==> ReadBytes(old(stream.Left()), 8).Some?
    ensures ok ==> Some((FromLittleEndian(ReadBytes(old(stream.Left()), 8).value.0), stream.Left())) ==
                   Some((value, ReadBytes(old(stream.Left()), 8).value.1))
  {
    var bytes;
    ok, bytes := PbRead(stream, 8);
    if !ok {
      return false, 0;
    }
    FromLittleEndian4(bytes);
    FromLittleEndian4(bytes[4..]);
    value := bytes[0] as int + bytes[1] as int * 0x100 + bytes[2] as int * 0x1_0000 + bytes[3] as int * 0x100_0000
             + bytes[4] as int * 0x1_0000_0000 + bytes[5] as int * 0x100_0000_0000
             + bytes[6] as int * 0x1_0000_0000_0000 + bytes[7] as int * 0x100_0000_0000_0000;
  }

  /** pb_dec_varint, pb_dec_uvarint and pb_dec_svarint: the value is cut to the field's width and refused when that
      changes it. */
  method PbDecInteger(stream: IStream, f: Field) returns (ok: bool, v: Value)
    requires stream.Valid() && (f.ltype.VARINT? || f.ltype.UVARINT? || f.ltype.SVARINT?)
    modifies stream
    ensures stream.Valid() && Kept(old(stream.End()), stream.End(), true)
    ensures Returned(DecodeScalar(f, old(stream.Left())), ok, v, stream.Left())
  {
    v := Int(0);
    var value;
    ok, value := PbDecodeVarint(stream);
    if !ok {
      return;
    }
    if f.dataSize != 1 && f.dataSize != 2 && f.dataSize != 4 && f.dataSize != 8 {
      return false, v;
    }
    var clamped, svalue: int;
    match f.ltype {
      case UVARINT =>
        svalue := value;
        clamped := value % (2 * Half(f.dataSize));
      case VARINT =>
        svalue := Signed(value, if f.dataSize == 8 then 8 else 4);
        clamped := Signed(svalue % TWO64, f.dataSize);
      case SVARINT =>
        svalue := Varint.UnZigZag(value % TWO64);
        clamped := Signed(svalue % TWO64, f.dataSize);
    }
    return clamped == svalue, Int(svalue);
  }

  /** pb_dec_bytes, pb_dec_string and pb_dec_fixed_length_bytes. */
  method PbDecSized(stream: IStream, f: Field) returns (ok: bool, v: Value)
    requires stream.Valid() && (f.ltype.BYTES? || f.ltype.STRING? || f.ltype.FIXED_LENGTH_BYTES?)
    modifies stream
    ensures stream.Valid() && Kept(old(stream.End()), stream.End(), true)
    ensures Returned(DecodeScalar(f, old(stream.Left())), ok, v, stream.Left())
  {
    v := Bytes([]);
    var size, eof;
    ok, size, eof := PbDecodeVarint32(stream);
    if !ok {
      return;
    }
    match f.ltype {
      case BYTES =>
        if size > PB_SIZE_MAX || size + BYTES_OFFSET > f.dataSize {
          return false, v;
        }
      case STRING =>
        if size + 1 > f.dataSize {
          return false, v;
        }
      case FIXED_LENGTH_BYTES =>
        if size > PB_SIZE_MAX {
          return false, v;
        }
        if size == 0 {
          return true, Bytes(Zeros(f.dataSize));
        }
        if size != f.dataSize {
          return false, v;
        }
    }
    var data;
    ok, data := PbRead(stream, size);
    v := Bytes(data);
  }

  /** The entry of PB_DECODERS for a type that is not a submessage. */
  method DecodeScalarItem(stream: IStream, f: Field) returns (ok: bool, v: Value)
    requires stream.Valid() && !f.ltype.SUBMESSAGE? && !f.ltype.EXTENSION?
    modifies stream
    ensures stream.Valid() && Kept(old(stream.End()), stream.End(), true)
    ensures Returned(DecodeScalar(f, old(stream.Left())), ok, v, stream.Left())
  {
    match f.ltype {
      case BOOL =>
        var value, eof;
        ok, value, eof := PbDecodeVarint32(stream);
        v := Bool(value != 0);
      case VARINT | UVARINT | SVARINT => ok, v := PbDecInteger(stream, f);
      case FIXED32 =>
        var value;
        ok, value := PbDecodeFixed32(stream);
        v := Int(value);
      case FIXED64 =>
        var value;
        ok, value := PbDecodeFixed64(stream);
        v := Int(value);
      case BYTES | STRING | FIXED_LENGTH_BYTES => ok, v := PbDecSized(stream, f);
    }
  }

  /** The packed branch of decode_static_field. */
  method DecodePackedItems(stream: IStream, f: Field, items: seq<Value>) returns (ok: bool, all: seq<Value>)
    requires stream.Valid() && Packable(f.ltype)
    modifies stream
    ensures stream.Valid() && Kept(old(stream.End()), stream.End(), ok)
    ensures ReadString(old(stream.Left())).None? ==> !ok
    ensures ReadString(old(stream.Left())).Some? ==>
      var (payload, rest) := ReadString(old(stream.Left())).value;
      DecodePacked(f, payload, items) == (if ok then Some(all) else None) && (ok ==> stream.Left() == rest)
  {
    all := items;
    var sub;
    ok, sub := PbMakeSubstream(stream);
    if !ok {
      return;
    }
    ghost var end := sub.End();
    ghost var payload := sub.Left();
    var status := true;
    while sub.bytesLeft > 0 && |all| < f.arraySize
      invariant fresh(sub) && sub.Valid() && sub.End() == end && sub.buf == stream.buf
      invariant stream.End() <= old(stream.End()) && end + stream.bytesLeft == old(stream.End())
      invariant status
      invariant DecodePacked(f, payload, items) == DecodePacked(f, sub.Left(), all)
      decreases sub.bytesLeft
    {
      ghost var before := sub.Left();
      var v;
      status, v := DecodeScalarItem(sub, f);
      if !status {
        break;
      }
      all := all + [v];
    }
    if sub.bytesLeft != 0 {
      return false, all;
    }
    assert sub.Left() == [];
    PbCloseSubstream(stream, sub);
    return status, all;
  }

  // ---------------------------------------------------------------- defaults

  /** pb_message_set_to_defaults: every member of the struct is overwritten. */
  method PbSetToDefaults(fs: seq<Field>, dest: seq<Slot>) returns (slots: seq<Slot>)
    requires StaticDescriptor(fs) && |dest| == SlotCount(fs)
    ensures slots == Defaults(fs)
    decreases fs, 0
  {
    slots := dest;
    if fs == [] {
      return;
    }
    NonZeroTags(fs);
    var iter := new FieldIter(fs, 0);
    var more := true;
    ghost var i := 0;
    while more
      invariant fresh(iter) && iter.Valid() && iter.start == fs && i <= |fs| && |slots| == SlotCount(fs)
      invariant if more then i < |fs| && iter.pos == i else i == |fs|
      invariant forall k :: 0 <= k < |DefaultsUpTo(fs, i)| && k < |slots| ==> slots[k] == DefaultsUpTo(fs, i)[k]
      decreases |fs| - i
    {
      StaticAt(fs, 0, i);
      SlotOfInRange(fs, i);
      DefaultsExtend(fs, i);
      var f := fs[iter.pos];
      var slot := PbFieldSetToDefault(f);
      slots := slots[SlotOf(fs, iter.pos) := slot];
      more := iter.Next();
      i := i + 1;
    }
  }

  lemma DefaultsExtend(fs: seq<Field>, i: nat)
    requires i < |fs|
    ensures var before, after := DefaultsUpTo(fs, i), DefaultsUpTo(fs, i + 1);
      forall k :: 0 <= k < |after| ==>
        if k == SlotOf(fs, i) then after[k] == DefaultSlot(fs[i]) else k < |before| && after[k] == before[k]
  {
    DefaultsUpToSlot(fs, i + 1, i);
  }

  /** pb_field_set_to_default. */
  method PbFieldSetToDefault(f: Field) returns (slot: Slot)
    requires StaticField(f)
    ensures slot == DefaultSlot(f) && InitialSlot(f, slot)
    decreases f, 2
  {
    DefaultIsInitial(f);
    match f.htype {
      case REQUIRED =>
        var v := DefaultItem(f);
        slot := Single(v);
      case OPTIONAL =>
        var v := DefaultItem(f);
        slot := if f.sizeOffset != 0 then Opt(false, v) else Single(v);
      case REPEATED => slot := Array([]);
      case ONEOF => slot := NoMember;
    }
  }

  method DefaultItem(f: Field) returns (v: Value)
    requires StaticField(f)
    ensures v == DefaultValue(f)
    decreases f, 1
  {
    match f.ltype
    case SUBMESSAGE =>
      if !f.ptr.Fields? {
        return Message([]);
      }
      var slots := PbSetToDefaults(f.ptr.fields, Blank(SlotCount(f.ptr.fields)));
      v := Message(slots);
    case _ => v := DefaultValue(f);
  }

  /** Memory with arbitrary content. */
  function Blank(n: nat): (slots: seq<Slot>)
    ensures |slots| == n
  {
    seq(n, _ => NoMember)
  }

  // ---------------------------------------------------------------- which entry a tag finds

  /** With distinct tags the search finds the same entry wherever it starts. */
  lemma FoundIsUnique(fs: seq<Field>, tag: nat, i: nat)
    requires DistinctTags(fs) && i < |fs| && Wanted(fs[i], tag)
    ensures Find(fs, tag) == i
  {
  }

  // ---------------------------------------------------------------- required fields

  /** The two words of fields_seen hold the set of required-field indices seen. */
  ghost predicate Records(words: seq<nat>, seen: set<nat>)
  {
    && |words| == 2
    && (forall j :: 0 <= j < 2 ==> words[j] < TWO32)
    && (forall r: nat :: r < PB_MAX_REQUIRED_FIELDS ==> (Bit(words[r / 32], r % 32) <==> r in seen))
  }

  /** fields_seen[r >> 5] |= (uint32_t)1 << (r & 31) */
  function SetBit(words: seq<nat>, r: nat): seq<nat>
    requires |words| == 2 && r < PB_MAX_REQUIRED_FIELDS
  {
    words[r / 32 := Or(words[r / 32], Shl(1, r % 32) % TWO32)]
  }

  lemma SetBitRecords(words: seq<nat>, seen: set<nat>, r: nat)
    requires Records(words, seen) && r < PB_MAX_REQUIRED_FIELDS
    ensures Records(SetBit(words, r), seen + {r})
  {
    ShlBy32(1);
    Pow2Monotone(r % 32, 31);
    OrBound(words[r / 32], Pow2(r % 32), 32);
    var words' := SetBit(words, r);
    forall q: nat | q < PB_MAX_REQUIRED_FIELDS ensures Bit(words'[q / 32], q % 32) <==> q in seen + {r} {
      if q / 32 == r / 32 {
        OrBit(words[r / 32], Pow2(r % 32), q % 32);
        Pow2Bit(r % 32, q % 32);
      }
    }
  }

  /** The final comparison of pb_decode_noinit: whole words, then the remaining bits. */
  predicate WordsComplete(words: seq<nat>, count: nat)
    requires |words| == 2 && count <= PB_MAX_REQUIRED_FIELDS
  {
    && (forall j :: 0 <= j < count / 32 ==> words[j] == TWO32 - 1)
    && (count % 32 != 0 ==> words[count / 32] == Shr(TWO32 - 1, 32 - count % 32))
  }

  lemma WordIsComplete(w: nat, n: nat)
    requires n <= 32 && w < TWO32 && forall k: nat :: n <= k < 32 ==> !Bit(w, k)
    ensures w == Pow2(n) - 1 <==> forall k: nat :: k < n ==> Bit(w, k)
    ensures Shr(TWO32 - 1, 32 - n) == Pow2(n) - 1
  {
    ShlBy32(1);
    NoHighBits(w, n, 32);
    AllOnes(w, n);
    ShrOnes(TWO32 - 1, 0, 32, 32 - n);
  }

  /** The required-field bit set is exact: comparing words and shifted masks is set inclusion. */
  lemma BitSetIsExact(words: seq<nat>, seen: set<nat>, count: nat)
    requires Records(words, seen) && count <= PB_MAX_REQUIRED_FIELDS
    requires forall r :: r in seen ==> r < count
    ensures WordsComplete(words, count) <==> forall r: nat :: r < count ==> r in seen
  {
    forall j | 0 <= j < 2
      ensures WordComplete(words, count, j) <==>
        forall r: nat :: 32 * j <= r < count && r < 32 * (j + 1) ==> r in seen
    {
      WordAgrees(words, seen, count, j);
    }
    assert WordsComplete(words, count) <==> WordComplete(words, count, 0) && WordComplete(words, count, 1);
    if WordsComplete(words, count) {
      forall r: nat | r < count ensures r in seen {
        assert WordComplete(words, count, r / 32);
      }
    }
  }

  predicate WordComplete(words: seq<nat>, count: nat, j: nat)
    requires |words| == 2 && j < 2
  {
    && (j < count / 32 ==> words[j] == TWO32 - 1)
    && (j == count / 32 && count % 32 != 0 ==> words[j] == Shr(TWO32 - 1, 32 - count % 32))
  }

  lemma WordAgrees(words: seq<nat>, seen: set<nat>, count: nat, j: nat)
    requires Records(words, seen) && count <= PB_MAX_REQUIRED_FIELDS && j < 2
    requires forall r :: r in seen ==> r < count
    ensures WordComplete(words, count, j) <==> forall r: nat :: 32 * j <= r < count && r < 32 * (j + 1) ==> r in seen
  {
    if j <= count / 32 {
      var n := if j < count / 32 then 32 else count % 32;
      forall k: nat | k < 32 ensures Bit(words[j], k) <==> 32 * j + k in seen {
        assert (32 * j + k) / 32 == j && (32 * j + k) % 32 == k;
      }
      WordIsComplete(words[j], n);
      ShlBy32(1);
      assert (forall k: nat :: k < n ==> Bit(words[j], k)) <==>
             (forall r: nat :: 32 * j <= r < 32 * j + n ==> r in seen) by {
        if forall k: nat :: k < n ==> Bit(words[j], k) {
          forall r: nat | 32 * j <= r < 32 * j + n ensures r in seen {
            assert Bit(words[j], r - 32 * j);
          }
        }
      }
    }
  }

  /** How many required entries are tracked. */
  function Tracked(fs: seq<Field>): (n: nat)
    ensures n <= PB_MAX_REQUIRED_FIELDS
  {
    var all := RequiredBefore(fs, |fs|);
    if all > PB_MAX_REQUIRED_FIELDS then PB_MAX_REQUIRED_FIELDS else all
  }

  lemma RequiredSeenByIndex(fs: seq<Field>, seen: set<nat>)
    ensures AllRequiredSeen(fs, seen) <==> forall r: nat :: r < Tracked(fs) ==> r in seen
  {
    if AllRequiredSeen(fs, seen) {
      forall r: nat | r < Tracked(fs) ensures r in seen {
        var i := RequiredIndexOnto(fs, |fs|, r);
      }
    }
    forall i | 0 <= i < |fs| && fs[i].htype.REQUIRED? ensures RequiredBefore(fs, i) < RequiredBefore(fs, |fs|) {
      RequiredBeforeMonotone(fs, i, |fs|);
    }
  }

  lemma MarkIsTracked(fs: seq<Field>, i: nat, seen: set<nat>)
    requires i < |fs| && forall r :: r in seen ==> r < Tracked(fs)
    ensures forall r :: r in Mark(fs, i, seen) ==> r < Tracked(fs)
  {
    RequiredBeforeMonotone(fs, i, |fs|);
  }

  /** The walk to the end of the descriptor that counts the required entries. */
  method CountRequired(iter: FieldIter) returns (count: nat)
    requires iter.Valid()
    modifies iter
    ensures iter.Valid() && count == RequiredBefore(iter.start, |iter.start|)
  {
    var lastType := Entry(iter.start, iter.pos).htype;
    count := iter.requiredFieldIndex;
    var more := iter.Next();
    while more
      invariant iter.Valid() && more == (iter.pos != 0)
      invariant iter.start != [] ==>
        var last := if iter.pos == 0 then |iter.start| - 1 else iter.pos - 1;
        count == RequiredBefore(iter.start, last) && lastType == iter.start[last].htype
      invariant iter.start == [] ==> count == 0
      decreases if iter.pos == 0 then 0 else |iter.start| - iter.pos
    {
      count := iter.requiredFieldIndex;
      lastType := Entry(iter.start, iter.pos).htype;
      more := iter.Next();
    }
    if lastType.REQUIRED? && Entry(iter.start, iter.pos).tag != 0 {
      count := count + 1;
    }
  }

  /** The check of the required fields at the end of pb_decode_noinit. */
  method CheckRequired(iter: FieldIter, fieldsSeen: seq<nat>, ghost seen: set<nat>) returns (complete: bool)
    requires iter.Valid() && |fieldsSeen| == 2
    requires iter.start != [] ==> Records(fieldsSeen, seen) && forall r :: r in seen ==> r < Tracked(iter.start)
    modifies iter
    ensures complete == AllRequiredSeen(iter.start, seen)
  {
    RequiredSeenByIndex(iter.start, seen);
    var count := CountRequired(iter);
    if count > PB_MAX_REQUIRED_FIELDS {
      count := PB_MAX_REQUIRED_FIELDS;
    }
    if count == 0 {
      return true;
    }
    BitSetIsExact(fieldsSeen, seen, count);
    for i := 0 to count / 32
      invariant forall j :: 0 <= j < i ==> fieldsSeen[j] == TWO32 - 1
    {
      if fieldsSeen[i] != TWO32 - 1 {
        return false;
      }
    }
    if count % 32 != 0 && fieldsSeen[count / 32] != Shr(TWO32 - 1, 32 - count % 32) {
      return false;
    }
    return true;
  }

  // ---------------------------------------------------------------- fields and messages

  lemma SubmessageReturned(f: Field, s: seq<byte>, prior: Value, ok: bool, slots: seq<Slot>, left: seq<byte>)
    requires StaticField(f) && f.ltype.SUBMESSAGE? && f.ptr.Fields? && prior.Message? && ReadString(s).Some?
    requires f.htype.ONEOF? ==> prior == DefaultValue(f)
    requires var (sub, rest) := ReadString(s).value;
      var start := if f.htype.REPEATED? then Defaults(f.ptr.fields) else prior.slots;
      var inner := DecodeMessage(f.ptr.fields, sub, start);
      ok == inner.Some? && (ok ==> slots == inner.value.0 && left == rest)
    ensures Returned(DecodeValue(f, s, prior), ok, Message(slots), left)
  {
  }

  /** pb_dec_submessage: array entries start from the defaults, other submessages from what they hold. */
  method PbDecSubmessage(stream: IStream, f: Field, prior: Value) returns (ok: bool, v: Value)
    requires stream.Valid() && StaticField(f) && f.ltype.SUBMESSAGE?
    requires f.htype.ONEOF? ==> prior == DefaultValue(f)
    modifies stream
    ensures stream.Valid() && Kept(old(stream.End()), stream.End(), ok)
    ensures Returned(DecodeValue(f, old(stream.Left()), prior), ok, v, stream.Left())
    decreases f, 0
  {
    v := prior;
    ghost var left := stream.Left();
    ghost var read := ReadString(left);
    var sub;
    ok, sub := PbMakeSubstream(stream);
    if !ok {
      return;
    }
    if !f.ptr.Fields? || !prior.Message? {
      return false, v;
    }
    ghost var start := if f.htype.REPEATED? then Defaults(f.ptr.fields) else prior.slots;
    ghost var inner := DecodeMessage(f.ptr.fields, read.value.0, start);
    var slots;
    ok, slots := DecodeSubstream(sub, f, prior.slots);
    assert ok == inner.Some? && (ok ==> slots == inner.value.0);
    PbCloseSubstream(stream, sub);
    assert ok ==> stream.Left() == read.value.1;
    SubmessageReturned(f, left, prior, ok, slots, stream.Left());
    v := Message(slots);
  }

  method DecodeSubstream(sub: IStream, f: Field, slots: seq<Slot>) returns (ok: bool, out: seq<Slot>)
    requires sub.Valid() && f.ltype.SUBMESSAGE? && f.ptr.Fields? && StaticDescriptor(f.ptr.fields)
    modifies sub
    ensures sub.Valid() && Kept(old(sub.End()), sub.End(), ok)
    ensures Returned(DecodeMessage(f.ptr.fields, old(sub.Left()),
                                   if f.htype.REPEATED? then Defaults(f.ptr.fields) else slots),
                     ok, out, sub.Left())
    decreases f.ptr.fields, 4
  {
    if f.htype.REPEATED? {
      ok, out := PbDecode(sub, f.ptr.fields);
    } else {
      ok, out := PbDecodeNoinit(sub, f.ptr.fields, slots);
    }
  }

  /** The entry of PB_DECODERS for the field's type, on the memory of one item. */
  method DecodeItem(stream: IStream, f: Field, prior: Value) returns (ok: bool, v: Value)
    requires stream.Valid() && StaticField(f) && !f.ltype.EXTENSION?
    requires f.htype.ONEOF? ==> prior == DefaultValue(f)
    modifies stream
    ensures stream.Valid() && Kept(old(stream.End()), stream.End(), ok)
    ensures Returned(DecodeValue(f, old(stream.Left()), prior), ok, v, stream.Left())
    decreases f, 1
  {
    if f.ltype.SUBMESSAGE? {
      ok, v := PbDecSubmessage(stream, f, prior);
    } else {
      ok, v := DecodeScalarItem(stream, f);
    }
  }

  /** decode_static_field. */
  method DecodeStaticField(stream: IStream, f: Field, wireType: nat, slot: Slot) returns (ok: bool, out: Slot)
    requires stream.Valid() && StaticField(f) && !f.ltype.EXTENSION?
    modifies stream
    ensures stream.Valid() && Kept(old(stream.End()), stream.End(), ok)
    ensures Returned(DecodeField(f, wireType, old(stream.Left()), slot), ok, out, stream.Left())
    decreases f, 2
  {
    out := slot;
    var v: Value;
    match f.htype {
      case REQUIRED =>
        if !slot.Single? {
          return false, out;
        }
        ok, v := DecodeItem(stream, f, slot.v);
        out := Single(v);
      case OPTIONAL =>
        if !(if f.sizeOffset != 0 then slot.Opt? else slot.Single?) {
          return false, out;
        }
        ok, v := DecodeItem(stream, f, slot.v);
        out := if f.sizeOffset != 0 then Opt(true, v) else Single(v);
      case REPEATED =>
        if !slot.Array? {
          return false, out;
        }
        if wireType == E.WT_STRING && Packable(f.ltype) {
          var all;
          ok, all := DecodePackedItems(stream, f, slot.items);
          out := Array(all);
        } else {
          if |slot.items| >= f.arraySize {
            return false, out;
          }
          ok, v := DecodeItem(stream, f, DefaultValue(f));
          out := Array(slot.items + [v]);
        }
      case ONEOF =>
        if !(slot.NoMember? || slot.Member?) {
          return false, out;
        }
        v := DefaultItem(f);
        ok, v := DecodeItem(stream, f, v);
        out := Member(f.tag, v);
    }
  }

  /** fields_seen, and that it is kept, for a descriptor with entries. */
  ghost predicate Tracks(fs: seq<Field>, fieldsSeen: seq<nat>, seen: set<nat>)
  {
    && |fieldsSeen| == 2
    && (fs != [] ==> Records(fieldsSeen, seen))
    && forall r :: r in seen ==> r < Tracked(fs)
  }

  /** The found branch of the loop of pb_decode_noinit: mark a required field as seen, decode the field. */
  method DecodeKnown(stream: IStream, iter: FieldIter, wireType: nat, slots: seq<Slot>, fieldsSeen: seq<nat>,
    ghost seen: set<nat>)
    returns (ok: bool, out: seq<Slot>, marked: seq<nat>)
    requires stream.Valid() && iter.Valid() && StaticDescriptor(iter.start) && iter.start != []
    requires !iter.start[iter.pos].ltype.EXTENSION? && Tracks(iter.start, fieldsSeen, seen)
    modifies stream
    ensures stream.Valid() && Kept(old(stream.End()), stream.End(), ok)
    ensures var fs, i := iter.start, iter.pos;
      var k := SlotOf(fs, i);
      if k >= |slots| then !ok
      else match DecodeField(fs[i], wireType, old(stream.Left()), slots[k])
           case None => !ok
           case Some((slot, rest)) => ok && out == slots[k := slot] && stream.Left() == rest
    ensures Tracks(iter.start, marked, Mark(iter.start, iter.pos, seen))
    decreases iter.start, 0
  {
    out, marked := slots, fieldsSeen;
    var fs, i := iter.start, iter.pos;
    StaticAt(fs, 0, i);
    MarkIsTracked(fs, i, seen);
    if fs[i].htype.REQUIRED? && iter.requiredFieldIndex < PB_MAX_REQUIRED_FIELDS {
      SetBitRecords(fieldsSeen, seen, iter.requiredFieldIndex);
      marked := SetBit(fieldsSeen, iter.requiredFieldIndex);
    }
    var k := SlotOf(fs, i);
    if k >= |slots| {
      return false, out, marked;
    }
    var slot;
    ok, slot := DecodeStaticField(stream, fs[i], wireType, slots[k]);
    out := slots[k := slot];
  }

  /** The other branch: the field is skipped. On an empty descriptor tag 0 finds the end entry, whose type reads as a
      required bool. */
  method SkipUnknown(stream: IStream, found: bool, wireType: nat) returns (ok: bool)
    requires stream.Valid()
    modifies stream
    ensures stream.Valid() && Kept(old(stream.End()), stream.End(), true)
    ensures (if found then Rest(Varint.Decode32(old(stream.Left()))) else SkipField(wireType, old(stream.Left()))) ==
            if ok then Some(stream.Left()) else None
  {
    if found {
      var value, eof;
      ok, value, eof := PbDecodeVarint32(stream);
    } else {
      ok := PbSkipField(stream, wireType);
    }
  }

  /** One turn of the loop of pb_decode_noinit. */
  method DecodeOne(stream: IStream, iter: FieldIter, slots: seq<Slot>, fieldsSeen: seq<nat>, ghost seen: set<nat>)
    returns (ok: bool, stop: bool, out: seq<Slot>, marked: seq<nat>, ghost seen': set<nat>)
    requires stream.Valid() && iter.Valid() && StaticDescriptor(iter.start) && Tracks(iter.start, fieldsSeen, seen)
    modifies stream, iter
    ensures stream.Valid() && Kept(old(stream.End()), stream.End(), ok) && iter.Valid()
    ensures match Step(iter.start, old(stream.Left()), State(slots, seen))
            case Fail => !ok
            case Stop(rest) => ok && stop && stream.Left() == rest && out == slots && seen' == seen
            case Next(st, rest) => ok && !stop && stream.Left() == rest && State(out, seen') == st
    ensures ok ==> Tracks(iter.start, marked, seen')
    decreases iter.start, 1
  {
    stop, out, marked, seen' := false, slots, fieldsSeen, seen;
    var wireType, tag, eof;
    ok, wireType, tag, eof := PbDecodeTag(stream);
    if !ok {
      return eof, eof, out, marked, seen;
    }
    var found := iter.Find(tag);
    if found && iter.start != [] {
      FoundIsUnique(iter.start, tag, iter.pos);
      seen' := Mark(iter.start, iter.pos, seen);
      ok, out, marked := DecodeKnown(stream, iter, wireType, slots, fieldsSeen, seen);
    } else {
      assert Find(iter.start, tag) == |iter.start|;
      ok := SkipUnknown(stream, found, wireType);
    }
  }

  /** pb_decode_noinit. */
  method PbDecodeNoinit(stream: IStream, fs: seq<Field>, slots: seq<Slot>) returns (ok: bool, out: seq<Slot>)
    requires stream.Valid() && StaticDescriptor(fs)
    modifies stream
    ensures stream.Valid() && Kept(old(stream.End()), stream.End(), ok)
    ensures Returned(DecodeMessage(fs, old(stream.Left()), slots), ok, out, stream.Left())
    decreases fs, 2
  {
    out := slots;
    NonZeroTags(fs);
    var fieldsSeen := [0, 0];
    ghost var seen: set<nat> := {};
    EmptyRecords();
    var iter := new FieldIter(fs, 0);
    var stop := false;
    ghost var whole := Loop(fs, stream.Left(), State(slots, {}));
    while stream.bytesLeft > 0 && !stop
      invariant stream.Valid() && stream.End() == old(stream.End())
      invariant fresh(iter) && iter.Valid() && iter.start == fs && Tracks(fs, fieldsSeen, seen)
      invariant whole == if stop then Some((State(out, seen), stream.Left()))
        else Loop(fs, stream.Left(), State(out, seen))
      decreases !stop, stream.bytesLeft
    {
      ghost var before := stream.Left();
      assert before != [];
      var decoded;
      decoded, stop, out, fieldsSeen, seen := DecodeOne(stream, iter, out, fieldsSeen, seen);
      if !decoded {
        return false, out;
      }
    }
    ok := CheckRequired(iter, fieldsSeen, seen);
  }

  lemma EmptyRecords()
    ensures Records([0, 0], {})
  {
    forall k: nat ensures !Bit(0, k) { ZeroBit(k); }
  }

  /** pb_decode. */
  method PbDecode(stream: IStream, fs: seq<Field>) returns (ok: bool, out: seq<Slot>)
    requires stream.Valid() && StaticDescriptor(fs)
    modifies stream
    ensures stream.Valid() && Kept(old(stream.End()), stream.End(), ok)
    ensures Returned(Decode(fs, old(stream.Left())), ok, out, stream.Left())
    decreases fs, 3
  {
    out := PbSetToDefaults(fs, Blank(SlotCount(fs)));
    ok, out := PbDecodeNoinit(stream, fs, out);
  }
}
