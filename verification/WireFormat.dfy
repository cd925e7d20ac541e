/** Properties of the decoder over the records of a message: a decoder reads no further than the bytes it consumes,
    unknown fields are transparent, and packed and unpacked elements of a repeated field mix freely. */
module WireFormat {
  import opened Bits
  import opened PbTypes
  import opened Decoding
  import opened RoundTrip
  import E = Encoding
  import Varint

  // ---------------------------------------------------------------- locality

  function Front(s: seq<byte>, rest: seq<byte>): seq<byte>
    requires |rest| <= |s|
  {
    Varint.Front(s, rest)
  }

  ghost predicate Suffix(s: seq<byte>, rest: seq<byte>)
  {
    |rest| <= |s| && s == Front(s, rest) + rest
  }

  lemma FrontSplits(s: seq<byte>, r1: seq<byte>, r2: seq<byte>, y: seq<byte>)
    requires Suffix(s, r1) && Suffix(r1, r2)
    ensures Suffix(s, r2) && Front(s, r2) + y == Front(s, r1) + (Front(r1, r2) + y)
  {
    var p, q := Front(s, r1), Front(r1, r2);
    assert s == p + (q + r2);
    assert Front(s, r2) == p + q;
  }

  lemma Splice32(s: seq<byte>, y: seq<byte>)
    requires Varint.Decode32(s).Some?
    ensures var (v, rest) := Varint.Decode32(s).value;
      Suffix(s, rest) && Varint.Decode32(Front(s, rest) + y) == Some((v, y))
  {
    var rest := Varint.Decode32(s).value.1;
    Varint.Decode32Consumes(s);
    Varint.Decode32Local(Front(s, rest), rest, y);
  }

  lemma Splice64(s: seq<byte>, y: seq<byte>)
    requires Varint.Decode64(s).Some?
    ensures var (v, rest) := Varint.Decode64(s).value;
      Suffix(s, rest) && Varint.Decode64(Front(s, rest) + y) == Some((v, y))
  {
    var rest := Varint.Decode64(s).value.1;
    Varint.Decode64Consumes(s);
    Varint.Decode64Local(Front(s, rest), rest, y);
  }

  lemma SpliceBytes(s: seq<byte>, count: nat, y: seq<byte>)
    requires ReadBytes(s, count).Some?
    ensures var (data, rest) := ReadBytes(s, count).value;
      Suffix(s, rest) && Front(s, rest) == data && ReadBytes(data + y, count) == Some((data, y))
  {
    assert (s[..count] + y)[..count] == s[..count] && (s[..count] + y)[count..] == y;
  }

  lemma SpliceString(s: seq<byte>, y: seq<byte>)
    requires ReadString(s).Some?
    ensures var (data, rest) := ReadString(s).value;
      Suffix(s, rest) && ReadString(Front(s, rest) + y) == Some((data, y))
  {
    var (size, r1) := Varint.Decode32(s).value;
    var (data, rest) := ReadBytes(r1, size).value;
    Splice32(s, data + y);
    SpliceBytes(r1, size, y);
    FrontSplits(s, r1, rest, y);
  }

  lemma SpliceScalar(f: Field, s: seq<byte>, y: seq<byte>)
    requires DecodeScalar(f, s).Some?
    ensures var (v, rest) := DecodeScalar(f, s).value;
      Suffix(s, rest) && DecodeScalar(f, Front(s, rest) + y) == Some((v, y))
  {
    match f.ltype
    case BOOL => Splice32(s, y);
    case VARINT | UVARINT | SVARINT => Splice64(s, y);
    case FIXED32 => SpliceBytes(s, 4, y);
    case FIXED64 => SpliceBytes(s, 8, y);
    case BYTES | STRING | FIXED_LENGTH_BYTES =>
      var (size, r1) := Varint.Decode32(s).value;
      var (v, rest) := DecodeSized(f, size, r1).value;
      SpliceSized(f, size, r1, y);
      Splice32(s, Front(r1, rest) + y);
      FrontSplits(s, r1, rest, y);
  }

  lemma SpliceSized(f: Field, size: nat, s: seq<byte>, y: seq<byte>)
    requires DecodeSized(f, size, s).Some?
    ensures var (v, rest) := DecodeSized(f, size, s).value;
      Suffix(s, rest) && DecodeSized(f, size, Front(s, rest) + y) == Some((v, y))
  {
    var rest := DecodeSized(f, size, s).value.1;
    if rest == s {
      assert Front(s, rest) == [] && [] + y == y;
    }
    if ReadBytes(s, size).Some? {
      SpliceBytes(s, size, y);
    }
  }

  lemma SpliceValue(f: Field, s: seq<byte>, prior: Value, y: seq<byte>)
    requires DecodeValue(f, s, prior).Some?
    ensures var (v, rest) := DecodeValue(f, s, prior).value;
      Suffix(s, rest) && DecodeValue(f, Front(s, rest) + y, prior) == Some((v, y))
  {
    if f.ltype.SUBMESSAGE? {
      SpliceString(s, y);
    } else {
      SpliceScalar(f, s, y);
    }
  }

  lemma SpliceField(f: Field, wireType: nat, s: seq<byte>, slot: Slot, y: seq<byte>)
    requires DecodeField(f, wireType, s, slot).Some?
    ensures var (v, rest) := DecodeField(f, wireType, s, slot).value;
      Suffix(s, rest) && DecodeField(f, wireType, Front(s, rest) + y, slot) == Some((v, y))
  {
    match f.htype
    case REQUIRED | OPTIONAL => SpliceValue(f, s, slot.v, y);
    case ONEOF => SpliceValue(f, s, DefaultValue(f), y);
    case REPEATED =>
      if wireType == E.WT_STRING && Packable(f.ltype) {
        SpliceString(s, y);
      } else {
        SpliceValue(f, s, DefaultValue(f), y);
      }
  }

  // ---------------------------------------------------------------- what pb_skip_field consumes

  /** p is the payload of one field of the given wire type. */
  ghost predicate Payload(wireType: nat, p: seq<byte>)
  {
    if wireType == E.WT_VARINT then Varint.IsToken(p)
    else if wireType == E.WT_64BIT then |p| == 8
    else if wireType == E.WT_STRING then
      exists n: nat :: n <= |p| && Varint.IsToken(p[..n]) && Varint.Decode32(p[..n]) == Some((|p| - n, []))
    else wireType == E.WT_32BIT && |p| == 4
  }

  lemma {:induction false} SkipVarintToken(p: seq<byte>, y: seq<byte>)
    requires Varint.IsToken(p)
    ensures SkipVarint(p + y) == Some(y)
  {
    assert (p + y)[1..] == p[1..] + y;
    if p[0] >= 128 {
      SkipVarintToken(p[1..], y);
    } else {
      assert p[1..] + y == y;
    }
  }

  lemma {:induction false} SkipVarintConsumes(s: seq<byte>)
    requires SkipVarint(s).Some?
    ensures Suffix(s, SkipVarint(s).value) && Varint.IsToken(Front(s, SkipVarint(s).value))
  {
    var rest := SkipVarint(s).value;
    if s[0] >= 128 {
      var front := Front(s[1..], rest);
      SkipVarintConsumes(s[1..]);
      Varint.TokenCons(s[0], front);
      assert s == [s[0]] + (front + rest) == [s[0]] + front + rest;
      assert Front(s, rest) == [s[0]] + front;
    } else {
      assert Front(s, rest) == [s[0]] && s == [s[0]] + rest;
    }
  }

  /** Exactly the payload is skipped, whatever follows. */
  lemma SkipsPayload(wireType: nat, p: seq<byte>, y: seq<byte>)
    requires Payload(wireType, p)
    ensures SkipField(wireType, p + y) == Some(y)
  {
    if wireType == E.WT_VARINT {
      SkipVarintToken(p, y);
    } else if wireType == E.WT_STRING {
      var n: nat :| n <= |p| && Varint.IsToken(p[..n]) && Varint.Decode32(p[..n]) == Some((|p| - n, []));
      assert p[..n] + [] == p[..n];
      Varint.Decode32Local(p[..n], [], p[n..] + y);
      assert p + y == p[..n] + (p[n..] + y);
      ReadBytesTrip(p[n..], y);
    } else {
      ReadBytesTrip(p, y);
    }
  }

  /** And nothing else can be skipped. */
  lemma SkippedIsPayload(wireType: nat, s: seq<byte>)
    requires SkipField(wireType, s).Some?
    ensures Suffix(s, SkipField(wireType, s).value) && Payload(wireType, Front(s, SkipField(wireType, s).value))
  {
    var rest := SkipField(wireType, s).value;
    if wireType == E.WT_VARINT {
      SkipVarintConsumes(s);
    } else if wireType == E.WT_STRING {
      var (size, r1) := Varint.Decode32(s).value;
      Splice32(s, []);
      Varint.Decode32Consumes(s);
      SpliceBytes(r1, size, []);
      FrontSplits(s, r1, rest, []);
      var p, n := Front(s, rest), |s| - |r1|;
      assert p[..n] == Front(s, r1) == Front(s, r1) + [];
    }
  }

  // ---------------------------------------------------------------- unknown fields

  /** u is a tag of n bytes that is not zero and not in the descriptor, and a payload of its wire type. */
  ghost predicate UnknownAt(fs: seq<Field>, u: seq<byte>, n: nat, t: nat)
  {
    && n <= |u| && Varint.IsToken(u[..n]) && Varint.Decode32(u[..n]) == Some((t, []))
    && t / 8 != 0 && Find(fs, t / 8) == |fs|
    && Payload(t % 8, u[n..])
  }

  ghost predicate UnknownField(fs: seq<Field>, u: seq<byte>)
  {
    exists n: nat, t: nat :: UnknownAt(fs, u, n, t)
  }

  /** An unknown field is one turn of the loop that leaves no trace. */
  lemma UnknownStep(fs: seq<Field>, u: seq<byte>, n: nat, t: nat, y: seq<byte>, st: State)
    requires UnknownAt(fs, u, n, t)
    ensures u != [] && Step(fs, u + y, st) == Next(st, y)
  {
    var p := u[n..];
    assert u[..n] + [] == u[..n];
    Varint.Decode32Local(u[..n], [], p + y);
    assert u + y == u[..n] + (p + y);
    assert Varint.Decode32(u + y) == Some((t, p + y));
    SkipsPayload(t % 8, p, y);
    assert DecodeTag(u + y) == Tag(t % 8, t / 8, p + y);
  }

  lemma SpliceStep(fs: seq<Field>, s: seq<byte>, st: State, y: seq<byte>)
    requires Step(fs, s, st).Next?
    ensures var rest := Step(fs, s, st).rest;
      Suffix(s, rest) && Step(fs, Front(s, rest) + y, st) == Next(Step(fs, s, st).st, y)
  {
    var rest := Step(fs, s, st).rest;
    var (t, r1) := Varint.Decode32(s).value;
    var i := Find(fs, t / 8);
    if i < |fs| {
      SpliceField(fs[i], t % 8, r1, st.slots[SlotOf(fs, i)], y);
    } else if fs == [] && t / 8 == 0 {
      Splice32(r1, y);
    } else {
      SkippedIsPayload(t % 8, r1);
      SkipsPayload(t % 8, Front(r1, rest), y);
    }
    Splice32(s, Front(r1, rest) + y);
    FrontSplits(s, r1, rest, y);
  }

  /** The decoder after n fields: its state and the bytes left. None when it ends or fails before that. */
  function RunTo(fs: seq<Field>, s: seq<byte>, st: State, n: nat): Option<(State, seq<byte>)>
    decreases n
  {
    if n == 0 then Some((st, s))
    else if s == [] then None
    else
      match Step(fs, s, st)
      case Next(st', rest) => RunTo(fs, rest, st', n - 1)
      case _ => None
  }

  /** The bytes of the first n fields take the decoder to the same state whatever follows them. */
  lemma {:induction false} RunSplices(fs: seq<Field>, s: seq<byte>, st: State, n: nat, y: seq<byte>)
    requires RunTo(fs, s, st, n).Some?
    ensures var (st', rest) := RunTo(fs, s, st, n).value;
      Suffix(s, rest) && Loop(fs, Front(s, rest) + y, st) == Loop(fs, y, st')
    decreases n
  {
    if n == 0 {
      assert [] + y == y;
    } else {
      var st1, r1 := Step(fs, s, st).st, Step(fs, s, st).rest;
      var rest := RunTo(fs, s, st, n).value.1;
      RunSplices(fs, r1, st1, n - 1, y);
      SpliceStep(fs, s, st, Front(r1, rest) + y);
      FrontSplits(s, r1, rest, y);
      assert Front(s, rest) + y != [];
    }
  }

  /** Unknown fields are transparent: inserted after any number of fields of a message, an unknown field changes
      neither the success of pb_decode_noinit nor the struct it produces nor what it leaves unread. */
  lemma UnknownFieldsTransparent(fs: seq<Field>, s: seq<byte>, slots: seq<Slot>, n: nat, u: seq<byte>)
    requires StaticDescriptor(fs) && RunTo(fs, s, State(slots, {}), n).Some? && UnknownField(fs, u)
    ensures var rest := RunTo(fs, s, State(slots, {}), n).value.1;
      Suffix(s, rest) && DecodeMessage(fs, Front(s, rest) + (u + rest), slots) == DecodeMessage(fs, s, slots)
  {
    var st := State(slots, {});
    var (st', rest) := RunTo(fs, s, st, n).value;
    RunSplices(fs, s, st, n, u + rest);
    RunSplices(fs, s, st, n, rest);
    var k: nat, t: nat :| UnknownAt(fs, u, k, t);
    UnknownStep(fs, u, k, t, rest, st');
    assert u + rest != [];
  }

  // ---------------------------------------------------------------- the wire types of the encoder

  /** The numbers of the wire types, as the wire format fixes them. */
  lemma WireTypeNumbers(l: LType)
    requires !l.EXTENSION?
    ensures l in {BOOL, VARINT, UVARINT, SVARINT} <==> E.WireType(l) == 0
    ensures l == FIXED64 <==> E.WireType(l) == 1
    ensures l in {BYTES, STRING, SUBMESSAGE, FIXED_LENGTH_BYTES} <==> E.WireType(l) == 2
    ensures l == FIXED32 <==> E.WireType(l) == 5
  {
  }

  /** The bytes of a value, as the wire format fixes them: an integer is a varint of its 64-bit two's complement, of
      itself or of its zigzag form; fixed-width integers are little endian. */
  lemma NumberBytes(f: Field, v: Value)
    requires FieldOk(f) && Holds(f, v) && Packable(f.ltype)
    ensures var bytes := E.EncodeScalar(f, v).bytes;
      match f.ltype
      case BOOL => bytes == (if v.b then [1] else [0])
      case VARINT => Varint.IsToken(bytes) && Varint.Base128(bytes) == (if v.n < 0 then v.n + TWO64 else v.n)
      case UVARINT => Varint.IsToken(bytes) && Varint.Base128(bytes) == v.n
      case SVARINT => Varint.IsToken(bytes) && Varint.Base128(bytes) == (if v.n < 0 then -2 * v.n - 1 else 2 * v.n)
      case FIXED32 => bytes == [v.n % 256, v.n / 0x100 % 256, v.n / 0x1_0000 % 256, v.n / 0x100_0000 % 256]
      case FIXED64 =>
        var high := v.n / 0x1_0000_0000;
        bytes == [v.n % 256, v.n / 0x100 % 256, v.n / 0x1_0000 % 256, v.n / 0x100_0000 % 256,
                  high % 256, high / 0x100 % 256, high / 0x1_0000 % 256, high / 0x100_0000 % 256]
      case _ => true
  {
    match f.ltype
    case BOOL =>
    case VARINT => Varint.EncodeMeaning(v.n % TWO64);
    case UVARINT => Varint.EncodeMeaning(v.n);
    case SVARINT =>
      Varint.ZigZagMeaning(v.n);
      Varint.EncodeMeaning(Varint.ZigZag(v.n));
    case FIXED32 => E.LittleEndian4(v.n);
    case FIXED64 =>
      E.LittleEndian8(v.n);
      E.LittleEndian4(v.n);
      E.LittleEndian4(v.n / 0x1_0000_0000);
  }

  /** Everything else is its length, as a varint, and its content; and a tag is eight times the field number plus the
      wire type. */
  lemma FramingBytes(payload: seq<byte>, wireType: nat, tag: nat)
    ensures var bytes := E.LengthPrefixed(payload);
      && |payload| < |bytes| && bytes[|bytes| - |payload|..] == payload
      && Varint.IsToken(bytes[..|bytes| - |payload|]) && Varint.Base128(bytes[..|bytes| - |payload|]) == |payload|
    ensures Varint.IsToken(E.EncodeTag(wireType, tag))
    ensures Varint.Base128(E.EncodeTag(wireType, tag)) == 8 * tag + wireType
  {
    Varint.EncodeMeaning(|payload|);
    Varint.EncodeMeaning(tag * 8 + wireType);
    assert E.LengthPrefixed(payload)[..|Varint.Encode(|payload|)|] == Varint.Encode(|payload|);
  }

  /** An encoded value is skipped whole by the wire type of its field. */
  lemma EncodedValueIsSkipped(f: Field, v: Value, rest: seq<byte>)
    requires FieldOk(f) && ValueMatches(f, v) && E.EncodeValue(f, v).ok && |E.EncodeValue(f, v).bytes| < TWO32
    ensures SkipField(E.WireType(f.ltype), E.EncodeValue(f, v).bytes + rest) == Some(rest)
  {
    var bytes := E.EncodeValue(f, v).bytes;
    match f.ltype {
      case BOOL => EncodedNumberIsSkipped(if v.b then 1 else 0, rest);
      case VARINT => EncodedNumberIsSkipped(v.n % TWO64, rest);
      case UVARINT => EncodedNumberIsSkipped(v.n, rest);
      case SVARINT => EncodedNumberIsSkipped(Varint.ZigZag(v.n), rest);
      case FIXED32 | FIXED64 => ReadBytesTrip(bytes, rest);
      case BYTES | FIXED_LENGTH_BYTES => LengthTrip(v.data, rest);
      case STRING => LengthTrip(CString(v.data), rest);
      case SUBMESSAGE => LengthTrip(E.EncodeMessage(f.ptr.fields, v.slots).bytes, rest);
    }
  }

  lemma EncodedNumberIsSkipped(n: nat, rest: seq<byte>)
    ensures SkipField(E.WT_VARINT, Varint.Encode(n) + rest) == Some(rest)
  {
    Varint.EncodeMeaning(n);
    SkipVarintToken(Varint.Encode(n), rest);
  }

  /** A decoder whose descriptor lacks the field passes over it: a field added to a message does not disturb it. */
  lemma AddedFieldIsSkipped(fs: seq<Field>, f: Field, v: Value, rest: seq<byte>, st: State)
    requires FieldOk(f) && ValueMatches(f, v) && E.EncodeTagged(f, v).ok && |E.EncodeTagged(f, v).bytes| < TWO32
    requires Find(fs, f.tag) == |fs|
    ensures Loop(fs, E.EncodeTagged(f, v).bytes + rest, st) == Loop(fs, rest, st)
  {
    var tag, payload := E.EncodeTag(E.WireType(f.ltype), f.tag), E.EncodeValue(f, v).bytes;
    var s := E.EncodeTagged(f, v).bytes + rest;
    assert s == tag + (payload + rest);
    TagTrip(E.WireType(f.ltype), f.tag, payload + rest);
    EncodedValueIsSkipped(f, v, rest);
    TagNotEmpty(f, v);
    assert s != [];
  }

  /** A zero tag ends the message: what follows is left unread. */
  lemma ZeroTagEndsMessage(fs: seq<Field>, s: seq<byte>, st: State)
    ensures Loop(fs, [0] + s, st) == Some((st, s))
  {
    assert Varint.Encode(0) == [0];
    Varint.Reader32Range(0, s);
    assert [0] + s != [];
  }

  // ---------------------------------------------------------------- submessages sent in pieces

  /** The fields seen before matter for the check of required fields alone. */
  lemma {:induction false} SeenAddsUp(fs: seq<Field>, s: seq<byte>, slots: seq<Slot>, seen: set<nat>)
    ensures var all, own := Loop(fs, s, State(slots, seen)), Loop(fs, s, State(slots, {}));
      && (all.Some? <==> own.Some?)
      && (all.Some? ==> all.value == (State(own.value.0.slots, seen + own.value.0.seen), own.value.1))
    decreases |s|
  {
    assert seen + {} == seen;
    if s == [] {
    } else {
      var all, own := Step(fs, s, State(slots, seen)), Step(fs, s, State(slots, {}));
      assert all.Next? <==> own.Next?;
      if own.Next? {
        assert all.rest == own.rest && all.st == State(own.st.slots, seen + own.st.seen);
        SeenAddsUp(fs, own.rest, own.st.slots, seen + own.st.seen);
        SeenAddsUp(fs, own.rest, own.st.slots, own.st.seen);
        var later := Loop(fs, own.rest, State(own.st.slots, {}));
        if later.Some? {
          assert seen + own.st.seen + later.value.0.seen == seen + (own.st.seen + later.value.0.seen);
        }
      }
    }
  }

  /** All of s is fields: no tag is zero. */
  ghost predicate WholeFields(fs: seq<Field>, s: seq<byte>, slots: seq<Slot>)
  {
    exists n: nat :: RunTo(fs, s, State(slots, {}), n).Some? && RunTo(fs, s, State(slots, {}), n).value.1 == []
  }

  /** Decoding two runs of fields one after the other into one struct is decoding them together. */
  lemma PiecesMerge(fs: seq<Field>, a: seq<byte>, b: seq<byte>, slots: seq<Slot>)
    requires WholeFields(fs, a, slots) && DecodeMessage(fs, a, slots).Some?
    requires DecodeMessage(fs, b, DecodeMessage(fs, a, slots).value.0).Some?
    ensures DecodeMessage(fs, a + b, slots) == DecodeMessage(fs, b, DecodeMessage(fs, a, slots).value.0)
  {
    var st := State(slots, {});
    var n: nat :| RunTo(fs, a, st, n).Some? && RunTo(fs, a, st, n).value.1 == [];
    var st' := RunTo(fs, a, st, n).value.0;
    RunSplices(fs, a, st, n, b);
    RunSplices(fs, a, st, n, []);
    assert Front(a, []) == a && a + [] == a;
    assert Loop(fs, a, st) == Some((st', []));
    SeenAddsUp(fs, b, st'.slots, st'.seen);
  }

  /** The slot of entry i holds a submessage. */
  predicate HoldsMessage(fs: seq<Field>, i: nat, st: State)
  {
    && i < |fs| && FieldOk(fs[i]) && fs[i].ltype.SUBMESSAGE? && (fs[i].htype.REQUIRED? || fs[i].htype.OPTIONAL?)
    && SlotOf(fs, i) < |st.slots|
    && var slot := st.slots[SlotOf(fs, i)];
       (if fs[i].htype.OPTIONAL? && fs[i].sizeOffset != 0 then slot.Opt? else slot.Single?) && slot.v.Message?
  }

  function WithMessage(fs: seq<Field>, i: nat, st: State, slots: seq<Slot>): State
    requires HoldsMessage(fs, i, st)
  {
    var k := SlotOf(fs, i);
    State(st.slots[k := if st.slots[k].Opt? then Opt(true, Message(slots)) else Single(Message(slots))],
          Mark(fs, i, st.seen))
  }

  lemma PieceStep(fs: seq<Field>, i: nat, a: seq<byte>, rest: seq<byte>, st: State)
    requires FoundAt(fs, i) && HoldsMessage(fs, i, st) && |a| < TWO32
    requires DecodeMessage(fs[i].ptr.fields, a, st.slots[SlotOf(fs, i)].v.slots).Some?
    ensures Loop(fs, E.EncodeTag(2, fs[i].tag) + E.LengthPrefixed(a) + rest, st) ==
      var slots := DecodeMessage(fs[i].ptr.fields, a, st.slots[SlotOf(fs, i)].v.slots).value.0;
      Loop(fs, rest, WithMessage(fs, i, st, slots))
  {
    LengthTrip(a, rest);
    RecordStep(fs, i, 2, E.LengthPrefixed(a), rest, st);
  }

  /** A submessage that is sent in two records is merged: the decoder ends where it would with both in one record. */
  lemma SubmessagesMerge(fs: seq<Field>, i: nat, a: seq<byte>, b: seq<byte>, rest: seq<byte>, st: State)
    requires FoundAt(fs, i) && HoldsMessage(fs, i, st) && |a + b| < TWO32
    requires var sub, slots := fs[i].ptr.fields, st.slots[SlotOf(fs, i)].v.slots;
      && WholeFields(sub, a, slots) && DecodeMessage(sub, a, slots).Some?
      && DecodeMessage(sub, b, DecodeMessage(sub, a, slots).value.0).Some?
    ensures var tag := E.EncodeTag(2, fs[i].tag);
      Loop(fs, tag + E.LengthPrefixed(a) + (tag + E.LengthPrefixed(b) + rest), st)
        == Loop(fs, tag + E.LengthPrefixed(a + b) + rest, st)
  {
    var sub, slots := fs[i].ptr.fields, st.slots[SlotOf(fs, i)].v.slots;
    PieceStep(fs, i, a, E.EncodeTag(2, fs[i].tag) + E.LengthPrefixed(b) + rest, st);
    var first := DecodeMessage(sub, a, slots).value.0;
    var next := WithMessage(fs, i, st, first);
    PieceStep(fs, i, b, rest, next);
    PiecesMerge(sub, a, b, slots);
    PieceStep(fs, i, a + b, rest, st);
    var last := DecodeMessage(sub, b, first).value.0;
    assert WithMessage(fs, i, next, last).slots == WithMessage(fs, i, st, last).slots;
  }

  // ---------------------------------------------------------------- required fields

  /** The descriptor entries whose fields the loop decodes, over the whole input. */
  function Met(fs: seq<Field>, s: seq<byte>, st: State): set<nat>
    decreases |s|
  {
    if s == [] || !Step(fs, s, st).Next? then {}
    else
      var i := Find(fs, DecodeTag(s).tag);
      (if i < |fs| then {i} else {}) + Met(fs, Step(fs, s, st).rest, Step(fs, s, st).st)
  }

  /** One of the first 64 required entries. */
  predicate IsTracked(fs: seq<Field>, i: nat)
  {
    i < |fs| && fs[i].htype.REQUIRED? && RequiredBefore(fs, i) < 64
  }

  lemma {:induction false} SeenIsMet(fs: seq<Field>, s: seq<byte>, st: State, r: nat)
    requires Loop(fs, s, st).Some?
    ensures r in Loop(fs, s, st).value.0.seen <==>
      r in st.seen || exists i :: i in Met(fs, s, st) && IsTracked(fs, i) && RequiredBefore(fs, i) == r
    decreases |s|
  {
    if s == [] || !Step(fs, s, st).Next? {
      assert Met(fs, s, st) == {};
    } else {
      var st', rest := Step(fs, s, st).st, Step(fs, s, st).rest;
      var i, later := Find(fs, DecodeTag(s).tag), Met(fs, rest, st');
      var now := if i < |fs| then {i} else {};
      SeenIsMet(fs, rest, st', r);
      assert Loop(fs, s, st) == Loop(fs, rest, st');
      assert Met(fs, s, st) == now + later;
      assert r in st'.seen <==> r in st.seen || exists k :: k in now && IsTracked(fs, k) && RequiredBefore(fs, k) == r
      by {
        assert st'.seen == if i < |fs| then Mark(fs, i, st.seen) else st.seen;
        assert i < |fs| ==> i in now;
      }
    }
  }

  /** Required fields: when every field decodes, pb_decode_noinit succeeds exactly when each of the first 64 required
      entries of the descriptor was met at least once. */
  lemma RequiredFieldsAreChecked(fs: seq<Field>, s: seq<byte>, slots: seq<Slot>)
    requires StaticDescriptor(fs) && Loop(fs, s, State(slots, {})).Some?
    ensures DecodeMessage(fs, s, slots).Some?
      <==> forall i: nat :: IsTracked(fs, i) ==> i in Met(fs, s, State(slots, {}))
  {
    var st, seen := State(slots, {}), Loop(fs, s, State(slots, {})).value.0.seen;
    forall i: nat | IsTracked(fs, i) ensures RequiredBefore(fs, i) in seen <==> i in Met(fs, s, st) {
      SeenIsMet(fs, s, st, RequiredBefore(fs, i));
      forall k | k in Met(fs, s, st) && IsTracked(fs, k) && RequiredBefore(fs, k) == RequiredBefore(fs, i)
        ensures k == i
      {
        if k < i { RequiredBeforeMonotone(fs, k, i); } else if i < k { RequiredBeforeMonotone(fs, i, k); }
      }
    }
    if AllRequiredSeen(fs, seen) {
      forall i: nat | IsTracked(fs, i) ensures i in Met(fs, s, st) {
        assert RequiredBefore(fs, i) in seen;
      }
    } else {
      var i :| 0 <= i < |fs| && fs[i].htype.REQUIRED? && RequiredBefore(fs, i) < PB_MAX_REQUIRED_FIELDS
        && RequiredBefore(fs, i) !in seen;
      assert IsTracked(fs, i);
    }
  }

  // ---------------------------------------------------------------- what the records leave in each slot

  lemma MetFirst(fs: seq<Field>, s: seq<byte>, st: State, j: nat)
    requires s != [] && Step(fs, s, st).Next? && j < |fs|
    ensures j in Met(fs, s, st) <==>
      j == Find(fs, DecodeTag(s).tag) || j in Met(fs, Step(fs, s, st).rest, Step(fs, s, st).st)
  {
  }

  /** A turn of the loop sets the has_ flag of the entry it decodes, and leaves the other flags alone. */
  lemma StepSetsFlag(fs: seq<Field>, s: seq<byte>, st: State, j: nat)
    requires s != [] && Step(fs, s, st).Next? && j < |fs| && fs[j].htype.OPTIONAL? && fs[j].sizeOffset != 0
    requires SlotOf(fs, j) < |st.slots| && st.slots[SlotOf(fs, j)].Opt?
    ensures var next := Step(fs, s, st).st.slots;
      && |next| == |st.slots| && next[SlotOf(fs, j)].Opt?
      && next[SlotOf(fs, j)].has == (j == Find(fs, DecodeTag(s).tag) || st.slots[SlotOf(fs, j)].has)
  {
    var i := Find(fs, DecodeTag(s).tag);
    if i < |fs| && i != j && SlotOf(fs, i) == SlotOf(fs, j) {
      SlotsDiffer(fs, i, j);
    }
  }

  lemma {:induction false} LoopSetsFlag(fs: seq<Field>, s: seq<byte>, st: State, j: nat)
    requires Loop(fs, s, st).Some? && j < |fs| && fs[j].htype.OPTIONAL? && fs[j].sizeOffset != 0
    requires SlotOf(fs, j) < |st.slots| && st.slots[SlotOf(fs, j)].Opt?
    ensures var slots := Loop(fs, s, st).value.0.slots;
      && |slots| == |st.slots| && slots[SlotOf(fs, j)].Opt?
      && slots[SlotOf(fs, j)].has == (j in Met(fs, s, st) || st.slots[SlotOf(fs, j)].has)
    decreases |s|
  {
    if s == [] || !Step(fs, s, st).Next? {
      assert Met(fs, s, st) == {};
    } else {
      StepSetsFlag(fs, s, st, j);
      MetFirst(fs, s, st, j);
      LoopSetsFlag(fs, Step(fs, s, st).rest, Step(fs, s, st).st, j);
    }
  }

  /** Presence: after a successful pb_decode, the has_ flag of an optional field is set exactly when a record of that
      field was met. */
  lemma HasFlagIffMet(fs: seq<Field>, s: seq<byte>, j: nat)
    requires Decode(fs, s).Some? && j < |fs| && fs[j].htype.OPTIONAL? && fs[j].sizeOffset != 0
    ensures var slots := Decode(fs, s).value.0;
      && SlotOf(fs, j) < |slots| && slots[SlotOf(fs, j)].Opt?
      && (slots[SlotOf(fs, j)].has <==> j in Met(fs, s, State(Defaults(fs), {})))
  {
    DefaultsSlot(fs, j);
    LoopSetsFlag(fs, s, State(Defaults(fs), {}), j);
  }

  lemma {:induction false} LoopLeavesSlot(fs: seq<Field>, s: seq<byte>, st: State, k: nat)
    requires Loop(fs, s, st).Some? && k < |st.slots|
    requires forall i: nat :: i < |fs| && i in Met(fs, s, st) ==> SlotOf(fs, i) != k
    ensures var slots := Loop(fs, s, st).value.0.slots; |slots| == |st.slots| && slots[k] == st.slots[k]
    decreases |s|
  {
    if s == [] || !Step(fs, s, st).Next? {
    } else {
      var st', rest := Step(fs, s, st).st, Step(fs, s, st).rest;
      forall i: nat | i < |fs| ensures i in Met(fs, rest, st') ==> i in Met(fs, s, st) {
        MetFirst(fs, s, st, i);
      }
      var i := Find(fs, DecodeTag(s).tag);
      if i < |fs| {
        MetFirst(fs, s, st, i);
      }
      LoopLeavesSlot(fs, rest, st', k);
    }
  }

  /** After a successful pb_decode, a slot that no record reached is as it began: not present, empty, without a member,
      and with the default value of the descriptor or zero. */
  lemma UnmetSlotIsInitial(fs: seq<Field>, s: seq<byte>, j: nat)
    requires Decode(fs, s).Some? && j < |fs|
    requires forall i: nat :: i < |fs| && i in Met(fs, s, State(Defaults(fs), {})) ==> SlotOf(fs, i) != SlotOf(fs, j)
    ensures var slots := Decode(fs, s).value.0; SlotOf(fs, j) < |slots| && InitialSlot(fs[j], slots[SlotOf(fs, j)])
  {
    DefaultsSlot(fs, j);
    LoopLeavesSlot(fs, s, State(Defaults(fs), {}), SlotOf(fs, j));
  }

  // ---------------------------------------------------------------- packed and unpacked elements

  /** One record of a repeated scalar field: a packed run of elements or a single one. */
  datatype Chunk = Packed(payload: seq<byte>) | Unpacked(element: seq<byte>)

  /** The record is complete: its bytes end where its length, its varint or its width says. */
  predicate ChunkOk(f: Field, c: Chunk)
  {
    match c
    case Packed(payload) => |payload| < TWO32
    case Unpacked(element) =>
      if f.ltype.FIXED32? then |element| == 4
      else if f.ltype.FIXED64? then |element| == 8
      else Varint.IsToken(element)
  }

  function Record(f: Field, c: Chunk): seq<byte>
    requires Packable(f.ltype)
  {
    match c
    case Packed(payload) => E.EncodeTag(E.WT_STRING, f.tag) + E.LengthPrefixed(payload)
    case Unpacked(element) => E.EncodeTag(E.WireType(f.ltype), f.tag) + element
  }

  function Records(f: Field, cs: seq<Chunk>): seq<byte>
    requires Packable(f.ltype)
  {
    if cs == [] then [] else Record(f, cs[0]) + Records(f, cs[1..])
  }

  /** The elements of a packed payload, with no limit on their number. */
  function Parse(f: Field, s: seq<byte>): Option<seq<Value>>
    decreases |s|
  {
    if s == [] then Some([])
    else
      match DecodeScalar(f, s)
      case None => None
      case Some((v, rest)) =>
        match Parse(f, rest)
        case None => None
        case Some(more) => Some([v] + more)
  }

  /** The elements of the records, in wire order. */
  function Elements(f: Field, cs: seq<Chunk>): Option<seq<Value>>
  {
    if cs == [] then Some([])
    else
      var first := match cs[0] case Packed(payload) => Parse(f, payload) case Unpacked(element) => Parse(f, element);
      var more := Elements(f, cs[1..]);
      if first.None? || more.None? then None else Some(first.value + more.value)
  }

  /** The packed loop of decode_static_field: every element decodes and the array has room, or it fails. */
  lemma {:induction false} PackedIsParse(f: Field, s: seq<byte>, items: seq<Value>)
    requires |items| <= f.arraySize
    ensures DecodePacked(f, s, items) ==
            if Parse(f, s).Some? && |items| + |Parse(f, s).value| <= f.arraySize
            then Some(items + Parse(f, s).value) else None
    decreases |s|
  {
    if s == [] {
      assert items + [] == items;
    } else if DecodeScalar(f, s).Some? && |items| < f.arraySize {
      var (v, rest) := DecodeScalar(f, s).value;
      PackedIsParse(f, rest, items + [v]);
      if Parse(f, rest).Some? {
        assert items + [v] + Parse(f, rest).value == items + ([v] + Parse(f, rest).value);
      }
    }
  }

  /** A single complete element is parsed as a run of one. */
  lemma ElementIsWhole(f: Field, e: seq<byte>, y: seq<byte>)
    requires Packable(f.ltype) && ChunkOk(f, Unpacked(e))
    ensures DecodeScalar(f, e + y).None? <==> Parse(f, e).None?
    ensures DecodeScalar(f, e + y).Some? ==>
      Parse(f, e) == Some([DecodeScalar(f, e + y).value.0]) && DecodeScalar(f, e + y).value.1 == y
  {
    assert e + [] == e;
    if f.ltype.FIXED32? || f.ltype.FIXED64? {
      ReadBytesTrip(e, y);
      ReadBytesTrip(e, []);
    } else if f.ltype.BOOL? {
      Varint.Decode32Local(e, [], y);
    } else {
      Varint.Decode64Local(e, [], y);
    }
    if DecodeScalar(f, e).Some? {
      var (v, r) := DecodeScalar(f, e).value;
      var none: seq<Value> := [];
      assert r == [] && Parse(f, r) == Some(none);
      assert [v] + none == [v];
    }
  }

  /** The rest of the loop once the elements have been appended, if they all decode and fit. */
  function LoopAfter(fs: seq<Field>, i: nat, st: State, es: Option<seq<Value>>, rest: seq<byte>): Read<State>
    requires i < |fs| && SlotOf(fs, i) < |st.slots| && st.slots[SlotOf(fs, i)].Array?
  {
    var items := st.slots[SlotOf(fs, i)].items;
    if es.Some? && |items| + |es.value| <= fs[i].arraySize then Loop(fs, rest, WithItems(fs, i, st, items + es.value))
    else None
  }

  lemma AppendTwice(fs: seq<Field>, i: nat, st: State, first: seq<Value>, more: seq<Value>)
    requires i < |fs| && SlotOf(fs, i) < |st.slots| && st.slots[SlotOf(fs, i)].Array?
    ensures var items := st.slots[SlotOf(fs, i)].items;
      WithItems(fs, i, WithItems(fs, i, st, items + first), items + first + more)
        == WithItems(fs, i, st, items + (first + more))
  {
    var items := st.slots[SlotOf(fs, i)].items;
    assert items + first + more == items + (first + more);
  }

  lemma AppendNothing(fs: seq<Field>, i: nat, st: State)
    requires i < |fs| && SlotOf(fs, i) < |st.slots| && st.slots[SlotOf(fs, i)].Array?
    ensures WithItems(fs, i, st, st.slots[SlotOf(fs, i)].items + []) == st
  {
    assert st.slots[SlotOf(fs, i)].items + [] == st.slots[SlotOf(fs, i)].items;
    assert WithItems(fs, i, st, st.slots[SlotOf(fs, i)].items).slots == st.slots;
  }

  lemma ChunkStep(fs: seq<Field>, i: nat, c: Chunk, rest: seq<byte>, st: State)
    requires FoundAt(fs, i) && FieldOk(fs[i]) && fs[i].htype.REPEATED? && Packable(fs[i].ltype) && ChunkOk(fs[i], c)
    requires SlotOf(fs, i) < |st.slots| && st.slots[SlotOf(fs, i)].Array?
    requires |st.slots[SlotOf(fs, i)].items| <= fs[i].arraySize
    ensures Loop(fs, Record(fs[i], c) + rest, st) == LoopAfter(fs, i, st, Elements(fs[i], [c]), rest)
  {
    var f, k := fs[i], SlotOf(fs, i);
    var items := st.slots[k].items;
    assert Elements(f, [c][1..]) == Some([]);
    var parsed := match c case Packed(payload) => Parse(f, payload) case Unpacked(element) => Parse(f, element);
    assert Elements(f, [c]) == parsed by {
      if parsed.Some? { assert parsed.value + [] == parsed.value; }
    }
    match c {
      case Packed(payload) =>
        LengthTrip(payload, rest);
        PackedIsParse(f, payload, items);
        RecordStep(fs, i, E.WT_STRING, E.LengthPrefixed(payload), rest, st);
      case Unpacked(element) =>
        ElementIsWhole(f, element, rest);
        RecordStep(fs, i, E.WireType(f.ltype), element, rest, st);
    }
  }

  /** Packed and unpacked agree: any mix of packed runs and single elements of a repeated scalar field decodes to the
      concatenation of the elements in wire order, and succeeds exactly when every element decodes and all fit. */
  lemma {:induction false} PackedAndUnpackedAgree(fs: seq<Field>, i: nat, cs: seq<Chunk>, rest: seq<byte>, st: State)
    requires StaticDescriptor(fs) && FoundAt(fs, i) && FieldOk(fs[i]) && fs[i].htype.REPEATED? && Packable(fs[i].ltype)
    requires forall j :: 0 <= j < |cs| ==> ChunkOk(fs[i], cs[j])
    requires SlotOf(fs, i) < |st.slots| && st.slots[SlotOf(fs, i)].Array?
    requires |st.slots[SlotOf(fs, i)].items| <= fs[i].arraySize
    ensures Loop(fs, Records(fs[i], cs) + rest, st) == LoopAfter(fs, i, st, Elements(fs[i], cs), rest)
    decreases |cs|
  {
    var f, items := fs[i], st.slots[SlotOf(fs, i)].items;
    if cs == [] {
      assert [] + rest == rest;
      AppendNothing(fs, i, st);
    } else {
      var tail := Records(f, cs[1..]) + rest;
      assert Records(f, cs) + rest == Record(f, cs[0]) + tail;
      ChunkStep(fs, i, cs[0], tail, st);
      FirstElements(f, cs);
      var first, more := Elements(f, [cs[0]]), Elements(f, cs[1..]);
      if first.Some? && |items| + |first.value| <= f.arraySize {
        PackedAndUnpackedAgree(fs, i, cs[1..], rest, WithItems(fs, i, st, items + first.value));
        if more.Some? {
          AppendTwice(fs, i, st, first.value, more.value);
        }
      }
    }
  }

  lemma FirstElements(f: Field, cs: seq<Chunk>)
    requires cs != []
    ensures var first, more := Elements(f, [cs[0]]), Elements(f, cs[1..]);
      Elements(f, cs) == if first.None? || more.None? then None else Some(first.value + more.value)
  {
    var parsed := match cs[0] case Packed(payload) => Parse(f, payload) case Unpacked(element) => Parse(f, element);
    assert Elements(f, [cs[0]][1..]) == Some([]);
    if parsed.Some? { assert parsed.value + [] == parsed.value; }
  }
}
