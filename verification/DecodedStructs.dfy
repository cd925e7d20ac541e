/** What a successful decode leaves behind, whatever the bytes were: a struct that matches its descriptor, that
    encodes, and that comes back. */
module DecodedStructs {
  import opened Bits
  import opened PbTypes
  import opened Encoding
  import opened Decoding
  import opened RoundTrip
  import Varint

  // ---------------------------------------------------------------- sound structs

  /** A value in range, within its sizes, and terminated if it is a string. */
  predicate ScalarSound(f: Field, v: Value)
    requires !f.ltype.SUBMESSAGE?
  {
    Holds(f, v) && EncodeScalar(f, v).ok && (f.ltype.STRING? ==> |CString(v.data)| < f.dataSize)
  }

  predicate ValueSound(f: Field, v: Value)
    decreases f, 0
  {
    if !f.ltype.SUBMESSAGE? then ScalarSound(f, v)
    else v.Message? && f.ptr.Fields? && |v.slots| == SlotCount(f.ptr.fields) && SoundFrom(f.ptr.fields, v.slots, 0)
  }

  /** A slot of the right kind, with counts within array_size and, in a union, the tag of a member. */
  predicate SlotSound(f: Field, slot: Slot)
    decreases f, 1
  {
    match f.htype
    case REQUIRED => slot.Single? && ValueSound(f, slot.v)
    case OPTIONAL => (if f.sizeOffset != 0 then slot.Opt? else slot.Single?) && ValueSound(f, slot.v)
    case REPEATED =>
      slot.Array? && |slot.items| <= f.arraySize && forall j :: 0 <= j < |slot.items| ==> ValueSound(f, slot.items[j])
    case ONEOF => slot.NoMember? || (slot.Member? && slot.which != 0 && (slot.which == f.tag ==> ValueSound(f, slot.v)))
  }

  /** A union that holds a member names one of the entries it belongs to. */
  predicate NamesMember(fs: seq<Field>, i: nat, slot: Slot)
    requires i < |fs|
  {
    slot.Member? ==> exists j :: 0 <= j < |fs| && SlotOf(fs, j) == SlotOf(fs, i) && fs[j].tag == slot.which
  }

  predicate SoundFrom(fs: seq<Field>, slots: seq<Slot>, i: nat)
    requires i <= |fs|
    decreases fs, |fs| - i
  {
    i == |fs|
    || (&& SlotOf(fs, i) < |slots|
        && SlotSound(fs[i], slots[SlotOf(fs, i)]) && NamesMember(fs, i, slots[SlotOf(fs, i)])
        && SoundFrom(fs, slots, i + 1))
  }

  /** A struct all of whose slots are sound, at every depth. */
  predicate Sound(fs: seq<Field>, slots: seq<Slot>)
  {
    |slots| == SlotCount(fs) && SoundFrom(fs, slots, 0)
  }

  lemma {:induction false} SoundAt(fs: seq<Field>, slots: seq<Slot>, i: nat, j: nat)
    requires i <= j < |fs| && SoundFrom(fs, slots, i)
    ensures SlotOf(fs, j) < |slots|
    ensures SlotSound(fs[j], slots[SlotOf(fs, j)]) && NamesMember(fs, j, slots[SlotOf(fs, j)])
    decreases j - i
  {
    if i == j {
    } else {
      SoundAt(fs, slots, i + 1, j);
    }
  }

  lemma {:induction false} SoundFromAll(fs: seq<Field>, slots: seq<Slot>, i: nat)
    requires i <= |fs|
    requires forall j :: i <= j < |fs| ==>
      SlotOf(fs, j) < |slots| && SlotSound(fs[j], slots[SlotOf(fs, j)]) && NamesMember(fs, j, slots[SlotOf(fs, j)])
    ensures SoundFrom(fs, slots, i)
    decreases |fs| - i
  {
    if i == |fs| {
    } else {
      SoundFromAll(fs, slots, i + 1);
    }
  }

  // ---------------------------------------------------------------- sound structs match, encode and are terminated

  lemma {:induction false} SoundValueMatches(f: Field, v: Value)
    requires FieldOk(f) && ValueSound(f, v)
    ensures ValueMatches(f, v) && EncodeValue(f, v).ok && ValueTerminated(f, v)
    decreases f, 0
  {
    if f.ltype.SUBMESSAGE? {
      SoundFromMatches(f.ptr.fields, v.slots, 0);
    }
  }

  lemma {:induction false} SoundItemsMatch(f: Field, items: seq<Value>)
    requires FieldOk(f) && forall j :: 0 <= j < |items| ==> ValueSound(f, items[j])
    ensures forall j :: 0 <= j < |items| ==> ValueMatches(f, items[j])
    ensures EncodeUnpacked(f, items).ok && ItemsTerminated(f, items)
    ensures Packable(f.ltype) ==> (forall j :: 0 <= j < |items| ==> Holds(f, items[j])) && EncodePacked(f, items).ok
    decreases f, 1, |items|
  {
    forall j | 0 <= j < |items| ensures ValueMatches(f, items[j]) {
      SoundValueMatches(f, items[j]);
    }
    if items == [] {
    } else {
      SoundValueMatches(f, items[0]);
      SoundItemsMatch(f, items[1..]);
    }
  }

  lemma {:induction false} SoundSlotMatches(f: Field, slot: Slot)
    requires FieldOk(f) && SlotSound(f, slot)
    ensures SlotMatches(f, slot) && EncodeField(f, slot).ok && SlotTerminated(f, slot)
    decreases f, 2
  {
    match f.htype {
      case REQUIRED => SoundValueMatches(f, slot.v);
      case OPTIONAL => SoundValueMatches(f, slot.v);
      case REPEATED => SoundItemsMatch(f, slot.items);
      case ONEOF =>
        if slot.Member? && slot.which == f.tag {
          SoundValueMatches(f, slot.v);
        }
    }
  }

  lemma {:induction false} SoundFromMatches(fs: seq<Field>, slots: seq<Slot>, i: nat)
    requires i <= |fs| && FieldsOk(fs, i) && SoundFrom(fs, slots, i)
    ensures MatchesFrom(fs, slots, i) && EncodeFrom(fs, slots, i).ok && TerminatedFrom(fs, slots, i)
    decreases fs, |fs| - i
  {
    if i == |fs| {
    } else {
      SoundSlotMatches(fs[i], slots[SlotOf(fs, i)]);
      SoundFromMatches(fs, slots, i + 1);
    }
  }

  // ---------------------------------------------------------------- defaults

  /** The default values a descriptor gives are sound themselves, at every depth. */
  predicate DefaultOk(f: Field)
    decreases f
  {
    if f.ltype.SUBMESSAGE? then f.ptr.Fields? ==> DefaultsOk(f.ptr.fields, 0)
    else f.htype.REQUIRED? || f.htype.OPTIONAL? ==> ScalarSound(f, DefaultValue(f))
  }

  predicate DefaultsOk(fs: seq<Field>, i: nat)
    requires i <= |fs|
    decreases fs, |fs| - i
  {
    i == |fs| || (DefaultOk(fs[i]) && DefaultsOk(fs, i + 1))
  }

  lemma {:induction false} DefaultsOkAt(fs: seq<Field>, i: nat, j: nat)
    requires i <= j < |fs| && FieldsOk(fs, i) && DefaultsOk(fs, i)
    ensures FieldOk(fs[j]) && DefaultOk(fs[j])
    decreases j - i
  {
    if i == j {
    } else {
      DefaultsOkAt(fs, i + 1, j);
    }
  }

  lemma {:induction false} DefaultIsSound(f: Field)
    requires FieldOk(f) && DefaultOk(f) && (f.ltype.SUBMESSAGE? || f.htype.REQUIRED? || f.htype.OPTIONAL?)
    ensures ValueSound(f, DefaultValue(f))
    decreases f
  {
    if f.ltype.SUBMESSAGE? {
      DefaultsAreSound(f.ptr.fields);
    }
  }

  lemma {:induction false} DefaultsAreSound(fs: seq<Field>)
    requires DescriptorOk(fs) && DefaultsOk(fs, 0)
    ensures Sound(fs, Defaults(fs))
    decreases fs
  {
    forall j | 0 <= j < |fs|
      ensures SlotOf(fs, j) < |Defaults(fs)| && SlotSound(fs[j], Defaults(fs)[SlotOf(fs, j)])
      ensures NamesMember(fs, j, Defaults(fs)[SlotOf(fs, j)])
    {
      DefaultsSlot(fs, j);
      DefaultsOkAt(fs, 0, j);
      if fs[j].htype.REQUIRED? || fs[j].htype.OPTIONAL? {
        DefaultIsSound(fs[j]);
      }
    }
    SoundFromAll(fs, Defaults(fs), 0);
  }

  // ---------------------------------------------------------------- scalars

  lemma {:induction false} FromLittleEndianBound(bs: seq<byte>)
    ensures FromLittleEndian(bs) < Pow2(8 * |bs|)
  {
    if bs == [] {
      assert Pow2(0) == 1;
    } else {
      FromLittleEndianBound(bs[1..]);
      ShlBy8(1, 8 * |bs[1..]|);
    }
  }

  lemma IntegerIsSound(f: Field, s: seq<byte>)
    requires FieldOk(f) && (f.ltype.VARINT? || f.ltype.UVARINT? || f.ltype.SVARINT?) && DecodeScalar(f, s).Some?
    ensures ScalarSound(f, DecodeScalar(f, s).value.0)
  {
    var v := Varint.Decode64(s).value.0;
    if f.ltype.SVARINT? {
      Varint.UnZigZagMeaning(v % TWO64);
    }
  }

  lemma FixedIsSound(f: Field, s: seq<byte>)
    requires FieldOk(f) && (f.ltype.FIXED32? || f.ltype.FIXED64?) && DecodeScalar(f, s).Some?
    ensures ScalarSound(f, DecodeScalar(f, s).value.0)
  {
    var bs := ReadBytes(s, if f.ltype.FIXED32? then 4 else 8).value.0;
    FromLittleEndianBound(bs);
    ShlBy32(1);
    ShlBy64(1);
  }

  lemma ScalarIsSound(f: Field, s: seq<byte>)
    requires FieldOk(f) && !f.ltype.SUBMESSAGE? && DecodeScalar(f, s).Some?
    ensures ScalarSound(f, DecodeScalar(f, s).value.0)
  {
    match f.ltype {
      case BOOL =>
      case VARINT | UVARINT | SVARINT => IntegerIsSound(f, s);
      case FIXED32 | FIXED64 => FixedIsSound(f, s);
      case BYTES | STRING | FIXED_LENGTH_BYTES =>
    }
  }

  lemma {:induction false} PackedIsSound(f: Field, s: seq<byte>, items: seq<Value>)
    requires FieldOk(f) && Packable(f.ltype) && |items| <= f.arraySize && DecodePacked(f, s, items).Some?
    requires forall j :: 0 <= j < |items| ==> ValueSound(f, items[j])
    ensures var all := DecodePacked(f, s, items).value;
      |all| <= f.arraySize && forall j :: 0 <= j < |all| ==> ValueSound(f, all[j])
    decreases |s|
  {
    if s == [] {
    } else {
      ScalarIsSound(f, s);
      var (v, rest) := DecodeScalar(f, s).value;
      PackedIsSound(f, rest, items + [v]);
    }
  }

  // ---------------------------------------------------------------- fields and messages

  lemma {:induction false} DecodedValueIsSound(f: Field, s: seq<byte>, prior: Value)
    requires FieldOk(f) && DefaultOk(f) && DecodeValue(f, s, prior).Some?
    requires f.ltype.SUBMESSAGE? && (f.htype.REQUIRED? || f.htype.OPTIONAL?) ==> ValueSound(f, prior)
    ensures ValueSound(f, DecodeValue(f, s, prior).value.0)
    decreases f, 0
  {
    if !f.ltype.SUBMESSAGE? {
      ScalarIsSound(f, s);
    } else {
      var fs, sub := f.ptr.fields, ReadString(s).value.0;
      if f.htype.REPEATED? || f.htype.ONEOF? {
        DefaultsAreSound(fs);
        LoopIsSound(fs, sub, State(Defaults(fs), {}));
      } else {
        LoopIsSound(fs, sub, State(prior.slots, {}));
      }
    }
  }

  lemma {:induction false} DecodedFieldIsSound(f: Field, wireType: nat, s: seq<byte>, slot: Slot)
    requires FieldOk(f) && DefaultOk(f) && SlotSound(f, slot) && DecodeField(f, wireType, s, slot).Some?
    ensures SlotSound(f, DecodeField(f, wireType, s, slot).value.0)
    decreases f, 1
  {
    match f.htype {
      case REQUIRED => DecodedValueIsSound(f, s, slot.v);
      case OPTIONAL => DecodedValueIsSound(f, s, slot.v);
      case REPEATED =>
        if wireType == WT_STRING && Packable(f.ltype) {
          PackedIsSound(f, ReadString(s).value.0, slot.items);
        } else {
          DecodedValueIsSound(f, s, DefaultValue(f));
        }
      case ONEOF => DecodedValueIsSound(f, s, DefaultValue(f));
    }
  }

  /** Overwriting the slot of one entry leaves the others sound; a union then holds another member. */
  lemma StoreIsSound(fs: seq<Field>, slots: seq<Slot>, i: nat, slot: Slot)
    requires DescriptorOk(fs) && Sound(fs, slots) && i < |fs| && SlotOf(fs, i) < |slots| && SlotSound(fs[i], slot)
    requires fs[i].htype.ONEOF? ==> slot.Member? && slot.which == fs[i].tag
    ensures Sound(fs, slots[SlotOf(fs, i) := slot])
  {
    var stored := slots[SlotOf(fs, i) := slot];
    forall j | 0 <= j < |fs|
      ensures SlotOf(fs, j) < |stored| && SlotSound(fs[j], stored[SlotOf(fs, j)])
      ensures NamesMember(fs, j, stored[SlotOf(fs, j)])
    {
      SoundAt(fs, slots, 0, j);
      if j != i && SlotOf(fs, j) == SlotOf(fs, i) {
        SlotsDiffer(fs, i, j);
        assert fs[i].tag != fs[j].tag;
      }
    }
    SoundFromAll(fs, stored, 0);
  }

  lemma {:induction false} LoopIsSound(fs: seq<Field>, s: seq<byte>, st: State)
    requires DescriptorOk(fs) && DefaultsOk(fs, 0) && Sound(fs, st.slots) && Loop(fs, s, st).Some?
    ensures Sound(fs, Loop(fs, s, st).value.0.slots)
    decreases fs, |s|
  {
    if s != [] && Step(fs, s, st).Next? {
      var next, rest := Step(fs, s, st).st, Step(fs, s, st).rest;
      var i := Find(fs, DecodeTag(s).tag);
      if i < |fs| {
        var payload, slot := DecodeTag(s).rest, st.slots[SlotOf(fs, i)];
        SoundAt(fs, st.slots, 0, i);
        DefaultsOkAt(fs, 0, i);
        DecodedFieldIsSound(fs[i], DecodeTag(s).wireType, payload, slot);
        StoreIsSound(fs, st.slots, i, DecodeField(fs[i], DecodeTag(s).wireType, payload, slot).value.0);
      }
      LoopIsSound(fs, rest, next);
    }
  }

  /** For any bytes whatsoever, a successful pb_decode leaves a struct that matches its descriptor: integers in the
      range of their fields, counts within their arrays, strings terminated, and in a union the tag of one of its
      members. It can be encoded again. */
  lemma DecodedStructIsSound(fs: seq<Field>, s: seq<byte>)
    requires DescriptorOk(fs) && DefaultsOk(fs, 0) && Decode(fs, s).Some?
    ensures var slots := Decode(fs, s).value.0;
      Sound(fs, slots) && Matches(fs, slots) && EncodeMessage(fs, slots).ok && Terminated(fs, slots)
  {
    DefaultsAreSound(fs);
    LoopIsSound(fs, s, State(Defaults(fs), {}));
    SoundFromMatches(fs, Decode(fs, s).value.0, 0);
  }

  /** Decoding, encoding and decoding again: the second decode succeeds, and gives the normal form of the first
      result. */
  lemma DecodedComesBack(fs: seq<Field>, s: seq<byte>)
    requires DescriptorOk(fs) && DefaultsOk(fs, 0) && Decode(fs, s).Some?
    requires var slots := Decode(fs, s).value.0; Matches(fs, slots) ==> |EncodeMessage(fs, slots).bytes| < TWO32
    ensures var slots := Decode(fs, s).value.0;
      Matches(fs, slots) && Decode(fs, EncodeMessage(fs, slots).bytes) == Some((Normal(fs, slots), []))
  {
    DecodedStructIsSound(fs, s);
    MessageRoundTrip(fs, Decode(fs, s).value.0);
  }

  // ---------------------------------------------------------------- the normal form encodes alike

  /** No singular field, at any depth, has a default value in the descriptor. */
  predicate PlainField(f: Field)
    decreases f
  {
    && (f.htype.OPTIONAL? && f.sizeOffset == 0 ==> !f.ptr.Default?)
    && (f.ltype.SUBMESSAGE? && f.ptr.Fields? ==> PlainFrom(f.ptr.fields, 0))
  }

  predicate PlainFrom(fs: seq<Field>, i: nat)
    requires i <= |fs|
    decreases fs, |fs| - i
  {
    i == |fs| || (PlainField(fs[i]) && PlainFrom(fs, i + 1))
  }

  lemma {:induction false} PlainAt(fs: seq<Field>, i: nat, j: nat)
    requires i <= j < |fs| && PlainFrom(fs, i)
    ensures PlainField(fs[j])
    decreases j - i
  {
    if i == j {
    } else {
      PlainAt(fs, i + 1, j);
    }
  }

  predicate NamedValue(f: Field, v: Value)
    decreases f, 0
  {
    f.ltype.SUBMESSAGE? && f.ptr.Fields? && v.Message? ==> NamedFrom(f.ptr.fields, v.slots, 0)
  }

  predicate NamedSlot(f: Field, slot: Slot)
    decreases f, 1
  {
    match slot
    case Single(v) => NamedValue(f, v)
    case Opt(has, v) => has ==> NamedValue(f, v)
    case Array(items) => forall j :: 0 <= j < |items| ==> NamedValue(f, items[j])
    case NoMember => true
    case Member(which, v) => which == f.tag ==> NamedValue(f, v)
  }

  /** Every union that is set, at every depth, is set to one of its members. */
  predicate NamedFrom(fs: seq<Field>, slots: seq<Slot>, i: nat)
    requires i <= |fs|
    decreases fs, |fs| - i
  {
    i == |fs|
    || (&& SlotOf(fs, i) < |slots|
        && NamedSlot(fs[i], slots[SlotOf(fs, i)]) && NamesMember(fs, i, slots[SlotOf(fs, i)])
        && NamedFrom(fs, slots, i + 1))
  }

  lemma {:induction false} NamedAt(fs: seq<Field>, slots: seq<Slot>, i: nat, j: nat)
    requires i <= j < |fs| && NamedFrom(fs, slots, i)
    ensures SlotOf(fs, j) < |slots|
    ensures NamedSlot(fs[j], slots[SlotOf(fs, j)]) && NamesMember(fs, j, slots[SlotOf(fs, j)])
    decreases j - i
  {
    if i == j {
    } else {
      NamedAt(fs, slots, i + 1, j);
    }
  }

  lemma {:induction false} NormalValueEncodes(f: Field, v: Value)
    requires FieldOk(f) && DefaultOk(f) && PlainField(f) && ValueMatches(f, v) && NamedValue(f, v)
    ensures ValueMatches(f, NormalValue(f, v)) && EncodeValue(f, NormalValue(f, v)) == EncodeValue(f, v)
    ensures IsZero(f, NormalValue(f, v)) <==> IsZero(f, v)
    decreases f, 0
  {
    if f.ltype.STRING? {
      CStringUnique(CString(v.data), |CString(v.data)|);
    } else if f.ltype.SUBMESSAGE? {
      NormalFromEncodes(f.ptr.fields, v.slots, 0);
    }
  }

  lemma {:induction false} NormalItemsEncode(f: Field, items: seq<Value>)
    requires FieldOk(f) && DefaultOk(f) && PlainField(f)
    requires forall j :: 0 <= j < |items| ==> ValueMatches(f, items[j]) && NamedValue(f, items[j])
    ensures forall j :: 0 <= j < |items| ==> ValueMatches(f, NormalItems(f, items)[j])
    ensures EncodeArray(f, NormalItems(f, items)) == EncodeArray(f, items)
    ensures EncodeUnpacked(f, NormalItems(f, items)) == EncodeUnpacked(f, items)
    decreases f, 1, |items|
  {
    forall j | 0 <= j < |items| ensures ValueMatches(f, NormalItems(f, items)[j]) {
      NormalItemsAt(f, items, j);
      NormalValueEncodes(f, items[j]);
    }
    var back := NormalItems(f, items);
    if items == [] {
      assert back == items;
    } else {
      NormalItemsCons(f, items);
      NormalValueEncodes(f, items[0]);
      NormalItemsEncode(f, items[1..]);
      assert back[0] == NormalValue(f, items[0]) && back[1..] == NormalItems(f, items[1..]);
      assert EncodeTagged(f, back[0]) == EncodeTagged(f, items[0]);
      assert EncodeUnpacked(f, back) == EncodeUnpacked(f, items);
      if Packable(f.ltype) {
        PackableNormal(f, items);
      }
    }
  }

  lemma {:induction false} NormalSlotEncodes(f: Field, slot: Slot)
    requires FieldOk(f) && DefaultOk(f) && PlainField(f) && NamedSlot(f, slot)
    requires SlotMatches(f, slot) && Present(f, slot)
    ensures var back := NormalSlot(f, slot);
      && SlotMatches(f, back) && EncodeField(f, back) == EncodeField(f, slot)
      && (SlotIsDefault(f, back) <==> SlotIsDefault(f, slot))
    decreases f, 2
  {
    if f.htype.REPEATED? {
      NormalItemsEncode(f, slot.items);
    } else {
      NormalValueEncodes(f, slot.v);
    }
  }

  lemma {:induction false} DefaultSlotEncodes(f: Field, slot: Slot)
    requires FieldOk(f) && DefaultOk(f) && PlainField(f) && SlotMatches(f, slot) && !Present(f, slot)
    requires NamedSlot(f, slot) && !slot.Member?
    ensures var back := DefaultSlot(f);
      SlotMatches(f, back) && EncodeField(f, back) == NOTHING && SlotIsDefault(f, back) && SlotIsDefault(f, slot)
    decreases f, 2
  {
    if f.htype.OPTIONAL? {
      DefaultIsSound(f);
      SoundValueMatches(f, DefaultValue(f));
      if f.sizeOffset == 0 && f.ltype.SUBMESSAGE? {
        AllDefaultDelivers(f.ptr.fields, slot.v.slots, 0, Defaults(f.ptr.fields));
        NormalFromEncodes(f.ptr.fields, slot.v.slots, 0);
      }
    }
  }

  lemma {:induction false} NormalFromEncodes(fs: seq<Field>, slots: seq<Slot>, i: nat)
    requires DescriptorOk(fs) && DefaultsOk(fs, 0) && PlainFrom(fs, 0) && Matches(fs, slots) && NamedFrom(fs, slots, 0)
    requires i <= |fs|
    ensures var back := Normal(fs, slots);
      && MatchesFrom(fs, back, i) && MatchesFrom(fs, slots, i)
      && EncodeFrom(fs, back, i) == EncodeFrom(fs, slots, i)
      && (AllDefault(fs, back, i) <==> AllDefault(fs, slots, i))
    decreases fs, |fs| - i
  {
    if i == |fs| {
    } else {
      var k, back := SlotOf(fs, i), Normal(fs, slots);
      MatchesAt(fs, slots, 0, i);
      DefaultsOkAt(fs, 0, i);
      PlainAt(fs, 0, i);
      NamedAt(fs, slots, 0, i);
      NormalMeaning(fs, slots, i);
      if Fills(fs, slots, i, k) {
        NormalSlotEncodes(fs[i], slots[k]);
      } else if n: nat :| n < |fs| && Fills(fs, slots, n, k) {
        FilledByAnother(fs, slots, i, n);
      } else {
        NobodyFills(fs, slots, i);
        DefaultSlotEncodes(fs[i], slots[k]);
      }
      NormalFromEncodes(fs, slots, i + 1);
      SuffixMatches(fs, slots, i + 1);
    }
  }

  lemma {:induction false} SuffixMatches(fs: seq<Field>, slots: seq<Slot>, i: nat)
    requires i <= |fs| && MatchesFrom(fs, slots, 0)
    ensures MatchesFrom(fs, slots, i)
    decreases i
  {
    if i > 0 {
      SuffixMatches(fs, slots, i - 1);
    }
  }

  lemma FilledByAnother(fs: seq<Field>, slots: seq<Slot>, i: nat, n: nat)
    requires DescriptorOk(fs) && Matches(fs, slots) && i < |fs| && n < |fs| && i != n
    requires Fills(fs, slots, n, SlotOf(fs, i)) && SlotMatches(fs[i], slots[SlotOf(fs, i)])
    ensures var slot, back := slots[SlotOf(fs, i)], Normal(fs, slots)[SlotOf(fs, i)];
      && SlotMatches(fs[i], back) && EncodeField(fs[i], back) == EncodeField(fs[i], slot) == NOTHING
      && !SlotIsDefault(fs[i], back) && !SlotIsDefault(fs[i], slot)
  {
    SlotsDiffer(fs, n, i);
    FieldOkAt(fs, 0, n);
    NormalMeaning(fs, slots, n);
  }

  lemma NobodyFills(fs: seq<Field>, slots: seq<Slot>, i: nat)
    requires DistinctTags(fs) && Matches(fs, slots) && i < |fs| && SlotOf(fs, i) < |slots|
    requires SlotMatches(fs[i], slots[SlotOf(fs, i)]) && NamesMember(fs, i, slots[SlotOf(fs, i)])
    requires forall n :: 0 <= n < |fs| ==> !Fills(fs, slots, n, SlotOf(fs, i))
    ensures !slots[SlotOf(fs, i)].Member?
  {
    var slot := slots[SlotOf(fs, i)];
    if slot.Member? {
      var j :| 0 <= j < |fs| && SlotOf(fs, j) == SlotOf(fs, i) && fs[j].tag == slot.which;
      MatchesAt(fs, slots, 0, j);
      if j != i { SlotsDiffer(fs, i, j); }
      assert Fills(fs, slots, j, SlotOf(fs, i));
    }
  }

  /** What is decoded encodes to the same bytes again: the normal form of any message has the encoding of the message,
      when singular fields have no default value in the descriptor and unions name their members. */
  lemma NormalEncodesAlike(fs: seq<Field>, slots: seq<Slot>)
    requires DescriptorOk(fs) && DefaultsOk(fs, 0) && PlainFrom(fs, 0) && Matches(fs, slots) && NamedFrom(fs, slots, 0)
    ensures Matches(fs, Normal(fs, slots)) && EncodeMessage(fs, Normal(fs, slots)) == EncodeMessage(fs, slots)
  {
    NormalFromEncodes(fs, slots, 0);
  }

  /** A zero that meets another default value: it is left out, comes back as that value, and is sent from then on. */
  lemma ZeroBecomesDefault(n: nat)
    requires 0 < n < TWO31
    ensures var fs := [Field(1, STATIC, OPTIONAL, UVARINT, 0, 0, 8, 0, Default(Int(n)))];
      var slots := [Single(Int(0))];
      && DescriptorOk(fs) && Matches(fs, slots) && EncodeMessage(fs, slots) == NOTHING
      && Normal(fs, slots) == [Single(Int(n))] && Matches(fs, Normal(fs, slots))
      && EncodeMessage(fs, Normal(fs, slots)) != NOTHING
  {
    var f := Field(1, STATIC, OPTIONAL, UVARINT, 0, 0, 8, 0, Default(Int(n)));
    var fs, slots, back := [f], [Single(Int(0))], [Single(Int(n))];
    assert FieldsOk(fs, 1) && MatchesFrom(fs, slots, 1) && MatchesFrom(fs, back, 1);
    assert DefaultsUpTo(fs, 0) == [] && Defaults(fs) == [DefaultSlot(f)] == back;
    assert EncodeFrom(fs, slots, 1) == EncodeFrom(fs, back, 1) == NOTHING;
    assert !Present(f, slots[0]) && Deliver(fs, slots, 0, back) == back;
    assert DeliverFrom(fs, slots, 1, back) == back;
    TagNotEmpty(f, Int(n));
    assert EncodeField(f, back[0]).bytes != [];
    assert EncodeMessage(fs, back) == Then(EncodeField(f, back[0]), NOTHING);
    assert EncodeMessage(fs, slots) == Then(EncodeField(f, slots[0]), NOTHING) == NOTHING;
  }

  lemma SentScalarEncodesAlike(f: Field, v: Value)
    requires FieldOk(f) && !f.ltype.SUBMESSAGE? && ValueMatches(f, v)
    ensures ValueMatches(f, NormalValue(f, v)) && EncodeTagged(f, NormalValue(f, v)) == EncodeTagged(f, v)
    ensures Zero(f, NormalValue(f, v)) <==> Zero(f, v)
  {
    if f.ltype.STRING? {
      var text := CString(v.data);
      CStringUnique(text, |text|);
      assert CString(text) == text;
    }
  }

  lemma DefaultScalarMatches(f: Field)
    requires FieldOk(f) && DefaultOk(f) && f.htype.OPTIONAL? && f.sizeOffset == 0 && !f.ltype.SUBMESSAGE?
    ensures SlotMatches(f, DefaultSlot(f))
  {
    DefaultIsSound(f);
    SoundValueMatches(f, DefaultValue(f));
  }

  /** For one singular field the condition is exact: it comes back with another encoding if and only if it is zero and
      the descriptor gives a default value that is not. */
  lemma SingularEncodesAlikeIff(f: Field, slot: Slot)
    requires FieldOk(f) && DefaultOk(f) && SlotMatches(f, slot)
    requires f.htype.OPTIONAL? && f.sizeOffset == 0 && !f.ltype.SUBMESSAGE?
    ensures var back := if Present(f, slot) then NormalSlot(f, slot) else DefaultSlot(f);
      && SlotMatches(f, back)
      && (EncodeField(f, back) == EncodeField(f, slot)
          <==> !(Zero(f, slot.v) && f.ptr.Default? && !Zero(f, f.ptr.value)))
  {
    ZeroIsNotSent(f, slot);
    if Present(f, slot) {
      SentScalarEncodesAlike(f, slot.v);
      ZeroIsNotSent(f, NormalSlot(f, slot));
      AbsentIsNothing(f, slot);
      AbsentIsNothing(f, NormalSlot(f, slot));
    } else {
      DefaultScalarMatches(f);
      ZeroIsNotSent(f, DefaultSlot(f));
    }
  }

  lemma {:induction false} NothingDelivers(fs: seq<Field>, slots: seq<Slot>, i: nat, acc: seq<Slot>)
    requires i <= |fs| && MatchesFrom(fs, slots, i) && EncodeFrom(fs, slots, i) == NOTHING && |acc| == |slots|
    ensures DeliverFrom(fs, slots, i, acc) == acc
    decreases |fs| - i
  {
    if i == |fs| {
    } else {
      AbsentIsNothing(fs[i], slots[SlotOf(fs, i)]);
      NothingDelivers(fs, slots, i + 1, acc);
    }
  }

  /** A singular submessage that holds nothing but a union that is set, with an empty encoding all the same: it is sent,
      and what comes back is as if it had not been. */
  lemma EmptyMessageIsForgotten(f: Field, v: Value)
    requires FieldOk(f) && f.htype.OPTIONAL? && f.sizeOffset == 0 && f.ltype.SUBMESSAGE? && ValueMatches(f, v)
    requires SlotMatches(f, Single(v))
    requires EncodeMessage(f.ptr.fields, v.slots) == NOTHING && SomeMember(f.ptr.fields, v.slots, 0)
    ensures EncodeField(f, Single(v)) != NOTHING && NormalSlot(f, Single(v)) == DefaultSlot(f)
  {
    ZeroMessageIsEmpty(f.ptr.fields, v.slots, 0);
    AbsentIsNothing(f, Single(v));
    NothingDelivers(f.ptr.fields, v.slots, 0, Defaults(f.ptr.fields));
    assert NormalValue(f, v) == Message(Normal(f.ptr.fields, v.slots)) == DefaultValue(f);
    assert Present(f, Single(v));
  }

  /** Such a message: its union is set to a tag that the descriptor lacks. */
  lemma UnnamedUnionIsEmpty(fs: seq<Field>, slots: seq<Slot>, which: nat)
    requires fs == [Field(1, STATIC, ONEOF, BOOL, 0, -1, 1, 0, Null)]
    requires which > 1 && slots == [Member(which, Bool(true))]
    ensures DescriptorOk(fs) && Matches(fs, slots) && EncodeMessage(fs, slots) == NOTHING && SomeMember(fs, slots, 0)
  {
    assert FieldsOk(fs, 1) && MatchesFrom(fs, slots, 1);
    assert EncodeField(fs[0], slots[0]) == NOTHING && EncodeFrom(fs, slots, 1) == NOTHING;
    assert EncodeMessage(fs, slots) == Then(NOTHING, NOTHING) == NOTHING;
  }
}
