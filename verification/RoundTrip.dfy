/** Decoding what was encoded. The result is the message in normal form: the defaults of its descriptor,
    overwritten by every field that is present. */
module RoundTrip {
  import opened Bits
  import opened PbTypes
  import opened Encoding
  import opened Decoding
  import Varint

  // ---------------------------------------------------------------- which messages survive

  /** Every string that is written ends with a NUL inside its buffer. */
  predicate ValueTerminated(f: Field, v: Value)
    requires ValueMatches(f, v)
    decreases f, 0
  {
    && (f.ltype.STRING? ==> |CString(v.data)| < f.dataSize)
    && (f.ltype.SUBMESSAGE? && f.ptr.Fields? ==> TerminatedFrom(f.ptr.fields, v.slots, 0))
  }

  predicate ItemsTerminated(f: Field, items: seq<Value>)
    requires forall j :: 0 <= j < |items| ==> ValueMatches(f, items[j])
    decreases f, 1, |items|
  {
    items == [] || (ValueTerminated(f, items[0]) && ItemsTerminated(f, items[1..]))
  }

  predicate SlotTerminated(f: Field, slot: Slot)
    requires SlotMatches(f, slot)
    decreases f, 2
  {
    if !Present(f, slot) then true
    else if f.htype.REPEATED? then ItemsTerminated(f, slot.items)
    else ValueTerminated(f, slot.v)
  }

  predicate TerminatedFrom(fs: seq<Field>, slots: seq<Slot>, i: nat)
    requires i <= |fs| && MatchesFrom(fs, slots, i)
    decreases fs, |fs| - i
  {
    i == |fs| || (SlotTerminated(fs[i], slots[SlotOf(fs, i)]) && TerminatedFrom(fs, slots, i + 1))
  }

  /** All strings of the message that are written are terminated, at every depth. */
  predicate Terminated(fs: seq<Field>, slots: seq<Slot>)
    requires Matches(fs, slots)
  {
    TerminatedFrom(fs, slots, 0)
  }

  // ---------------------------------------------------------------- normal form

  /** Bytes past the end of a string do not count; a submessage is normalised in turn. */
  function NormalValue(f: Field, v: Value): Value
    requires ValueMatches(f, v)
    decreases f, 0
  {
    if f.ltype.STRING? then Bytes(CString(v.data))
    else if f.ltype.SUBMESSAGE? && f.ptr.Fields? then Message(Normal(f.ptr.fields, v.slots))
    else v
  }

  function NormalItems(f: Field, items: seq<Value>): (r: seq<Value>)
    requires forall j :: 0 <= j < |items| ==> ValueMatches(f, items[j])
    ensures |r| == |items|
    decreases f, 1, |items|
  {
    if items == [] then []
    else NormalItems(f, items[..|items| - 1]) + [NormalValue(f, items[|items| - 1])]
  }

  function NormalSlot(f: Field, slot: Slot): Slot
    requires SlotMatches(f, slot) && Present(f, slot)
    decreases f, 2
  {
    match f.htype
    case REQUIRED => Single(NormalValue(f, slot.v))
    case OPTIONAL => if f.sizeOffset != 0 then Opt(true, NormalValue(f, slot.v)) else Single(NormalValue(f, slot.v))
    case REPEATED => Array(NormalItems(f, slot.items))
    case ONEOF => Member(f.tag, NormalValue(f, slot.v))
  }

  /** A field that is present overwrites its slot. */
  function Deliver(fs: seq<Field>, slots: seq<Slot>, i: nat, acc: seq<Slot>): (r: seq<Slot>)
    requires i < |fs| && MatchesFrom(fs, slots, i) && |acc| == |slots|
    ensures |r| == |acc|
    decreases fs, |fs| - i, 0
  {
    var k := SlotOf(fs, i);
    if Present(fs[i], slots[k]) then acc[k := NormalSlot(fs[i], slots[k])] else acc
  }

  function DeliverFrom(fs: seq<Field>, slots: seq<Slot>, i: nat, acc: seq<Slot>): (r: seq<Slot>)
    requires i <= |fs| && MatchesFrom(fs, slots, i) && |acc| == |slots|
    ensures |r| == |acc|
    decreases fs, |fs| - i, 1
  {
    if i == |fs| then acc else DeliverFrom(fs, slots, i + 1, Deliver(fs, slots, i, acc))
  }

  /** The defaults of the descriptor, overwritten by every field that is present. */
  function Normal(fs: seq<Field>, slots: seq<Slot>): (r: seq<Slot>)
    requires Matches(fs, slots)
    ensures |r| == |slots|
    decreases fs, |fs| + 1
  {
    DeliverFrom(fs, slots, 0, Defaults(fs))
  }

  // ---------------------------------------------------------------- the normal form, slot by slot

  /** Entry j is the one that fills slot k. */
  ghost predicate Fills(fs: seq<Field>, slots: seq<Slot>, j: nat, k: nat)
    requires j < |fs|
  {
    SlotOf(fs, j) == k && k < |slots| && SlotMatches(fs[j], slots[k]) && Present(fs[j], slots[k])
  }

  /** No two entries fill one slot: plain fields have a slot each, and of a oneof only the member named by
      which_ is present. */
  lemma OneFills(fs: seq<Field>, slots: seq<Slot>, i: nat, j: nat, k: nat)
    requires DistinctTags(fs) && i < |fs| && j < |fs|
    requires Fills(fs, slots, i, k) && Fills(fs, slots, j, k)
    ensures i == j
  {
    if i != j {
      SlotsDiffer(fs, i, j);
    }
  }

  lemma {:induction false} KeepsSlot(fs: seq<Field>, slots: seq<Slot>, i: nat, acc: seq<Slot>, k: nat)
    requires i <= |fs| && MatchesFrom(fs, slots, i) && |acc| == |slots| && k < |slots|
    requires forall j :: i <= j < |fs| ==> !Fills(fs, slots, j, k)
    ensures DeliverFrom(fs, slots, i, acc)[k] == acc[k]
    decreases |fs| - i
  {
    if i == |fs| {
    } else {
      assert !Fills(fs, slots, i, k);
      KeepsSlot(fs, slots, i + 1, Deliver(fs, slots, i, acc), k);
    }
  }

  lemma {:induction false} FillsSlot(fs: seq<Field>, slots: seq<Slot>, i: nat, acc: seq<Slot>, j: nat)
    requires DistinctTags(fs) && i <= j < |fs| && MatchesFrom(fs, slots, i) && |acc| == |slots|
    requires Fills(fs, slots, j, SlotOf(fs, j))
    ensures DeliverFrom(fs, slots, i, acc)[SlotOf(fs, j)] == NormalSlot(fs[j], slots[SlotOf(fs, j)])
    decreases |fs| - i
  {
    if i < j {
      FillsSlot(fs, slots, i + 1, Deliver(fs, slots, i, acc), j);
    } else {
      var k := SlotOf(fs, j);
      forall n | j < n < |fs| ensures !Fills(fs, slots, n, k) {
        if Fills(fs, slots, n, k) { OneFills(fs, slots, j, n, k); }
      }
      KeepsSlot(fs, slots, j + 1, Deliver(fs, slots, j, acc), k);
    }
  }

  /** What the normal form holds in the slot of any entry j: the normal value of the field that is present there,
      or the default when none is. */
  lemma NormalMeaning(fs: seq<Field>, slots: seq<Slot>, j: nat)
    requires DistinctTags(fs) && Matches(fs, slots) && j < |fs|
    ensures SlotOf(fs, j) < |slots|
    ensures Fills(fs, slots, j, SlotOf(fs, j)) ==>
      Normal(fs, slots)[SlotOf(fs, j)] == NormalSlot(fs[j], slots[SlotOf(fs, j)])
    ensures (forall i :: 0 <= i < |fs| ==> !Fills(fs, slots, i, SlotOf(fs, j))) ==>
      Normal(fs, slots)[SlotOf(fs, j)] == DefaultSlot(fs[j])
  {
    SlotOfInRange(fs, j);
    DefaultsSlot(fs, j);
    if Fills(fs, slots, j, SlotOf(fs, j)) {
      FillsSlot(fs, slots, 0, Defaults(fs), j);
    } else if forall i :: 0 <= i < |fs| ==> !Fills(fs, slots, i, SlotOf(fs, j)) {
      KeepsSlot(fs, slots, 0, Defaults(fs), SlotOf(fs, j));
    }
  }

  // ---------------------------------------------------------------- which singular fields are left out

  /** A field without a presence flag is left out exactly when it holds false, 0, no bytes or the empty string; bytes of
      a fixed length are left out only when that length is 0. */
  lemma ZeroIsNotSent(f: Field, slot: Slot)
    requires SlotMatches(f, slot) && f.htype.OPTIONAL? && f.sizeOffset == 0 && !f.ltype.SUBMESSAGE?
    ensures EncodeField(f, slot) == NOTHING <==>
      || slot.v == Bool(false)
      || slot.v == Int(0)
      || slot.v == Bytes([])
      || (f.ltype.STRING? && slot.v.Bytes? && CString(slot.v.data) == [])
  {
    if Present(f, slot) {
      TagNotEmpty(f, slot.v);
    }
  }

  lemma TagNotEmpty(f: Field, v: Value)
    requires ValueMatches(f, v)
    ensures EncodeTagged(f, v).bytes != []
  {
  }

  lemma ArrayNotEmpty(f: Field, items: seq<Value>)
    requires items != [] && forall j :: 0 <= j < |items| ==> ValueMatches(f, items[j])
    ensures EncodeArray(f, items) != NOTHING
  {
    if !Packable(f.ltype) && |items| <= f.arraySize {
      TagNotEmpty(f, items[0]);
    }
  }

  lemma AbsentIsNothing(f: Field, slot: Slot)
    requires SlotMatches(f, slot)
    ensures EncodeField(f, slot) == NOTHING <==> !Present(f, slot)
  {
    if Present(f, slot) {
      if f.htype.REPEATED? {
        ArrayNotEmpty(f, slot.items);
      } else {
        TagNotEmpty(f, slot.v);
      }
    }
  }

  /** A union of these entries holds something. */
  predicate SomeMember(fs: seq<Field>, slots: seq<Slot>, i: nat)
    requires i <= |fs| && MatchesFrom(fs, slots, i)
    decreases |fs| - i
  {
    i < |fs| && ((fs[i].htype.ONEOF? && slots[SlotOf(fs, i)].Member?) || SomeMember(fs, slots, i + 1))
  }

  /** A singular submessage counts as zero exactly when its own encoding is empty and none of its unions is set, not
      even to a tag that the descriptor lacks. */
  lemma {:induction false} ZeroMessageIsEmpty(fs: seq<Field>, slots: seq<Slot>, i: nat)
    requires i <= |fs| && MatchesFrom(fs, slots, i)
    ensures AllDefault(fs, slots, i) <==> EncodeFrom(fs, slots, i) == NOTHING && !SomeMember(fs, slots, i)
    decreases |fs| - i
  {
    if i == |fs| {
    } else {
      var slot := slots[SlotOf(fs, i)];
      AbsentIsNothing(fs[i], slot);
      ZeroMessageIsEmpty(fs, slots, i + 1);
    }
  }

  // ---------------------------------------------------------------- what comes back means the same

  /** The zero value of a scalar type. */
  predicate Zero(f: Field, v: Value)
  {
    v == Bool(false) || v == Int(0) || v == Bytes([]) || (f.ltype.STRING? && v.Bytes? && CString(v.data) == [])
  }

  /** w is v again, a string up to its terminator, and a submessage member by member. */
  predicate SameValue(f: Field, v: Value, w: Value)
    decreases f, 0
  {
    if f.ltype.STRING? then v.Bytes? && w == Bytes(CString(v.data))
    else if f.ltype.SUBMESSAGE? && f.ptr.Fields? then v.Message? && w.Message? && Same(f.ptr.fields, v.slots, w.slots)
    else w == v
  }

  /** A field comes back with its presence and its value. A singular field has no presence to send: when it is zero and
      the descriptor gives another default value, it comes back as that. */
  predicate SameSlot(f: Field, slot: Slot, back: Slot)
    decreases f, 1
  {
    match f.htype
    case REQUIRED => slot.Single? && back.Single? && SameValue(f, slot.v, back.v)
    case OPTIONAL =>
      if f.sizeOffset != 0 then
        && slot.Opt? && back.Opt? && back.has == slot.has
        && (if slot.has then SameValue(f, slot.v, back.v) else InitialValue(f, back.v))
      else
        && slot.Single? && back.Single?
        && (if Zero(f, slot.v) && f.ptr.Default? then back.v == f.ptr.value else SameValue(f, slot.v, back.v))
    case REPEATED =>
      && slot.Array? && back.Array? && |back.items| == |slot.items|
      && forall j :: 0 <= j < |slot.items| ==> SameValue(f, slot.items[j], back.items[j])
    case ONEOF =>
      && (back.Member? ==> slot.Member? && back.which == slot.which)
      && (slot.Member? && slot.which == f.tag ==> back.Member? && SameValue(f, slot.v, back.v))
  }

  predicate SameFrom(fs: seq<Field>, slots: seq<Slot>, back: seq<Slot>, i: nat)
    requires i <= |fs|
    decreases fs, |fs| - i
  {
    i == |fs|
    || (&& SlotOf(fs, i) < |slots| == |back|
        && SameSlot(fs[i], slots[SlotOf(fs, i)], back[SlotOf(fs, i)])
        && SameFrom(fs, slots, back, i + 1))
  }

  /** Every member of the struct comes back, at every depth. */
  predicate Same(fs: seq<Field>, slots: seq<Slot>, back: seq<Slot>)
    decreases fs, |fs| + 1
  {
    |back| == |slots| && SameFrom(fs, slots, back, 0)
  }

  lemma {:induction false} MatchesAt(fs: seq<Field>, slots: seq<Slot>, i: nat, j: nat)
    requires i <= j < |fs| && MatchesFrom(fs, slots, i)
    ensures SlotOf(fs, j) < |slots| && SlotMatches(fs[j], slots[SlotOf(fs, j)])
    decreases j - i
  {
    if i == j {
    } else {
      MatchesAt(fs, slots, i + 1, j);
    }
  }

  lemma {:induction false} FieldOkAt(fs: seq<Field>, i: nat, j: nat)
    requires i <= j < |fs| && FieldsOk(fs, i)
    ensures FieldOk(fs[j])
    decreases j - i
  {
    if i == j {
    } else {
      FieldOkAt(fs, i + 1, j);
    }
  }

  lemma {:induction false} NormalItemsAt(f: Field, items: seq<Value>, j: nat)
    requires j < |items| && forall n :: 0 <= n < |items| ==> ValueMatches(f, items[n])
    ensures NormalItems(f, items)[j] == NormalValue(f, items[j])
    decreases |items|
  {
    if j < |items| - 1 {
      NormalItemsAt(f, items[..|items| - 1], j);
    }
  }

  /** Nothing is delivered when every member is at its default. */
  lemma {:induction false} AllDefaultDelivers(fs: seq<Field>, slots: seq<Slot>, i: nat, acc: seq<Slot>)
    requires i <= |fs| && MatchesFrom(fs, slots, i) && AllDefault(fs, slots, i) && |acc| == |slots|
    ensures DeliverFrom(fs, slots, i, acc) == acc
    decreases |fs| - i
  {
    if i == |fs| {
    } else {
      AllDefaultDelivers(fs, slots, i + 1, acc);
    }
  }

  lemma {:induction false} NormalValueIsSame(f: Field, v: Value)
    requires FieldOk(f) && ValueMatches(f, v)
    ensures SameValue(f, v, NormalValue(f, v))
    decreases f, 0
  {
    if f.ltype.SUBMESSAGE? {
      NormalIsSame(f.ptr.fields, v.slots, 0);
    }
  }

  /** A field that is sent. */
  lemma {:induction false} NormalSlotIsSame(f: Field, slot: Slot)
    requires FieldOk(f) && SlotMatches(f, slot) && Present(f, slot)
    ensures SameSlot(f, slot, NormalSlot(f, slot))
    decreases f, 1
  {
    if f.htype.REPEATED? {
      forall j | 0 <= j < |slot.items| ensures SameValue(f, slot.items[j], NormalSlot(f, slot).items[j]) {
        NormalItemsAt(f, slot.items, j);
        NormalValueIsSame(f, slot.items[j]);
      }
    } else {
      NormalValueIsSame(f, slot.v);
    }
  }

  /** A field that is left out. */
  lemma {:induction false} DefaultSlotIsSame(f: Field, slot: Slot)
    requires FieldOk(f) && SlotMatches(f, slot) && !Present(f, slot)
    ensures SameSlot(f, slot, DefaultSlot(f))
    decreases f, 1
  {
    DefaultIsInitial(f);
    if f.htype.OPTIONAL? && f.sizeOffset == 0 && f.ltype.SUBMESSAGE? {
      NormalIsSame(f.ptr.fields, slot.v.slots, 0);
      AllDefaultDelivers(f.ptr.fields, slot.v.slots, 0, Defaults(f.ptr.fields));
    }
  }

  lemma {:induction false} NormalIsSame(fs: seq<Field>, slots: seq<Slot>, i: nat)
    requires DescriptorOk(fs) && Matches(fs, slots) && i <= |fs|
    ensures SameFrom(fs, slots, Normal(fs, slots), i)
    decreases fs, |fs| - i
  {
    if i == |fs| {
    } else {
      var k, back := SlotOf(fs, i), Normal(fs, slots);
      MatchesAt(fs, slots, 0, i);
      FieldOkAt(fs, 0, i);
      NormalMeaning(fs, slots, i);
      if Fills(fs, slots, i, k) {
        NormalSlotIsSame(fs[i], slots[k]);
      } else if n: nat :| n < |fs| && Fills(fs, slots, n, k) {
        NormalMeaning(fs, slots, n);
        SlotsDiffer(fs, n, i);
      } else {
        DefaultSlotIsSame(fs[i], slots[k]);
      }
      NormalIsSame(fs, slots, i + 1);
    }
  }

  /** A singular field without a default value of its own comes back with its value, whether it was sent or left out. */
  lemma SingularComesBack(fs: seq<Field>, slots: seq<Slot>, j: nat)
    requires DescriptorOk(fs) && Matches(fs, slots) && j < |fs|
    requires fs[j].htype.OPTIONAL? && fs[j].sizeOffset == 0 && !fs[j].ptr.Default?
    ensures SlotOf(fs, j) < |slots| && slots[SlotOf(fs, j)].Single? && ValueMatches(fs[j], slots[SlotOf(fs, j)].v)
    ensures Normal(fs, slots)[SlotOf(fs, j)] == Single(NormalValue(fs[j], slots[SlotOf(fs, j)].v))
  {
    var f, k := fs[j], SlotOf(fs, j);
    MatchesAt(fs, slots, 0, j);
    FieldOkAt(fs, 0, j);
    NormalMeaning(fs, slots, j);
    if !Fills(fs, slots, j, k) {
      forall i | 0 <= i < |fs| ensures !Fills(fs, slots, i, k) {
        if i != j && SlotOf(fs, i) == k { SlotsDiffer(fs, i, j); }
      }
      if f.ltype.SUBMESSAGE? {
        AllDefaultDelivers(f.ptr.fields, slots[k].v.slots, 0, Defaults(f.ptr.fields));
      }
    }
  }

  // ---------------------------------------------------------------- which messages can be encoded

  predicate FitsValue(f: Field, v: Value)
    decreases f, 0
  {
    if f.ltype.SUBMESSAGE? then v.Message? && f.ptr.Fields? && FitsFrom(f.ptr.fields, v.slots, 0)
    else f.ltype.BYTES? ==> v.Bytes? && |v.data| + BYTES_OFFSET <= f.dataSize
  }

  /** What is to be sent is within the sizes of the descriptor. */
  predicate FitsSlot(f: Field, slot: Slot)
    decreases f, 1
  {
    match f.htype
    case REQUIRED => slot.Single? && FitsValue(f, slot.v)
    case OPTIONAL =>
      if f.sizeOffset != 0 then slot.Opt? && (slot.has ==> FitsValue(f, slot.v))
      else slot.Single? && (Zero(f, slot.v) || FitsValue(f, slot.v))
    case REPEATED =>
      slot.Array? && |slot.items| <= f.arraySize && forall j :: 0 <= j < |slot.items| ==> FitsValue(f, slot.items[j])
    case ONEOF => slot.Member? && slot.which == f.tag ==> FitsValue(f, slot.v)
  }

  predicate FitsFrom(fs: seq<Field>, slots: seq<Slot>, i: nat)
    requires i <= |fs|
    decreases fs, |fs| - i
  {
    i == |fs|
    || (SlotOf(fs, i) < |slots| && FitsSlot(fs[i], slots[SlotOf(fs, i)]) && FitsFrom(fs, slots, i + 1))
  }

  lemma {:induction false} ValueEncodesIff(f: Field, v: Value)
    requires FieldOk(f) && ValueMatches(f, v)
    ensures EncodeValue(f, v).ok <==> FitsValue(f, v)
    decreases f, 0
  {
    if f.ltype.SUBMESSAGE? {
      FieldsEncodeIff(f.ptr.fields, v.slots, 0);
    }
  }

  lemma {:induction false} ItemsEncodeIff(f: Field, items: seq<Value>)
    requires FieldOk(f) && forall j :: 0 <= j < |items| ==> ValueMatches(f, items[j])
    ensures EncodeUnpacked(f, items).ok <==> forall j :: 0 <= j < |items| ==> FitsValue(f, items[j])
    ensures Packable(f.ltype) ==> (forall j :: 0 <= j < |items| ==> Holds(f, items[j])) && EncodePacked(f, items).ok
    decreases f, 1, |items|
  {
    if items == [] {
    } else {
      ValueEncodesIff(f, items[0]);
      ItemsEncodeIff(f, items[1..]);
      assert items == [items[0]] + items[1..];
      forall j | 0 <= j < |items| ensures Packable(f.ltype) ==> Holds(f, items[j]) {
        assert ValueMatches(f, items[j]);
      }
    }
  }

  lemma {:induction false} SlotEncodesIff(f: Field, slot: Slot)
    requires FieldOk(f) && SlotMatches(f, slot)
    ensures EncodeField(f, slot).ok <==> FitsSlot(f, slot)
    decreases f, 2
  {
    match f.htype {
      case REPEATED => ItemsEncodeIff(f, slot.items);
      case OPTIONAL =>
        ValueEncodesIff(f, slot.v);
        if f.sizeOffset == 0 && f.ltype.SUBMESSAGE? {
          ZeroMessageIsEmpty(f.ptr.fields, slot.v.slots, 0);
        }
      case _ =>
        if Present(f, slot) {
          ValueEncodesIff(f, slot.v);
        }
    }
  }

  lemma {:induction false} FieldsEncodeIff(fs: seq<Field>, slots: seq<Slot>, i: nat)
    requires i <= |fs| && FieldsOk(fs, i) && MatchesFrom(fs, slots, i)
    ensures EncodeFrom(fs, slots, i).ok <==> FitsFrom(fs, slots, i)
    decreases fs, |fs| - i
  {
    if i == |fs| {
    } else {
      SlotEncodesIff(fs[i], slots[SlotOf(fs, i)]);
      FieldsEncodeIff(fs, slots, i + 1);
    }
  }

  /** A message can be encoded exactly when, at every depth, no array that is sent has more elements than array_size and
      no bytes that are sent are longer than their field. */
  lemma EncodableIff(fs: seq<Field>, slots: seq<Slot>)
    requires DescriptorOk(fs) && Matches(fs, slots)
    ensures EncodeMessage(fs, slots).ok <==> FitsFrom(fs, slots, 0)
  {
    FieldsEncodeIff(fs, slots, 0);
  }

  // ---------------------------------------------------------------- reading back the pieces

  lemma TagTrip(wireType: nat, tag: nat, rest: seq<byte>)
    requires wireType < 8 && 1 <= tag < 0x2000_0000
    ensures DecodeTag(EncodeTag(wireType, tag) + rest) == Tag(wireType, tag, rest)
  {
    var t := tag * 8 + wireType;
    assert t % 8 == wireType && t / 8 == tag;
    assert Varint.Decode32(Varint.Encode(t) + rest) == Some((t, rest)) by {
      Varint.Reader32Range(t, rest);
    }
  }

  lemma ReadBytesTrip(data: seq<byte>, rest: seq<byte>)
    ensures ReadBytes(data + rest, |data|) == Some((data, rest))
  {
    assert (data + rest)[..|data|] == data && (data + rest)[|data|..] == rest;
  }

  lemma LengthTrip(payload: seq<byte>, rest: seq<byte>)
    requires |payload| < TWO32
    ensures Varint.Decode32(LengthPrefixed(payload) + rest) == Some((|payload|, payload + rest))
    ensures ReadString(LengthPrefixed(payload) + rest) == Some((payload, rest))
  {
    assert LengthPrefixed(payload) + rest == Varint.Encode(|payload|) + (payload + rest);
    Varint.Reader32Range(|payload|, payload + rest);
    ReadBytesTrip(payload, rest);
  }

  lemma {:induction false} LittleEndianTrip(n: nat, count: nat)
    requires n < Pow2(8 * count)
    ensures FromLittleEndian(LittleEndian(n, count)) == n
  {
    if count == 0 {
    } else {
      ShlBy8(1, 8 * (count - 1));
      LittleEndianTrip(n / 256, count - 1);
      assert LittleEndian(n, count)[1..] == LittleEndian(n / 256, count - 1);
    }
  }

  /** Casting a field's value to a 64-bit word and back to the field's width, or through int32_t, loses nothing. */
  lemma SignedTrip(n: int, size: nat)
    requires IntSize(size) && -Half(size) <= n < Half(size)
    ensures Signed(n % TWO64, size) == n
    ensures Signed(n % TWO64, 8) == n
    ensures size != 8 ==> Signed(n % TWO64, 4) == n
  {
    SignedTrip8(n);
    if size != 8 {
      SignedTrip4(n);
      if size == 1 { SignedTrip1(n); } else if size == 2 { SignedTrip2(n); }
    }
  }

  lemma SignedTrip8(n: int)
    requires -TWO63 <= n < TWO63
    ensures Signed(n % TWO64, 8) == n && n % TWO64 == if n < 0 then n + TWO64 else n
  {
  }

  lemma SignedTrip4(n: int)
    requires -TWO31 <= n < TWO31
    ensures Signed(n % TWO64, 4) == n
  {
    SignedTrip8(n);
    assert n + TWO64 == (n + 0x1_0000_0000) + 0x1_0000_0000 * 0xFFFF_FFFF;
  }

  lemma SignedTrip2(n: int)
    requires -0x8000 <= n < 0x8000
    ensures Signed(n % TWO64, 2) == n
  {
    SignedTrip8(n);
    assert n + TWO64 == (n + 0x1_0000) + 0x1_0000 * 0xFFFF_FFFF_FFFF;
  }

  lemma SignedTrip1(n: int)
    requires -0x80 <= n < 0x80
    ensures Signed(n % TWO64, 1) == n
  {
    SignedTrip8(n);
    assert n + TWO64 == (n + 0x100) + 0x100 * 0xFF_FFFF_FFFF_FFFF;
  }

  // ---------------------------------------------------------------- scalars

  lemma NarrowTrip(f: Field, n: int)
    requires IntSize(f.dataSize)
    ensures -Half(f.dataSize) <= n < Half(f.dataSize) ==>
      NarrowVarint(f, n % TWO64) == Some(Int(n)) && NarrowSigned(f, n) == Some(Int(n))
    ensures 0 <= n < 2 * Half(f.dataSize) ==> NarrowUnsigned(f, n) == Some(Int(n))
  {
    if -Half(f.dataSize) <= n < Half(f.dataSize) {
      SignedTrip(n, f.dataSize);
    }
  }

  /** What a varint field of up to 32 bits makes of a word: the int32 with the same low 32 bits, if it fits. So a
      negative number is read alike from its 64-bit and from its 32-bit form. A 64-bit field reads the int64. */
  lemma NarrowVarintMeaning(f: Field, v: nat, n: int)
    requires IntSize(f.dataSize) && v < TWO64
    requires if f.dataSize == 8 then -TWO63 <= n < TWO63 && (v == n || v == n + TWO64)
      else -TWO31 <= n < TWO31 && v % TWO32 == n % TWO32
    ensures NarrowVarint(f, v) == if -Half(f.dataSize) <= n < Half(f.dataSize) then Some(Int(n)) else None
  {
    var size := if f.dataSize == 8 then 8 else 4;
    assert Signed(v, size) == n;
    if -Half(f.dataSize) <= n < Half(f.dataSize) {
      SignedTrip(n, f.dataSize);
    }
  }

  /** Unsigned and zigzag fields accept exactly the numbers of their width. */
  lemma NarrowMeaning(f: Field, v: nat, n: int)
    requires IntSize(f.dataSize) && -TWO63 <= n < TWO63
    ensures NarrowUnsigned(f, v) == if v < 2 * Half(f.dataSize) then Some(Int(v)) else None
    ensures NarrowSigned(f, n) == if -Half(f.dataSize) <= n < Half(f.dataSize) then Some(Int(n)) else None
  {
    if -Half(f.dataSize) <= n < Half(f.dataSize) {
      SignedTrip(n, f.dataSize);
    }
  }

  lemma SignedFieldTrip(f: Field, n: int, rest: seq<byte>)
    requires IntSize(f.dataSize) && -Half(f.dataSize) <= n < Half(f.dataSize) && f.ltype.VARINT?
    ensures DecodeScalar(f, Varint.Encode(n % TWO64) + rest) == Some((Int(n), rest))
  {
    NarrowTrip(f, n);
    Varint.VarintRoundTrip(n % TWO64, rest);
  }

  lemma ZigZagFieldTrip(f: Field, n: int, rest: seq<byte>)
    requires IntSize(f.dataSize) && -Half(f.dataSize) <= n < Half(f.dataSize) && f.ltype.SVARINT?
    ensures DecodeScalar(f, Varint.Encode(Varint.ZigZag(n)) + rest) == Some((Int(n), rest))
  {
    NarrowTrip(f, n);
    Varint.ZigZagMeaning(n);
    var z := Varint.ZigZag(n);
    Varint.VarintRoundTrip(z, rest);
    SvarintRead(f, Varint.Encode(z) + rest, z, n, rest);
  }

  lemma SvarintRead(f: Field, s: seq<byte>, z: nat, n: int, rest: seq<byte>)
    requires f.ltype.SVARINT? && z < TWO64 && Varint.Decode64(s) == Some((z, rest))
    requires Varint.UnZigZag(z) == n && NarrowSigned(f, n) == Some(Int(n))
    ensures DecodeScalar(f, s) == Some((Int(n), rest))
  {
    Varint.Wrap64(z, 0);
  }

  lemma UnsignedFieldTrip(f: Field, n: nat, rest: seq<byte>)
    requires IntSize(f.dataSize) && n < 2 * Half(f.dataSize) && f.ltype.UVARINT?
    ensures DecodeScalar(f, Varint.Encode(n) + rest) == Some((Int(n), rest))
  {
    NarrowTrip(f, n);
    Varint.VarintRoundTrip(n, rest);
  }

  lemma FixedFieldTrip(f: Field, n: nat, rest: seq<byte>)
    requires (f.ltype.FIXED32? && n < TWO32) || (f.ltype.FIXED64? && n < TWO64)
    ensures DecodeScalar(f, LittleEndian(n, if f.ltype.FIXED32? then 4 else 8) + rest) == Some((Int(n), rest))
  {
    ShlBy32(1);
    ShlBy64(1);
    var count := if f.ltype.FIXED32? then 4 else 8;
    LittleEndianTrip(n, count);
    ReadBytesTrip(LittleEndian(n, count), rest);
  }

  lemma NumberTrip(f: Field, v: Value, rest: seq<byte>)
    requires FieldOk(f) && Packable(f.ltype) && Holds(f, v)
    ensures EncodeScalar(f, v).ok
    ensures DecodeScalar(f, EncodeScalar(f, v).bytes + rest) == Some((v, rest))
  {
    match f.ltype
    case BOOL => Varint.Reader32Range(if v.b then 1 else 0, rest);
    case VARINT => SignedFieldTrip(f, v.n, rest);
    case SVARINT => ZigZagFieldTrip(f, v.n, rest);
    case UVARINT => UnsignedFieldTrip(f, v.n, rest);
    case FIXED32 | FIXED64 => FixedFieldTrip(f, v.n, rest);
  }

  lemma ScalarTrip(f: Field, v: Value, rest: seq<byte>)
    requires FieldOk(f) && !f.ltype.SUBMESSAGE? && Holds(f, v)
    requires EncodeScalar(f, v).ok && |EncodeScalar(f, v).bytes| < TWO32
    ensures DecodeScalar(f, EncodeScalar(f, v).bytes + rest) ==
            if f.ltype.STRING? && |CString(v.data)| >= f.dataSize then None
            else Some((if f.ltype.STRING? then Bytes(CString(v.data)) else v, rest))
  {
    if Packable(f.ltype) {
      NumberTrip(f, v, rest);
    } else {
      var data := if f.ltype.STRING? then CString(v.data) else v.data;
      LengthTrip(data, rest);
      ReadBytesTrip(data, rest);
    }
  }

  // ---------------------------------------------------------------- packed arrays

  lemma {:induction false} PackedTrip(f: Field, prefix: seq<Value>, items: seq<Value>)
    requires FieldOk(f) && Packable(f.ltype) && forall j :: 0 <= j < |items| ==> Holds(f, items[j])
    requires |prefix| + |items| <= f.arraySize
    requires EncodePacked(f, items).ok && |EncodePacked(f, items).bytes| < TWO32
    ensures DecodePacked(f, EncodePacked(f, items).bytes, prefix) == Some(prefix + items)
    decreases |items|
  {
    if items == [] {
      assert prefix + items == prefix;
    } else {
      var first, more := EncodeScalar(f, items[0]), EncodePacked(f, items[1..]);
      ScalarTrip(f, items[0], more.bytes);
      ScalarNotEmpty(f, items[0]);
      PackedTrip(f, prefix + [items[0]], items[1..]);
      assert prefix + [items[0]] + items[1..] == prefix + items;
    }
  }

  lemma ScalarNotEmpty(f: Field, v: Value)
    requires !f.ltype.SUBMESSAGE? && Holds(f, v) && EncodeScalar(f, v).ok
    ensures |EncodeScalar(f, v).bytes| >= 1
  {
  }

  /** Packable values are their own normal form. */
  lemma {:induction false} PackableNormal(f: Field, items: seq<Value>)
    requires Packable(f.ltype) && forall j :: 0 <= j < |items| ==> ValueMatches(f, items[j])
    ensures NormalItems(f, items) == items
  {
    if items == [] {
    } else {
      PackableNormal(f, items[..|items| - 1]);
    }
  }

  lemma {:induction false} PackableTerminated(f: Field, items: seq<Value>)
    requires Packable(f.ltype) && forall j :: 0 <= j < |items| ==> ValueMatches(f, items[j])
    ensures ItemsTerminated(f, items)
  {
    if items == [] {
    } else {
      PackableTerminated(f, items[1..]);
    }
  }

  // ---------------------------------------------------------------- seen fields

  function SeenFrom(fs: seq<Field>, i: nat, seen: set<nat>): (r: set<nat>)
    requires i <= |fs|
    ensures seen <= r
    decreases |fs| - i
  {
    if i == |fs| then seen else SeenFrom(fs, i + 1, Mark(fs, i, seen))
  }

  lemma {:induction false} SeenAll(fs: seq<Field>, i: nat, seen: set<nat>, j: nat)
    requires i <= j < |fs| && fs[j].htype.REQUIRED? && RequiredBefore(fs, j) < PB_MAX_REQUIRED_FIELDS
    ensures RequiredBefore(fs, j) in SeenFrom(fs, i, seen)
    decreases |fs| - i
  {
    if i < j { SeenAll(fs, i + 1, Mark(fs, i, seen), j); }
  }

  // ---------------------------------------------------------------- one record of the loop

  ghost predicate FoundAt(fs: seq<Field>, i: nat)
  {
    i < |fs| && Find(fs, fs[i].tag) == i
  }

  lemma FindDistinct(fs: seq<Field>, i: nat)
    requires DistinctTags(fs) && i < |fs| && !fs[i].ltype.EXTENSION?
    ensures FoundAt(fs, i)
  {
  }

  /** A tag and a payload that belong to entry i make one turn of the loop. */
  lemma RecordStep(fs: seq<Field>, i: nat, wireType: nat, payload: seq<byte>, rest: seq<byte>, st: State)
    requires FoundAt(fs, i) && wireType < 8 && 1 <= fs[i].tag < 0x2000_0000
    requires SlotOf(fs, i) < |st.slots|
    ensures var k := SlotOf(fs, i);
      var d := DecodeField(fs[i], wireType, payload + rest, st.slots[k]);
      Loop(fs, EncodeTag(wireType, fs[i].tag) + payload + rest, st) ==
      if d.None? then None else Loop(fs, d.value.1, State(st.slots[k := d.value.0], Mark(fs, i, st.seen)))
  {
    var s := EncodeTag(wireType, fs[i].tag) + payload + rest;
    assert s == EncodeTag(wireType, fs[i].tag) + (payload + rest);
    TagTrip(wireType, fs[i].tag, payload + rest);
    assert s != [];
  }

  // ---------------------------------------------------------------- values, fields, messages

  /** What the slot of f holds before f is decoded. */
  ghost predicate Fresh(f: Field, slot: Slot)
  {
    if f.htype.ONEOF? then slot.NoMember? || slot.Member? else slot == DefaultSlot(f)
  }

  lemma {:induction false} ValueTrip(f: Field, v: Value, prior: Value, rest: seq<byte>)
    requires FieldOk(f) && ValueMatches(f, v)
    requires EncodeValue(f, v).ok && |EncodeValue(f, v).bytes| < TWO32
    requires f.ltype.SUBMESSAGE? ==> prior == DefaultValue(f)
    ensures DecodeValue(f, EncodeValue(f, v).bytes + rest, prior) ==
            if ValueTerminated(f, v) then Some((NormalValue(f, v), rest)) else None
    decreases f, 0
  {
    if !f.ltype.SUBMESSAGE? {
      ScalarTrip(f, v, rest);
    } else {
      var m := EncodeMessage(f.ptr.fields, v.slots);
      LengthTrip(m.bytes, rest);
      MessageTrip(f.ptr.fields, v.slots);
    }
  }

  /** What one encoded field does to the decoder. */
  ghost predicate FieldTrips(fs: seq<Field>, i: nat, slot: Slot, rest: seq<byte>, st: State)
    requires i < |fs| && SlotMatches(fs[i], slot) && Present(fs[i], slot) && SlotOf(fs, i) < |st.slots|
  {
    Loop(fs, EncodeField(fs[i], slot).bytes + rest, st) ==
    if SlotTerminated(fs[i], slot)
    then Loop(fs, rest, State(st.slots[SlotOf(fs, i) := NormalSlot(fs[i], slot)], Mark(fs, i, st.seen)))
    else None
  }

  lemma {:induction false} SingleTrip(fs: seq<Field>, i: nat, slot: Slot, rest: seq<byte>, st: State)
    requires FoundAt(fs, i) && FieldOk(fs[i]) && SlotMatches(fs[i], slot) && Present(fs[i], slot)
    requires !fs[i].htype.REPEATED? && EncodeField(fs[i], slot).ok && |EncodeField(fs[i], slot).bytes| < TWO32
    requires SlotOf(fs, i) < |st.slots| && Fresh(fs[i], st.slots[SlotOf(fs, i)])
    ensures FieldTrips(fs, i, slot, rest, st)
    decreases fs[i], 1
  {
    var f, k := fs[i], SlotOf(fs, i);
    var prior := if f.htype.ONEOF? then DefaultValue(f) else st.slots[k].v;
    ValueTrip(f, slot.v, prior, rest);
    RecordStep(fs, i, WireType(f.ltype), EncodeValue(f, slot.v).bytes, rest, st);
  }

  /** The first record of an unpacked array. */
  lemma UnpackedStep(fs: seq<Field>, i: nat, done: seq<Value>, items: seq<Value>, rest: seq<byte>, st: State)
    requires FoundAt(fs, i) && FieldOk(fs[i]) && fs[i].htype.REPEATED? && !Packable(fs[i].ltype)
    requires items != [] && forall n :: 0 <= n < |items| ==> ValueMatches(fs[i], items[n])
    requires |done| < fs[i].arraySize && SlotOf(fs, i) < |st.slots| && st.slots[SlotOf(fs, i)] == Array(done)
    requires EncodeUnpacked(fs[i], items).ok && |EncodeUnpacked(fs[i], items).bytes| < TWO32
    ensures EncodeUnpacked(fs[i], items[1..]).ok
    ensures |EncodeUnpacked(fs[i], items[1..]).bytes| < TWO32
    ensures Loop(fs, EncodeUnpacked(fs[i], items).bytes + rest, st) ==
            if ValueTerminated(fs[i], items[0])
            then Loop(fs, EncodeUnpacked(fs[i], items[1..]).bytes + rest,
                      WithItems(fs, i, st, done + [NormalValue(fs[i], items[0])]))
            else None
    decreases fs[i], 1
  {
    var f := fs[i];
    var more := EncodeUnpacked(f, items[1..]).bytes;
    var payload := EncodeValue(f, items[0]).bytes;
    assert EncodeUnpacked(f, items).bytes + rest == EncodeTag(WireType(f.ltype), f.tag) + payload + (more + rest);
    ValueTrip(f, items[0], DefaultValue(f), more + rest);
    RecordStep(fs, i, WireType(f.ltype), payload, more + rest, st);
  }

  function WithItems(fs: seq<Field>, i: nat, st: State, items: seq<Value>): State
    requires i < |fs| && SlotOf(fs, i) < |st.slots|
  {
    st.(slots := st.slots[SlotOf(fs, i) := Array(items)])
  }

  lemma {:induction false} UnpackedTrip(
    fs: seq<Field>, i: nat, done: seq<Value>, items: seq<Value>, rest: seq<byte>, st: State)
    requires FoundAt(fs, i) && FieldOk(fs[i]) && fs[i].htype.REPEATED? && !Packable(fs[i].ltype)
    requires forall n :: 0 <= n < |items| ==> ValueMatches(fs[i], items[n])
    requires |done| + |items| <= fs[i].arraySize && SlotOf(fs, i) < |st.slots|
    requires EncodeUnpacked(fs[i], items).ok && |EncodeUnpacked(fs[i], items).bytes| < TWO32
    requires st.slots[SlotOf(fs, i)] == Array(done)
    ensures Loop(fs, EncodeUnpacked(fs[i], items).bytes + rest, st) ==
            if ItemsTerminated(fs[i], items)
            then Loop(fs, rest, WithItems(fs, i, st, done + NormalItems(fs[i], items)))
            else None
    decreases fs[i], 2, |items|
  {
    var f := fs[i];
    if items == [] {
      assert [] + rest == rest;
      assert done + NormalItems(f, []) == done;
      assert WithItems(fs, i, st, done).slots == st.slots;
    } else {
      UnpackedStep(fs, i, done, items, rest, st);
      if ValueTerminated(f, items[0]) {
        var done' := done + [NormalValue(f, items[0])];
        UnpackedTrip(fs, i, done', items[1..], rest, WithItems(fs, i, st, done'));
        ItemsAppended(fs, i, done, items, st);
      }
    }
  }

  lemma ItemsAppended(fs: seq<Field>, i: nat, done: seq<Value>, items: seq<Value>, st: State)
    requires i < |fs| && SlotOf(fs, i) < |st.slots| && items != []
    requires forall n :: 0 <= n < |items| ==> ValueMatches(fs[i], items[n])
    ensures var done' := done + [NormalValue(fs[i], items[0])];
      WithItems(fs, i, WithItems(fs, i, st, done'), done' + NormalItems(fs[i], items[1..]))
        == WithItems(fs, i, st, done + NormalItems(fs[i], items))
  {
    var f := fs[i];
    var done', all := done + [NormalValue(f, items[0])], done + NormalItems(f, items);
    NormalItemsCons(f, items);
    assert done' + NormalItems(f, items[1..]) == all;
    assert WithItems(fs, i, WithItems(fs, i, st, done'), all).slots == WithItems(fs, i, st, all).slots;
  }

  lemma {:induction false} NormalItemsCons(f: Field, items: seq<Value>)
    requires items != [] && forall j :: 0 <= j < |items| ==> ValueMatches(f, items[j])
    ensures NormalItems(f, items) == [NormalValue(f, items[0])] + NormalItems(f, items[1..])
    decreases |items|
  {
    var n := |items| - 1;
    if n == 0 {
      assert items[..0] == [] && items[1..] == [];
    } else {
      NormalItemsCons(f, items[..n]);
      assert items[..n][1..] == items[1..][..n - 1];
    }
  }

  lemma {:induction false} ArrayTrip(fs: seq<Field>, i: nat, slot: Slot, rest: seq<byte>, st: State)
    requires FoundAt(fs, i) && FieldOk(fs[i]) && SlotMatches(fs[i], slot) && Present(fs[i], slot)
    requires fs[i].htype.REPEATED? && EncodeField(fs[i], slot).ok && |EncodeField(fs[i], slot).bytes| < TWO32
    requires SlotOf(fs, i) < |st.slots| && Fresh(fs[i], st.slots[SlotOf(fs, i)])
    ensures FieldTrips(fs, i, slot, rest, st)
    decreases fs[i], 3
  {
    var f, items := fs[i], slot.items;
    if Packable(f.ltype) {
      var payload := EncodePacked(f, items);
      LengthTrip(payload.bytes, rest);
      PackedTrip(f, [], items);
      PackableNormal(f, items);
      assert [] + items == items;
      PackableTerminated(f, items);
      RecordStep(fs, i, WT_STRING, LengthPrefixed(payload.bytes), rest, st);
    } else {
      UnpackedTrip(fs, i, [], items, rest, st);
      assert [] + NormalItems(f, items) == NormalItems(f, items);
    }
  }

  lemma PresentTrip(fs: seq<Field>, i: nat, slot: Slot, rest: seq<byte>, st: State)
    requires FoundAt(fs, i) && FieldOk(fs[i]) && SlotMatches(fs[i], slot) && Present(fs[i], slot)
    requires EncodeField(fs[i], slot).ok && |EncodeField(fs[i], slot).bytes| < TWO32
    requires SlotOf(fs, i) < |st.slots| && Fresh(fs[i], st.slots[SlotOf(fs, i)])
    ensures FieldTrips(fs, i, slot, rest, st)
    decreases fs[i], 4
  {
    if fs[i].htype.REPEATED? {
      ArrayTrip(fs, i, slot, rest, st);
    } else {
      SingleTrip(fs, i, slot, rest, st);
    }
  }

  ghost predicate AllFresh(fs: seq<Field>, i: nat, acc: seq<Slot>)
  {
    |acc| == SlotCount(fs) && forall j :: i <= j < |fs| ==> SlotOf(fs, j) < |acc| && Fresh(fs[j], acc[SlotOf(fs, j)])
  }

  lemma StaysFresh(fs: seq<Field>, i: nat, acc: seq<Slot>, slot: Slot)
    requires i < |fs| && AllFresh(fs, i, acc) && (fs[i].htype.ONEOF? ==> slot.Member?)
    ensures AllFresh(fs, i + 1, acc[SlotOf(fs, i) := slot])
  {
    forall j | i < j < |fs| ensures Fresh(fs[j], acc[SlotOf(fs, i) := slot][SlotOf(fs, j)]) {
      assert Fresh(fs[j], acc[SlotOf(fs, j)]);
      if SlotOf(fs, j) == SlotOf(fs, i) { SlotsDiffer(fs, i, j); }
    }
  }

  lemma {:induction false} LoopTrip(fs: seq<Field>, slots: seq<Slot>, i: nat, st: State)
    requires DistinctTags(fs) && i <= |fs| && FieldsOk(fs, i) && MatchesFrom(fs, slots, i)
    requires EncodeFrom(fs, slots, i).ok && |EncodeFrom(fs, slots, i).bytes| < TWO32
    requires AllFresh(fs, i, st.slots) && |st.slots| == |slots|
    ensures Loop(fs, EncodeFrom(fs, slots, i).bytes, st) ==
            if TerminatedFrom(fs, slots, i)
            then Some((State(DeliverFrom(fs, slots, i, st.slots), SeenFrom(fs, i, st.seen)), []))
            else None
    decreases fs, |fs| - i, 1
  {
    if i == |fs| {
    } else {
      FieldThenRest(fs, slots, i, st);
      if Present(fs[i], slots[SlotOf(fs, i)]) {
        StaysFresh(fs, i, st.slots, NormalSlot(fs[i], slots[SlotOf(fs, i)]));
      }
      LoopTrip(fs, slots, i + 1, State(Deliver(fs, slots, i, st.slots), Mark(fs, i, st.seen)));
    }
  }

  /** The first of the remaining fields, absent or present. */
  lemma FieldThenRest(fs: seq<Field>, slots: seq<Slot>, i: nat, st: State)
    requires DistinctTags(fs) && i < |fs| && FieldOk(fs[i]) && MatchesFrom(fs, slots, i)
    requires EncodeFrom(fs, slots, i).ok && |EncodeFrom(fs, slots, i).bytes| < TWO32
    requires SlotOf(fs, i) < |st.slots| && Fresh(fs[i], st.slots[SlotOf(fs, i)]) && |st.slots| == |slots|
    ensures EncodeFrom(fs, slots, i + 1).ok
    ensures |EncodeFrom(fs, slots, i + 1).bytes| <= |EncodeFrom(fs, slots, i).bytes|
    ensures Loop(fs, EncodeFrom(fs, slots, i).bytes, st) ==
            if SlotTerminated(fs[i], slots[SlotOf(fs, i)])
            then Loop(fs, EncodeFrom(fs, slots, i + 1).bytes,
                      State(Deliver(fs, slots, i, st.slots), Mark(fs, i, st.seen)))
            else None
    decreases fs, |fs| - i, 0
  {
    var f, slot := fs[i], slots[SlotOf(fs, i)];
    var rest := EncodeFrom(fs, slots, i + 1).bytes;
    assert EncodeFrom(fs, slots, i).bytes == EncodeField(f, slot).bytes + rest;
    if Present(f, slot) {
      FindDistinct(fs, i);
      PresentTrip(fs, i, slot, rest, st);
    } else {
      assert [] + rest == rest;
    }
  }

  lemma {:induction false} MessageTrip(fs: seq<Field>, slots: seq<Slot>)
    requires DescriptorOk(fs) && Matches(fs, slots)
    requires EncodeMessage(fs, slots).ok && |EncodeMessage(fs, slots).bytes| < TWO32
    ensures DecodeMessage(fs, EncodeMessage(fs, slots).bytes, Defaults(fs)) ==
            if Terminated(fs, slots) then Some((Normal(fs, slots), [])) else None
    decreases fs, |fs| + 1
  {
    forall j | 0 <= j < |fs| ensures SlotOf(fs, j) < |Defaults(fs)| && Fresh(fs[j], Defaults(fs)[SlotOf(fs, j)]) {
      DefaultsSlot(fs, j);
    }
    LoopTrip(fs, slots, 0, State(Defaults(fs), {}));
    forall i | 0 <= i < |fs| && fs[i].htype.REQUIRED? && RequiredBefore(fs, i) < PB_MAX_REQUIRED_FIELDS
      ensures RequiredBefore(fs, i) in SeenFrom(fs, 0, {})
    {
      SeenAll(fs, 0, {}, i);
    }
  }

  /** The round trip of a whole message. Whatever the descriptor's nesting, oneofs, arrays and presence rules:
      a message that pb_encode encodes in fewer than 2^32 bytes is decoded by pb_decode exactly when every string
      written is terminated inside its buffer; the result is then the message in normal form, and no byte is left. The
      normal form is the message again, member by member, whether a member was sent or not. */
  lemma MessageRoundTrip(fs: seq<Field>, slots: seq<Slot>)
    requires DescriptorOk(fs) && Matches(fs, slots)
    requires EncodeMessage(fs, slots).ok && |EncodeMessage(fs, slots).bytes| < TWO32
    ensures Decode(fs, EncodeMessage(fs, slots).bytes) ==
            if Terminated(fs, slots) then Some((Normal(fs, slots), [])) else None
    ensures Same(fs, slots, Normal(fs, slots))
  {
    MessageTrip(fs, slots);
    NormalIsSame(fs, slots, 0);
  }

  /** A message that does not come back: a string that fills its buffer is encoded, but its decoder wants room for the
      terminator. */
  lemma UnterminatedStringIsLost(c: byte)
    requires c != 0
    ensures var fs := [Field(1, STATIC, REQUIRED, STRING, 0, 0, 1, 0, Null)];
      var slots := [Single(Bytes([c]))];
      && DescriptorOk(fs) && Matches(fs, slots) && EncodeMessage(fs, slots).ok
      && Decode(fs, EncodeMessage(fs, slots).bytes) == None
  {
    var f, v := Field(1, STATIC, REQUIRED, STRING, 0, 0, 1, 0, Null), Bytes([c]);
    var fs, slots := [f], [Single(v)];
    assert FieldsOk(fs, 1) && MatchesFrom(fs, slots, 1);
    CStringUnique([c], 1);
    var first := EncodeField(f, slots[0]);
    assert EncodeFrom(fs, slots, 1) == NOTHING;
    assert EncodeMessage(fs, slots) == Then(first, NOTHING);
    assert first.bytes == EncodeTag(WT_STRING, 1) + LengthPrefixed([c]);
    assert !SlotTerminated(f, slots[0]) && !Terminated(fs, slots);
    MessageRoundTrip(fs, slots);
  }
}
