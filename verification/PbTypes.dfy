/** Descriptors and message structs of nanopb (pb.h), with struct memory as typed values.
    A message struct is a sequence of slots, one for each member; the members of a oneof share one slot. */
module PbTypes {
  import opened Bits

  /** The three builds of pb_size_t: 8, 16 and 32 bits. */
  type PbSizeMax = n: nat | n == 0xFF || n == 0xFFFF || n == 0xFFFF_FFFF witness 0xFF

  const PB_SIZE_MAX: PbSizeMax

  /** offsetof(pb_bytes_array_t, bytes), the size of a pb_size_t. */
  const BYTES_OFFSET: nat := if PB_SIZE_MAX == 0xFF then 1 else if PB_SIZE_MAX == 0xFFFF then 2 else 4

  const PB_MAX_REQUIRED_FIELDS: nat := 64

  datatype LType =
    | BOOL | VARINT | UVARINT | SVARINT | FIXED32 | FIXED64
    | BYTES | STRING | SUBMESSAGE | EXTENSION | FIXED_LENGTH_BYTES

  datatype HType = REQUIRED | OPTIONAL | REPEATED | ONEOF

  datatype AType = STATIC | ALLOCATED | CALLBACK

  /** pb_field_t. */
  datatype Field = Field(
    tag: nat, atype: AType, htype: HType, ltype: LType,
    dataOffset: nat, sizeOffset: int, dataSize: nat, arraySize: nat, ptr: Ptr)

  /** The ptr of a pb_field_t: null, a default value or the descriptor of a submessage. */
  datatype Ptr = Null | Default(value: Value) | Fields(fields: seq<Field>)

  datatype Value = Bool(b: bool) | Int(n: int) | Bytes(data: seq<byte>) | Message(slots: seq<Slot>)

  /** One member of a message struct: a plain field, a field with its has_ flag, the live entries of an array
      with its count, or a union whose which_ is zero (NoMember) or the tag of the member it holds. */
  datatype Slot =
    | Single(v: Value)
    | Opt(has: bool, v: Value)
    | Array(items: seq<Value>)
    | NoMember
    | Member(which: nat, v: Value)

  predicate Packable(l: LType)
  {
    l.BOOL? || l.VARINT? || l.UVARINT? || l.SVARINT? || l.FIXED32? || l.FIXED64?
  }

  // ---------------------------------------------------------------- which slot a descriptor entry owns

  /** The second entry is a further member of the union the first one is in. */
  predicate SharesUnion(prev: Field, cur: Field)
  {
    prev.htype.ONEOF? && cur.htype.ONEOF? && cur.dataOffset == PB_SIZE_MAX
  }

  function SlotOf(fs: seq<Field>, i: nat): nat
    requires i < |fs|
  {
    if i == 0 then 0
    else if SharesUnion(fs[i - 1], fs[i]) then SlotOf(fs, i - 1)
    else SlotOf(fs, i - 1) + 1
  }

  function SlotCount(fs: seq<Field>): nat
  {
    if fs == [] then 0 else SlotOf(fs, |fs| - 1) + 1
  }

  lemma {:induction false} SlotOfMonotone(fs: seq<Field>, i: nat, j: nat)
    requires i <= j < |fs|
    ensures SlotOf(fs, i) <= SlotOf(fs, j)
    ensures SlotOf(fs, i) == SlotOf(fs, j) && i < j ==> fs[i].htype.ONEOF? && fs[j].htype.ONEOF?
    decreases j
  {
    if i == j {
    } else {
      SlotOfMonotone(fs, i, j - 1);
    }
  }

  /** Every entry has a slot. */
  lemma SlotOfInRange(fs: seq<Field>, i: nat)
    requires i < |fs|
    ensures SlotOf(fs, i) < SlotCount(fs)
  {
    SlotOfMonotone(fs, i, |fs| - 1);
  }

  /** Only members of one oneof share a slot. */
  lemma SlotsDiffer(fs: seq<Field>, i: nat, j: nat)
    requires i < |fs| && j < |fs| && i != j && SlotOf(fs, i) == SlotOf(fs, j)
    ensures fs[i].htype.ONEOF? && fs[j].htype.ONEOF?
  {
    if i < j { SlotOfMonotone(fs, i, j); } else { SlotOfMonotone(fs, j, i); }
  }

  // ---------------------------------------------------------------- required fields

  /** How many required entries come before entry i. */
  function RequiredBefore(fs: seq<Field>, i: nat): nat
    requires i <= |fs|
  {
    if i == 0 then 0
    else RequiredBefore(fs, i - 1) + (if fs[i - 1].htype.REQUIRED? then 1 else 0)
  }

  lemma {:induction false} RequiredBeforeMonotone(fs: seq<Field>, i: nat, j: nat)
    requires i <= j <= |fs|
    ensures RequiredBefore(fs, i) <= RequiredBefore(fs, j)
    ensures i < j && fs[i].htype.REQUIRED? ==> RequiredBefore(fs, i) < RequiredBefore(fs, j)
    decreases j
  {
    if i == j {
    } else {
      RequiredBeforeMonotone(fs, i, j - 1);
    }
  }

  /** Every index below the number of required entries is the index of one. */
  lemma {:induction false} RequiredIndexOnto(fs: seq<Field>, n: nat, r: nat) returns (i: nat)
    requires n <= |fs| && r < RequiredBefore(fs, n)
    ensures i < n && fs[i].htype.REQUIRED? && RequiredBefore(fs, i) == r
  {
    if r == RequiredBefore(fs, n - 1) {
      i := n - 1;
    } else {
      i := RequiredIndexOnto(fs, n - 1, r);
    }
  }

  // ---------------------------------------------------------------- what a field's memory can hold

  predicate IntSize(n: nat)
  {
    n == 1 || n == 2 || n == 4 || n == 8
  }

  /** 2^(8 * size - 1) */
  function Half(size: nat): int
    requires IntSize(size)
  {
    if size == 1 then 0x80 else if size == 2 then 0x8000 else if size == 4 then TWO31 else TWO63
  }

  /** v is a possible content of the memory of one item of f. */
  predicate Holds(f: Field, v: Value)
  {
    match f.ltype
    case BOOL => v.Bool?
    case VARINT | SVARINT =>
      v.Int? && -TWO63 <= v.n < TWO63 && (IntSize(f.dataSize) ==> -Half(f.dataSize) <= v.n < Half(f.dataSize))
    case UVARINT =>
      v.Int? && 0 <= v.n < TWO64 && (IntSize(f.dataSize) ==> v.n < 2 * Half(f.dataSize))
    case FIXED32 => v.Int? && 0 <= v.n < TWO32
    case FIXED64 => v.Int? && 0 <= v.n < TWO64
    case BYTES => v.Bytes? && |v.data| <= PB_SIZE_MAX
    case STRING => v.Bytes? && |v.data| <= f.dataSize <= PB_SIZE_MAX
    case FIXED_LENGTH_BYTES => v.Bytes? && |v.data| == f.dataSize <= PB_SIZE_MAX
    case SUBMESSAGE => v.Message?
    case EXTENSION => false
  }

  predicate ValueMatches(f: Field, v: Value)
    decreases f, 0
  {
    && Holds(f, v)
    && (f.ltype.SUBMESSAGE? && f.ptr.Fields? ==>
          |v.slots| == SlotCount(f.ptr.fields) && MatchesFrom(f.ptr.fields, v.slots, 0))
  }

  predicate SlotMatches(f: Field, slot: Slot)
    decreases f, 1
  {
    && f.atype.STATIC? && f.arraySize <= PB_SIZE_MAX
    && match f.htype
       case REQUIRED => slot.Single? && ValueMatches(f, slot.v)
       case OPTIONAL => (if f.sizeOffset != 0 then slot.Opt? else slot.Single?) && ValueMatches(f, slot.v)
       case REPEATED =>
         f.sizeOffset != 0 && slot.Array? && forall j :: 0 <= j < |slot.items| ==> ValueMatches(f, slot.items[j])
       case ONEOF =>
         && f.sizeOffset != 0
         && (slot.NoMember? || (slot.Member? && slot.which != 0 && (slot.which == f.tag ==> ValueMatches(f, slot.v))))
  }

  /** The members from entry i on are laid out as the descriptor says. */
  predicate MatchesFrom(fs: seq<Field>, slots: seq<Slot>, i: nat)
    requires i <= |fs|
    decreases fs, |fs| - i
  {
    i == |fs|
    || (&& SlotOf(fs, i) < |slots|
        && SlotMatches(fs[i], slots[SlotOf(fs, i)])
        && MatchesFrom(fs, slots, i + 1))
  }

  /** The struct is laid out as its descriptor says, at every depth. */
  predicate Matches(fs: seq<Field>, slots: seq<Slot>)
    decreases fs, |fs| + 1
  {
    |slots| == SlotCount(fs) && MatchesFrom(fs, slots, 0)
  }

  // ---------------------------------------------------------------- descriptors a generator writes

  predicate FieldOk(f: Field)
    decreases f
  {
    && f.atype.STATIC?
    && 1 <= f.tag < 0x2000_0000 && f.tag <= PB_SIZE_MAX
    && f.dataSize <= PB_SIZE_MAX && f.arraySize <= PB_SIZE_MAX
    && !f.ltype.EXTENSION?
    && (f.ltype.VARINT? || f.ltype.UVARINT? || f.ltype.SVARINT? ==> IntSize(f.dataSize))
    && (f.htype.REPEATED? || f.htype.ONEOF? ==> f.sizeOffset != 0)
    && (f.ltype.SUBMESSAGE? ==> f.ptr.Fields? && DescriptorOk(f.ptr.fields))
  }

  predicate FieldsOk(fs: seq<Field>, i: nat)
    requires i <= |fs|
    decreases fs, |fs| - i
  {
    i == |fs| || (FieldOk(fs[i]) && FieldsOk(fs, i + 1))
  }

  predicate DistinctTags(fs: seq<Field>)
  {
    forall i, j :: 0 <= i < j < |fs| ==> fs[i].tag != fs[j].tag
  }

  /** Static fields of sizes a generator writes, with distinct tags, at every depth. */
  predicate DescriptorOk(fs: seq<Field>)
    decreases fs, |fs| + 1
  {
    DistinctTags(fs) && FieldsOk(fs, 0)
  }

  /** A field without a callback, an extension, allocated memory or a fixed count. Only the entry that ends a descriptor
      has tag 0. */
  predicate StaticField(f: Field)
    decreases f
  {
    && 0 < f.tag <= PB_SIZE_MAX && f.atype.STATIC? && !f.ltype.EXTENSION?
    && (f.htype.REPEATED? || f.htype.ONEOF? ==> f.sizeOffset != 0)
    && (f.ltype.SUBMESSAGE? && f.ptr.Fields? ==> StaticDescriptor(f.ptr.fields))
  }

  predicate StaticFrom(fs: seq<Field>, i: nat)
    requires i <= |fs|
    decreases fs, |fs| - i
  {
    i == |fs| || (StaticField(fs[i]) && StaticFrom(fs, i + 1))
  }

  /** Static fields with distinct tags, at every depth, whatever their sizes. */
  predicate StaticDescriptor(fs: seq<Field>)
    decreases fs, |fs| + 1
  {
    DistinctTags(fs) && StaticFrom(fs, 0)
  }

  lemma {:induction false} StaticAt(fs: seq<Field>, i: nat, j: nat)
    requires i <= j < |fs| && StaticFrom(fs, i)
    ensures StaticField(fs[j])
    decreases j - i
  {
    if i < j { StaticAt(fs, i + 1, j); }
  }

  lemma {:induction false} FieldIsStatic(f: Field)
    requires FieldOk(f)
    ensures StaticField(f)
    decreases f
  {
    if f.ltype.SUBMESSAGE? {
      FieldsAreStatic(f.ptr.fields, 0);
    }
  }

  lemma {:induction false} FieldsAreStatic(fs: seq<Field>, i: nat)
    requires i <= |fs| && FieldsOk(fs, i)
    ensures StaticFrom(fs, i)
    decreases fs, |fs| - i
  {
    if i == |fs| {
    } else {
      FieldIsStatic(fs[i]);
      FieldsAreStatic(fs, i + 1);
    }
  }

  // ---------------------------------------------------------------- strings

  /** What a char buffer of the given size holds as a C string: up to the first NUL, or the whole buffer. */
  function CString(data: seq<byte>): (s: seq<byte>)
    ensures |s| <= |data| && s == data[..|s|]
    ensures forall i :: 0 <= i < |s| ==> s[i] != 0
    ensures |s| < |data| ==> data[|s|] == 0
  {
    if data == [] || data[0] == 0 then [] else [data[0]] + CString(data[1..])
  }

  lemma {:induction false} CStringUnique(data: seq<byte>, n: nat)
    requires n <= |data| && (forall i :: 0 <= i < n ==> data[i] != 0) && (n < |data| ==> data[n] == 0)
    ensures CString(data) == data[..n]
  {
    if n == 0 {
    } else {
      CStringUnique(data[1..], n - 1);
    }
  }
}
