/** The cyclic descriptor iterator of pb_common.c. Its addresses are offsets from an arbitrary base. */
module PbCommon {
  import opened PbTypes

  /** PB_LAST_FIELD, the entry that ends a descriptor array. */
  const LAST_FIELD: Field := Field(0, STATIC, REQUIRED, BOOL, 0, 0, 0, 0, Null)

  /** sizeof(void*) */
  const PTR_SIZE: nat := 8

  function Entry(fs: seq<Field>, i: nat): Field
    requires i <= |fs|
  {
    if i < |fs| then fs[i] else LAST_FIELD
  }

  predicate TagsNonZero(fs: seq<Field>)
  {
    forall i :: 0 <= i < |fs| ==> fs[i].tag != 0
  }

  lemma NonZeroTags(fs: seq<Field>)
    requires StaticDescriptor(fs)
    ensures TagsNonZero(fs)
  {
    forall i | 0 <= i < |fs| ensures fs[i].tag != 0 { StaticAt(fs, 0, i); }
  }

  predicate Wanted(f: Field, tag: nat)
  {
    f.tag == tag && !f.ltype.EXTENSION?
  }

  // ---------------------------------------------------------------- what a walk from the start computes

  /** How much room a member takes in the struct. */
  function MemberSize(f: Field): nat
  {
    if f.atype.STATIC? && f.htype.REPEATED? then f.dataSize * f.arraySize
    else if f.atype.ALLOCATED? then PTR_SIZE
    else f.dataSize
  }

  function DataAt(fs: seq<Field>, base: int, i: nat): int
    requires i < |fs| || i == 0
  {
    if i == 0 then base + Entry(fs, 0).dataOffset
    else if SharesUnion(fs[i - 1], fs[i]) then DataAt(fs, base, i - 1)
    else DataAt(fs, base, i - 1) + MemberSize(fs[i - 1]) + fs[i].dataOffset
  }

  function SizeAt(fs: seq<Field>, base: int, i: nat): int
    requires i < |fs| || i == 0
  {
    if i > 0 && SharesUnion(fs[i - 1], fs[i]) then SizeAt(fs, base, i - 1)
    else DataAt(fs, base, i) + Entry(fs, i).sizeOffset
  }

  /** The descriptor was filled in by the PB_DATAOFFSET macros for members at these offsets of their struct. */
  ghost predicate LaidOut(fs: seq<Field>, offsets: seq<nat>)
  {
    && |offsets| == |fs|
    && (fs != [] ==> fs[0].dataOffset == offsets[0])
    && forall i :: 0 < i < |fs| ==>
         if SharesUnion(fs[i - 1], fs[i]) then offsets[i] == offsets[i - 1]
         else fs[i].dataOffset == offsets[i] - offsets[i - 1] - MemberSize(fs[i - 1])
  }

  /** The relative offsets of the descriptor lead back to the members, past arrays, allocated members and unions. */
  lemma {:induction false} WalkFindsMember(fs: seq<Field>, offsets: seq<nat>, base: int, i: nat)
    requires LaidOut(fs, offsets) && i < |fs|
    ensures DataAt(fs, base, i) == base + offsets[i]
  {
    if i == 0 {
    } else {
      WalkFindsMember(fs, offsets, base, i - 1);
    }
  }

  /** Inside a union the has- or count-address is the one of its first member, which_ being shared. */
  lemma {:induction false} WalkFindsSize(fs: seq<Field>, offsets: seq<nat>, base: int, i: nat)
    requires LaidOut(fs, offsets) && i < |fs|
    requires forall j :: 0 < j < |fs| && SharesUnion(fs[j - 1], fs[j]) ==> fs[j].sizeOffset == fs[j - 1].sizeOffset
    ensures SizeAt(fs, base, i) == base + offsets[i] + fs[i].sizeOffset
  {
    WalkFindsMember(fs, offsets, base, i);
    if i > 0 && SharesUnion(fs[i - 1], fs[i]) {
      WalkFindsSize(fs, offsets, base, i - 1);
    }
  }

  // ---------------------------------------------------------------- the iterator

  /** The entry d steps after p in cyclic order. */
  function Ahead(p: nat, d: nat, n: nat): nat
    requires p < n && d <= n
  {
    if p + d < n then p + d else p + d - n
  }

  /** d steps after p comes the first entry that is wanted. */
  ghost predicate FirstAhead(fs: seq<Field>, tag: nat, p: nat, d: nat)
    requires p < |fs|
  {
    && d < |fs|
    && Wanted(fs[Ahead(p, d, |fs|)], tag)
    && forall e: nat :: e < d ==> !Wanted(fs[Ahead(p, e, |fs|)], tag)
  }

  /** pb_field_iter_t. */
  class FieldIter {
    const start: seq<Field>
    const destStruct: int
    var pos: nat
    var requiredFieldIndex: nat
    var pData: int
    var pSize: int

    /** The whole state is a function of the position. */
    ghost predicate Valid()
      reads this
    {
      && TagsNonZero(start)
      && (if start == [] then pos == 0 else pos < |start|)
      && pData == DataAt(start, destStruct, pos)
      && pSize == SizeAt(start, destStruct, pos)
      && requiredFieldIndex == RequiredBefore(start, pos)
    }

    /** pb_field_iter_begin on a new iterator. */
    constructor (fields: seq<Field>, destStruct: int)
      requires TagsNonZero(fields)
      ensures Valid() && start == fields && this.destStruct == destStruct && pos == 0
    {
      start := fields;
      this.destStruct := destStruct;
      pos := 0;
      requiredFieldIndex := 0;
      pData := destStruct + Entry(fields, 0).dataOffset;
      pSize := destStruct + Entry(fields, 0).dataOffset + Entry(fields, 0).sizeOffset;
    }

    /** pb_field_iter_begin. */
    method Begin() returns (more: bool)
      requires TagsNonZero(start)
      modifies this
      ensures Valid() && pos == 0 && more == (start != [])
    {
      pos := 0;
      requiredFieldIndex := 0;
      pData := destStruct + Entry(start, 0).dataOffset;
      pSize := pData + Entry(start, 0).sizeOffset;
      more := Entry(start, 0).tag != 0;
    }

    /** pb_field_iter_next: one step in cyclic order, false when it wraps or there is nothing to step to. */
    method Next() returns (more: bool)
      requires Valid()
      modifies this
      ensures Valid()
      ensures pos == if start == [] then 0 else Ahead(old(pos), 1, |start|)
      ensures more <==> pos != 0
    {
      var prev := Entry(start, pos);
      if prev.tag == 0 {
        return false;
      }
      pos := pos + 1;
      if Entry(start, pos).tag == 0 {
        var begun := Begin();
        return false;
      }
      var prevSize := prev.dataSize;
      if prev.htype.ONEOF? && start[pos].htype.ONEOF? && start[pos].dataOffset == PB_SIZE_MAX {
        return true;
      } else if prev.atype.STATIC? && prev.htype.REPEATED? {
        prevSize := prevSize * prev.arraySize;
      } else if prev.atype.ALLOCATED? {
        prevSize := PTR_SIZE;
      }
      if prev.htype.REQUIRED? {
        requiredFieldIndex := requiredFieldIndex + 1;
      }
      pData := pData + prevSize + start[pos].dataOffset;
      pSize := pData + start[pos].sizeOffset;
      return true;
    }

    /** pb_field_iter_find: stops within one cycle, at the first wanted entry from the current one on;
        otherwise the iterator is back where it was. On an empty descriptor tag 0 matches the end entry. */
    method Find(tag: nat) returns (found: bool)
      requires Valid()
      modifies this
      ensures Valid()
      ensures start == [] ==> (found <==> tag == 0)
      ensures start != [] ==> (found <==> exists i :: 0 <= i < |start| && Wanted(start[i], tag))
      ensures !found ==> pos == old(pos)
      ensures found && start != [] ==> Wanted(start[pos], tag)
      ensures found && start != [] ==>
        exists d: nat :: FirstAhead(start, tag, old(pos), d) && pos == Ahead(old(pos), d, |start|)
    {
      var from := pos;
      ghost var n := |start|;
      ghost var d: nat := 0;
      while true
        invariant Valid()
        invariant start != [] ==> d < n && pos == Ahead(from, d, n)
        invariant start != [] ==> forall e: nat :: e < d ==> !Wanted(start[Ahead(from, e, n)], tag)
        invariant start == [] ==> d == 0
        decreases n - d
      {
        if Entry(start, pos).tag == tag && !Entry(start, pos).ltype.EXTENSION? {
          assert start != [] ==> FirstAhead(start, tag, from, d);
          return true;
        }
        var more := Next();
        if pos == from {
          break;
        }
        d := d + 1;
      }
      forall i | 0 <= i < n ensures !Wanted(start[i], tag) {
        assert i == Ahead(from, if i >= from then i - from else i + n - from, n);
      }
      return false;
    }
  }
}
