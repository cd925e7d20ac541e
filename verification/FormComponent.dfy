/** Alamofire's form encoder up to its tree of components: the containers write each string at its coding path into a
    shared context, and the writes are to build the tree of the value that was encoded. */
module FormComponent {
  import opened Bits
  import opened KeyEncoding

  /** URLEncodedFormComponent. */
  datatype Component = Str(text: Text) | Arr(elements: seq<Component>) | Obj(members: seq<Member>)

  datatype Member = Member(key: Text, value: Component)

  /** A CodingKey. Negative integer keys are not part of this model. */
  datatype Key = Key(stringValue: Text, intValue: Option<nat>)

  // ---------------------------------------------------------------- writing at a path

  /** The index of the first member with the key, or the number of members. */
  function Position(members: seq<Member>, key: Text): (r: nat)
    ensures r <= |members| && (r < |members| ==> members[r].key == key)
    ensures forall j :: 0 <= j < r ==> members[j].key != key
  {
    if members == [] || members[0].key == key then 0 else 1 + Position(members[1..], key)
  }

  /** What is under the key, or an empty container of the key's own kind. */
  function Child(context: Component, key: Key): Component
  {
    match key.intValue
    case Some(index) => if context.Arr? && index < |context.elements| then context.elements[index] else Arr([])
    case None =>
      if context.Obj? && Position(context.members, key.stringValue) < |context.members|
      then context.members[Position(context.members, key.stringValue)].value
      else Obj([])
  }

  function PutElement(elements: seq<Component>, index: nat, child: Component): seq<Component>
  {
    if index < |elements| then elements[index := child] else elements + [child]
  }

  function PutMember(members: seq<Member>, key: Text, child: Component): seq<Member>
  {
    var i := Position(members, key);
    if i < |members| then members[i := Member(key, child)] else members + [Member(key, child)]
  }

  /** Replaces what is under the key, or appends; a context of the other kind is thrown away. */
  function Put(context: Component, key: Key, child: Component): Component
  {
    match key.intValue
    case Some(index) => Arr(PutElement(if context.Arr? then context.elements else [], index, child))
    case None => Obj(PutMember(if context.Obj? then context.members else [], key.stringValue, child))
  }

  function SetAt(context: Component, value: Component, path: seq<Key>): Component
    decreases |path|
  {
    if path == [] then value else Put(context, path[0], SetAt(Child(context, path[0]), value, path[1..]))
  }

  /** The recursive set; context is passed in and out. */
  method Set(context: Component, value: Component, path: seq<Key>) returns (result: Component)
    ensures result == SetAt(context, value, path)
    decreases |path|
  {
    if |path| < 1 {
      return value;
    }
    var end := path[0];
    var child;
    if |path| == 1 {
      child := value;
    } else if end.intValue.Some? {
      var elements := if context.Arr? then context.elements else [];
      if |elements| > end.intValue.value {
        child := elements[end.intValue.value];
      } else {
        child := Arr([]);
      }
      child := Set(child, value, path[1..]);
    } else {
      child := Obj([]);
      if context.Obj? && Position(context.members, end.stringValue) < |context.members| {
        child := context.members[Position(context.members, end.stringValue)].value;
      }
      child := Set(child, value, path[1..]);
    }

    if end.intValue.Some? {
      var index := end.intValue.value;
      if context.Arr? {
        var elements := context.elements;
        if |elements| > index {
          elements := elements[index := child];
        } else {
          elements := elements + [child];
        }
        return Arr(elements);
      }
      return Arr([child]);
    }
    if context.Obj? {
      var members := context.members;
      var index := Position(members, end.stringValue);
      if index < |members| {
        members := members[index := Member(end.stringValue, child)];
      } else {
        members := members + [Member(end.stringValue, child)];
      }
      return Obj(members);
    }
    return Obj([Member(end.stringValue, child)]);
  }

  // ---------------------------------------------------------------- values and the writes they give rise to

  /** A value as its encode(to:) walks through it. */
  datatype Value = Leaf(text: Text) | List(elements: seq<Value>) | Record(entries: seq<Entry>) | Nil

  datatype Entry = Entry(key: Key, value: Value)

  predicate NoNil(value: Value)
  {
    match value
    case Leaf(_) => true
    case List(elements) => forall i :: 0 <= i < |elements| ==> NoNil(elements[i])
    case Record(entries) => forall i :: 0 <= i < |entries| ==> NoNil(entries[i].value)
    case Nil => false
  }

  function Decimal(n: nat): Text
  {
    (if n < 10 then [] else Decimal(n / 10)) + [('0' as int + n % 10) as char]
  }

  /** AnyCodingKey(intValue:). */
  function Index(n: nat): Key
  {
    Key(Decimal(n), Some(n))
  }

  datatype Write = Write(path: seq<Key>, text: Text)

  /** The same writes below a path. */
  function At(path: seq<Key>, writes: seq<Write>): seq<Write>
  {
    if writes == [] then [] else [Write(path + writes[0].path, writes[0].text)] + At(path, writes[1..])
  }

  /** The writes of a value, with paths relative to it. A nil ends the encoding. */
  function Writes(value: Value): seq<Write>
    decreases value
  {
    match value
    case Leaf(text) => [Write([], text)]
    case List(elements) => ElementWrites(elements, 0)
    case Record(entries) => EntryWrites(entries)
    case Nil => []
  }

  function ElementWrites(elements: seq<Value>, count: nat): seq<Write>
    decreases elements
  {
    if elements == [] then []
    else At([Index(count)], Writes(elements[0])) + if NoNil(elements[0]) then ElementWrites(elements[1..], count + 1)
      else []
  }

  function OneEntryWrites(entry: Entry): seq<Write>
    decreases entry
  {
    At([entry.key], Writes(entry.value))
  }

  function EntryWrites(entries: seq<Entry>): seq<Write>
    decreases entries
  {
    if entries == [] then []
    else OneEntryWrites(entries[0]) + if NoNil(entries[0].value) then EntryWrites(entries[1..]) else []
  }

  function Apply(context: Component, writes: seq<Write>): Component
    decreases |writes|
  {
    if writes == [] then context else Apply(SetAt(context, Str(writes[0].text), writes[0].path), writes[1..])
  }

  /** The tree that the writes of a value build in a new context. */
  function Built(value: Value): Component
  {
    Apply(Obj([]), Writes(value))
  }

  /** The tree of a value. */
  function ComponentOf(value: Value): Component
    requires NoNil(value)
    decreases value
  {
    match value
    case Leaf(text) => Str(text)
    case List(elements) => Arr(ElementsOf(elements))
    case Record(entries) => Obj(MembersOf(entries))
  }

  function ElementsOf(elements: seq<Value>): (r: seq<Component>)
    requires forall i :: 0 <= i < |elements| ==> NoNil(elements[i])
    ensures |r| == |elements| && forall i :: 0 <= i < |r| ==> r[i] == ComponentOf(elements[i])
    decreases elements
  {
    if elements == [] then [] else [ComponentOf(elements[0])] + ElementsOf(elements[1..])
  }

  function MemberOf(entry: Entry): Member
    requires NoNil(entry.value)
    decreases entry
  {
    Member(entry.key.stringValue, ComponentOf(entry.value))
  }

  function MembersOf(entries: seq<Entry>): (r: seq<Member>)
    requires forall i :: 0 <= i < |entries| ==> NoNil(entries[i].value)
    ensures |r| == |entries| && forall i :: 0 <= i < |r| ==> r[i] == MemberOf(entries[i])
    decreases entries
  {
    if entries == [] then [] else [MemberOf(entries[0])] + MembersOf(entries[1..])
  }

  lemma {:induction false} ApplyConcat(context: Component, a: seq<Write>, b: seq<Write>)
    ensures Apply(context, a + b) == Apply(Apply(context, a), b)
    decreases |a|
  {
    if a == [] {
      assert a + b == b;
    } else {
      assert (a + b)[0] == a[0] && (a + b)[1..] == a[1..] + b;
      ApplyConcat(SetAt(context, Str(a[0].text), a[0].path), a[1..], b);
    }
  }

  lemma {:induction false} AtConcat(path: seq<Key>, a: seq<Write>, b: seq<Write>)
    ensures At(path, a + b) == At(path, a) + At(path, b)
  {
    if a == [] {
      assert a + b == b;
    } else {
      assert (a + b)[0] == a[0] && (a + b)[1..] == a[1..] + b;
      AtConcat(path, a[1..], b);
    }
  }

  lemma {:induction false} AtAt(p: seq<Key>, q: seq<Key>, writes: seq<Write>)
    ensures At(p, At(q, writes)) == At(p + q, writes)
  {
    if writes == [] {
    } else {
      AtAt(p, q, writes[1..]);
      assert At(q, writes)[1..] == At(q, writes[1..]);
      assert p + (q + writes[0].path) == p + q + writes[0].path;
    }
  }

  lemma {:induction false} AtNowhere(writes: seq<Write>)
    ensures At([], writes) == writes
  {
    if writes == [] {
    } else {
      AtNowhere(writes[1..]);
      assert [] + writes[0].path == writes[0].path;
    }
  }

  // ---------------------------------------------------------------- the containers

  /** URLEncodedFormContext. */
  class Context {
    var component: Component

    constructor (component: Component)
      ensures this.component == component
    {
      this.component := component;
    }

    method SetTo(value: Component, path: seq<Key>)
      modifies this
      ensures component == SetAt(old(component), value, path)
    {
      component := Set(component, value, path);
    }
  }

  class SingleValueContainer {
    const context: Context
    const codingPath: seq<Key>
    var canEncodeNewValue: bool

    constructor (context: Context, codingPath: seq<Key>)
      ensures this.context == context && this.codingPath == codingPath && canEncodeNewValue
    {
      this.context, this.codingPath, canEncodeNewValue := context, codingPath, true;
    }

    /** encode(_:as:): a second value through the same container is an error. */
    method EncodeText(text: Text) returns (ok: bool)
      modifies this, context
      ensures ok == old(canEncodeNewValue) && !canEncodeNewValue
      ensures context.component == if ok then SetAt(old(context.component), Str(text), codingPath)
        else old(context.component)
    {
      if !canEncodeNewValue {
        return false;
      }
      context.SetTo(Str(text), codingPath);
      canEncodeNewValue := false;
      return true;
    }

    /** attemptToEncode. */
    method Encode(value: Value) returns (ok: bool)
      modifies this, context
      ensures ok == (old(canEncodeNewValue) && NoNil(value)) && !canEncodeNewValue
      ensures context.component == if old(canEncodeNewValue)
        then Apply(old(context.component), At(codingPath, Writes(value))) else old(context.component)
      decreases value, 1
    {
      if !canEncodeNewValue {
        return false;
      }
      canEncodeNewValue := false;
      ok := EncodeTo(value, context, codingPath);
    }
  }

  class KeyedContainer {
    const context: Context
    const codingPath: seq<Key>

    constructor (context: Context, codingPath: seq<Key>)
      ensures this.context == context && this.codingPath == codingPath
    {
      this.context, this.codingPath := context, codingPath;
    }

    method Encode(value: Value, key: Key) returns (ok: bool)
      modifies context
      ensures ok == NoNil(value)
      ensures context.component == Apply(old(context.component), At(codingPath + [key], Writes(value)))
      decreases value, 2
    {
      var container := new SingleValueContainer(context, codingPath + [key]);
      ok := container.Encode(value);
    }
  }

  class UnkeyedContainer {
    const context: Context
    const codingPath: seq<Key>
    var count: nat

    constructor (context: Context, codingPath: seq<Key>)
      ensures this.context == context && this.codingPath == codingPath && count == 0
    {
      this.context, this.codingPath, count := context, codingPath, 0;
    }

    method Encode(value: Value) returns (ok: bool)
      modifies this, context
      ensures ok == NoNil(value) && count == old(count) + 1
      ensures context.component == Apply(old(context.component), At(codingPath + [Index(old(count))], Writes(value)))
      decreases value, 2
    {
      var container := new SingleValueContainer(context, codingPath + [Index(count)]);
      count := count + 1;
      ok := container.Encode(value);
    }
  }

  /** encode(to:) of strings, arrays, dictionaries and structs, with an encoder at the path: it fails exactly when a nil
      is met, and otherwise makes the value's writes. */
  method EncodeTo(value: Value, context: Context, codingPath: seq<Key>) returns (ok: bool)
    modifies context
    ensures ok == NoNil(value)
    ensures context.component == Apply(old(context.component), At(codingPath, Writes(value)))
    decreases value, 0
  {
    match value {
      case Leaf(text) =>
        var container := new SingleValueContainer(context, codingPath);
        ok := container.EncodeText(text);
        assert codingPath + [] == codingPath;
        assert At(codingPath, [Write([], text)])[1..] == [];
      case Nil =>
        ok := false;
      case List(elements) =>
        ok := EncodeElements(elements, context, codingPath);
      case Record(entries) =>
        ok := EncodeEntries(entries, context, codingPath);
    }
  }

  method EncodeElements(elements: seq<Value>, context: Context, codingPath: seq<Key>) returns (ok: bool)
    modifies context
    ensures ok == forall i :: 0 <= i < |elements| ==> NoNil(elements[i])
    ensures context.component == Apply(old(context.component), At(codingPath, ElementWrites(elements, 0)))
    decreases elements
  {
    var container := new UnkeyedContainer(context, codingPath);
    var i := 0;
    while i < |elements|
      invariant 0 <= i <= |elements| && container.count == i && fresh(container)
      invariant forall j :: 0 <= j < i ==> NoNil(elements[j])
      invariant Apply(context.component, At(codingPath, ElementWrites(elements[i..], i)))
        == Apply(old(context.component), At(codingPath, ElementWrites(elements, 0)))
    {
      ghost var before := context.component;
      ok := container.Encode(elements[i]);
      assert elements[i..][0] == elements[i] && elements[i..][1..] == elements[i + 1..];
      ghost var rest := if ok then ElementWrites(elements[i + 1..], i + 1) else [];
      ApplyBelow(before, codingPath, Index(i), Writes(elements[i]), rest);
      if !ok {
        return;
      }
      i := i + 1;
    }
    assert elements[i..] == [];
    ok := true;
  }

  method EncodeEntries(entries: seq<Entry>, context: Context, codingPath: seq<Key>) returns (ok: bool)
    modifies context
    ensures ok == forall i :: 0 <= i < |entries| ==> NoNil(entries[i].value)
    ensures context.component == Apply(old(context.component), At(codingPath, EntryWrites(entries)))
    decreases entries
  {
    var container := new KeyedContainer(context, codingPath);
    var i := 0;
    while i < |entries|
      invariant 0 <= i <= |entries| && fresh(container)
      invariant forall j :: 0 <= j < i ==> NoNil(entries[j].value)
      invariant Apply(context.component, At(codingPath, EntryWrites(entries[i..])))
        == Apply(old(context.component), At(codingPath, EntryWrites(entries)))
    {
      ghost var before := context.component;
      assert (entries decreases to entries[i]);
      ok := container.Encode(entries[i].value, entries[i].key);
      assert entries[i..][0] == entries[i] && entries[i..][1..] == entries[i + 1..];
      ghost var rest := if ok then EntryWrites(entries[i + 1..]) else [];
      ApplyBelow(before, codingPath, entries[i].key, Writes(entries[i].value), rest);
      if !ok {
        return;
      }
      i := i + 1;
    }
    assert entries[i..] == [];
    ok := true;
  }

  lemma ApplyBelow(context: Component, path: seq<Key>, key: Key, writes: seq<Write>, rest: seq<Write>)
    ensures Apply(context, At(path, At([key], writes) + rest))
      == Apply(Apply(context, At(path + [key], writes)), At(path, rest))
  {
    AtConcat(path, At([key], writes), rest);
    AtAt(path, [key], writes);
    ApplyConcat(context, At(path + [key], writes), At(path, rest));
  }

  /** encode(_:) of the encoder, up to the component. */
  method EncodeComponent(value: Value) returns (component: Option<Component>)
    ensures component == if NoNil(value) then Some(Built(value)) else None
  {
    var context := new Context(Obj([]));
    var ok := EncodeTo(value, context, []);
    AtNowhere(Writes(value));
    component := if ok then Some(context.component) else None;
  }

  // ---------------------------------------------------------------- writes below one key

  /** A second write under the key meets what the first one put there. */
  predicate Stable(context: Component, key: Key)
  {
    key.intValue.Some? ==> key.intValue.value <= if context.Arr? then |context.elements| else 0
  }

  lemma PositionAfterPut(members: seq<Member>, key: Text, child: Component)
    ensures var i := Position(members, key);
      i < |PutMember(members, key, child)| && Position(PutMember(members, key, child), key) == i
  {
    var i, after := Position(members, key), PutMember(members, key, child);
    FirstAt(after, key, i);
  }

  lemma {:induction false} FirstAt(members: seq<Member>, key: Text, i: nat)
    requires i < |members| && members[i].key == key && forall j :: 0 <= j < i ==> members[j].key != key
    ensures Position(members, key) == i
  {
    if i == 0 {
    } else {
      FirstAt(members[1..], key, i - 1);
    }
  }

  lemma PutMemberTwice(members: seq<Member>, key: Text, x: Component, y: Component)
    ensures PutMember(PutMember(members, key, x), key, y) == PutMember(members, key, y)
    ensures var i := Position(PutMember(members, key, x), key);
      i < |PutMember(members, key, x)| && PutMember(members, key, x)[i].value == x
  {
    PositionAfterPut(members, key, x);
  }

  lemma PutPut(context: Component, key: Key, x: Component, y: Component)
    requires Stable(context, key)
    ensures Child(Put(context, key, x), key) == x && Put(Put(context, key, x), key, y) == Put(context, key, y)
  {
    if key.intValue.None? {
      PutMemberTwice(if context.Obj? then context.members else [], key.stringValue, x, y);
    }
  }

  lemma SetBelow(context: Component, key: Key, text: Text, path: seq<Key>)
    ensures SetAt(context, Str(text), [key] + path) == Put(context, key, SetAt(Child(context, key), Str(text), path))
  {
    assert ([key] + path)[1..] == path;
  }

  lemma {:induction false} ApplyAfterPut(context: Component, key: Key, x: Component, writes: seq<Write>)
    requires Stable(context, key)
    ensures Apply(Put(context, key, x), At([key], writes)) == Put(context, key, Apply(x, writes))
    decreases |writes|
  {
    if writes == [] {
    } else {
      var next := SetAt(x, Str(writes[0].text), writes[0].path);
      SetBelow(Put(context, key, x), key, writes[0].text, writes[0].path);
      PutPut(context, key, x, next);
      assert At([key], writes)[1..] == At([key], writes[1..]);
      ApplyAfterPut(context, key, next, writes[1..]);
    }
  }

  /** All writes below one key together replace what is under it by what they make of it. */
  lemma ApplyUnder(context: Component, key: Key, writes: seq<Write>)
    requires Stable(context, key) && writes != []
    ensures Apply(context, At([key], writes)) == Put(context, key, Apply(Child(context, key), writes))
  {
    SetBelow(context, key, writes[0].text, writes[0].path);
    assert At([key], writes)[1..] == At([key], writes[1..]);
    ApplyAfterPut(context, key, SetAt(Child(context, key), Str(writes[0].text), writes[0].path), writes[1..]);
  }

  /** Whether the first write meets an empty array or an empty object makes no difference. */
  lemma ApplyToEmpty(writes: seq<Write>)
    requires writes != []
    ensures Apply(Arr([]), writes) == Apply(Obj([]), writes)
  {
  }

  // ---------------------------------------------------------------- when the writes build the tree

  predicate DistinctKeys(entries: seq<Entry>)
  {
    forall i, j :: 0 <= i < j < |entries| ==> entries[i].key.stringValue != entries[j].key.stringValue
  }

  predicate NoIntegerKeys(entries: seq<Entry>)
  {
    forall i :: 0 <= i < |entries| ==> entries[i].key.intValue.None?
  }

  /** No empty container, and in each record distinct keys none of which is an integer. */
  predicate Clean(value: Value)
  {
    match value
    case Leaf(_) => true
    case Nil => false
    case List(elements) => elements != [] && forall i :: 0 <= i < |elements| ==> Clean(elements[i])
    case Record(entries) =>
      && entries != [] && DistinctKeys(entries) && NoIntegerKeys(entries)
      && forall i :: 0 <= i < |entries| ==> Clean(entries[i].value)
  }

  function BuiltElements(elements: seq<Value>): (r: seq<Component>)
    ensures |r| == |elements| && forall i :: 0 <= i < |r| ==> r[i] == Built(elements[i])
  {
    if elements == [] then [] else [Built(elements[0])] + BuiltElements(elements[1..])
  }

  function BuiltMembers(entries: seq<Entry>): (r: seq<Member>)
    ensures |r| == |entries| && forall i :: 0 <= i < |r| ==>
      r[i] == Member(entries[i].key.stringValue, Built(entries[i].value))
  {
    if entries == [] then []
    else [Member(entries[0].key.stringValue, Built(entries[0].value))] + BuiltMembers(entries[1..])
  }

  lemma BuildElement(done: seq<Component>, element: Value)
    requires Writes(element) != []
    ensures Apply(Arr(done), At([Index(|done|)], Writes(element))) == Arr(done + [Built(element)])
  {
    ApplyUnder(Arr(done), Index(|done|), Writes(element));
    ApplyToEmpty(Writes(element));
  }

  /** A list whose elements all hold a string is built element by element. */
  lemma {:induction false} BuildElements(done: seq<Component>, elements: seq<Value>)
    requires forall i :: 0 <= i < |elements| ==> Writes(elements[i]) != [] && NoNil(elements[i])
    ensures Apply(Arr(done), ElementWrites(elements, |done|)) == Arr(done + BuiltElements(elements))
    decreases |elements|
  {
    if elements == [] {
      assert done + [] == done;
    } else {
      var built, rest := Built(elements[0]), BuiltElements(elements[1..]);
      var first, tail := At([Index(|done|)], Writes(elements[0])), ElementWrites(elements[1..], |done| + 1);
      calc {
        Apply(Arr(done), first + tail);
        { ApplyConcat(Arr(done), first, tail); BuildElement(done, elements[0]); }
        Apply(Arr(done + [built]), tail);
        { BuildElements(done + [built], elements[1..]); }
        Arr(done + [built] + rest);
        { assert done + [built] + rest == done + ([built] + rest); }
        Arr(done + ([built] + rest));
      }
    }
  }

  lemma BuildMember(done: seq<Member>, entry: Entry)
    requires entry.key.intValue.None? && Writes(entry.value) != []
    requires forall i :: 0 <= i < |done| ==> done[i].key != entry.key.stringValue
    ensures Apply(Obj(done), OneEntryWrites(entry)) == Obj(done + [Member(entry.key.stringValue, Built(entry.value))])
  {
    ApplyUnder(Obj(done), entry.key, Writes(entry.value));
    assert Position(done, entry.key.stringValue) == |done|;
  }

  /** A record whose entries all hold a string, under distinct keys that are not integers, is built entry by entry. */
  lemma {:induction false} BuildMembers(done: seq<Member>, entries: seq<Entry>)
    requires DistinctKeys(entries) && NoIntegerKeys(entries)
    requires forall i :: 0 <= i < |entries| ==> Writes(entries[i].value) != [] && NoNil(entries[i].value)
    requires forall i, j :: 0 <= i < |done| && 0 <= j < |entries| ==> done[i].key != entries[j].key.stringValue
    ensures Apply(Obj(done), EntryWrites(entries)) == Obj(done + BuiltMembers(entries))
    decreases |entries|
  {
    if entries == [] {
      assert done + [] == done;
    } else {
      var member, rest := Member(entries[0].key.stringValue, Built(entries[0].value)), BuiltMembers(entries[1..]);
      var first, tail := OneEntryWrites(entries[0]), EntryWrites(entries[1..]);
      calc {
        Apply(Obj(done), first + tail);
        { ApplyConcat(Obj(done), first, tail); BuildMember(done, entries[0]); }
        Apply(Obj(done + [member]), tail);
        { BuildMembers(done + [member], entries[1..]); }
        Obj(done + [member] + rest);
        { assert done + [member] + rest == done + ([member] + rest); }
        Obj(done + ([member] + rest));
      }
    }
  }

  lemma {:induction false} CleanWrites(value: Value)
    requires Clean(value)
    ensures Writes(value) != [] && NoNil(value)
    decreases value
  {
    match value {
      case Leaf(_) =>
      case List(elements) =>
        forall i | 0 <= i < |elements| ensures Writes(elements[i]) != [] && NoNil(elements[i]) {
          CleanWrites(elements[i]);
        }
        AtLength([Index(0)], Writes(elements[0]));
      case Record(entries) =>
        forall i | 0 <= i < |entries| ensures Writes(entries[i].value) != [] && NoNil(entries[i].value) {
          assert (entries decreases to entries[i]);
          CleanWrites(entries[i].value);
        }
        AtLength([entries[0].key], Writes(entries[0].value));
        assert OneEntryWrites(entries[0]) != [];
    }
  }

  lemma {:induction false} AtLength(path: seq<Key>, writes: seq<Write>)
    ensures |At(path, writes)| == |writes|
  {
    if writes == [] {
    } else {
      AtLength(path, writes[1..]);
    }
  }

  lemma {:induction false} ListIsBuilt(elements: seq<Value>)
    requires elements != [] && forall i :: 0 <= i < |elements| ==> Writes(elements[i]) != [] && NoNil(elements[i])
    ensures Built(List(elements)) == Arr(BuiltElements(elements))
  {
    AtLength([Index(0)], Writes(elements[0]));
    ApplyToEmpty(ElementWrites(elements, 0));
    BuildElements([], elements);
    assert [] + BuiltElements(elements) == BuiltElements(elements);
  }

  lemma {:induction false} RecordIsBuilt(entries: seq<Entry>)
    requires DistinctKeys(entries) && NoIntegerKeys(entries)
    requires forall i :: 0 <= i < |entries| ==> Writes(entries[i].value) != [] && NoNil(entries[i].value)
    ensures Built(Record(entries)) == Obj(BuiltMembers(entries))
  {
    var members := BuiltMembers(entries);
    assert Apply(Obj([]), EntryWrites(entries)) == Obj([] + members) by {
      BuildMembers([], entries);
    }
    assert [] + members == members;
  }

  lemma {:induction false} CleanIsBuilt(value: Value)
    requires Clean(value) && NoNil(value)
    ensures Built(value) == ComponentOf(value)
    decreases value
  {
    match value {
      case Leaf(text) =>
        var writes := [Write([], text)];
        assert Writes(value) == writes && writes[1..] == [];
        assert Apply(Obj([]), writes) == Apply(Str(text), []);
      case List(elements) =>
        forall i | 0 <= i < |elements|
          ensures Writes(elements[i]) != [] && Built(elements[i]) == ComponentOf(elements[i])
        {
          CleanWrites(elements[i]);
          CleanIsBuilt(elements[i]);
        }
        ListIsBuilt(elements);
        assert BuiltElements(elements) == ElementsOf(elements);
      case Record(entries) =>
        forall i | 0 <= i < |entries|
          ensures Writes(entries[i].value) != [] && Built(entries[i].value) == ComponentOf(entries[i].value)
        {
          assert (entries decreases to entries[i]);
          CleanWrites(entries[i].value);
          CleanIsBuilt(entries[i].value);
        }
        RecordIsBuilt(entries);
        assert BuiltMembers(entries) == MembersOf(entries);
    }
  }

  // ---------------------------------------------------------------- and when they do not

  /** No container is empty and no object has a key twice: what writes alone can build. */
  predicate WellBuilt(component: Component)
  {
    match component
    case Str(_) => true
    case Arr(elements) => elements != [] && forall i :: 0 <= i < |elements| ==> WellBuilt(elements[i])
    case Obj(members) =>
      && members != [] && DistinctMembers(members)
      && forall i :: 0 <= i < |members| ==> WellBuilt(members[i].value)
  }

  predicate DistinctMembers(members: seq<Member>)
  {
    forall i, j :: 0 <= i < j < |members| ==> members[i].key != members[j].key
  }

  predicate Ready(component: Component)
  {
    component == Arr([]) || component == Obj([]) || WellBuilt(component)
  }

  lemma PutIsWellBuilt(context: Component, key: Key, child: Component)
    requires Ready(context) && WellBuilt(child)
    ensures WellBuilt(Put(context, key, child)) && Ready(Child(context, key))
  {
  }

  lemma {:induction false} SetIsWellBuilt(context: Component, text: Text, path: seq<Key>)
    requires Ready(context)
    ensures WellBuilt(SetAt(context, Str(text), path))
    decreases |path|
  {
    if path == [] {
    } else {
      PutIsWellBuilt(context, path[0], Str(text));
      SetIsWellBuilt(Child(context, path[0]), text, path[1..]);
      PutIsWellBuilt(context, path[0], SetAt(Child(context, path[0]), Str(text), path[1..]));
    }
  }

  /** Whatever is written, in whatever order, what is built has no empty container and no key twice. */
  lemma {:induction false} ApplyIsWellBuilt(context: Component, writes: seq<Write>)
    requires Ready(context) && writes != []
    ensures WellBuilt(Apply(context, writes))
    decreases |writes|
  {
    SetIsWellBuilt(context, writes[0].text, writes[0].path);
    if |writes| > 1 {
      ApplyIsWellBuilt(SetAt(context, Str(writes[0].text), writes[0].path), writes[1..]);
    } else {
      assert writes[1..] == [];
    }
  }

  /** How many keys are no integers. */
  function Names(entries: seq<Entry>): nat
  {
    if entries == [] then 0 else (if entries[0].key.intValue.None? then 1 else 0) + Names(entries[1..])
  }

  function MemberCount(component: Component): nat
  {
    if component.Obj? then |component.members| else 0
  }

  lemma {:induction false} IndexMakesArray(context: Component, key: Key, writes: seq<Write>)
    requires key.intValue.Some? && (context.Arr? || writes != [])
    ensures Apply(context, At([key], writes)).Arr?
    decreases |writes|
  {
    if writes == [] {
    } else {
      SetBelow(context, key, writes[0].text, writes[0].path);
      assert At([key], writes)[1..] == At([key], writes[1..]);
      IndexMakesArray(SetAt(context, Str(writes[0].text), [key] + writes[0].path), key, writes[1..]);
    }
  }

  lemma EntryAddsAtMostOne(context: Component, entry: Entry)
    ensures MemberCount(Apply(context, OneEntryWrites(entry)))
      <= MemberCount(context) + (if entry.key.intValue.None? then 1 else 0)
  {
    if Writes(entry.value) != [] {
      if entry.key.intValue.None? {
        ApplyUnder(context, entry.key, Writes(entry.value));
      } else {
        IndexMakesArray(context, entry.key, Writes(entry.value));
      }
    }
  }

  /** A record gives an object no more members than it has keys that are no integers. */
  lemma {:induction false} MembersAreNames(context: Component, entries: seq<Entry>)
    ensures MemberCount(Apply(context, EntryWrites(entries))) <= MemberCount(context) + Names(entries)
    decreases |entries|
  {
    if entries == [] {
    } else {
      var next := Apply(context, OneEntryWrites(entries[0]));
      var rest := if NoNil(entries[0].value) then EntryWrites(entries[1..]) else [];
      ApplyConcat(context, OneEntryWrites(entries[0]), rest);
      EntryAddsAtMostOne(context, entries[0]);
      MembersAreNames(next, entries[1..]);
    }
  }

  lemma {:induction false} AllAreNames(entries: seq<Entry>)
    ensures Names(entries) <= |entries| && (Names(entries) == |entries| ==> NoIntegerKeys(entries))
  {
    if entries == [] {
    } else {
      AllAreNames(entries[1..]);
      assert forall i :: 1 <= i < |entries| ==> entries[i] == entries[1..][i - 1];
    }
  }

  /** A tree without empty containers is that of a value with at least one string in it. */
  lemma {:induction false} WellBuiltWrites(value: Value)
    requires NoNil(value) && WellBuilt(ComponentOf(value))
    ensures Writes(value) != []
    decreases value
  {
    match value {
      case Leaf(_) =>
      case List(elements) =>
        assert ElementsOf(elements)[0] == ComponentOf(elements[0]);
        WellBuiltWrites(elements[0]);
        AtLength([Index(0)], Writes(elements[0]));
      case Record(entries) =>
        assert MembersOf(entries)[0] == MemberOf(entries[0]);
        assert (entries decreases to entries[0]);
        WellBuiltWrites(entries[0].value);
        AtLength([entries[0].key], Writes(entries[0].value));
        assert OneEntryWrites(entries[0]) != [];
    }
  }

  lemma BuiltRecordIsClean(entries: seq<Entry>)
    requires NoNil(Record(entries)) && WellBuilt(ComponentOf(Record(entries)))
    requires Built(Record(entries)) == ComponentOf(Record(entries))
    ensures entries != [] && DistinctKeys(entries) && NoIntegerKeys(entries)
  {
    var members := MembersOf(entries);
    forall i, j | 0 <= i < j < |entries| ensures entries[i].key.stringValue != entries[j].key.stringValue {
      assert members[i].key != members[j].key;
    }
    MembersAreNames(Obj([]), entries);
    AllAreNames(entries);
  }

  lemma {:induction false} BuiltIsClean(value: Value)
    requires NoNil(value) && WellBuilt(ComponentOf(value)) && Built(value) == ComponentOf(value)
    ensures Clean(value)
    decreases value
  {
    match value {
      case Leaf(_) =>
      case List(elements) =>
        forall i | 0 <= i < |elements| ensures WellBuilt(ComponentOf(elements[i])) && Writes(elements[i]) != [] {
          assert ElementsOf(elements)[i] == ComponentOf(elements[i]);
          WellBuiltWrites(elements[i]);
        }
        ListIsBuilt(elements);
        forall i | 0 <= i < |elements| ensures Clean(elements[i]) {
          assert BuiltElements(elements)[i] == ElementsOf(elements)[i];
          BuiltIsClean(elements[i]);
        }
      case Record(entries) =>
        BuiltRecordIsClean(entries);
        forall i | 0 <= i < |entries|
          ensures WellBuilt(ComponentOf(entries[i].value)) && Writes(entries[i].value) != []
        {
          assert MembersOf(entries)[i] == MemberOf(entries[i]);
          WellBuiltWrites(entries[i].value);
        }
        RecordIsBuilt(entries);
        forall i | 0 <= i < |entries| ensures Clean(entries[i].value) {
          assert BuiltMembers(entries)[i] == MembersOf(entries)[i] == MemberOf(entries[i]);
          assert (entries decreases to entries[i]);
          BuiltIsClean(entries[i].value);
        }
    }
  }

  /** Path writes build the right tree: the writes of a value give its own tree, with the order of keys and elements,
      exactly when no container in it is empty, each record has distinct keys and none of them is an integer; or when it
      is the empty record, which is what every context starts from. */
  lemma WritesBuildTheTree(value: Value)
    requires NoNil(value)
    ensures Built(value) == ComponentOf(value) <==> Clean(value) || value == Record([])
  {
    if Clean(value) {
      CleanIsBuilt(value);
    } else if Built(value) == ComponentOf(value) && Writes(value) != [] {
      ApplyIsWellBuilt(Obj([]), Writes(value));
      BuiltIsClean(value);
    } else if Writes(value) == [] && value.Record? && Built(value) == ComponentOf(value) {
      assert |MembersOf(value.entries)| == |value.entries|;
    }
  }

  /** Three values whose tree is not built. An empty container leaves no trace. */
  lemma EmptyContainerIsDropped(name: Text)
    ensures var value := Record([Entry(Key(name, None), List([]))]);
      NoNil(value) && Built(value) == Obj([]) && ComponentOf(value) == Obj([Member(name, Arr([]))])
  {
    var entries := [Entry(Key(name, None), List([]))];
    assert NoNil(List([])) && entries[1..] == [];
    assert MembersOf(entries) == [MemberOf(entries[0])] + MembersOf([]);
    assert At([entries[0].key], []) == [] && OneEntryWrites(entries[0]) == [];
    assert EntryWrites(entries) == OneEntryWrites(entries[0]) + EntryWrites([]) == [];
  }

  lemma OneWrite(key: Key, text: Text)
    ensures OneEntryWrites(Entry(key, Leaf(text))) == [Write([key], text)] && NoNil(Leaf(text))
  {
    var writes := [Write([], text)];
    assert Writes(Leaf(text)) == writes && writes[1..] == [] && [key] + [] == [key];
    assert At([key], writes) == [Write([key] + [], text)] + At([key], []);
  }

  /** The second value under a key replaces the first. */
  lemma RepeatedKeyIsOverwritten(name: Text, x: Text, y: Text)
    ensures var value := Record([Entry(Key(name, None), Leaf(x)), Entry(Key(name, None), Leaf(y))]);
      && NoNil(value) && Built(value) == Obj([Member(name, Str(y))])
      && ComponentOf(value) == Obj([Member(name, Str(x)), Member(name, Str(y))])
  {
    var key := Key(name, None);
    var entries := [Entry(key, Leaf(x)), Entry(key, Leaf(y))];
    OneWrite(key, x);
    OneWrite(key, y);
    assert entries[1..] == [entries[1]] && entries[1..][1..] == [];
    assert EntryWrites(entries[1..]) == [Write([key], y)] + EntryWrites([]);
    assert EntryWrites(entries) == [Write([key], x), Write([key], y)];
    assert MembersOf(entries[1..]) == [MemberOf(entries[1])] + MembersOf([]);
    TwoWrites(Obj([]), key, x, y);
    PutPut(Obj([]), key, Str(x), Str(y));
    assert Put(Obj([]), key, Str(y)) == Obj([Member(name, Str(y))]);
    assert Writes(Record(entries)) == [Write([key], x), Write([key], y)];
    assert MembersOf(entries) == [MemberOf(entries[0]), MemberOf(entries[1])];
  }

  lemma TwoWrites(context: Component, key: Key, x: Text, y: Text)
    ensures Apply(context, [Write([key], x), Write([key], y)]) == Put(Put(context, key, Str(x)), key, Str(y))
    ensures Apply(context, [Write([key], x)]) == Put(context, key, Str(x))
  {
    var writes := [Write([key], x), Write([key], y)];
    assert writes[1..] == [Write([key], y)] && writes[1..][1..] == [] && [Write([key], x)][1..] == []
      && [key][1..] == [];
    assert SetAt(context, Str(x), [key]) == Put(context, key, Str(x));
    var next := Put(context, key, Str(x));
    assert SetAt(next, Str(y), [key]) == Put(next, key, Str(y));
    assert Apply(next, writes[1..]) == Apply(Put(next, key, Str(y)), []);
  }

  /** A record with an integer key becomes an array. */
  lemma IntegerKeyMakesArray(name: Text, index: nat, x: Text)
    ensures var value := Record([Entry(Key(name, Some(index)), Leaf(x))]);
      && NoNil(value) && Built(value) == Arr([Str(x)]) && ComponentOf(value) == Obj([Member(name, Str(x))])
  {
    var key := Key(name, Some(index));
    var entries := [Entry(key, Leaf(x))];
    OneWrite(key, x);
    assert entries[1..] == [];
    assert EntryWrites(entries) == [Write([key], x)] + EntryWrites([]);
    assert MembersOf(entries) == [MemberOf(entries[0])] + MembersOf([]);
    TwoWrites(Obj([]), key, x, x);
  }

  // ---------------------------------------------------------------- the kind of the root

  /** The last write decides what the context is in the end. */
  lemma {:induction false} LastWriteDecides(context: Component, writes: seq<Write>)
    requires writes != []
    ensures var path, component := writes[|writes| - 1].path, Apply(context, writes);
      if path == [] then component.Str? else if path[0].intValue.Some? then component.Arr? else component.Obj?
    decreases |writes|
  {
    if |writes| == 1 {
      assert writes[1..] == [];
    } else {
      LastWriteDecides(SetAt(context, Str(writes[0].text), writes[0].path), writes[1..]);
    }
  }

  lemma {:induction false} AtStarts(path: seq<Key>, writes: seq<Write>, i: nat)
    requires i < |writes|
    ensures |At(path, writes)| == |writes| && At(path, writes)[i].path == path + writes[i].path
  {
    AtLength(path, writes);
    if i == 0 {
    } else {
      AtStarts(path, writes[1..], i - 1);
    }
  }

  /** Every write of a list starts with an index. */
  lemma {:induction false} ElementWritesStart(elements: seq<Value>, count: nat, i: nat)
    requires i < |ElementWrites(elements, count)|
    ensures var path := ElementWrites(elements, count)[i].path; path != [] && path[0].intValue.Some?
    decreases |elements|
  {
    var first := Writes(elements[0]);
    AtLength([Index(count)], first);
    if i < |first| {
      AtStarts([Index(count)], first, i);
    } else {
      ElementWritesStart(elements[1..], count + 1, i - |first|);
    }
  }

  /** Every write of a record starts with one of its keys. */
  lemma {:induction false} EntryWritesStart(entries: seq<Entry>, i: nat)
    requires NoIntegerKeys(entries) && i < |EntryWrites(entries)|
    ensures var path := EntryWrites(entries)[i].path; path != [] && path[0].intValue.None?
    decreases |entries|
  {
    var first := Writes(entries[0].value);
    AtLength([entries[0].key], first);
    if i < |first| {
      AtStarts([entries[0].key], first, i);
    } else {
      EntryWritesStart(entries[1..], i - |first|);
    }
  }
}
