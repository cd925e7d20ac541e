/** When the order of a form survives its alphabetized serialisation. Sorting is documented for key and value pairs, but
    takes the elements of arrays with it. */
module FormOrder {
  import opened Sequences
  import opened KeyEncoding
  import opened FormComponent
  import opened FormSerializer

  // ---------------------------------------------------------------- what sorting leaves as it is

  lemma {:induction false} SortedIffAscending(s: seq<Text>)
    ensures Sorted(s) == s <==> Ascending(s)
  {
    SortedIsAscending(s);
    if |s| > 1 && Ascending(s) {
      SortedIffAscending(s[1..]);
    }
  }

  /** The same serializer without alphabetizing. */
  function Unsorted(s: Serializer): Serializer
  {
    s.(alphabetizeKeyValuePairs := false)
  }

  /** Every container has its segments in ascending order, at every level. */
  predicate AscendingEverywhere(s: Serializer, component: Component, key: Text)
    decreases component
  {
    match component
    case Str(_) => true
    case Arr(elements) =>
      var inner := s.arrayEncoding.Encode(key);
      && Ascending(s.ElementSegments(elements, inner))
      && forall i :: 0 <= i < |elements| ==> AscendingEverywhere(s, elements[i], inner)
    case Obj(members) => AscendingMembers(s, members, key, false)
  }

  predicate AscendingMembers(s: Serializer, members: seq<Member>, key: Text, root: bool)
    decreases members
  {
    && Ascending(s.MemberSegments(members, key, root))
    && forall i :: 0 <= i < |members| ==>
         AscendingEverywhere(s, members[i].value, s.MemberKey(key, members[i].key, root))
  }

  // ---------------------------------------------------------------- lines and escaping do not depend on sorting

  lemma SameEscape(s: Serializer, q: Text)
    ensures Unsorted(s).Escape(q) == s.Escape(q)
  {
    SamePercentEncoded(s, q);
  }

  lemma {:induction false} SamePercentEncoded(s: Serializer, q: Text)
    ensures Unsorted(s).PercentEncoded(q) == s.PercentEncoded(q)
  {
    if q == [] {
    } else {
      SamePercentEncoded(s, q[1..]);
    }
  }

  lemma {:induction false} SameLinesUnsorted(s: Serializer, component: Component, key: Text)
    ensures Unsorted(s).Lines(component, key) == s.Lines(component, key)
    decreases component
  {
    match component {
      case Str(_) =>
      case Arr(elements) => SameElementLines(s, elements, s.arrayEncoding.Encode(key));
      case Obj(members) => SameMemberLines(s, members, key, false);
    }
  }

  lemma {:induction false} SameElementLines(s: Serializer, elements: seq<Component>, key: Text)
    ensures Unsorted(s).ElementLines(elements, key) == s.ElementLines(elements, key)
    decreases elements
  {
    if elements == [] {
    } else {
      SameLinesUnsorted(s, elements[0], key);
      SameElementLines(s, elements[1..], key);
    }
  }

  lemma {:induction false} SameMemberLines(s: Serializer, members: seq<Member>, key: Text, root: bool)
    ensures Unsorted(s).MemberLines(members, key, root) == s.MemberLines(members, key, root)
    decreases members
  {
    if members == [] {
    } else {
      SameLinesUnsorted(s, members[0].value, s.MemberKey(key, members[0].key, root));
      SameMemberLines(s, members[1..], key, root);
    }
  }

  // ---------------------------------------------------------------- ascending everywhere: nothing moves

  lemma {:induction false} AscendingIsUnmoved(s: Serializer, component: Component, key: Text)
    requires s.alphabetizeKeyValuePairs && AscendingEverywhere(s, component, key)
    ensures s.Serialize(component, key) == Unsorted(s).Serialize(component, key)
    decreases component
  {
    match component {
      case Str(text) =>
        SameEscape(s, s.keyEncoding.Encode(key));
        SameEscape(s, text);
      case Arr(elements) =>
        var inner := s.arrayEncoding.Encode(key);
        ElementsAreUnmoved(s, elements, inner);
        SortedIffAscending(s.ElementSegments(elements, inner));
      case Obj(members) =>
        MembersAreUnmoved(s, members, key, false);
        SortedIffAscending(s.MemberSegments(members, key, false));
    }
  }

  lemma {:induction false} ElementsAreUnmoved(s: Serializer, elements: seq<Component>, key: Text)
    requires s.alphabetizeKeyValuePairs
    requires forall i :: 0 <= i < |elements| ==> AscendingEverywhere(s, elements[i], key)
    ensures s.ElementSegments(elements, key) == Unsorted(s).ElementSegments(elements, key)
    decreases elements
  {
    if elements == [] {
    } else {
      AscendingIsUnmoved(s, elements[0], key);
      ElementsAreUnmoved(s, elements[1..], key);
    }
  }

  lemma {:induction false} MembersAreUnmoved(s: Serializer, members: seq<Member>, key: Text, root: bool)
    requires s.alphabetizeKeyValuePairs
    requires forall i :: 0 <= i < |members| ==>
      AscendingEverywhere(s, members[i].value, s.MemberKey(key, members[i].key, root))
    ensures s.MemberSegments(members, key, root) == Unsorted(s).MemberSegments(members, key, root)
    decreases members
  {
    if members == [] {
    } else {
      AscendingIsUnmoved(s, members[0].value, s.MemberKey(key, members[0].key, root));
      MembersAreUnmoved(s, members[1..], key, root);
    }
  }

  // ---------------------------------------------------------------- a query is determined by its lines

  /** The piece of a query that says a line. */
  function Written(s: Serializer, line: Line): Text
  {
    match line
    case Pair(key, value) => s.Escape(key) + "=" + s.Escape(value)
    case Blank => []
  }

  predicate WellWritten(s: Serializer, pieces: seq<Text>)
  {
    forall i :: 0 <= i < |pieces| ==> pieces[i] == Written(s, ReadPiece(pieces[i]))
  }

  predicate AllWellWritten(s: Serializer, segments: seq<Text>)
  {
    forall i :: 0 <= i < |segments| ==> WellWritten(s, Split(segments[i], '&'))
  }

  lemma {:induction false} JoinedIsWellWritten(s: Serializer, segments: seq<Text>)
    requires AllWellWritten(s, segments)
    ensures WellWritten(s, Split(JoinedWithAmpersands(segments), '&'))
  {
    if |segments| <= 1 {
    } else {
      JoinedIsWellWritten(s, segments[1..]);
      SplitConcat(segments[0], JoinedWithAmpersands(segments[1..]), '&');
    }
  }

  lemma OrderedIsWellWritten(s: Serializer, segments: seq<Text>)
    requires AllWellWritten(s, segments)
    ensures WellWritten(s, Split(JoinedWithAmpersands(s.Ordered(segments)), '&'))
  {
    SortedIsAscending(segments);
    forall i | 0 <= i < |Sorted(segments)| ensures WellWritten(s, Split(Sorted(segments)[i], '&')) {
      assert Sorted(segments)[i] in multiset(Sorted(segments));
    }
    JoinedIsWellWritten(s, s.Ordered(segments));
  }

  lemma {:induction false} SerializedIsWellWritten(s: Serializer, component: Component, key: Text)
    requires s.Safe()
    ensures WellWritten(s, Split(s.Serialize(component, key), '&'))
    decreases component
  {
    match component {
      case Str(text) =>
        var piece: Text := s.KeyValue(key, text);
        ReadKeyValue(s, key, text);
        KeyValueIsOnePiece(s, key, text);
        assert Read(piece) == ReadPieces([piece]);
      case Arr(elements) =>
        var inner := s.arrayEncoding.Encode(key);
        ElementsAreWellWritten(s, elements, inner);
        OrderedIsWellWritten(s, s.ElementSegments(elements, inner));
      case Obj(members) =>
        MembersAreWellWritten(s, members, key, false);
        OrderedIsWellWritten(s, s.MemberSegments(members, key, false));
    }
  }

  lemma KeyValueIsOnePiece(s: Serializer, key: Text, text: Text)
    requires s.Safe()
    ensures Split(s.KeyValue(key, text), '&') == [s.KeyValue(key, text)]
  {
    EscapeHasNoDelimiter(s, s.keyEncoding.Encode(key));
    EscapeHasNoDelimiter(s, text);
    SplitWithout(s.KeyValue(key, text), '&');
  }

  lemma {:induction false} ElementsAreWellWritten(s: Serializer, elements: seq<Component>, key: Text)
    requires s.Safe()
    ensures AllWellWritten(s, s.ElementSegments(elements, key))
    decreases elements
  {
    if elements == [] {
    } else {
      SerializedIsWellWritten(s, elements[0], key);
      ElementsAreWellWritten(s, elements[1..], key);
    }
  }

  lemma {:induction false} MembersAreWellWritten(s: Serializer, members: seq<Member>, key: Text, root: bool)
    requires s.Safe()
    ensures AllWellWritten(s, s.MemberSegments(members, key, root))
    decreases members
  {
    if members == [] {
    } else {
      SerializedIsWellWritten(s, members[0].value, s.MemberKey(key, members[0].key, root));
      MembersAreWellWritten(s, members[1..], key, root);
    }
  }

  lemma SplitIsInjective(a: Text, b: Text, separator: Octet)
    requires Split(a, separator) == Split(b, separator)
    ensures a == b
  {
    JoinedSplit(a, separator);
    JoinedSplit(b, separator);
  }

  /** The pieces with the separator between them. */
  function Rejoined(pieces: seq<Text>, separator: Octet): Text
  {
    if pieces == [] then [] else if |pieces| == 1 then pieces[0]
      else pieces[0] + [separator] + Rejoined(pieces[1..], separator)
  }

  lemma {:induction false} JoinedSplit(a: Text, separator: Octet)
    ensures Rejoined(Split(a, separator), separator) == a
  {
    if a == [] {
    } else {
      JoinedSplit(a[1..], separator);
      var rest := Split(a[1..], separator);
      if a[0] == separator {
        assert ([[]] + rest)[1..] == rest;
      } else {
        assert Prepended(a[0], rest)[1..] == rest[1..];
        RejoinedPrepended(a[0], rest, separator);
      }
      assert a == [a[0]] + a[1..];
    }
  }

  lemma RejoinedPrepended(c: Octet, pieces: seq<Text>, separator: Octet)
    requires pieces != []
    ensures Rejoined(Prepended(c, pieces), separator) == [c] + Rejoined(pieces, separator)
  {
    var all := Prepended(c, pieces);
    assert all[1..] == pieces[1..];
    if |pieces| > 1 {
      assert [c] + pieces[0] + [separator] + Rejoined(pieces[1..], separator)
        == [c] + (pieces[0] + [separator] + Rejoined(pieces[1..], separator));
    }
  }

  lemma LinesDetermineQuery(s: Serializer, a: Text, b: Text)
    requires WellWritten(s, Split(a, '&')) && WellWritten(s, Split(b, '&')) && Read(a) == Read(b)
    ensures a == b
  {
    var p, q := Split(a, '&'), Split(b, '&');
    assert |ReadPieces(p)| == |p| && |ReadPieces(q)| == |q|;
    forall i | 0 <= i < |p| ensures p[i] == q[i] {
      assert ReadPieces(p)[i] == ReadPieces(q)[i];
    }
    SplitIsInjective(a, b, '&');
  }

  lemma UnsortedIsWellWritten(s: Serializer, pieces: seq<Text>)
    ensures WellWritten(Unsorted(s), pieces) == WellWritten(s, pieces)
  {
    forall line: Line ensures Written(Unsorted(s), line) == Written(s, line) {
      if line.Pair? {
        SameEscape(s, line.key);
        SameEscape(s, line.value);
      }
    }
  }

  // ---------------------------------------------------------------- exactly when order survives

  /** Order survives exactly when alphabetizing leaves the text as it is. */
  lemma OrderSurvivesIff(s: Serializer, component: Component, key: Text)
    requires s.Safe()
    ensures Read(s.Serialize(component, key)) == s.Lines(component, key)
      <==> s.Serialize(component, key) == Unsorted(s).Serialize(component, key)
  {
    var plain := Unsorted(s);
    SameLinesUnsorted(s, component, key);
    ReadSerialized(plain, component, key);
    SerializedIsWellWritten(s, component, key);
    SerializedIsWellWritten(plain, component, key);
    UnsortedIsWellWritten(s, Split(plain.Serialize(component, key), '&'));
    if Read(s.Serialize(component, key)) == s.Lines(component, key) {
      LinesDetermineQuery(s, s.Serialize(component, key), plain.Serialize(component, key));
    }
  }

  /** The same for a whole query. */
  lemma QueryOrderSurvivesIff(s: Serializer, members: seq<Member>)
    requires s.Safe()
    ensures var lines := if members == [] then [Blank] else s.MemberLines(members, [], true);
      Read(s.SerializeObject(members)) == lines <==> s.SerializeObject(members) == Unsorted(s).SerializeObject(members)
  {
    var plain := Unsorted(s);
    SameMemberLines(s, members, [], true);
    ReadRoot(plain, members);
    MembersAreWellWritten(s, members, [], true);
    OrderedIsWellWritten(s, s.MemberSegments(members, [], true));
    MembersAreWellWritten(plain, members, [], true);
    OrderedIsWellWritten(plain, plain.MemberSegments(members, [], true));
    UnsortedIsWellWritten(s, Split(plain.SerializeObject(members), '&'));
    if Read(s.SerializeObject(members)) == Read(plain.SerializeObject(members)) {
      LinesDetermineQuery(s, s.SerializeObject(members), plain.SerializeObject(members));
    }
  }

  /** An array of strings keeps its order exactly when its segments are ascending. */
  lemma StringsKeepOrderIff(s: Serializer, elements: seq<Component>, key: Text)
    requires s.alphabetizeKeyValuePairs && s.Safe() && forall i :: 0 <= i < |elements| ==> elements[i].Str?
    ensures Read(s.Serialize(Arr(elements), key)) == s.Lines(Arr(elements), key)
      <==> Ascending(s.ElementSegments(elements, s.arrayEncoding.Encode(key)))
  {
    var inner := s.arrayEncoding.Encode(key);
    var segments := s.ElementSegments(elements, inner);
    OrderSurvivesIff(s, Arr(elements), key);
    ElementsAreUnmoved(s, elements, inner);
    SortedIffAscending(segments);
    SortedIsAscending(segments);
    StringSegmentsAreWhole(s, elements, inner);
    forall i | 0 <= i < |Sorted(segments)| ensures '&' !in Sorted(segments)[i] {
      assert Sorted(segments)[i] in multiset(Sorted(segments));
    }
    assert |Sorted(segments)| == |multiset(Sorted(segments))| == |segments|;
    if segments != [] && JoinedWithAmpersands(Sorted(segments)) == JoinedWithAmpersands(segments) {
      SplitJoined(Sorted(segments));
      SplitJoined(segments);
    }
  }

  lemma {:induction false} StringSegmentsAreWhole(s: Serializer, elements: seq<Component>, key: Text)
    requires s.Safe() && forall i :: 0 <= i < |elements| ==> elements[i].Str?
    ensures forall i :: 0 <= i < |s.ElementSegments(elements, key)| ==> '&' !in s.ElementSegments(elements, key)[i]
  {
    if elements == [] {
    } else {
      EscapeHasNoDelimiter(s, s.keyEncoding.Encode(key));
      EscapeHasNoDelimiter(s, elements[0].text);
      StringSegmentsAreWhole(s, elements[1..], key);
    }
  }

  lemma {:induction false} SplitJoined(segments: seq<Text>)
    requires segments != [] && forall i :: 0 <= i < |segments| ==> '&' !in segments[i]
    ensures Split(JoinedWithAmpersands(segments), '&') == segments
  {
    SplitWithout(segments[0], '&');
    if |segments| <= 1 {
    } else {
      SplitJoined(segments[1..]);
      SplitConcat(segments[0], JoinedWithAmpersands(segments[1..]), '&');
      assert segments == [segments[0]] + segments[1..];
    }
  }

  /** The order of an array that is lost: two different strings give the same query in either order, so for one of the
      two orders the reader finds the other. */
  lemma ArrayOrderIsLost(s: Serializer, name: Text, x: Text, y: Text)
    requires s.alphabetizeKeyValuePairs && s.Safe() && x != y
    ensures var a, b := [Member(name, Arr([Str(x), Str(y)]))], [Member(name, Arr([Str(y), Str(x)]))];
      && s.SerializeObject(a) == s.SerializeObject(b)
      && s.MemberLines(a, [], true) != s.MemberLines(b, [], true)
      && (|| Read(s.SerializeObject(a)) != s.MemberLines(a, [], true)
          || Read(s.SerializeObject(b)) != s.MemberLines(b, [], true))
  {
    var xy, yx := [Str(x), Str(y)], [Str(y), Str(x)];
    var a, b := [Member(name, Arr(xy))], [Member(name, Arr(yx))];
    TwoElementsReordered(Str(x), Str(y));
    assert a[1..] == [] && Without(b, 0) == [] && ReorderedMembers([], []);
    assert a[0].key == b[0].key && Reordered(a[0].value, b[0].value);
    AlphabetizedIsCanonical(s, a, b);
    TwoElementLines(s, name, x, y);
    TwoElementLines(s, name, y, x);
  }

  lemma TwoElementsReordered(x: Component, y: Component)
    requires x.Str? && y.Str?
    ensures Reordered(Arr([x, y]), Arr([y, x]))
  {
    var a, b := [x, y], [y, x];
    assert a[1..] == [y] && Without(b, 1) == [y] && [y][1..] == [] && Without([y], 0) == [];
    assert ReorderedElements([], []);
    assert Reordered(y, [y][0]) && ReorderedElements([y][1..], Without([y], 0));
    assert Reordered(x, b[1]) && ReorderedElements(a[1..], Without(b, 1));
  }

  lemma TwoElementLines(s: Serializer, name: Text, x: Text, y: Text)
    ensures var key := s.keyEncoding.Encode(s.arrayEncoding.Encode(name));
      s.MemberLines([Member(name, Arr([Str(x), Str(y)]))], [], true) == [Pair(key, x), Pair(key, y)]
  {
    var elements, inner := [Str(x), Str(y)], s.arrayEncoding.Encode(name);
    assert elements[1..] == [Str(y)] && elements[1..][1..] == [];
    assert s.ElementLines(elements[1..], inner) == s.Lines(Str(y), inner) + s.ElementLines([], inner);
    assert s.ElementLines(elements, inner) == s.Lines(Str(x), inner) + s.ElementLines(elements[1..], inner);
    var members := [Member(name, Arr(elements))];
    assert members[1..] == [];
    assert s.MemberLines(members, [], true) == s.Lines(Arr(elements), name) + s.MemberLines([], [], true);
  }

  // ---------------------------------------------------------------- trees without a repeated line

  function Flat(lists: seq<seq<Line>>): seq<Line>
  {
    if lists == [] then [] else lists[0] + Flat(lists[1..])
  }

  lemma {:induction false} InFlat(lists: seq<seq<Line>>, j: nat, line: Line)
    requires j < |lists| && line in lists[j]
    ensures line in Flat(lists)
  {
    if j == 0 {
    } else {
      InFlat(lists[1..], j - 1, line);
    }
  }

  /** The segments read back as the lists of lines, up to the order inside each. */
  predicate ReadBack(segments: seq<Text>, lists: seq<seq<Line>>)
  {
    |lists| == |segments| && forall i :: 0 <= i < |segments| ==> multiset(Read(segments[i])) == multiset(lists[i])
  }

  /** The segments read back as the lists of lines. */
  predicate ReadInOrder(segments: seq<Text>, lists: seq<seq<Line>>)
    requires |lists| == |segments|
  {
    segments == [] || (Read(segments[0]) == lists[0] && ReadInOrder(segments[1..], lists[1..]))
  }

  lemma {:induction false} ReadInOrderAt(segments: seq<Text>, lists: seq<seq<Line>>, i: nat)
    requires |lists| == |segments| && ReadInOrder(segments, lists) && i < |segments|
    ensures Read(segments[i]) == lists[i]
  {
    if i == 0 {
    } else {
      ReadInOrderAt(segments[1..], lists[1..], i - 1);
    }
  }

  lemma SameLength(segment: Text, lines: seq<Line>)
    requires multiset(Read(segment)) == multiset(lines)
    ensures |Read(segment)| == |lines| > 0
  {
    assert |multiset(Read(segment))| == |Read(segment)| && |multiset(lines)| == |lines|;
  }

  /** No line of the first list occurs in the others. */
  lemma FirstIsApart(first: seq<Line>, rest: seq<Line>, line: Line)
    requires NoRepeats(first + rest) && line in first
    ensures line !in rest && NoRepeats(rest)
  {
    var all := first + rest;
    var i :| 0 <= i < |first| && first[i] == line;
    assert all[i] == line;
    forall k | 0 <= k < |rest| ensures rest[k] == all[|first| + k] {}
    forall a, b | 0 <= a < b < |rest| ensures rest[a] != rest[b] {
      assert all[|first| + a] != all[|first| + b];
    }
  }

  /** The segment that comes first is the one whose lines do. */
  lemma FirstStaysFirst(segments: seq<Text>, moved: Text, lists: seq<seq<Line>>)
    requires segments != [] && ReadBack(segments, lists) && NoRepeats(Flat(lists))
    requires moved in segments && lists[0] != [] && Read(moved)[0] == lists[0][0]
    ensures moved == segments[0]
  {
    var j :| 0 <= j < |segments| && segments[j] == moved;
    SameLength(segments[0], lists[0]);
    if j > 0 {
      LaterLine(segments, lists, j, Read(moved)[0]);
      FirstIsApart(lists[0], Flat(lists[1..]), Read(moved)[0]);
    }
  }

  lemma LaterLine(segments: seq<Text>, lists: seq<seq<Line>>, j: nat, line: Line)
    requires 0 < j < |segments| && ReadBack(segments, lists) && line in Read(segments[j])
    ensures line in Flat(lists[1..])
  {
    assert line in multiset(Read(segments[j])) && line in multiset(lists[j]) && lists[1..][j - 1] == lists[j];
    InFlat(lists[1..], j - 1, line);
  }

  lemma OneFirst(segments: seq<Text>, moved: seq<Text>, lists: seq<seq<Line>>)
    requires segments != [] && ReadBack(segments, lists) && multiset(moved) == multiset(segments)
    requires NoRepeats(Flat(lists)) && ReadAll(moved) == Flat(lists)
    ensures |moved| == |segments| && moved[0] == segments[0] && Read(segments[0]) == lists[0]
    ensures multiset(moved[1..]) == multiset(segments[1..])
    ensures NoRepeats(Flat(lists[1..])) && ReadAll(moved[1..]) == Flat(lists[1..])
  {
    PermutationTail(segments, moved);
    PermutationTail(moved, segments);
    SameLength(segments[0], lists[0]);
    assert Read(moved[0])[0] == ReadAll(moved)[0] == lists[0][0];
    FirstStaysFirst(segments, moved[0], lists);
    FirstIsApart(lists[0], Flat(lists[1..]), lists[0][0]);
    SameHead(Read(moved[0]), ReadAll(moved[1..]), lists[0], Flat(lists[1..]));
  }

  /** Segments that read back as these lists of lines, when no line is repeated, have one order only. */
  lemma {:induction false} OneOrder(segments: seq<Text>, moved: seq<Text>, lists: seq<seq<Line>>)
    requires ReadBack(segments, lists) && multiset(moved) == multiset(segments)
    requires NoRepeats(Flat(lists)) && ReadAll(moved) == Flat(lists)
    ensures moved == segments && ReadInOrder(segments, lists)
    decreases |segments|
  {
    if segments == [] {
      NothingMoves(moved);
    } else {
      OneFirst(segments, moved, lists);
      TailReadsBack(segments, lists);
      OneOrder(segments[1..], moved[1..], lists[1..]);
      SameFromHead(moved, segments);
    }
  }

  lemma NothingMoves(moved: seq<Text>)
    requires multiset(moved) == multiset{}
    ensures moved == []
  {
    assert |multiset(moved)| == |moved|;
  }

  lemma SameFromHead(a: seq<Text>, b: seq<Text>)
    requires |a| == |b| > 0 && a[0] == b[0] && a[1..] == b[1..]
    ensures a == b
  {
    assert a == [a[0]] + a[1..] && b == [b[0]] + b[1..];
  }

  lemma TailReadsBack(segments: seq<Text>, lists: seq<seq<Line>>)
    requires segments != [] && ReadBack(segments, lists)
    ensures ReadBack(segments[1..], lists[1..])
  {
  }

  lemma SameHead(a: seq<Line>, b: seq<Line>, c: seq<Line>, d: seq<Line>)
    requires |a| == |c| && a + b == c + d
    ensures a == c && b == d
  {
    assert a == (a + b)[..|a|] && b == (a + b)[|a|..];
    assert c == (c + d)[..|c|] && d == (c + d)[|c|..];
  }

  function ElementLists(s: Serializer, elements: seq<Component>, key: Text): (r: seq<seq<Line>>)
    ensures |r| == |elements| && forall i :: 0 <= i < |r| ==> r[i] == s.Lines(elements[i], key)
    ensures Flat(r) == s.ElementLines(elements, key)
  {
    if elements == [] then [] else [s.Lines(elements[0], key)] + ElementLists(s, elements[1..], key)
  }

  function MemberLists(s: Serializer, members: seq<Member>, key: Text, root: bool): (r: seq<seq<Line>>)
    ensures |r| == |members|
    ensures forall i :: 0 <= i < |r| ==> r[i] == s.Lines(members[i].value, s.MemberKey(key, members[i].key, root))
    ensures Flat(r) == s.MemberLines(members, key, root)
  {
    if members == [] then []
    else [s.Lines(members[0].value, s.MemberKey(key, members[0].key, root))] + MemberLists(s, members[1..], key, root)
  }

  /** For a tree in which no line is repeated the order survives exactly when every container is ascending. */
  lemma {:induction false} OrderSurvivesIffAscending(s: Serializer, component: Component, key: Text)
    requires s.alphabetizeKeyValuePairs && s.Safe() && NoRepeats(s.Lines(component, key))
    ensures Read(s.Serialize(component, key)) == s.Lines(component, key) <==> AscendingEverywhere(s, component, key)
    decreases component
  {
    if AscendingEverywhere(s, component, key) {
      AscendingIsUnmoved(s, component, key);
      OrderSurvivesIff(s, component, key);
    } else if Read(s.Serialize(component, key)) == s.Lines(component, key) {
      match component {
        case Str(_) =>
        case Arr(elements) => SurvivingElements(s, elements, s.arrayEncoding.Encode(key));
        case Obj(members) => SurvivingMembers(s, members, key, false);
      }
    }
  }

  lemma SurvivingSegments(segments: seq<Text>, lists: seq<seq<Line>>)
    requires ReadBack(segments, lists) && NoRepeats(Flat(lists))
    requires segments != [] ==> Read(JoinedWithAmpersands(Sorted(segments))) == Flat(lists)
    ensures Ascending(segments)
    ensures forall i :: 0 <= i < |segments| ==> Read(segments[i]) == lists[i] && NoRepeats(lists[i])
  {
    SortedIsAscending(segments);
    ReadAllSorted(segments);
    ReadJoined(Sorted(segments));
    if segments != [] {
      OneOrder(segments, Sorted(segments), lists);
    }
    forall i | 0 <= i < |segments| ensures Read(segments[i]) == lists[i] && NoRepeats(lists[i]) {
      PartHasNoRepeats(lists, i);
      ReadInOrderAt(segments, lists, i);
    }
  }

  lemma {:induction false} SurvivingElements(s: Serializer, elements: seq<Component>, key: Text)
    requires s.alphabetizeKeyValuePairs && s.Safe() && NoRepeats(s.ElementLines(elements, key))
    requires elements != [] ==>
      Read(JoinedWithAmpersands(Sorted(s.ElementSegments(elements, key)))) == s.ElementLines(elements, key)
    ensures Ascending(s.ElementSegments(elements, key))
    ensures forall i :: 0 <= i < |elements| ==> AscendingEverywhere(s, elements[i], key)
    decreases elements
  {
    ElementSegmentsReadBack(s, elements, key);
    SurvivingSegments(s.ElementSegments(elements, key), ElementLists(s, elements, key));
    forall i | 0 <= i < |elements| ensures AscendingEverywhere(s, elements[i], key) {
      ElementSegmentsWithout(s, elements, key, i);
      OrderSurvivesIffAscending(s, elements[i], key);
    }
  }

  lemma {:induction false} SurvivingMembers(s: Serializer, members: seq<Member>, key: Text, root: bool)
    requires s.alphabetizeKeyValuePairs && s.Safe() && NoRepeats(s.MemberLines(members, key, root))
    requires members != [] ==>
      Read(JoinedWithAmpersands(Sorted(s.MemberSegments(members, key, root)))) == s.MemberLines(members, key, root)
    ensures AscendingMembers(s, members, key, root)
    decreases members
  {
    MemberSegmentsReadBack(s, members, key, root);
    SurvivingSegments(s.MemberSegments(members, key, root), MemberLists(s, members, key, root));
    forall i | 0 <= i < |members|
      ensures AscendingEverywhere(s, members[i].value, s.MemberKey(key, members[i].key, root))
    {
      MemberSegmentsWithout(s, members, key, root, i);
      OrderSurvivesIffAscending(s, members[i].value, s.MemberKey(key, members[i].key, root));
    }
  }

  lemma {:induction false} PartHasNoRepeats(lists: seq<seq<Line>>, i: nat)
    requires i < |lists| && NoRepeats(Flat(lists))
    ensures NoRepeats(lists[i])
  {
    var first, rest := lists[0], Flat(lists[1..]);
    if i == 0 {
      forall a, b | 0 <= a < b < |first| ensures first[a] != first[b] {
        assert (first + rest)[a] != (first + rest)[b];
      }
    } else {
      forall a, b | 0 <= a < b < |rest| ensures rest[a] != rest[b] {
        assert (first + rest)[|first| + a] != (first + rest)[|first| + b];
      }
      PartHasNoRepeats(lists[1..], i - 1);
    }
  }

  lemma {:induction false} ElementSegmentsReadBack(s: Serializer, elements: seq<Component>, key: Text)
    requires s.Safe()
    ensures ReadBack(s.ElementSegments(elements, key), ElementLists(s, elements, key))
    decreases elements
  {
    if elements == [] {
    } else {
      ReadSerialized(s, elements[0], key);
      ElementSegmentsReadBack(s, elements[1..], key);
    }
  }

  lemma {:induction false} MemberSegmentsReadBack(s: Serializer, members: seq<Member>, key: Text, root: bool)
    requires s.Safe()
    ensures ReadBack(s.MemberSegments(members, key, root), MemberLists(s, members, key, root))
    decreases members
  {
    if members == [] {
    } else {
      ReadSerialized(s, members[0].value, s.MemberKey(key, members[0].key, root));
      MemberSegmentsReadBack(s, members[1..], key, root);
    }
  }

  /** The same for a whole query. */
  lemma QueryOrderSurvivesIffAscending(s: Serializer, members: seq<Member>)
    requires s.alphabetizeKeyValuePairs && s.Safe() && members != [] && NoRepeats(s.MemberLines(members, [], true))
    ensures Read(s.SerializeObject(members)) == s.MemberLines(members, [], true)
      <==> AscendingMembers(s, members, [], true)
  {
    if AscendingMembers(s, members, [], true) {
      MembersAreUnmoved(s, members, [], true);
      SortedIffAscending(s.MemberSegments(members, [], true));
      QueryOrderSurvivesIff(s, members);
    } else if Read(s.SerializeObject(members)) == s.MemberLines(members, [], true) {
      SurvivingMembers(s, members, [], true);
    }
  }

  /** Repeated lines can hide a move: here the outer array is not ascending, but what moves is the same line. */
  lemma RepeatedLineHidesMove(s: Serializer, key: Text, text: Text)
    requires s.alphabetizeKeyValuePairs && s.Safe()
    ensures var component := Arr([Arr([Str(text), Str(text)]), Arr([Str(text)])]);
      !AscendingEverywhere(s, component, key) && Read(s.Serialize(component, key)) == s.Lines(component, key)
  {
    var two, one := Arr([Str(text), Str(text)]), Arr([Str(text)]);
    var inner := s.arrayEncoding.Encode(key);
    var piece: Text := s.KeyValue(s.arrayEncoding.Encode(inner), text);
    TextTwice(s, inner, text);
    TextTwice(Unsorted(s), inner, text);
    SameEscape(s, s.keyEncoding.Encode(s.arrayEncoding.Encode(inner)));
    SameEscape(s, text);
    var elements := [two, one];
    TwoSegments(s, two, one, inner);
    TwoSegments(Unsorted(s), two, one, inner);
    HiddenMove(piece);
    OrderSurvivesIff(s, Arr(elements), key);
  }

  lemma HiddenMove(piece: Text)
    ensures var long := piece + "&" + piece;
      !Ascending([long, piece]) && JoinedWithAmpersands(Sorted([long, piece])) == JoinedWithAmpersands([long, piece])
  {
    var long: Text := piece + "&" + piece;
    PrefixComesFirst(piece, "&" + piece);
    assert piece + ("&" + piece) == long;
    SortedTwo(long, piece);
    JoinedTwo(piece, long);
    JoinedTwo(long, piece);
    assert piece + "&" + long == long + "&" + piece;
  }

  lemma TwoSegments(s: Serializer, a: Component, b: Component, key: Text)
    ensures s.ElementSegments([a, b], key) == [s.Serialize(a, key), s.Serialize(b, key)]
  {
    assert [a, b][1..] == [b] && [b][1..] == [];
    assert s.ElementSegments([b], key) == [s.Serialize(b, key)] + s.ElementSegments([], key);
  }

  lemma JoinedTwo(a: Text, b: Text)
    ensures JoinedWithAmpersands([a, b]) == a + "&" + b
  {
    assert [a, b][1..] == [b];
  }

  lemma TextTwice(s: Serializer, key: Text, text: Text)
    ensures var piece := s.KeyValue(s.arrayEncoding.Encode(key), text);
      && s.Serialize(Arr([Str(text), Str(text)]), key) == piece + "&" + piece
      && s.Serialize(Arr([Str(text)]), key) == piece
  {
    var inner, two := s.arrayEncoding.Encode(key), [Str(text), Str(text)];
    var piece: Text := s.KeyValue(inner, text);
    assert two[1..] == [Str(text)] && [Str(text)][1..] == [];
    assert s.ElementSegments([Str(text)], inner) == [piece] + s.ElementSegments([], inner);
    assert s.ElementSegments(two, inner) == [piece] + s.ElementSegments([Str(text)], inner);
    assert s.ElementSegments(two, inner) == [piece, piece];
    assert [piece, piece][1..] == [piece] && [piece][1..] == [];
    AtMostIsTotal(piece, piece);
    assert Sorted([piece]) == Inserted(piece, Sorted([])) == [piece];
    assert Sorted([piece, piece]) == Inserted(piece, [piece]) == [piece] + [piece];
    assert JoinedWithAmpersands([piece, piece]) == piece + "&" + JoinedWithAmpersands([piece]);
  }

  lemma {:induction false} PrefixComesFirst(a: Text, b: Text)
    requires b != []
    ensures AtMost(a, a + b) && !AtMost(a + b, a)
  {
    if a == [] {
      assert a + b == b;
    } else {
      PrefixComesFirst(a[1..], b);
      assert (a + b)[1..] == a[1..] + b;
    }
  }

  lemma SortedTwo(a: Text, b: Text)
    requires AtMost(b, a) && !AtMost(a, b)
    ensures Sorted([a, b]) == [b, a] && !Ascending([a, b])
  {
    assert [a, b][1..] == [b] && [b][1..] == [] && [b][0] == b;
    assert Sorted([b]) == Inserted(b, Sorted([])) == [b];
    assert Inserted(a, []) == [a];
    assert Sorted([a, b]) == Inserted(a, [b]) == [b] + Inserted(a, []);
  }
}
