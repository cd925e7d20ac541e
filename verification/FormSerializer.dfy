/** Alamofire's URLEncodedFormSerializer: the text it makes of a component, and what a reader gets back from it. */
module FormSerializer {
  import opened Bits
  import opened Sequences
  import opened KeyEncoding
  import opened FormComponent

  datatype ArrayEncoding = Brackets | NoBrackets
  {
    function Encode(key: Text): Text
    {
      if Brackets? then key + "[]" else key
    }
  }

  datatype SpaceEncoding = PercentEscaped | PlusReplaced

  // ---------------------------------------------------------------- escaping

  /** CharacterSet.urlQueryAllowed: the characters of a query component, section 3.4 of RFC 3986. */
  predicate UrlQueryAllowed(c: Octet)
  {
    'a' <= c <= 'z' || 'A' <= c <= 'Z' || '0' <= c <= '9' || c in "-._~!$&'()*+,;=:@/?"
  }

  /** afURLQueryAllowed. */
  predicate AfUrlQueryAllowed(c: Octet)
  {
    UrlQueryAllowed(c) && c !in ":#[]@" && c !in "!$&'()*+,;="
  }

  function HexDigit(n: nat): Octet
    requires n < 16
  {
    (if n < 10 then '0' as int + n else 'A' as int + n - 10) as char
  }

  /** An octet that is not allowed, percent-encoded: section 2.1 of RFC 3986. */
  function Percent(c: Octet): Text
  {
    ['%', HexDigit(c as int / 16), HexDigit(c as int % 16)]
  }

  /** replacingOccurrences(of: " "). */
  function SpacesReplaced(s: Text, replacement: Text): Text
  {
    if s == [] then [] else (if s[0] == ' ' then replacement else [s[0]]) + SpacesReplaced(s[1..], replacement)
  }

  // ---------------------------------------------------------------- sorting and joining

  /** The order of two strings by their octets. */
  predicate AtMost(a: Text, b: Text)
  {
    a == [] || (b != [] && (a[0] < b[0] || (a[0] == b[0] && AtMost(a[1..], b[1..]))))
  }

  function Inserted(x: Text, s: seq<Text>): seq<Text>
  {
    if s == [] || AtMost(x, s[0]) then [x] + s else [s[0]] + Inserted(x, s[1..])
  }

  /** sorted. */
  function Sorted(s: seq<Text>): seq<Text>
  {
    if s == [] then [] else Inserted(s[0], Sorted(s[1..]))
  }

  function JoinedWithAmpersands(s: seq<Text>): Text
  {
    if s == [] then [] else if |s| == 1 then s[0] else s[0] + "&" + JoinedWithAmpersands(s[1..])
  }

  // ---------------------------------------------------------------- the serializer

  datatype Serializer = Serializer(
    alphabetizeKeyValuePairs: bool,
    arrayEncoding: ArrayEncoding,
    keyEncoding: KeyEncoding,
    spaceEncoding: SpaceEncoding,
    allowedCharacters: Octet -> bool)
  {
    predicate AllowedWithSpace(c: Octet)
    {
      c == ' ' || allowedCharacters(c)
    }

    /** addingPercentEncoding. */
    function PercentEncoded(s: Text): Text
    {
      if s == [] then [] else (if AllowedWithSpace(s[0]) then [s[0]] else Percent(s[0])) + PercentEncoded(s[1..])
    }

    function Escape(query: Text): Text
    {
      SpacesReplaced(PercentEncoded(query), if spaceEncoding.PercentEscaped? then "%20" else "+")
    }

    function Ordered(segments: seq<Text>): seq<Text>
    {
      if alphabetizeKeyValuePairs then Sorted(segments) else segments
    }

    function KeyValue(key: Text, text: Text): Text
    {
      Escape(keyEncoding.Encode(key)) + "=" + Escape(text)
    }

    /** serialize(_:forKey:). */
    function Serialize(component: Component, key: Text): Text
      decreases component
    {
      match component
      case Str(text) => KeyValue(key, text)
      case Arr(elements) => JoinedWithAmpersands(Ordered(ElementSegments(elements, arrayEncoding.Encode(key))))
      case Obj(members) => JoinedWithAmpersands(Ordered(MemberSegments(members, key, false)))
    }

    function ElementSegments(elements: seq<Component>, key: Text): seq<Text>
      decreases elements
    {
      if elements == [] then [] else [Serialize(elements[0], key)] + ElementSegments(elements[1..], key)
    }

    /** The key of a member: itself at the root, and in brackets after the enclosing key below it. */
    function MemberKey(key: Text, name: Text, root: bool): Text
    {
      if root then name else key + "[" + name + "]"
    }

    function MemberSegments(members: seq<Member>, key: Text, root: bool): seq<Text>
      decreases members
    {
      if members == [] then []
      else [Serialize(members[0].value, MemberKey(key, members[0].key, root))] + MemberSegments(members[1..], key, root)
    }

    /** serialize of the root object. */
    function SerializeObject(members: seq<Member>): Text
    {
      JoinedWithAmpersands(Ordered(MemberSegments(members, [], true)))
    }

    /** The method behind it: segments are collected one by one. */
    method SerializeRoot(members: seq<Member>) returns (query: Text)
      ensures query == SerializeObject(members)
    {
      var output: seq<Text> := [];
      for i := 0 to |members|
        invariant output + MemberSegments(members[i..], [], true) == MemberSegments(members, [], true)
      {
        var segment := Serialize(members[i].value, members[i].key);
        assert members[i..][1..] == members[i + 1..];
        assert output + ([segment] + MemberSegments(members[i + 1..], [], true)) == MemberSegments(members, [], true);
        output := output + [segment];
      }
      assert members[|members|..] == [] && output == MemberSegments(members, [], true);
      query := JoinedWithAmpersands(Ordered(output));
    }

    /** The characters that carry the syntax are escaped. */
    predicate Safe()
    {
      !allowedCharacters('%') && !allowedCharacters('+') && !allowedCharacters('&') && !allowedCharacters('=')
    }

    // -------------------------------------------------------------- the leaves of a component

    /** The key path and value of each string, in order, and a blank for each empty container. */
    function Lines(component: Component, key: Text): seq<Line>
      decreases component
    {
      match component
      case Str(text) => [Pair(keyEncoding.Encode(key), text)]
      case Arr(elements) => if elements == [] then [Blank] else ElementLines(elements, arrayEncoding.Encode(key))
      case Obj(members) => if members == [] then [Blank] else MemberLines(members, key, false)
    }

    function ElementLines(elements: seq<Component>, key: Text): seq<Line>
      decreases elements
    {
      if elements == [] then [] else Lines(elements[0], key) + ElementLines(elements[1..], key)
    }

    function MemberLines(members: seq<Member>, key: Text, root: bool): seq<Line>
      decreases members
    {
      if members == [] then []
      else Lines(members[0].value, MemberKey(key, members[0].key, root)) + MemberLines(members[1..], key, root)
    }
  }

  // ---------------------------------------------------------------- the reader

  /** What a piece between ampersands says: a key and a value, or nothing of that form. */
  datatype Line = Pair(key: Text, value: Text) | Blank

  function HexValue(c: Octet): Option<nat>
  {
    if '0' <= c <= '9' then Some(c as int - '0' as int)
    else if 'A' <= c <= 'F' then Some(c as int - 'A' as int + 10)
    else if 'a' <= c <= 'f' then Some(c as int - 'a' as int + 10)
    else None
  }

  /** Undoes the escaping: a plus is a space, and a percent sign with two hexadecimal digits is an octet. */
  function Unescaped(s: Text): Text
  {
    if s == [] then []
    else if s[0] == '+' then [' '] + Unescaped(s[1..])
    else if s[0] == '%' && |s| >= 3 && HexValue(s[1]).Some? && HexValue(s[2]).Some?
    then [(HexValue(s[1]).value * 16 + HexValue(s[2]).value) as char] + Unescaped(s[3..])
    else [s[0]] + Unescaped(s[1..])
  }

  /** One more character in front of the first piece. */
  function Prepended(c: Octet, pieces: seq<Text>): (r: seq<Text>)
    requires pieces != []
    ensures r != []
  {
    [[c] + pieces[0]] + pieces[1..]
  }

  /** The pieces between separators; one more than there are separators. */
  function Split(s: Text, separator: Octet): (r: seq<Text>)
    ensures r != []
  {
    if s == [] then [[]]
    else
      var rest := Split(s[1..], separator);
      if s[0] == separator then [[]] + rest else Prepended(s[0], rest)
  }

  function ReadPiece(piece: Text): Line
  {
    var parts := Split(piece, '=');
    if |parts| == 2 then Pair(Unescaped(parts[0]), Unescaped(parts[1])) else Blank
  }

  function ReadPieces(pieces: seq<Text>): seq<Line>
  {
    Map(pieces, ReadPiece)
  }

  /** Splits at "&", then each piece at "=", and undoes the escaping. */
  function Read(query: Text): seq<Line>
  {
    ReadPieces(Split(query, '&'))
  }

  // ---------------------------------------------------------------- the leaves of a tree

  /** A step into a tree: to the member of an object, or to an element of an array. */
  datatype Step = Name(name: Text) | Item

  /** A string and the way to it, or an empty container. */
  datatype Leaf = Held(path: seq<Step>, text: Text) | Hollow

  /** The strings of a tree with their paths, in order, and a mark for each empty container. */
  function Leaves(component: Component, path: seq<Step>): seq<Leaf>
    decreases component
  {
    match component
    case Str(text) => [Held(path, text)]
    case Arr(elements) => if elements == [] then [Hollow] else ElementLeaves(elements, path + [Item])
    case Obj(members) => if members == [] then [Hollow] else MemberLeaves(members, path)
  }

  function ElementLeaves(elements: seq<Component>, path: seq<Step>): seq<Leaf>
    decreases elements
  {
    if elements == [] then [] else Leaves(elements[0], path) + ElementLeaves(elements[1..], path)
  }

  function MemberLeaves(members: seq<Member>, path: seq<Step>): seq<Leaf>
    decreases members
  {
    if members == [] then []
    else Leaves(members[0].value, path + [Name(members[0].key)]) + MemberLeaves(members[1..], path)
  }

  /** The key of a path: its first name, and then each further name in brackets, and for each array empty brackets or
      nothing. */
  function KeyOf(path: seq<Step>, brackets: bool): Text
  {
    if path == [] then []
    else if path[0].Name? then path[0].name + InnerKey(path[1..], brackets)
    else InnerKey(path, brackets)
  }

  function InnerKey(path: seq<Step>, brackets: bool): Text
  {
    Flatten(path, StepText(brackets))
  }

  function StepText(brackets: bool): Step -> Text
  {
    (step: Step) =>
      match step
      case Name(name) => "[" + name + "]"
      case Item => if brackets then "[]" else ""
  }

  /** What is to be read for a leaf. */
  function LineOf(s: Serializer, leaf: Leaf): Line
  {
    match leaf
    case Held(path, text) => Pair(s.keyEncoding.Encode(KeyOf(path, s.arrayEncoding.Brackets?)), text)
    case Hollow => Blank
  }

  function LineFor(s: Serializer): Leaf -> Line
  {
    (leaf: Leaf) => LineOf(s, leaf)
  }

  function LinesOf(s: Serializer, leaves: seq<Leaf>): seq<Line>
  {
    Map(leaves, LineFor(s))
  }

  lemma OneStep(step: Step, brackets: bool)
    ensures InnerKey([step], brackets) == StepText(brackets)(step)
  {
    FlattenHead(step, [], StepText(brackets));
    assert [step] + [] == [step];
    assert StepText(brackets)(step) + [] == StepText(brackets)(step);
  }

  /** One step further, below the root. */
  lemma KeyOfStep(path: seq<Step>, step: Step, brackets: bool)
    requires path != [] && path[0].Name?
    ensures KeyOf(path + [step], brackets) == KeyOf(path, brackets) + StepText(brackets)(step)
  {
    assert (path + [step])[0] == path[0] && (path + [step])[1..] == path[1..] + [step];
    FlattenAppend(path[1..], step, StepText(brackets));
    Associates(path[0].name, InnerKey(path[1..], brackets), StepText(brackets)(step));
  }

  lemma {:induction false} LinesAreLeaves(s: Serializer, component: Component, path: seq<Step>)
    requires path != [] && path[0].Name?
    ensures s.Lines(component, KeyOf(path, s.arrayEncoding.Brackets?)) == LinesOf(s, Leaves(component, path))
    decreases component
  {
    match component {
      case Str(text) =>
        var leaves := [Held(path, text)];
        assert LinesOf(s, leaves) == [LineOf(s, leaves[0])];
      case Arr(elements) =>
        ArrayKey(s, path);
        ElementLinesAreLeaves(s, elements, path + [Item]);
        assert LinesOf(s, [Hollow]) == [Blank];
      case Obj(members) =>
        MemberLinesAreLeaves(s, members, path);
        assert LinesOf(s, [Hollow]) == [Blank];
    }
  }

  lemma ArrayKey(s: Serializer, path: seq<Step>)
    requires path != [] && path[0].Name?
    ensures KeyOf(path + [Item], s.arrayEncoding.Brackets?)
      == s.arrayEncoding.Encode(KeyOf(path, s.arrayEncoding.Brackets?))
  {
    var key := KeyOf(path, s.arrayEncoding.Brackets?);
    KeyOfStep(path, Item, s.arrayEncoding.Brackets?);
    assert key + "" == key;
  }

  lemma MemberKeyOf(s: Serializer, path: seq<Step>, name: Text)
    requires path != [] ==> path[0].Name?
    ensures KeyOf(path + [Name(name)], s.arrayEncoding.Brackets?)
      == s.MemberKey(KeyOf(path, s.arrayEncoding.Brackets?), name, path == [])
  {
    var key := KeyOf(path, s.arrayEncoding.Brackets?);
    if path == [] {
      assert [Name(name)][1..] == [] && name + "" == name;
      assert path + [Name(name)] == [Name(name)];
    } else {
      KeyOfStep(path, Name(name), s.arrayEncoding.Brackets?);
      assert key + ("[" + name + "]") == key + "[" + name + "]";
    }
  }

  lemma {:induction false} ElementLinesAreLeaves(s: Serializer, elements: seq<Component>, path: seq<Step>)
    requires path != [] && path[0].Name?
    ensures s.ElementLines(elements, KeyOf(path, s.arrayEncoding.Brackets?))
      == LinesOf(s, ElementLeaves(elements, path))
    decreases elements
  {
    if elements == [] {
    } else {
      LinesAreLeaves(s, elements[0], path);
      ElementLinesAreLeaves(s, elements[1..], path);
      MapConcat(Leaves(elements[0], path), ElementLeaves(elements[1..], path), LineFor(s));
    }
  }

  /** At the root and below it. */
  lemma {:induction false} MemberLinesAreLeaves(s: Serializer, members: seq<Member>, path: seq<Step>)
    requires path != [] ==> path[0].Name?
    ensures s.MemberLines(members, KeyOf(path, s.arrayEncoding.Brackets?), path == [])
      == LinesOf(s, MemberLeaves(members, path))
    decreases members
  {
    if members == [] {
    } else {
      var inner := path + [Name(members[0].key)];
      MemberKeyOf(s, path, members[0].key);
      LinesAreLeaves(s, members[0].value, inner);
      MemberLinesAreLeaves(s, members[1..], path);
      MapConcat(Leaves(members[0].value, inner), MemberLeaves(members[1..], path), LineFor(s));
    }
  }

  // ---------------------------------------------------------------- escaping can be undone

  lemma SpacesReplacedHead(c: Octet, rest: Text, replacement: Text)
    ensures SpacesReplaced([c] + rest, replacement)
      == (if c == ' ' then replacement else [c]) + SpacesReplaced(rest, replacement)
  {
    assert ([c] + rest)[1..] == rest;
  }

  lemma SpacesReplacedPercent(c: Octet, rest: Text, replacement: Text)
    ensures SpacesReplaced(Percent(c) + rest, replacement) == Percent(c) + SpacesReplaced(rest, replacement)
  {
    var p := Percent(c);
    assert p + rest == [p[0]] + ([p[1]] + ([p[2]] + rest));
    SpacesReplacedHead(p[0], [p[1]] + ([p[2]] + rest), replacement);
    SpacesReplacedHead(p[1], [p[2]] + rest, replacement);
    SpacesReplacedHead(p[2], rest, replacement);
  }

  /** One octet as it is escaped. */
  function EscapedOctet(s: Serializer, c: Octet): Text
  {
    if c == ' ' then (if s.spaceEncoding.PercentEscaped? then "%20" else "+")
    else if s.allowedCharacters(c) then [c]
    else Percent(c)
  }

  lemma EscapeHead(s: Serializer, q: Text)
    requires q != []
    ensures s.Escape(q) == EscapedOctet(s, q[0]) + s.Escape(q[1..])
  {
    var replacement := if s.spaceEncoding.PercentEscaped? then "%20" else "+";
    if s.AllowedWithSpace(q[0]) {
      SpacesReplacedHead(q[0], s.PercentEncoded(q[1..]), replacement);
    } else {
      SpacesReplacedPercent(q[0], s.PercentEncoded(q[1..]), replacement);
    }
  }

  /** A space becomes "%20" or a plus sign, an allowed octet stays, and any other becomes a percent sign with its two
      upper-case hexadecimal digits. */
  lemma OctetIsEscaped(s: Serializer, c: Octet)
    ensures var digits := "0123456789ABCDEF";
      s.Escape([c]) ==
        if c == ' ' then (if s.spaceEncoding == PlusReplaced then "+" else "%20")
        else if s.allowedCharacters(c) then [c]
        else ['%', digits[c as int / 16], digits[c as int % 16]]
  {
    EscapeHead(s, [c]);
    assert EscapedOctet(s, c) + [] == EscapedOctet(s, c);
  }

  /** Text is escaped octet by octet. */
  lemma {:induction false} EscapeConcat(s: Serializer, a: Text, b: Text)
    ensures s.Escape(a + b) == s.Escape(a) + s.Escape(b)
  {
    if a == [] {
      assert a + b == b;
    } else {
      EscapeConcat(s, a[1..], b);
      assert (a + b)[0] == a[0] && (a + b)[1..] == a[1..] + b;
      EscapeHead(s, a + b);
      EscapeHead(s, a);
    }
  }

  lemma UnescapedOctet(s: Serializer, c: Octet, rest: Text)
    requires s.Safe()
    ensures Unescaped(EscapedOctet(s, c) + rest) == [c] + Unescaped(rest)
  {
    var e := EscapedOctet(s, c) + rest;
    if |EscapedOctet(s, c)| == 1 {
      assert e[1..] == rest;
    } else {
      assert e[3..] == rest;
    }
  }

  /** Escaping loses nothing, for either space encoding. */
  lemma {:induction false} UnescapedEscape(s: Serializer, q: Text)
    requires s.Safe()
    ensures Unescaped(s.Escape(q)) == q
  {
    if q == [] {
    } else {
      EscapeHead(s, q);
      UnescapedOctet(s, q[0], s.Escape(q[1..]));
      UnescapedEscape(s, q[1..]);
    }
  }

  /** Escaped text contains neither "&" nor "=". */
  lemma {:induction false} EscapeHasNoDelimiter(s: Serializer, q: Text)
    requires s.Safe()
    ensures '&' !in s.Escape(q) && '=' !in s.Escape(q)
  {
    if q == [] {
    } else {
      EscapeHead(s, q);
      EscapeHasNoDelimiter(s, q[1..]);
    }
  }

  /** By default letters, digits, the four other unreserved characters of section 2.3 of RFC 3986, the slash and the
      question mark stay, and nothing else. */
  lemma DefaultCharacters(c: Octet)
    ensures AfUrlQueryAllowed(c) <==> 'a' <= c <= 'z' || 'A' <= c <= 'Z' || '0' <= c <= '9' || c in "-._~/?"
  {
  }

  /** The default allowed characters leave no character of the syntax unescaped, nor any octet outside ASCII. */
  lemma DefaultCharactersAreSafe(s: Serializer, c: Octet)
    requires s.allowedCharacters == AfUrlQueryAllowed
    ensures s.Safe() && (s.allowedCharacters(c) ==> c as int < 128 && c !in "%:#[]@!$&'()*+,;=")
  {
  }

  // ---------------------------------------------------------------- splitting

  lemma PrependedConcat(c: Octet, a: seq<Text>, b: seq<Text>)
    requires a != []
    ensures Prepended(c, a + b) == Prepended(c, a) + b
  {
    assert (a + b)[1..] == a[1..] + b;
  }

  lemma {:induction false} SplitConcat(a: Text, b: Text, separator: Octet)
    ensures Split(a + [separator] + b, separator) == Split(a, separator) + Split(b, separator)
  {
    if a == [] {
      assert a + [separator] + b == [separator] + b && ([separator] + b)[1..] == b;
    } else {
      SplitConcat(a[1..], b, separator);
      var whole := a + [separator] + b;
      assert whole == [a[0]] + (a[1..] + [separator] + b) && whole[1..] == a[1..] + [separator] + b;
      PrependedConcat(a[0], Split(a[1..], separator), Split(b, separator));
    }
  }

  lemma {:induction false} SplitWithout(a: Text, separator: Octet)
    requires separator !in a
    ensures Split(a, separator) == [a]
  {
    if a == [] {
    } else {
      SplitWithout(a[1..], separator);
      assert [a[1..]][1..] == [] && [a[0]] + a[1..] == a;
    }
  }

  lemma ReadConcat(a: Text, b: Text)
    ensures Read(a + "&" + b) == Read(a) + Read(b)
  {
    SplitConcat(a, b, '&');
    MapConcat(Split(a, '&'), Split(b, '&'), ReadPiece);
  }

  /** A pair reads back as it was. */
  lemma ReadKeyValue(s: Serializer, key: Text, text: Text)
    requires s.Safe()
    ensures Read(s.KeyValue(key, text)) == [Pair(s.keyEncoding.Encode(key), text)]
  {
    var k, v := s.Escape(s.keyEncoding.Encode(key)), s.Escape(text);
    EscapeHasNoDelimiter(s, s.keyEncoding.Encode(key));
    EscapeHasNoDelimiter(s, text);
    SplitWithout(k + "=" + v, '&');
    SplitConcat(k, v, '=');
    SplitWithout(k, '=');
    SplitWithout(v, '=');
    UnescapedEscape(s, s.keyEncoding.Encode(key));
    UnescapedEscape(s, text);
    assert [k + "=" + v][1..] == [];
  }

  // ---------------------------------------------------------------- sorting and joining

  function ReadAll(segments: seq<Text>): seq<Line>
  {
    if segments == [] then [] else Read(segments[0]) + ReadAll(segments[1..])
  }

  lemma {:induction false} ReadJoined(segments: seq<Text>)
    ensures Read(JoinedWithAmpersands(segments)) == if segments == [] then [Blank] else ReadAll(segments)
  {
    if segments == [] {
      assert Read([]) == [Blank];
    } else if |segments| == 1 {
      assert segments[1..] == [];
    } else {
      ReadJoined(segments[1..]);
      ReadConcat(segments[0], JoinedWithAmpersands(segments[1..]));
    }
  }

  lemma {:induction false} ReadAllInserted(x: Text, segments: seq<Text>)
    ensures multiset(ReadAll(Inserted(x, segments))) == multiset(Read(x)) + multiset(ReadAll(segments))
  {
    if segments == [] || AtMost(x, segments[0]) {
      assert ([x] + segments)[1..] == segments;
    } else {
      ReadAllInserted(x, segments[1..]);
      assert ([segments[0]] + Inserted(x, segments[1..]))[1..] == Inserted(x, segments[1..]);
    }
  }

  lemma {:induction false} ReadAllSorted(segments: seq<Text>)
    ensures multiset(ReadAll(Sorted(segments))) == multiset(ReadAll(segments))
    ensures |Sorted(segments)| == |segments|
  {
    if segments == [] {
    } else {
      ReadAllSorted(segments[1..]);
      ReadAllInserted(segments[0], Sorted(segments[1..]));
      InsertedLength(segments[0], Sorted(segments[1..]));
    }
  }

  lemma {:induction false} InsertedLength(x: Text, s: seq<Text>)
    ensures |Inserted(x, s)| == |s| + 1
  {
    if s == [] {
    } else {
      InsertedLength(x, s[1..]);
    }
  }

  /** The same lines in the same order, or in any order when the pairs are alphabetized. */
  predicate SameLines(s: Serializer, a: seq<Line>, b: seq<Line>)
  {
    if s.alphabetizeKeyValuePairs then multiset(a) == multiset(b) else a == b
  }

  lemma SameLinesConcat(s: Serializer, a: seq<Line>, b: seq<Line>, c: seq<Line>, d: seq<Line>)
    requires SameLines(s, a, b) && SameLines(s, c, d)
    ensures SameLines(s, a + c, b + d)
  {
  }

  /** A reader of the joined segments finds what each of them says, whether or not they are sorted. */
  lemma ReadOrdered(s: Serializer, segments: seq<Text>, lines: seq<Line>)
    requires SameLines(s, ReadAll(segments), lines)
    ensures SameLines(s, Read(JoinedWithAmpersands(s.Ordered(segments))), if segments == [] then [Blank] else lines)
  {
    ReadAllSorted(segments);
    ReadJoined(s.Ordered(segments));
  }

  // ---------------------------------------------------------------- serialisation loses nothing

  lemma {:induction false} ReadSerialized(s: Serializer, component: Component, key: Text)
    requires s.Safe()
    ensures SameLines(s, Read(s.Serialize(component, key)), s.Lines(component, key))
    decreases component
  {
    match component {
      case Str(text) => ReadKeyValue(s, key, text);
      case Arr(elements) =>
        var inner := s.arrayEncoding.Encode(key);
        ReadElements(s, elements, inner);
        ReadOrdered(s, s.ElementSegments(elements, inner), s.ElementLines(elements, inner));
      case Obj(members) =>
        ReadMembers(s, members, key, false);
        ReadOrdered(s, s.MemberSegments(members, key, false), s.MemberLines(members, key, false));
    }
  }

  lemma {:induction false} ReadElements(s: Serializer, elements: seq<Component>, key: Text)
    requires s.Safe()
    ensures SameLines(s, ReadAll(s.ElementSegments(elements, key)), s.ElementLines(elements, key))
    decreases elements
  {
    if elements == [] {
    } else {
      var head, tail := elements[0], s.ElementSegments(elements[1..], key);
      ReadSerialized(s, head, key);
      ReadElements(s, elements[1..], key);
      assert s.ElementSegments(elements, key)[1..] == tail;
      SameLinesConcat(s, Read(s.Serialize(head, key)), s.Lines(head, key), ReadAll(tail),
        s.ElementLines(elements[1..], key));
    }
  }

  lemma {:induction false} ReadMembers(s: Serializer, members: seq<Member>, key: Text, root: bool)
    requires s.Safe()
    ensures SameLines(s, ReadAll(s.MemberSegments(members, key, root)), s.MemberLines(members, key, root))
    decreases members
  {
    if members == [] {
    } else {
      var head, inner := members[0].value, s.MemberKey(key, members[0].key, root);
      var tail := s.MemberSegments(members[1..], key, root);
      ReadSerialized(s, head, inner);
      ReadMembers(s, members[1..], key, root);
      assert s.MemberSegments(members, key, root)[1..] == tail;
      SameLinesConcat(s, Read(s.Serialize(head, inner)), s.Lines(head, inner), ReadAll(tail),
        s.MemberLines(members[1..], key, root));
    }
  }

  lemma ReadRoot(s: Serializer, members: seq<Member>)
    requires s.Safe()
    ensures var lines := if members == [] then [Blank] else s.MemberLines(members, [], true);
      && multiset(Read(s.SerializeObject(members))) == multiset(lines)
      && (!s.alphabetizeKeyValuePairs ==> Read(s.SerializeObject(members)) == lines)
  {
    ReadMembers(s, members, [], true);
    ReadOrdered(s, s.MemberSegments(members, [], true), s.MemberLines(members, [], true));
  }

  lemma RootLinesAreLeaves(s: Serializer, members: seq<Member>)
    ensures LinesOf(s, Leaves(Obj(members), [])) == if members == [] then [Blank] else s.MemberLines(members, [], true)
  {
    MemberLinesAreLeaves(s, members, []);
    assert [Hollow][1..] == [];
  }

  /** Serialisation loses nothing. Splitting the query at "&" and "=" and undoing the escaping gives exactly the value
      of every string of the object, under the key of its path, with a blank for each empty container: in their order,
      or as a multiset when the pairs are alphabetized, for every array, key and space encoding. */
  lemma SerialisationLosesNothing(s: Serializer, members: seq<Member>)
    requires s.Safe()
    ensures var lines := LinesOf(s, Leaves(Obj(members), []));
      && multiset(Read(s.SerializeObject(members))) == multiset(lines)
      && (!s.alphabetizeKeyValuePairs ==> Read(s.SerializeObject(members)) == lines)
  {
    ReadRoot(s, members);
    RootLinesAreLeaves(s, members);
  }

  /** No container is empty, at any depth. */
  predicate NoEmptyContainer(component: Component)
    decreases component
  {
    match component
    case Str(_) => true
    case Arr(elements) => elements != [] && forall i :: 0 <= i < |elements| ==> NoEmptyContainer(elements[i])
    case Obj(members) => members != [] && forall i :: 0 <= i < |members| ==> NoEmptyContainer(members[i].value)
  }

  /** Then, and only then, what is read back is pairs alone. */
  lemma {:induction false} OnlyPairsIffNoEmptyContainer(s: Serializer, component: Component, key: Text)
    ensures Blank !in s.Lines(component, key) <==> NoEmptyContainer(component)
    decreases component
  {
    match component {
      case Str(_) =>
      case Arr(elements) => OnlyPairsInElements(s, elements, s.arrayEncoding.Encode(key));
      case Obj(members) => OnlyPairsInMembers(s, members, key, false);
    }
  }

  lemma {:induction false} OnlyPairsInElements(s: Serializer, elements: seq<Component>, key: Text)
    ensures Blank !in s.ElementLines(elements, key)
      <==> forall i :: 0 <= i < |elements| ==> NoEmptyContainer(elements[i])
    decreases elements
  {
    if elements == [] {
    } else {
      OnlyPairsIffNoEmptyContainer(s, elements[0], key);
      OnlyPairsInElements(s, elements[1..], key);
      assert forall i :: 1 <= i < |elements| ==> elements[i] == elements[1..][i - 1];
      assert forall i :: 0 <= i < |elements[1..]| ==> elements[1..][i] == elements[i + 1];
    }
  }

  lemma {:induction false} OnlyPairsInMembers(s: Serializer, members: seq<Member>, key: Text, root: bool)
    ensures Blank !in s.MemberLines(members, key, root)
      <==> forall i :: 0 <= i < |members| ==> NoEmptyContainer(members[i].value)
    decreases members
  {
    if members == [] {
    } else {
      OnlyPairsIffNoEmptyContainer(s, members[0].value, s.MemberKey(key, members[0].key, root));
      OnlyPairsInMembers(s, members[1..], key, root);
      assert forall i :: 1 <= i < |members| ==> members[i] == members[1..][i - 1];
      assert forall i :: 0 <= i < |members[1..]| ==> members[1..][i] == members[i + 1];
    }
  }

  // ---------------------------------------------------------------- alphabetized output is canonical

  /** The order of strings: a prefix comes first, and otherwise the first octet that differs decides. */
  lemma {:induction false} AtMostMeaning(a: Text, b: Text)
    ensures AtMost(a, b) <==>
      a <= b || exists i :: 0 <= i < |a| && i < |b| && a[..i] == b[..i] && a[i] < b[i]
  {
    if a == [] || b == [] {
    } else if a[0] != b[0] {
      assert a[..0] == b[..0];
      assert !(a <= b) && forall i :: 0 < i < |a| && i < |b| ==> a[..i][0] != b[..i][0];
    } else {
      AtMostMeaning(a[1..], b[1..]);
      assert a <= b <==> a[1..] <= b[1..] by {
        assert a == [a[0]] + a[1..] && b == [b[0]] + b[1..];
      }
      FirstDifference(a, b);
    }
  }

  lemma FirstDifference(a: Text, b: Text)
    requires a != [] && b != [] && a[0] == b[0]
    ensures (exists i :: 0 <= i < |a| && i < |b| && a[..i] == b[..i] && a[i] < b[i])
      <==> exists i :: 0 <= i < |a[1..]| && i < |b[1..]| && a[1..][..i] == b[1..][..i] && a[1..][i] < b[1..][i]
  {
    if i :| 0 <= i < |a| && i < |b| && a[..i] == b[..i] && a[i] < b[i] {
      assert i > 0 && a[1..][..i - 1] == a[..i][1..] && b[1..][..i - 1] == b[..i][1..];
      assert a[1..][i - 1] < b[1..][i - 1];
    }
    if i :| 0 <= i < |a[1..]| && i < |b[1..]| && a[1..][..i] == b[1..][..i] && a[1..][i] < b[1..][i] {
      assert a[..i + 1] == [a[0]] + a[1..][..i] && b[..i + 1] == [b[0]] + b[1..][..i];
      assert a[i + 1] < b[i + 1];
    }
  }

  lemma {:induction false} AtMostIsTotal(a: Text, b: Text)
    ensures AtMost(a, b) || AtMost(b, a)
    ensures AtMost(a, b) && AtMost(b, a) ==> a == b
  {
    if a != [] && b != [] && a[0] == b[0] {
      AtMostIsTotal(a[1..], b[1..]);
      assert a == [a[0]] + a[1..] && b == [b[0]] + b[1..];
    }
  }

  lemma {:induction false} AtMostIsTransitive(a: Text, b: Text, c: Text)
    requires AtMost(a, b) && AtMost(b, c)
    ensures AtMost(a, c)
  {
    if a != [] && a[0] == b[0] == c[0] {
      AtMostIsTransitive(a[1..], b[1..], c[1..]);
    }
  }

  predicate Ascending(s: seq<Text>)
  {
    |s| < 2 || (AtMost(s[0], s[1]) && Ascending(s[1..]))
  }

  lemma {:induction false} InsertedIsAscending(x: Text, s: seq<Text>)
    requires Ascending(s)
    ensures Ascending(Inserted(x, s)) && multiset(Inserted(x, s)) == multiset(s) + multiset{x}
    ensures s != [] && !AtMost(x, s[0]) ==> Inserted(x, s)[0] == s[0]
  {
    if s == [] || AtMost(x, s[0]) {
      assert ([x] + s)[1..] == s;
    } else {
      AtMostIsTotal(x, s[0]);
      InsertedIsAscending(x, s[1..]);
      assert s == [s[0]] + s[1..];
      var rest := Inserted(x, s[1..]);
      assert ([s[0]] + rest)[1..] == rest;
      assert rest != [] && AtMost(s[0], rest[0]);
    }
  }

  /** Segments come out in ascending order, and none is lost or made up. */
  lemma {:induction false} SortedIsAscending(s: seq<Text>)
    ensures Ascending(Sorted(s)) && multiset(Sorted(s)) == multiset(s)
  {
    if s == [] {
    } else {
      SortedIsAscending(s[1..]);
      InsertedIsAscending(s[0], Sorted(s[1..]));
      assert s == [s[0]] + s[1..];
    }
  }

  lemma {:induction false} InsertionsCommute(x: Text, y: Text, s: seq<Text>)
    ensures Inserted(x, Inserted(y, s)) == Inserted(y, Inserted(x, s))
  {
    AtMostIsTotal(x, y);
    if s == [] {
      assert [x][1..] == [] && [y][1..] == [];
    } else if AtMost(x, s[0]) {
      InsertBoth(x, y, s);
    } else if AtMost(y, s[0]) {
      InsertBoth(y, x, s);
    } else {
      InsertionsCommute(x, y, s[1..]);
      assert ([s[0]] + Inserted(x, s[1..]))[1..] == Inserted(x, s[1..]);
      assert ([s[0]] + Inserted(y, s[1..]))[1..] == Inserted(y, s[1..]);
    }
  }

  lemma InsertBoth(x: Text, y: Text, s: seq<Text>)
    requires s != [] && AtMost(x, s[0])
    ensures Inserted(x, Inserted(y, s)) == Inserted(y, Inserted(x, s))
  {
    AtMostIsTotal(x, y);
    assert ([x] + s)[1..] == s && ([y] + s)[1..] == s;
    if AtMost(y, s[0]) {
    } else if AtMost(y, x) {
      AtMostIsTransitive(y, x, s[0]);
    } else {
      assert Inserted(y, s)[0] == s[0];
    }
  }

  lemma {:induction false} SortedWithout(s: seq<Text>, i: nat)
    requires i < |s|
    ensures Sorted(s) == Inserted(s[i], Sorted(Without(s, i)))
  {
    if i == 0 {
      assert Without(s, 0) == s[1..];
    } else {
      SortedWithout(s[1..], i - 1);
      assert Without(s, i)[0] == s[0] && Without(s, i)[1..] == Without(s[1..], i - 1);
      InsertionsCommute(s[0], s[i], Sorted(Without(s[1..], i - 1)));
    }
  }

  /** The same tree up to the order of the entries of its containers, at every level. */
  ghost predicate Reordered(a: Component, b: Component)
    decreases a
  {
    match a
    case Str(_) => a == b
    case Arr(elements) => b.Arr? && ReorderedElements(elements, b.elements)
    case Obj(members) => b.Obj? && ReorderedMembers(members, b.members)
  }

  ghost predicate ReorderedElements(a: seq<Component>, b: seq<Component>)
    decreases a
  {
    if a == [] then b == []
    else exists i :: 0 <= i < |b| && Reordered(a[0], b[i]) && ReorderedElements(a[1..], Without(b, i))
  }

  ghost predicate ReorderedMembers(a: seq<Member>, b: seq<Member>)
    decreases a
  {
    if a == [] then b == []
    else exists i :: 0 <= i < |b| && a[0].key == b[i].key && Reordered(a[0].value, b[i].value)
                     && ReorderedMembers(a[1..], Without(b, i))
  }

  lemma {:induction false} ElementSegmentsWithout(s: Serializer, elements: seq<Component>, key: Text, i: nat)
    requires i < |elements|
    ensures var segments := s.ElementSegments(elements, key);
      && |segments| == |elements| && segments[i] == s.Serialize(elements[i], key)
      && s.ElementSegments(Without(elements, i), key) == Without(segments, i)
  {
    var head, tail := s.Serialize(elements[0], key), s.ElementSegments(elements[1..], key);
    WithoutHead(elements, i);
    if |elements| > 1 {
      ElementSegmentsWithout(s, elements[1..], key, if i == 0 then 0 else i - 1);
    }
    WithoutHead([head] + tail, i);
    if i == 0 {
    } else {
      assert Without(elements, i)[0] == elements[0] && Without(elements, i)[1..] == Without(elements[1..], i - 1);
      assert ([head] + tail)[1..] == tail;
    }
  }

  lemma {:induction false} MemberSegmentsWithout(s: Serializer, members: seq<Member>, key: Text, root: bool, i: nat)
    requires i < |members|
    ensures var segments := s.MemberSegments(members, key, root);
      && |segments| == |members| && segments[i] == s.Serialize(members[i].value, s.MemberKey(key, members[i].key, root))
      && s.MemberSegments(Without(members, i), key, root) == Without(segments, i)
  {
    var head, tail := s.Serialize(members[0].value, s.MemberKey(key, members[0].key, root)),
      s.MemberSegments(members[1..], key, root);
    WithoutHead(members, i);
    if |members| > 1 {
      MemberSegmentsWithout(s, members[1..], key, root, if i == 0 then 0 else i - 1);
    }
    WithoutHead([head] + tail, i);
    if i == 0 {
    } else {
      assert s.MemberSegments([members[0]] + Without(members[1..], i - 1), key, root)
        == [head] + s.MemberSegments(Without(members[1..], i - 1), key, root) by {
        assert ([members[0]] + Without(members[1..], i - 1))[1..] == Without(members[1..], i - 1);
      }
    }
  }

  lemma {:induction false} ReorderedSerialize(s: Serializer, a: Component, b: Component, key: Text)
    requires s.alphabetizeKeyValuePairs && Reordered(a, b)
    ensures s.Serialize(a, key) == s.Serialize(b, key)
    decreases a
  {
    match a {
      case Str(_) =>
      case Arr(elements) => ReorderedElementSegments(s, elements, b.elements, s.arrayEncoding.Encode(key));
      case Obj(members) => ReorderedMemberSegments(s, members, b.members, key, false);
    }
  }

  lemma {:induction false} ReorderedElementSegments(s: Serializer, a: seq<Component>, b: seq<Component>, key: Text)
    requires s.alphabetizeKeyValuePairs && ReorderedElements(a, b)
    ensures Sorted(s.ElementSegments(a, key)) == Sorted(s.ElementSegments(b, key))
    decreases a
  {
    if a == [] {
    } else {
      var i :| 0 <= i < |b| && Reordered(a[0], b[i]) && ReorderedElements(a[1..], Without(b, i));
      ReorderedSerialize(s, a[0], b[i], key);
      ReorderedElementSegments(s, a[1..], Without(b, i), key);
      ElementSegmentsWithout(s, b, key, i);
      SortedWithout(s.ElementSegments(b, key), i);
      assert s.ElementSegments(a, key)[1..] == s.ElementSegments(a[1..], key);
    }
  }

  lemma {:induction false} ReorderedMemberSegments(s: Serializer, a: seq<Member>, b: seq<Member>, key: Text, root: bool)
    requires s.alphabetizeKeyValuePairs && ReorderedMembers(a, b)
    ensures Sorted(s.MemberSegments(a, key, root)) == Sorted(s.MemberSegments(b, key, root))
    decreases a
  {
    if a == [] {
    } else {
      var i :| 0 <= i < |b| && a[0].key == b[i].key && Reordered(a[0].value, b[i].value)
        && ReorderedMembers(a[1..], Without(b, i));
      ReorderedSerialize(s, a[0].value, b[i].value, s.MemberKey(key, a[0].key, root));
      ReorderedMemberSegments(s, a[1..], Without(b, i), key, root);
      MemberSegmentsWithout(s, b, key, root, i);
      SortedWithout(s.MemberSegments(b, key, root), i);
      assert s.MemberSegments(a, key, root)[1..] == s.MemberSegments(a[1..], key, root);
    }
  }

  /** Alphabetized output does not depend on the order in which the parameters were stored, at any level. That includes
      the order of the elements of arrays, which is therefore lost. */
  lemma AlphabetizedIsCanonical(s: Serializer, a: seq<Member>, b: seq<Member>)
    requires s.alphabetizeKeyValuePairs && ReorderedMembers(a, b)
    ensures s.SerializeObject(a) == s.SerializeObject(b)
  {
    ReorderedMemberSegments(s, a, b, [], true);
  }

  // ---------------------------------------------------------------- the whole encoder

  datatype EncodeResult = Query(query: Text) | InvalidValue | InvalidRootObject

  function Encoded(s: Serializer, value: Value): EncodeResult
  {
    if !NoNil(value) then InvalidValue
    else match Built(value)
      case Obj(members) => Query(s.SerializeObject(members))
      case _ => InvalidRootObject
  }

  /** encode(_:) of the encoder. */
  method Encode(s: Serializer, value: Value) returns (result: EncodeResult)
    ensures result == Encoded(s, value)
    ensures result.InvalidValue? <==> !NoNil(value)
  {
    var component := EncodeComponent(value);
    match component {
      case None => return InvalidValue;
      case Some(Obj(members)) =>
        var query := s.SerializeRoot(members);
        return Query(query);
      case Some(_) => return InvalidRootObject;
    }
  }

  lemma {:induction false} WellBuiltIsNotEmpty(component: Component)
    requires WellBuilt(component)
    ensures NoEmptyContainer(component)
    decreases component
  {
    match component {
      case Str(_) =>
      case Arr(elements) =>
        forall i | 0 <= i < |elements| ensures NoEmptyContainer(elements[i]) {
          WellBuiltIsNotEmpty(elements[i]);
        }
      case Obj(members) =>
        forall i | 0 <= i < |members| ensures NoEmptyContainer(members[i].value) {
          WellBuiltIsNotEmpty(members[i].value);
        }
    }
  }

  /** From value to query and back: a record with distinct keys that are no integers, no empty container and no nil is
      encoded, and a reader of the query finds exactly the value of each of its strings under the key of its path. */
  lemma EncodedFormReadsBack(s: Serializer, value: Value)
    requires s.Safe() && value.Record? && Clean(value) && NoNil(value)
    ensures var result, lines := Encoded(s, value), LinesOf(s, Leaves(ComponentOf(value), []));
      && result.Query? && multiset(Read(result.query)) == multiset(lines) && Blank !in lines
      && (!s.alphabetizeKeyValuePairs ==> Read(result.query) == lines)
  {
    WritesBuildTheTree(value);
    CleanWrites(value);
    ApplyIsWellBuilt(Obj([]), Writes(value));
    var members := ComponentOf(value).members;
    WellBuiltIsNotEmpty(ComponentOf(value));
    SerialisationLosesNothing(s, members);
    OnlyPairsInMembers(s, members, [], true);
    RootLinesAreLeaves(s, members);
  }

  // ---------------------------------------------------------------- which roots are encoded

  /** Only keyed values are meant to be encoded. What the check of the root object accepts, exactly: a value without nil
      that has no string in it, or whose last string is below a key of the root that is no integer. */
  lemma EncodedIff(s: Serializer, value: Value)
    ensures var writes := Writes(value);
      Encoded(s, value).Query? <==>
      && NoNil(value)
      && (writes == [] || (var last := writes[|writes| - 1]; last.path != [] && last.path[0].intValue.None?))
  {
    if Writes(value) != [] {
      LastWriteDecides(Obj([]), Writes(value));
    }
  }

  /** So a list is refused, as documented, unless it has no string in it: then it is encoded as the empty query. */
  lemma ListIsEncodedIff(s: Serializer, elements: seq<Value>)
    requires NoNil(List(elements))
    ensures Encoded(s, List(elements)) == if Writes(List(elements)) == [] then Query([]) else InvalidRootObject
  {
    var writes := Writes(List(elements));
    if writes == [] {
      assert s.Ordered([]) == [];
    } else {
      LastWriteDecides(Obj([]), writes);
      ElementWritesStart(elements, 0, |writes| - 1);
    }
  }

  /** A record is encoded, as documented, when none of its own keys is an integer. */
  lemma RecordIsEncoded(s: Serializer, entries: seq<Entry>)
    requires NoNil(Record(entries)) && NoIntegerKeys(entries)
    ensures Encoded(s, Record(entries)).Query?
  {
    var writes := Writes(Record(entries));
    if writes != [] {
      LastWriteDecides(Obj([]), writes);
      EntryWritesStart(entries, |writes| - 1);
    }
  }

  /** A keyed value that is refused all the same. */
  lemma IntegerKeyIsRefused(s: Serializer, name: Text, index: nat, text: Text)
    ensures Encoded(s, Record([Entry(Key(name, Some(index)), Leaf(text))])) == InvalidRootObject
  {
    IntegerKeyMakesArray(name, index, text);
  }
}
