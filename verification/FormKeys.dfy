/** The keys of a form: which tree a reader can tell from them. A key holds the path of its string, with each name after
    the first in brackets. */
module FormKeys {
  import opened Bits
  import opened Sequences
  import opened KeyEncoding
  import opened FormComponent
  import opened FormSerializer

  // ---------------------------------------------------------------- a reader of keys

  /** The text before the first c, or all of it. */
  function UpTo(t: Text, c: Octet): (r: Text)
    ensures |r| <= |t| && r == t[..|r|] && c !in r && (|r| < |t| ==> t[|r|] == c)
  {
    if t == [] || t[0] == c then [] else [t[0]] + UpTo(t[1..], c)
  }

  /** Splits the rest of a key at its brackets; empty brackets are a step into an array. */
  function ParseInner(t: Text): seq<Step>
    decreases |t|
  {
    if t == [] || t[0] != '[' then []
    else
      var name := UpTo(t[1..], ']');
      [if name == [] then Item else Name(name)]
        + (if |name| + 2 <= |t| then ParseInner(t[|name| + 2..]) else [])
  }

  function ParseKey(key: Text): seq<Step>
  {
    var first := UpTo(key, '[');
    [Name(first)] + ParseInner(key[|first|..])
  }

  // ---------------------------------------------------------------- which keys can be read back

  predicate PlainStep(step: Step)
  {
    step.Name? ==> step.name != [] && ']' !in step.name
  }

  /** The first name has no opening bracket; further names are not empty and have no closing bracket. */
  predicate Readable(path: seq<Step>)
  {
    && path != [] && path[0].Name? && '[' !in path[0].name
    && forall i :: 1 <= i < |path| ==> PlainStep(path[i])
  }

  lemma {:induction false} UpToStop(name: Text, c: Octet, rest: Text)
    requires c !in name && (rest != [] ==> rest[0] == c)
    ensures UpTo(name + rest, c) == name
  {
    if name == [] {
      assert [] + rest == rest;
    } else {
      assert (name + rest)[0] == name[0] && (name + rest)[1..] == name[1..] + rest;
      UpToStop(name[1..], c, rest);
    }
  }

  lemma ParseStep(step: Step, rest: Text)
    requires PlainStep(step)
    ensures ParseInner(StepText(true)(step) + rest) == [step] + ParseInner(rest)
  {
    var name := if step.Name? then step.name else [];
    Bracketed(name, rest);
    if step.Name? {
      InBrackets(name, rest);
    } else {
      InBrackets([], rest);
      assert "[" + [] + "]" == "[]";
    }
  }

  lemma InBrackets(name: Text, rest: Text)
    ensures "[" + name + "]" + rest == ['['] + (name + ([']'] + rest))
  {
  }

  lemma Bracketed(name: Text, rest: Text)
    requires ']' !in name
    ensures ParseInner(['['] + (name + ([']'] + rest)))
      == [if name == [] then Item else Name(name)] + ParseInner(rest)
  {
    var tail := [']'] + rest;
    var t := ['['] + (name + tail);
    UpToStop(name, ']', tail);
    assert t[1..] == name + tail && t[|name| + 2..] == rest;
  }

  lemma {:induction false} ParseInnerTrip(path: seq<Step>)
    requires forall i :: 0 <= i < |path| ==> PlainStep(path[i])
    ensures ParseInner(InnerKey(path, true)) == path
    ensures path != [] ==> InnerKey(path, true) != [] && InnerKey(path, true)[0] == '['
  {
    if path == [] {
    } else {
      ParseInnerTrip(path[1..]);
      ParseStep(path[0], InnerKey(path[1..], true));
    }
  }

  lemma {:induction false} ParsedIsPlain(t: Text)
    ensures forall i :: 0 <= i < |ParseInner(t)| ==> PlainStep(ParseInner(t)[i])
    decreases |t|
  {
    if t == [] || t[0] != '[' {
    } else {
      var name := UpTo(t[1..], ']');
      if |name| + 2 <= |t| {
        ParsedIsPlain(t[|name| + 2..]);
      }
    }
  }

  /** A bracketed key tells its path exactly when that is readable. */
  lemma KeyReadsBackIff(path: seq<Step>)
    requires path != [] && path[0].Name?
    ensures ParseKey(KeyOf(path, true)) == path <==> Readable(path)
  {
    var first, inner := path[0].name, InnerKey(path[1..], true);
    if Readable(path) {
      ParseInnerTrip(path[1..]);
      if path[1..] == [] {
        assert inner == [];
      }
      UpToStop(first, '[', inner);
      assert (first + inner)[|first|..] == inner;
      assert [Name(first)] + path[1..] == path;
    }
    if ParseKey(KeyOf(path, true)) == path {
      var key := KeyOf(path, true);
      var rest := ParseInner(key[|UpTo(key, '[')|..]);
      ParsedIsPlain(key[|UpTo(key, '[')|..]);
      assert forall i :: 1 <= i < |path| ==> path[i] == rest[i - 1];
    }
  }

  // ---------------------------------------------------------------- without brackets for arrays

  function NameOnly(step: Step): seq<Step>
  {
    if step.Name? then [step] else []
  }

  /** A path without its steps into arrays. */
  function Names(path: seq<Step>): seq<Step>
  {
    Flatten(path, NameOnly)
  }

  lemma {:induction false} InnerKeyOfNames(path: seq<Step>)
    ensures InnerKey(path, false) == InnerKey(Names(path), true)
  {
    if path == [] {
    } else {
      InnerKeyOfNames(path[1..]);
      FlattenConcat(NameOnly(path[0]), Names(path[1..]), StepText(true));
      if path[0].Name? {
        OneStep(path[0], true);
      } else {
        assert "" + InnerKey(path[1..], false) == InnerKey(path[1..], false);
        assert NameOnly(path[0]) + Names(path[1..]) == Names(path[1..]);
      }
    }
  }

  lemma {:induction false} NamesArePlain(path: seq<Step>)
    requires forall i :: 0 <= i < |path| ==> PlainStep(path[i])
    ensures forall i :: 0 <= i < |Names(path)| ==> PlainStep(Names(path)[i])
  {
    if path == [] {
    } else {
      NamesArePlain(path[1..]);
      assert Names(path) == NameOnly(path[0]) + Names(path[1..]);
    }
  }

  /** What a key shows of a path: all of it, or its names, when arrays have no brackets. */
  function Shown(path: seq<Step>, brackets: bool): seq<Step>
  {
    if brackets then path else Names(path)
  }

  lemma KeyShows(path: seq<Step>, brackets: bool)
    requires Readable(path)
    ensures ParseKey(KeyOf(path, brackets)) == Shown(path, brackets)
  {
    if brackets {
      KeyReadsBackIff(path);
    } else {
      var names := Names(path);
      InnerKeyOfNames(path[1..]);
      NamesArePlain(path[1..]);
      assert names == [path[0]] + Names(path[1..]);
      assert names[1..] == Names(path[1..]);
      assert KeyOf(path, false) == KeyOf(names, true);
      KeyReadsBackIff(names);
    }
  }

  // ---------------------------------------------------------------- from the query to the tree

  function ShownLeaf(leaf: Leaf, brackets: bool): Leaf
  {
    if leaf.Held? then Held(Shown(leaf.path, brackets), leaf.text) else Hollow
  }

  function ShownLeaves(leaves: seq<Leaf>, brackets: bool): seq<Leaf>
  {
    Map(leaves, (leaf: Leaf) => ShownLeaf(leaf, brackets))
  }

  function ParseLine(line: Line): Leaf
  {
    if line.Pair? then Held(ParseKey(line.key), line.value) else Hollow
  }

  function ParseLines(lines: seq<Line>): seq<Leaf>
  {
    Map(lines, ParseLine)
  }

  predicate AllReadable(leaves: seq<Leaf>)
  {
    forall i :: 0 <= i < |leaves| && leaves[i].Held? ==> Readable(leaves[i].path)
  }

  lemma ParsedLines(s: Serializer, leaves: seq<Leaf>)
    requires s.keyEncoding.UseDefaultKeys? && AllReadable(leaves)
    ensures ParseLines(LinesOf(s, leaves)) == ShownLeaves(leaves, s.arrayEncoding.Brackets?)
  {
    var parsed, shown := ParseLines(LinesOf(s, leaves)), ShownLeaves(leaves, s.arrayEncoding.Brackets?);
    forall i | 0 <= i < |leaves| ensures parsed[i] == shown[i] {
      if leaves[i].Held? {
        KeyShows(leaves[i].path, s.arrayEncoding.Brackets?);
      }
    }
  }

  /** From value to query and back to its tree, with default keys: when all paths are readable, a reader of the query
      that also takes its keys apart finds every string of the value at its path: in order, or in any order when the
      pairs are alphabetized. Without brackets for arrays it finds the names of each path. */
  lemma FormComesBack(s: Serializer, value: Value)
    requires s.Safe() && s.keyEncoding.UseDefaultKeys?
    requires value.Record? && Clean(value) && NoNil(value) && AllReadable(Leaves(ComponentOf(value), []))
    ensures var result, leaves := Encoded(s, value), Leaves(ComponentOf(value), []);
      && result.Query?
      && multiset(ParseLines(Read(result.query))) == multiset(ShownLeaves(leaves, s.arrayEncoding.Brackets?))
      && (!s.alphabetizeKeyValuePairs ==>
            ParseLines(Read(result.query)) == ShownLeaves(leaves, s.arrayEncoding.Brackets?))
      && ShownLeaves(leaves, true) == leaves
  {
    EncodedFormReadsBack(s, value);
    var leaves := Leaves(ComponentOf(value), []);
    ParsedLines(s, leaves);
    MapInAnyOrder(Read(Encoded(s, value).query), LinesOf(s, leaves), ParseLine);
    AllShown(leaves);
  }

  lemma AllShown(leaves: seq<Leaf>)
    ensures ShownLeaves(leaves, true) == leaves
  {
  }

  // ---------------------------------------------------------------- keys that can be mistaken

  /** An empty name below the root is taken for a step into an array. */
  lemma EmptyNameLooksLikeArray(s: Serializer, name: Text, text: Text)
    requires s.arrayEncoding.Brackets?
    ensures s.SerializeObject([Member(name, Obj([Member([], Str(text))]))])
      == s.SerializeObject([Member(name, Arr([Str(text)]))])
  {
    var key := name + "[]";
    assert s.MemberKey(name, [], false) == key;
    SingleSegment(s, name, Obj([Member([], Str(text))]));
    SingleSegment(s, name, Arr([Str(text)]));
    assert [Member([], Str(text))][1..] == [] && [Str(text)][1..] == [];
    assert s.MemberSegments([Member([], Str(text))], name, false) == [s.KeyValue(key, text)];
    assert s.ElementSegments([Str(text)], key) == [s.KeyValue(key, text)];
  }

  /** A name with brackets is taken for a name below another. */
  lemma BracketedNameLooksNested(s: Serializer, outer: Text, inner: Text, text: Text)
    ensures s.SerializeObject([Member(outer + "[" + inner + "]", Str(text))])
      == s.SerializeObject([Member(outer, Obj([Member(inner, Str(text))]))])
  {
    SingleSegment(s, outer + "[" + inner + "]", Str(text));
    SingleSegment(s, outer, Obj([Member(inner, Str(text))]));
    assert [Member(inner, Str(text))][1..] == [];
    assert s.MemberSegments([Member(inner, Str(text))], outer, false)
      == [s.KeyValue(outer + "[" + inner + "]", text)];
    OneOrdered(s, s.KeyValue(outer + "[" + inner + "]", text));
  }

  lemma OneOrdered(s: Serializer, segment: Text)
    ensures JoinedWithAmpersands(s.Ordered([segment])) == segment
  {
    assert [segment][1..] == [] && Sorted([segment]) == [segment];
  }

  lemma SingleSegment(s: Serializer, name: Text, component: Component)
    ensures s.SerializeObject([Member(name, component)]) == s.Serialize(component, name)
  {
    assert [Member(name, component)][1..] == [];
    assert s.MemberSegments([Member(name, component)], [], true) == [s.Serialize(component, name)];
    OneOrdered(s, s.Serialize(component, name));
  }
}
