/** Alamofire's KeyEncoding: how the form encoder rewrites a key before it is escaped. A string is its UTF-8 octets,
    each written as a character; upper and lower case are those of ASCII. */
module KeyEncoding {
  import opened Bits

  type Octet = c: char | c as int < 256 witness 'a'
  type Text = seq<Octet>

  predicate IsUpper(c: Octet) { 'A' <= c <= 'Z' }

  predicate IsLower(c: Octet) { 'a' <= c <= 'z' }

  function ToLower(c: Octet): Octet
  {
    if IsUpper(c) then (c as int + 32) as char else c
  }

  function ToUpper(c: Octet): Octet
  {
    if IsLower(c) then (c as int - 32) as char else c
  }

  function Lowercased(s: Text): Text
  {
    if s == [] then [] else [ToLower(s[0])] + Lowercased(s[1..])
  }

  function Uppercased(s: Text): Text
  {
    if s == [] then [] else [ToUpper(s[0])] + Uppercased(s[1..])
  }

  predicate NoUpper(s: Text)
  {
    forall i :: 0 <= i < |s| ==> !IsUpper(s[i])
  }

  // ---------------------------------------------------------------- where words begin

  /** A capital has been passed since the last lower-case letter. The first character of a key never counts as one. */
  predicate InCapitals(key: Text, i: nat)
    requires 1 <= i <= |key|
  {
    i >= 2 && (IsUpper(key[i - 1]) || (!IsLower(key[i - 1]) && InCapitals(key, i - 1)))
  }

  /** A word begins at the first capital of a run, and right before the lower-case letter that ends a longer run. */
  predicate Boundary(key: Text, i: nat)
    requires 1 <= i < |key|
  {
    if InCapitals(key, i) then !IsLower(key[i]) && i + 1 < |key| && IsLower(key[i + 1])
    else IsUpper(key[i])
  }

  datatype Range = Range(lo: nat, hi: nat)

  /** The words of a key when one has begun at start and the boundaries before i have been dealt with. */
  function WordsFrom(key: Text, start: nat, i: nat): seq<Range>
    requires start < i <= |key|
    decreases |key| - i
  {
    if i == |key| then [Range(start, i)]
    else if Boundary(key, i) then [Range(start, i)] + WordsFrom(key, i, i + 1)
    else WordsFrom(key, start, i + 1)
  }

  function Words(key: Text): seq<Range>
    requires key != []
  {
    WordsFrom(key, 0, 1)
  }

  predicate InBounds(words: seq<Range>, n: nat)
  {
    forall k :: 0 <= k < |words| ==> words[k].lo < words[k].hi <= n
  }

  /** The words in lower case, joined. */
  function JoinedWords(key: Text, words: seq<Range>, separator: Text): Text
    requires InBounds(words, |key|)
  {
    if words == [] then []
    else
      var word := Lowercased(key[words[0].lo..words[0].hi]);
      if |words| == 1 then word else word + separator + JoinedWords(key, words[1..], separator)
  }

  /** Non-empty ranges that follow one another from lo to hi. */
  predicate Partition(words: seq<Range>, lo: nat, hi: nat)
  {
    && words != [] && words[0].lo == lo && words[0].lo < words[0].hi
    && (if |words| == 1 then words[0].hi == hi else Partition(words[1..], words[0].hi, hi))
  }

  lemma {:induction false} PartitionInBounds(words: seq<Range>, lo: nat, hi: nat)
    requires Partition(words, lo, hi)
    ensures InBounds(words, hi) && lo < hi
  {
    if |words| <= 1 {
    } else {
      PartitionInBounds(words[1..], words[0].hi, hi);
    }
  }

  lemma {:induction false} WordsArePartition(key: Text, start: nat, i: nat)
    requires start < i <= |key|
    ensures Partition(WordsFrom(key, start, i), start, |key|)
    decreases |key| - i
  {
    if i == |key| {
    } else {
      if Boundary(key, i) {
        WordsArePartition(key, i, i + 1);
        assert ([Range(start, i)] + WordsFrom(key, i, i + 1))[1..] == WordsFrom(key, i, i + 1);
      } else {
        WordsArePartition(key, start, i + 1);
      }
    }
  }

  function Converted(key: Text, separator: Text): Text
  {
    if key == [] then []
    else
      WordsArePartition(key, 0, 1);
      PartitionInBounds(Words(key), 0, |key|);
      JoinedWords(key, Words(key), separator)
  }

  // ---------------------------------------------------------------- the loop

  /** The first capital at or after lo. */
  function NextUpper(key: Text, lo: nat): (r: Option<nat>)
    requires lo <= |key|
    ensures r.None? ==> forall j :: lo <= j < |key| ==> !IsUpper(key[j])
    ensures r.Some? ==>
      && lo <= r.value < |key| && IsUpper(key[r.value])
      && forall j :: lo <= j < r.value ==> !IsUpper(key[j])
    decreases |key| - lo
  {
    if lo == |key| then None else if IsUpper(key[lo]) then Some(lo) else NextUpper(key, lo + 1)
  }

  /** The first lower-case letter at or after lo. */
  function NextLower(key: Text, lo: nat): (r: Option<nat>)
    requires lo <= |key|
    ensures r.None? ==> forall j :: lo <= j < |key| ==> !IsLower(key[j])
    ensures r.Some? ==>
      && lo <= r.value < |key| && IsLower(key[r.value])
      && forall j :: lo <= j < r.value ==> !IsLower(key[j])
    decreases |key| - lo
  {
    if lo == |key| then None else if IsLower(key[lo]) then Some(lo) else NextLower(key, lo + 1)
  }

  /** No word begins before the next capital. */
  lemma {:induction false} SkipToCapital(key: Text, start: nat, i: nat, u: nat)
    requires start < i <= u <= |key| && !InCapitals(key, i)
    requires forall j :: i <= j < u ==> !IsUpper(key[j])
    ensures !InCapitals(key, u) && WordsFrom(key, start, i) == WordsFrom(key, start, u)
    decreases u - i
  {
    if i == u {
    } else {
      SkipToCapital(key, start, i + 1, u);
    }
  }

  /** Inside a run of capitals no word begins while the character after the next one is not lower-case. */
  lemma {:induction false} SkipCapitals(key: Text, start: nat, i: nat, e: nat)
    requires start < i <= e <= |key| && InCapitals(key, i)
    requires forall j :: i <= j <= e && j < |key| ==> !IsLower(key[j])
    ensures InCapitals(key, e) && WordsFrom(key, start, i) == WordsFrom(key, start, e)
    decreases e - i
  {
    if i == e {
    } else {
      SkipCapitals(key, start, i + 1, e);
    }
  }

  lemma Pushed(words: seq<Range>, word: Range, rest: seq<Range>)
    ensures words + [word] + rest == words + ([word] + rest)
  {
  }

  /** convert. */
  method Convert(key: Text, separator: Text) returns (result: Text)
    ensures result == Converted(key, separator)
  {
    if key == [] {
      return key;
    }
    var words: seq<Range> := [];
    var wordStart, searchStart := 0, 1;
    var upperCase := NextUpper(key, searchStart);
    while upperCase.Some?
      invariant 0 <= wordStart < searchStart <= |key|
      invariant words + WordsFrom(key, wordStart, searchStart) == Words(key)
      invariant !InCapitals(key, searchStart)
      invariant upperCase == NextUpper(key, searchStart)
      decreases |key| - searchStart
    {
      var u := upperCase.value;
      SkipToCapital(key, wordStart, searchStart, u);
      Pushed(words, Range(wordStart, u), WordsFrom(key, u, u + 1));
      words := words + [Range(wordStart, u)];
      var lowerCase := NextLower(key, u);
      if lowerCase.None? {
        wordStart := u;
        SkipCapitals(key, u, u + 1, |key|);
        searchStart := |key|;
        break;
      }
      var l := lowerCase.value;
      if l == u + 1 {
        wordStart := u;
      } else {
        SkipCapitals(key, u, u + 1, l - 1);
        Pushed(words, Range(u, l - 1), WordsFrom(key, l - 1, l));
        words := words + [Range(u, l - 1)];
        wordStart := l - 1;
      }
      searchStart := l + 1;
      upperCase := NextUpper(key, searchStart);
    }
    if searchStart < |key| {
      SkipToCapital(key, wordStart, searchStart, |key|);
    }
    words := words + [Range(wordStart, |key|)];
    WordsArePartition(key, 0, 1);
    PartitionInBounds(Words(key), 0, |key|);
    assert words == Words(key);
    result := JoinedWords(key, words, separator);
  }

  // ---------------------------------------------------------------- what convert does to a key

  lemma {:induction false} LowercasedConcat(a: Text, b: Text)
    ensures Lowercased(a + b) == Lowercased(a) + Lowercased(b)
  {
    if a == [] {
      assert a + b == b;
    } else {
      LowercasedConcat(a[1..], b);
      assert (a + b)[1..] == a[1..] + b;
    }
  }

  lemma {:induction false} JoinedWithoutSeparator(key: Text, words: seq<Range>, lo: nat)
    requires Partition(words, lo, |key|) && InBounds(words, |key|)
    ensures JoinedWords(key, words, []) == Lowercased(key[lo..])
    decreases |words|
  {
    if |words| == 1 {
      assert key[lo..words[0].hi] == key[lo..];
    } else {
      PartitionInBounds(words[1..], words[0].hi, |key|);
      JoinedWithoutSeparator(key, words[1..], words[0].hi);
      LowercasedConcat(key[lo..words[0].hi], key[words[0].hi..]);
      assert key[lo..] == key[lo..words[0].hi] + key[words[0].hi..];
    }
  }

  /** Some word begins at p. */
  predicate BeginsAt(words: seq<Range>, p: nat)
  {
    words != [] && (words[0].lo == p || BeginsAt(words[1..], p))
  }

  lemma {:induction false} BeginsAtBoundary(key: Text, start: nat, i: nat, p: nat)
    requires start < i <= |key| && start < p < |key| && (p < i ==> !Boundary(key, p))
    ensures BeginsAt(WordsFrom(key, start, i), p) <==> p >= i && Boundary(key, p)
    decreases |key| - i
  {
    if i == |key| {
      assert WordsFrom(key, start, i)[1..] == [];
    } else if Boundary(key, i) {
      var rest := WordsFrom(key, i, i + 1);
      assert ([Range(start, i)] + rest)[1..] == rest;
      WordsArePartition(key, i, i + 1);
      if p < i {
        NotBefore(rest, i, |key|, p);
      } else if p > i {
        BeginsAtBoundary(key, i, i + 1, p);
      }
    } else {
      BeginsAtBoundary(key, start, i + 1, p);
    }
  }

  lemma {:induction false} NotBefore(words: seq<Range>, lo: nat, hi: nat, p: nat)
    requires Partition(words, lo, hi) && p < lo
    ensures !BeginsAt(words, p)
  {
    if |words| > 1 {
      NotBefore(words[1..], words[0].hi, hi, p);
    } else {
      assert words[1..] == [];
    }
  }

  /** The words of a non-empty key are non-empty ranges that follow one another from its start to its end. */
  lemma WordsPartitionKey(key: Text)
    requires key != []
    ensures Partition(Words(key), 0, |key|)
  {
    WordsArePartition(key, 0, 1);
  }

  /** A word begins inside the key exactly at a boundary. */
  lemma WordsBeginAtBoundaries(key: Text, p: nat)
    requires 0 < p < |key|
    ensures BeginsAt(Words(key), p) <==> Boundary(key, p)
  {
    BeginsAtBoundary(key, 0, 1, p);
  }

  /** Nothing but separators is added: with an empty one the result is the key in lower case. */
  lemma ConvertedWithoutSeparator(key: Text)
    ensures Converted(key, []) == Lowercased(key)
  {
    if key != [] {
      WordsArePartition(key, 0, 1);
      PartitionInBounds(Words(key), 0, |key|);
      JoinedWithoutSeparator(key, Words(key), 0);
      assert key[0..] == key;
    }
  }

  lemma {:induction false} LowercasedHasNoUpper(s: Text)
    ensures NoUpper(Lowercased(s))
  {
    if s == [] {
    } else {
      LowercasedHasNoUpper(s[1..]);
    }
  }

  lemma {:induction false} JoinedHasNoUpper(key: Text, words: seq<Range>, separator: Text)
    requires InBounds(words, |key|) && NoUpper(separator)
    ensures NoUpper(JoinedWords(key, words, separator))
    decreases |words|
  {
    if words == [] {
    } else {
      LowercasedHasNoUpper(key[words[0].lo..words[0].hi]);
      if |words| > 1 {
        JoinedHasNoUpper(key, words[1..], separator);
      }
    }
  }

  lemma {:induction false} LowercasedWithoutUpper(s: Text)
    requires NoUpper(s)
    ensures Lowercased(s) == s
  {
    if s == [] {
    } else {
      LowercasedWithoutUpper(s[1..]);
    }
  }

  /** A key without capitals is left as it is. */
  lemma ConvertedWithoutUpper(key: Text, separator: Text)
    requires NoUpper(key)
    ensures Converted(key, separator) == key
  {
    if key != [] {
      SkipToCapital(key, 0, 1, |key|);
      LowercasedWithoutUpper(key);
      assert key[0..|key|] == key;
    }
  }

  /** Conversion is idempotent for any separator without capitals, so for "_" and "-". */
  lemma ConvertedTwice(key: Text, separator: Text)
    requires NoUpper(separator)
    ensures Converted(Converted(key, separator), separator) == Converted(key, separator)
  {
    if key != [] {
      WordsArePartition(key, 0, 1);
      PartitionInBounds(Words(key), 0, |key|);
      JoinedHasNoUpper(key, Words(key), separator);
    }
    ConvertedWithoutUpper(Converted(key, separator), separator);
  }

  // ---------------------------------------------------------------- KeyEncoding

  datatype KeyEncoding =
    | UseDefaultKeys
    | ConvertToSnakeCase
    | ConvertToKebabCase
    | CapitalizedKeys
    | UppercasedKeys
    | LowercasedKeys
    | Custom(encoding: Text -> Text)
  {
    function Encode(key: Text): Text
    {
      match this
      case UseDefaultKeys => key
      case ConvertToSnakeCase => Converted(key, "_")
      case ConvertToKebabCase => Converted(key, "-")
      case CapitalizedKeys => if key == [] then [] else [ToUpper(key[0])] + key[1..]
      case UppercasedKeys => Uppercased(key)
      case LowercasedKeys => Lowercased(key)
      case Custom(encoding) => encoding(key)
    }
  }

  lemma {:induction false} CasesOfOctets(s: Text)
    ensures |Uppercased(s)| == |Lowercased(s)| == |s|
    ensures forall i :: 0 <= i < |s| ==>
      && Uppercased(s)[i] as int == s[i] as int - (if 'a' <= s[i] <= 'z' then 'a' as int - 'A' as int else 0)
      && Lowercased(s)[i] as int == s[i] as int + (if 'A' <= s[i] <= 'Z' then 'a' as int - 'A' as int else 0)
  {
    if s == [] {
    } else {
      CasesOfOctets(s[1..]);
    }
  }

  /** Default keys are left alone; upper and lower case change every letter, and capitalized keys the first one. */
  lemma CasesOfKeys(key: Text)
    ensures UseDefaultKeys.Encode(key) == key
    ensures var upper, lower, first :=
        UppercasedKeys.Encode(key), LowercasedKeys.Encode(key), CapitalizedKeys.Encode(key);
      && |upper| == |lower| == |first| == |key|
      && forall i :: 0 <= i < |key| ==>
           && upper[i] as int == key[i] as int - (if 'a' <= key[i] <= 'z' then 'a' as int - 'A' as int else 0)
           && lower[i] as int == key[i] as int + (if 'A' <= key[i] <= 'Z' then 'a' as int - 'A' as int else 0)
           && first[i] == if i == 0 then upper[i] else key[i]
  {
    CasesOfOctets(key);
  }

  /** No word begins in a lower-case tail. */
  lemma {:induction false} LowerTail(key: Text, start: nat, i: nat)
    requires start < i <= |key| && forall j :: i <= j < |key| ==> IsLower(key[j])
    ensures WordsFrom(key, start, i) == [Range(start, |key|)]
    decreases |key| - i
  {
    if i == |key| {
    } else {
      LowerTail(key, start, i + 1);
    }
  }

  /** Snake case puts an underscore, and kebab case a hyphen, between the words: here in front of a capital that is
      followed by lower-case letters. */
  lemma SnakeAndKebab(a: Text, u: Octet, b: Text)
    requires a != [] && NoUpper(a) && IsUpper(u) && forall i :: 0 <= i < |b| ==> IsLower(b[i])
    ensures ConvertToSnakeCase.Encode(a + [u] + b) == a + "_" + [ToLower(u)] + b
    ensures ConvertToKebabCase.Encode(a + [u] + b) == a + "-" + [ToLower(u)] + b
  {
    CamelKey(a, u, b, "_");
    CamelKey(a, u, b, "-");
  }

  lemma CamelKey(a: Text, u: Octet, b: Text, separator: Text)
    requires a != [] && NoUpper(a) && IsUpper(u) && forall i :: 0 <= i < |b| ==> IsLower(b[i])
    ensures Converted(a + [u] + b, separator) == a + separator + [ToLower(u)] + b
  {
    var key, n := a + [u] + b, |a|;
    SkipToCapital(key, 0, 1, n);
    LowerTail(key, n, n + 1);
    var words := [Range(0, n), Range(n, |key|)];
    assert Words(key) == words;
    assert words[1..] == [Range(n, |key|)];
    assert key[0..n] == a && key[n..|key|] == [u] + b;
    LowercasedWithoutUpper(a);
    LowerHead(u, b);
    assert JoinedWords(key, words[1..], separator) == [ToLower(u)] + b;
    assert a + separator + ([ToLower(u)] + b) == a + separator + [ToLower(u)] + b;
  }

  lemma AcronymWords(key: Text, n: nat, m: nat)
    requires 0 < n < m && m + 1 < |key| && forall j :: 0 <= j < n ==> !IsUpper(key[j])
    requires forall j :: n <= j <= m ==> IsUpper(key[j])
    requires forall j :: m < j < |key| ==> IsLower(key[j])
    ensures Words(key) == [Range(0, n), Range(n, m), Range(m, |key|)]
  {
    SkipToCapital(key, 0, 1, n);
    SkipCapitals(key, n, n + 1, m);
    LowerTail(key, m, m + 1);
    assert WordsFrom(key, n, m) == [Range(n, m)] + [Range(m, |key|)];
  }

  lemma ThreeWords(key: Text, n: nat, m: nat, separator: Text)
    requires 0 < n < m < |key|
    ensures JoinedWords(key, [Range(0, n), Range(n, m), Range(m, |key|)], separator)
      == Lowercased(key[0..n]) + separator + (Lowercased(key[n..m]) + separator + Lowercased(key[m..|key|]))
  {
    var words := [Range(0, n), Range(n, m), Range(m, |key|)];
    var tail, last := words[1..], words[2..];
    assert tail == [Range(n, m), Range(m, |key|)] && tail[1..] == last == [Range(m, |key|)];
    assert JoinedWords(key, last, separator) == Lowercased(key[m..|key|]);
    assert JoinedWords(key, tail, separator)
      == Lowercased(key[n..m]) + separator + JoinedWords(key, last, separator);
  }

  /** A run of capitals is one word, without the last one when a lower-case letter follows: "myURLProperty" has the
      words "my", "url" and "property". */
  lemma AcronymKey(key: Text, n: nat, m: nat, separator: Text)
    requires 0 < n < m && m + 1 < |key| && forall j :: 0 <= j < n ==> !IsUpper(key[j])
    requires forall j :: n <= j <= m ==> IsUpper(key[j])
    requires forall j :: m < j < |key| ==> IsLower(key[j])
    ensures Converted(key, separator)
      == key[0..n] + separator + (Lowercased(key[n..m]) + separator + Lowercased(key[m..|key|]))
    ensures Lowercased(key[m..|key|]) == [ToLower(key[m])] + key[m + 1..]
  {
    AcronymWords(key, n, m);
    ThreeWords(key, n, m, separator);
    LowercasedWithoutUpper(key[0..n]);
    LowerHead(key[m], key[m + 1..]);
    assert key[m..|key|] == [key[m]] + key[m + 1..];
  }

  lemma LowerHead(u: Octet, b: Text)
    requires NoUpper(b)
    ensures Lowercased([u] + b) == [ToLower(u)] + b
  {
    LowercasedWithoutUpper(b);
    assert ([u] + b)[1..] == b;
  }
}
