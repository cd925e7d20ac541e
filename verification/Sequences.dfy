/** Removing an element of a sequence, counting its elements and comparing them, and collecting from the entries of a
    queue. */
module Sequences {
  function Without<T>(s: seq<T>, i: nat): seq<T>
    requires i < |s|
  {
    s[..i] + s[i + 1..]
  }

  lemma WithoutHead<T>(s: seq<T>, i: nat)
    requires i < |s|
    ensures Without(s, i) == if i == 0 then s[1..] else [s[0]] + Without(s[1..], i - 1)
  {
  }

  lemma WithoutAt<T>(s: seq<T>, i: nat, k: nat)
    requires i < |s| && k < |s| - 1
    ensures Without(s, i)[k] == s[if k < i then k else k + 1]
  {
  }

  lemma MultisetWithout<T>(s: seq<T>, i: nat)
    requires i < |s|
    ensures multiset(s) == multiset(Without(s, i)) + multiset{s[i]}
  {
    assert s == s[..i] + [s[i]] + s[i + 1..];
  }

  predicate NoRepeats<T(==)>(s: seq<T>)
  {
    forall i, j :: 0 <= i < j < |s| ==> s[i] != s[j]
  }

  function Count<T(==)>(s: seq<T>, x: T): nat
  {
    if s == [] then 0 else (if s[0] == x then 1 else 0) + Count(s[1..], x)
  }

  lemma {:induction false} CountConcat<T>(a: seq<T>, b: seq<T>, x: T)
    ensures Count(a + b, x) == Count(a, x) + Count(b, x)
  {
    if a == [] {
      assert a + b == b;
    } else {
      CountConcat(a[1..], b, x);
      assert (a + b)[0] == a[0] && (a + b)[1..] == a[1..] + b;
    }
  }

  lemma CountLast<T>(s: seq<T>, y: T, x: T)
    ensures Count(s + [y], x) == Count(s, x) + (if y == x then 1 else 0)
  {
    CountConcat(s, [y], x);
    assert [y][1..] == [];
  }

  lemma {:induction false} CountWithout<T>(s: seq<T>, i: nat, x: T)
    requires i < |s|
    ensures Count(s, x) == Count(Without(s, i), x) + (if s[i] == x then 1 else 0)
  {
    WithoutHead(s, i);
    if i == 0 {
    } else {
      CountWithout(s[1..], i - 1, x);
      var rest := Without(s[1..], i - 1);
      assert Without(s, i)[0] == s[0] && Without(s, i)[1..] == rest;
    }
  }

  lemma {:induction false} CountIsMembership<T>(s: seq<T>, x: T)
    ensures Count(s, x) == 0 <==> x !in s
  {
    if s == [] {
    } else {
      CountIsMembership(s[1..], x);
      assert s == [s[0]] + s[1..];
    }
  }

  /** Two sequences with the same elements that start alike have the same elements after that. */
  lemma PermutationTail<T>(a: seq<T>, b: seq<T>)
    requires multiset(a) == multiset(b) && a != []
    ensures |a| == |b| && a[0] in b
    ensures a[0] == b[0] ==> multiset(a[1..]) == multiset(b[1..])
  {
    assert |multiset(a)| == |a| && |multiset(b)| == |b|;
    assert a == [a[0]] + a[1..] && b == [b[0]] + b[1..];
    assert a[0] in multiset(a) && a[0] in multiset(b);
    if a[0] == b[0] {
      assert multiset(a[1..]) == multiset(a) - multiset{a[0]} == multiset(b[1..]);
    }
  }

  /** What f makes of each element. */
  function Map<T, U>(s: seq<T>, f: T -> U): (r: seq<U>)
    ensures |r| == |s| && forall i :: 0 <= i < |r| ==> r[i] == f(s[i])
  {
    if s == [] then [] else [f(s[0])] + Map(s[1..], f)
  }

  lemma MapConcat<T, U>(a: seq<T>, b: seq<T>, f: T -> U)
    ensures Map(a + b, f) == Map(a, f) + Map(b, f)
  {
    var whole, parts := Map(a + b, f), Map(a, f) + Map(b, f);
    forall i | 0 <= i < |whole| ensures whole[i] == parts[i] {
      assert (a + b)[i] == if i < |a| then a[i] else b[i - |a|];
    }
  }

  lemma MapWithout<T, U>(s: seq<T>, i: nat, f: T -> U)
    requires i < |s|
    ensures multiset(Map(s, f)) == multiset(Map(Without(s, i), f)) + multiset{f(s[i])}
  {
    var mapped, rest := Map(s, f), Map(Without(s, i), f);
    forall k | 0 <= k < |rest| ensures rest[k] == Without(mapped, i)[k] {
      WithoutAt(s, i, k);
      WithoutAt(mapped, i, k);
    }
    assert rest == Without(mapped, i);
    MultisetWithout(mapped, i);
  }

  lemma RestAlike<T>(a: seq<T>, b: seq<T>, i: nat)
    requires multiset(a) == multiset(b) && a != [] && i < |b| && b[i] == a[0]
    ensures multiset(Without(a, 0)) == multiset(Without(b, i))
  {
    MultisetWithout(a, 0);
    MultisetWithout(b, i);
    assert multiset(Without(a, 0)) == multiset(a) - multiset{a[0]};
    assert multiset(Without(b, i)) == multiset(b) - multiset{a[0]};
  }

  /** The same elements in another order are mapped to the same in another order. */
  lemma {:induction false} MapInAnyOrder<T, U>(a: seq<T>, b: seq<T>, f: T -> U)
    requires multiset(a) == multiset(b)
    ensures multiset(Map(a, f)) == multiset(Map(b, f))
    decreases |a|
  {
    if a == [] {
      assert |multiset(b)| == |b|;
    } else {
      PermutationTail(a, b);
      var i :| 0 <= i < |b| && b[i] == a[0];
      RestAlike(a, b, i);
      MapInAnyOrder(Without(a, 0), Without(b, i), f);
      MapWithout(a, 0, f);
      MapWithout(b, i, f);
    }
  }

  /** What f takes from each entry, in order. */
  function Flatten<T, U>(q: seq<T>, f: T -> seq<U>): seq<U>
  {
    if q == [] then [] else f(q[0]) + Flatten(q[1..], f)
  }

  /** An entry put at the end of a queue adds its own part at the end. */
  lemma {:induction false} FlattenAppend<T, U>(q: seq<T>, x: T, f: T -> seq<U>)
    ensures Flatten(q + [x], f) == Flatten(q, f) + f(x)
  {
    if q == [] {
      assert [] + [x] == [x] && [x][1..] == [];
    } else {
      FlattenAppend(q[1..], x, f);
      assert (q + [x])[0] == q[0] && (q + [x])[1..] == q[1..] + [x];
      Associates(f(q[0]), Flatten(q[1..], f), f(x));
    }
  }

  lemma {:induction false} FlattenConcat<T, U>(a: seq<T>, b: seq<T>, f: T -> seq<U>)
    ensures Flatten(a + b, f) == Flatten(a, f) + Flatten(b, f)
  {
    if a == [] {
      assert a + b == b && [] + Flatten(b, f) == Flatten(b, f);
    } else {
      FlattenConcat(a[1..], b, f);
      assert (a + b)[0] == a[0] && (a + b)[1..] == a[1..] + b;
      Associates(f(a[0]), Flatten(a[1..], f), Flatten(b, f));
    }
  }

  lemma Associates<T>(a: seq<T>, b: seq<T>, c: seq<T>)
    ensures a + (b + c) == a + b + c
  {
  }

  /** An entry put at the head of a queue for another. */
  lemma FlattenHead<T, U>(x: T, rest: seq<T>, f: T -> seq<U>)
    ensures Flatten([x] + rest, f) == f(x) + Flatten(rest, f)
  {
    assert ([x] + rest)[1..] == rest;
  }
}
