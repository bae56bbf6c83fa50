/** Stands in for the library sort: a sorted permutation, and the only one when equal keys
    mean equal elements. */
module Sorting {

  ghost predicate Sorted<T>(s: seq<T>, key: T -> real) {
    forall i, j :: 0 <= i < j < |s| ==> key(s[i]) <= key(s[j])
  }

  function Insert<T>(x: T, s: seq<T>, key: T -> real): seq<T> {
    if s == [] || key(x) <= key(s[0]) then [x] + s else [s[0]] + Insert(x, s[1..], key)
  }

  function Sort<T>(s: seq<T>, key: T -> real): seq<T> {
    if s == [] then [] else Insert(s[0], Sort(s[1..], key), key)
  }

  lemma {:induction false} InsertMultiset<T>(x: T, s: seq<T>, key: T -> real)
    ensures multiset(Insert(x, s, key)) == multiset(s) + multiset{x}
  {
    if s == [] || key(x) <= key(s[0]) {
    } else {
      InsertMultiset(x, s[1..], key);
      assert s == [s[0]] + s[1..];
    }
  }

  lemma {:induction false} InsertSorted<T>(x: T, s: seq<T>, key: T -> real)
    requires Sorted(s, key)
    ensures Sorted(Insert(x, s, key), key)
  {
    if s == [] || key(x) <= key(s[0]) {
    } else {
      var rest := Insert(x, s[1..], key);
      InsertSorted(x, s[1..], key);
      InsertMultiset(x, s[1..], key);
      forall y | y in rest
        ensures key(s[0]) <= key(y)
      {
        assert y in multiset(rest);
        assert y == x || y in s[1..];
      }
    }
  }

  lemma {:induction false} SortCorrect<T>(s: seq<T>, key: T -> real)
    ensures multiset(Sort(s, key)) == multiset(s)
    ensures Sorted(Sort(s, key), key)
  {
    if s == [] {
    } else {
      SortCorrect(s[1..], key);
      InsertMultiset(s[0], Sort(s[1..], key), key);
      InsertSorted(s[0], Sort(s[1..], key), key);
      assert s == [s[0]] + s[1..];
    }
  }

  lemma SortMembers<T>(s: seq<T>, key: T -> real)
    ensures |Sort(s, key)| == |s| && forall x :: x in Sort(s, key) <==> x in s
  {
    SortCorrect(s, key);
    SameLength(s, Sort(s, key));
    forall x
      ensures x in Sort(s, key) <==> x in s
    {
      assert x in Sort(s, key) <==> x in multiset(Sort(s, key));
      assert x in s <==> x in multiset(s);
    }
  }

  lemma Repeated<T>(s: seq<T>, i: nat, j: nat)
    requires i < j < |s| && s[i] == s[j]
    ensures multiset(s)[s[i]] >= 2
  {
    assert s == s[..i] + [s[i]] + s[i + 1..j] + [s[j]] + s[j + 1..];
  }

  // Equal keys mean equal elements.
  ghost predicate KeyInjective<T>(m: multiset<T>, key: T -> real) {
    forall x, y :: x in m && y in m && key(x) == key(y) ==> x == y
  }

  lemma SortedHead<T>(a: seq<T>, x: T, key: T -> real)
    requires Sorted(a, key) && x in multiset(a)
    ensures key(a[0]) <= key(x)
  {
    var i :| 0 <= i < |a| && a[i] == x;
  }

  lemma SameHead<T>(a: seq<T>, b: seq<T>, key: T -> real)
    requires multiset(a) == multiset(b) && Sorted(a, key) && Sorted(b, key) && a != [] && b != []
    requires KeyInjective(multiset(a), key)
    ensures a[0] == b[0]
  {
    assert a[0] in multiset(a) && b[0] in multiset(b);
    SortedHead(a, b[0], key);
    SortedHead(b, a[0], key);
  }

  lemma TailMultiset<T>(a: seq<T>)
    requires a != []
    ensures multiset(a) == multiset{a[0]} + multiset(a[1..])
  {
    assert a == [a[0]] + a[1..];
  }

  lemma Tails<T>(a: seq<T>, b: seq<T>, key: T -> real)
    requires multiset(a) == multiset(b) && a != [] && b != [] && a[0] == b[0]
    requires KeyInjective(multiset(a), key)
    ensures multiset(a[1..]) == multiset(b[1..])
    ensures KeyInjective(multiset(a[1..]), key)
  {
    TailMultiset(a);
    TailMultiset(b);
    forall x
      ensures multiset(a[1..])[x] == multiset(b[1..])[x]
    {
      assert multiset(a)[x] == multiset{a[0]}[x] + multiset(a[1..])[x];
      assert multiset(b)[x] == multiset{a[0]}[x] + multiset(b[1..])[x];
    }
    forall x, y | x in multiset(a[1..]) && y in multiset(a[1..]) && key(x) == key(y)
      ensures x == y
    {
      assert x in multiset(a) && y in multiset(a);
    }
  }

  lemma SortedTail<T>(a: seq<T>, key: T -> real)
    requires Sorted(a, key) && a != []
    ensures Sorted(a[1..], key)
  {
  }

  lemma SameLength<T>(a: seq<T>, b: seq<T>)
    requires multiset(a) == multiset(b)
    ensures |a| == |b|
  {
    assert |multiset(a)| == |a| && |multiset(b)| == |b|;
  }

  lemma SplitAt<T>(s: seq<T>, i: nat)
    requires i < |s|
    ensures s == s[..i] + [s[i]] + s[i + 1..]
  {
  }

  lemma WithoutOne<T>(s: seq<T>, i: nat)
    requires i < |s|
    ensures multiset(s) == multiset(s[..i] + s[i + 1..]) + multiset{s[i]}
  {
    SplitAt(s, i);
  }

  lemma CancelOne<T>(s: seq<T>, i: nat, t: seq<T>, j: nat)
    requires multiset(s) == multiset(t) && i < |s| && j < |t| && s[i] == t[j]
    ensures multiset(s[..i] + s[i + 1..]) == multiset(t[..j] + t[j + 1..])
  {
    WithoutOne(s, i);
    WithoutOne(t, j);
    var a, b, x := multiset(s[..i] + s[i + 1..]), multiset(t[..j] + t[j + 1..]), multiset{s[i]};
    assert a == (a + x) - x && b == (b + x) - x;
  }

  lemma {:induction false} SortedUnique<T>(a: seq<T>, b: seq<T>, key: T -> real)
    requires multiset(a) == multiset(b) && Sorted(a, key) && Sorted(b, key)
    requires KeyInjective(multiset(a), key)
    ensures a == b
  {
    SameLength(a, b);
    if a == [] {
    } else {
      SameHead(a, b, key);
      Tails(a, b, key);
      SortedTail(a, key);
      SortedTail(b, key);
      SortedUnique(a[1..], b[1..], key);
    }
  }

  // Whatever algorithm the library uses, it returns Sort(s, key).
  lemma SortUnique<T>(s: seq<T>, out: seq<T>, key: T -> real)
    requires multiset(out) == multiset(s) && Sorted(out, key)
    requires KeyInjective(multiset(s), key)
    ensures out == Sort(s, key)
  {
    SortCorrect(s, key);
    SortedUnique(out, Sort(s, key), key);
  }
}
