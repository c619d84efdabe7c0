/** Sorting by a string-pair key, the way sort.Slice is used: any order among equal keys. */
module Sorting {
  import opened Text

  type Key = (string, string)

  predicate KeyLess(a: Key, b: Key) {
    Less(a.0, b.0) || (a.0 == b.0 && Less(a.1, b.1))
  }

  lemma KeyLessTransitive(a: Key, b: Key, c: Key)
    requires KeyLess(a, b) && KeyLess(b, c)
    ensures KeyLess(a, c)
  {
    if Less(a.0, b.0) && Less(b.0, c.0) {
      LessTransitive(a.0, b.0, c.0);
    } else if a.0 == b.0 == c.0 {
      LessTransitive(a.1, b.1, c.1);
    }
  }

  lemma KeyLessTotal(a: Key, b: Key)
    ensures KeyLess(a, b) || a == b || KeyLess(b, a)
    ensures !(KeyLess(a, b) && KeyLess(b, a))
    ensures !KeyLess(a, a)
  {
    LessTotal(a.0, b.0);
    LessTotal(a.1, b.1);
    LessTotal(a.0, a.0);
    LessTotal(a.1, a.1);
  }

  /** No element is followed by one with a smaller key. */
  ghost predicate Sorted<T>(s: seq<T>, key: T -> Key) {
    forall i, j | 0 <= i < j < |s| :: !KeyLess(key(s[j]), key(s[i]))
  }

  /** Every element is followed only by larger keys. */
  ghost predicate StrictlySorted<T>(s: seq<T>, key: T -> Key) {
    forall i, j | 0 <= i < j < |s| :: KeyLess(key(s[i]), key(s[j]))
  }

  /** No two positions share a key. */
  ghost predicate DistinctKeys<T>(s: seq<T>, key: T -> Key) {
    forall i, j | 0 <= i < j < |s| :: key(s[i]) != key(s[j])
  }

  /** sort.Slice promises a sorted permutation and nothing about equal keys. */
  method SortByKey<T>(s: seq<T>, key: T -> Key) returns (r: seq<T>)
    ensures multiset(r) == multiset(s)
    ensures Sorted(r, key)
  {
    r := [];
    for i := 0 to |s|
      invariant multiset(r) == multiset(s[..i])
      invariant Sorted(r, key)
    {
      var j := |r|;
      while j > 0 && KeyLess(key(s[i]), key(r[j - 1]))
        invariant 0 <= j <= |r|
        invariant forall k | j <= k < |r| :: KeyLess(key(s[i]), key(r[k]))
      {
        j := j - 1;
      }
      InsertKeepsSorted(r, j, s[i], key);
      InsertAdds(r, j, s[i]);
      assert s[..i + 1] == s[..i] + [s[i]];
      r := r[..j] + [s[i]] + r[j..];
    }
    assert s[..|s|] == s;
  }

  lemma InsertAdds<T>(r: seq<T>, j: nat, x: T)
    requires j <= |r|
    ensures multiset(r[..j] + [x] + r[j..]) == multiset(r) + multiset{x}
  {
    assert r == r[..j] + r[j..];
  }

  lemma InsertKeepsSorted<T>(r: seq<T>, j: nat, x: T, key: T -> Key)
    requires Sorted(r, key) && j <= |r|
    requires j > 0 ==> !KeyLess(key(x), key(r[j - 1]))
    requires forall k | j <= k < |r| :: KeyLess(key(x), key(r[k]))
    ensures Sorted(r[..j] + [x] + r[j..], key)
  {
    var q := r[..j] + [x] + r[j..];
    forall a, b | 0 <= a < b < |q|
      ensures !KeyLess(key(q[b]), key(q[a]))
    {
      if b == j {
        if KeyLess(key(x), key(r[a])) && a < j - 1 {
          KeyLessTotal(key(r[a]), key(r[j - 1]));
          if key(r[a]) != key(r[j - 1]) {
            KeyLessTransitive(key(x), key(r[a]), key(r[j - 1]));
          }
        }
      } else if a == j {
        KeyLessTotal(key(x), key(r[b - 1]));
      } else {
        var a', b' := if a < j then a else a - 1, if b < j then b else b - 1;
        assert q[a] == r[a'] && q[b] == r[b'];
      }
    }
  }

  /** With distinct keys the order is strict. */
  lemma SortedDistinct<T>(s: seq<T>, r: seq<T>, key: T -> Key)
    requires multiset(r) == multiset(s) && Sorted(r, key) && DistinctKeys(s, key)
    ensures StrictlySorted(r, key)
    ensures forall x :: x in r <==> x in s
  {
    forall x ensures x in r <==> x in s {
      assert x in multiset(r) <==> x in multiset(s);
    }
    forall i, j | 0 <= i < j < |r|
      ensures KeyLess(key(r[i]), key(r[j]))
    {
      KeyLessTotal(key(r[i]), key(r[j]));
      if key(r[i]) == key(r[j]) {
        PermutationKeepsDistinct(s, r, key, i, j);
      }
    }
  }

  lemma PermutationKeepsDistinct<T>(s: seq<T>, r: seq<T>, key: T -> Key, i: nat, j: nat)
    requires multiset(r) == multiset(s) && DistinctKeys(s, key) && i < j < |r|
    ensures key(r[i]) != key(r[j])
  {
    assert r[i] in multiset(r) && r[j] in multiset(r);
    assert r[i] in multiset(s) && r[j] in multiset(s);
    var a :| 0 <= a < |s| && s[a] == r[i];
    var b :| 0 <= b < |s| && s[b] == r[j];
    TwoPositions(r, i, j);
    OnePosition(s, key, a);
  }

  lemma TwoPositions<T>(r: seq<T>, i: nat, j: nat)
    requires i < j < |r|
    ensures r[i] == r[j] ==> multiset(r)[r[i]] >= 2
  {
    assert r == r[..j] + [r[j]] + r[j + 1..];
    assert r[i] == r[..j][i];
    assert r[i] in multiset(r[..j]);
  }

  lemma OnePosition<T>(s: seq<T>, key: T -> Key, a: nat)
    requires a < |s| && DistinctKeys(s, key)
    ensures multiset(s)[s[a]] == 1
  {
    assert s == s[..a] + [s[a]] + s[a + 1..];
    assert s[a] !in s[..a] && s[a] !in s[a + 1..];
    assert multiset(s) == multiset(s[..a]) + multiset{s[a]} + multiset(s[a + 1..]);
  }

  /** A strictly sorted sequence is determined by its elements: no iteration order shows through. */
  lemma {:induction false} StrictlySortedUnique<T>(a: seq<T>, b: seq<T>, key: T -> Key)
    requires StrictlySorted(a, key) && StrictlySorted(b, key)
    requires forall x :: x in a <==> x in b
    ensures a == b
  {
    assert |a| > 0 ==> a[0] in a;
    assert |b| > 0 ==> b[0] in b;
    if a != [] {
      var i :| 0 <= i < |b| && b[i] == a[0];
      var j :| 0 <= j < |a| && a[j] == b[0];
      KeyLessTotal(key(a[0]), key(b[0]));
      assert i == 0;
      KeyLessTotal(key(a[0]), key(a[0]));
      forall x ensures x in a[1..] <==> x in b[1..] {
        assert x in a <==> x == a[0] || x in a[1..];
        assert x in b <==> x == b[0] || x in b[1..];
        assert a[0] !in a[1..] && b[0] !in b[1..];
      }
      StrictlySortedUnique(a[1..], b[1..], key);
    }
  }

  lemma HeadIsLeast<T>(s: seq<T>, x: T, key: T -> Key)
    requires Sorted(s, key) && x in multiset(s)
    ensures s != [] && !KeyLess(key(x), key(s[0]))
  {
    KeyLessTotal(key(x), key(x));
    var i :| 0 <= i < |s| && s[i] == x;
  }

  lemma TailsAgree<T>(a: seq<T>, b: seq<T>)
    requires a != [] && b != [] && a[0] == b[0] && multiset(a) == multiset(b)
    ensures multiset(a[1..]) == multiset(b[1..])
  {
    assert a == [a[0]] + a[1..] && b == [b[0]] + b[1..];
    assert multiset(a[1..]) == multiset(a) - multiset{a[0]};
    assert multiset(b[1..]) == multiset(b) - multiset{b[0]};
  }

  /** No two different elements share a key. */
  ghost predicate KeysTell<T>(s: seq<T>, key: T -> Key) {
    forall x, y | x in s && y in s && key(x) == key(y) :: x == y
  }

  /** Sorting has one result when equal keys mean equal elements. */
  lemma {:induction false} SortedUnique<T>(a: seq<T>, b: seq<T>, key: T -> Key)
    requires multiset(a) == multiset(b) && Sorted(a, key) && Sorted(b, key) && KeysTell(a, key)
    ensures a == b
    decreases |a|
  {
    if a == [] || b == [] {
      assert |multiset(a)| == |multiset(b)|;
    } else {
      HeadIsLeast(a, b[0], key);
      HeadIsLeast(b, a[0], key);
      KeyLessTotal(key(a[0]), key(b[0]));
      assert b[0] in multiset(a);
      TailsAgree(a, b);
      assert forall x <- a[1..] :: x in a;
      SortedUnique(a[1..], b[1..], key);
    }
  }

  /** The elements with one key, in their order. */
  ghost function OfKey<T>(s: seq<T>, key: T -> Key, k: Key): seq<T> {
    if s == [] then [] else (if key(s[0]) == k then [s[0]] else []) + OfKey(s[1..], key, k)
  }

  /** A sorted permutation that leaves elements with one key in the order they came in. */
  ghost predicate StableSort<T>(s: seq<T>, r: seq<T>, key: T -> Key) {
    multiset(r) == multiset(s) && Sorted(r, key) && forall k :: OfKey(r, key, k) == OfKey(s, key, k)
  }

  lemma {:induction false} OfKeyAppend<T>(s: seq<T>, t: seq<T>, key: T -> Key, k: Key)
    ensures OfKey(s + t, key, k) == OfKey(s, key, k) + OfKey(t, key, k)
  {
    if s == [] {
      assert s + t == t;
    } else {
      OfKeyAppend(s[1..], t, key, k);
      assert (s + t)[1..] == s[1..] + t;
      var head := if key(s[0]) == k then [s[0]] else [];
      assert OfKey(s + t, key, k) == head + (OfKey(s[1..], key, k) + OfKey(t, key, k));
      assert OfKey(s, key, k) == head + OfKey(s[1..], key, k);
    }
  }

  lemma {:induction false} NoneOfKey<T>(s: seq<T>, key: T -> Key, k: Key)
    requires forall x <- s :: key(x) != k
    ensures OfKey(s, key, k) == []
  {
    if s != [] {
      NoneOfKey(s[1..], key, k);
    }
  }

  /** Where an element stands among those with its key. */
  lemma OfKeyAt<T>(s: seq<T>, i: nat, key: T -> Key)
    requires i < |s|
    ensures var k := key(s[i]);
      |OfKey(s[..i], key, k)| < |OfKey(s, key, k)| && OfKey(s, key, k)[|OfKey(s[..i], key, k)|] == s[i]
  {
    assert s == s[..i] + s[i..];
    OfKeyAppend(s[..i], s[i..], key, key(s[i]));
  }

  /** Inserting before larger keys only adds a last element of its key. */
  lemma InsertKeepsOrder<T>(a: seq<T>, x: T, b: seq<T>, key: T -> Key, k: Key)
    requires forall y <- b :: KeyLess(key(x), key(y))
    ensures OfKey(a + [x] + b, key, k) == OfKey(a + b, key, k) + OfKey([x], key, k)
  {
    var around := OfKey(a, key, k);
    assert OfKey(a + b, key, k) == around + OfKey(b, key, k) by { OfKeyAppend(a, b, key, k); }
    assert OfKey(a + [x], key, k) == around + OfKey([x], key, k) by { OfKeyAppend(a, [x], key, k); }
    OfKeyAppend(a + [x], b, key, k);
    if key(x) == k {
      KeyLessTotal(k, k);
      NoneOfKey(b, key, k);
    }
  }

  /** Sorting has a result, and a stable one. */
  lemma {:induction false} SortExists<T>(s: seq<T>, key: T -> Key) returns (r: seq<T>)
    ensures StableSort(s, r, key)
  {
    r := [];
    if s != [] {
      var x := s[|s| - 1];
      var t := SortExists(s[..|s| - 1], key);
      assert s == s[..|s| - 1] + [x];
      var j := PlaceFor(t, x, key);
      r := t[..j] + [x] + t[j..];
      InsertKeepsSorted(t, j, x, key);
      InsertAdds(t, j, x);
      assert t == t[..j] + t[j..];
      forall k
        ensures OfKey(r, key, k) == OfKey(s, key, k)
      {
        InsertKeepsOrder(t[..j], x, t[j..], key, k);
        OfKeyAppend(s[..|s| - 1], [x], key, k);
      }
    }
  }

  lemma PlaceFor<T>(t: seq<T>, x: T, key: T -> Key) returns (j: nat)
    requires Sorted(t, key)
    ensures j <= |t| && (j > 0 ==> !KeyLess(key(x), key(t[j - 1])))
    ensures forall k | j <= k < |t| :: KeyLess(key(x), key(t[k]))
  {
    j := 0;
    while j < |t| && !KeyLess(key(x), key(t[j]))
      invariant j <= |t| && forall k | 0 <= k < j :: !KeyLess(key(x), key(t[k]))
    {
      j := j + 1;
    }
    forall k | j <= k < |t|
      ensures KeyLess(key(x), key(t[k]))
    {
      if !KeyLess(key(x), key(t[k])) {
        LessThenNotLess(key(x), key(t[j]), key(t[k]));
      }
    }
  }

  lemma LessThenNotLess(x: Key, y: Key, z: Key)
    requires KeyLess(x, y) && !KeyLess(z, y)
    ensures KeyLess(x, z)
  {
    KeyLessTotal(z, y);
    if KeyLess(y, z) {
      KeyLessTransitive(x, y, z);
    }
  }

  /** Two elements with one key may change places. */
  lemma SwapKeepsSorted<T>(r: seq<T>, p: nat, q: nat, key: T -> Key)
    requires Sorted(r, key) && p < |r| && q < |r| && key(r[p]) == key(r[q])
    ensures var t := r[p := r[q]][q := r[p]];
      multiset(t) == multiset(r) && Sorted(t, key)
  {
    var t := r[p := r[q]][q := r[p]];
    assert forall i | 0 <= i < |r| :: key(t[i]) == key(r[i]);
  }

  function ByString(s: string): Key { (s, "") }

  /** `list` holds the members of `s`, each once, in order. */
  ghost predicate IsSortedListOf(list: seq<string>, s: set<string>) {
    StrictlySorted(list, ByString) && forall x :: x in list <==> x in s
  }

  /** Every set has its sorted list. */
  lemma SortedListExists(s: set<string>) returns (list: seq<string>)
    ensures IsSortedListOf(list, s)
  {
    var unsorted := Listing(s);
    list := SortExists(unsorted, ByString);
    SortedDistinct(unsorted, list, ByString);
  }

  lemma {:induction false} Listing(s: set<string>) returns (list: seq<string>)
    ensures DistinctKeys(list, ByString) && forall x :: x in list <==> x in s
    decreases s
  {
    list := [];
    if s != {} {
      var x :| x in s;
      var rest := Listing(s - {x});
      list := [x] + rest;
      assert forall i | 0 <= i < |rest| :: rest[i] in rest;
    }
  }

  /** Collecting a set in any order and sorting it. */
  method SortedListOf(s: set<string>) returns (list: seq<string>)
    ensures IsSortedListOf(list, s)
  {
    var unsorted, rest := [], s;
    while rest != {}
      invariant rest <= s
      invariant forall x :: x in unsorted <==> x in s && x !in rest
      invariant DistinctKeys(unsorted, ByString)
    {
      var x :| x in rest;
      rest := rest - {x};
      unsorted := unsorted + [x];
    }
    list := SortByKey(unsorted, ByString);
    SortedDistinct(unsorted, list, ByString);
  }
}
