/** List comprehensions with a condition, and Python's list.sort(key=..., reverse=...),
    which is stable in both directions: elements with equal keys keep their order. */
module StableSort {

  /** [x for x in s if p(x)] */
  function Filter<T>(s: seq<T>, p: T -> bool): seq<T> {
    if s == [] then [] else (if p(s[0]) then [s[0]] else []) + Filter(s[1..], p)
  }

  /** The filtered list holds exactly the elements of s that satisfy p. */
  lemma {:induction false} FilterMembers<T>(s: seq<T>, p: T -> bool)
    ensures |Filter(s, p)| <= |s|
    ensures forall x :: x in Filter(s, p) <==> x in s && p(x)
    decreases |s|
  {
    if s != [] {
      FilterMembers(s[1..], p);
      assert s == [s[0]] + s[1..];
    }
  }

  /** The subsequence of the elements whose key is v. */
  function WithKey<T>(s: seq<T>, key: T -> int, v: int): seq<T> {
    if s == [] then [] else (if key(s[0]) == v then [s[0]] else []) + WithKey(s[1..], key, v)
  }

  /** a may come before b: keys non-increasing when descending, non-decreasing otherwise. */
  predicate Precedes<T>(a: T, b: T, key: T -> int, descending: bool) {
    if descending then key(a) >= key(b) else key(a) <= key(b)
  }

  predicate Ordered<T>(s: seq<T>, key: T -> int, descending: bool) {
    forall i, j :: 0 <= i < j < |s| ==> Precedes(s[i], s[j], key, descending)
  }

  /** Inserts x before the first element it may precede; x was earlier than all of s. */
  function Insert<T>(x: T, s: seq<T>, key: T -> int, descending: bool): seq<T> {
    if s == [] || Precedes(x, s[0], key, descending) then [x] + s
    else [s[0]] + Insert(x, s[1..], key, descending)
  }

  /** list.sort(key=key, reverse=descending), as a stable insertion sort. */
  function Sort<T>(s: seq<T>, key: T -> int, descending: bool): seq<T> {
    if s == [] then [] else Insert(s[0], Sort(s[1..], key, descending), key, descending)
  }

  lemma {:induction false} InsertPermutes<T>(x: T, s: seq<T>, key: T -> int, descending: bool)
    ensures multiset(Insert(x, s, key, descending)) == multiset(s) + multiset{x}
    decreases |s|
  {
    if s != [] && !Precedes(x, s[0], key, descending) {
      InsertPermutes(x, s[1..], key, descending);
      assert s == [s[0]] + s[1..];
    }
  }

  /** The sorted list is a permutation of the input. */
  lemma {:induction false} SortPermutes<T>(s: seq<T>, key: T -> int, descending: bool)
    ensures multiset(Sort(s, key, descending)) == multiset(s)
    decreases |s|
  {
    if s != [] {
      SortPermutes(s[1..], key, descending);
      InsertPermutes(s[0], Sort(s[1..], key, descending), key, descending);
      assert s == [s[0]] + s[1..];
    }
  }

  lemma FilterCons<T>(x: T, s: seq<T>, p: T -> bool)
    ensures Filter([x] + s, p) == (if p(x) then [x] else []) + Filter(s, p)
  {
    assert ([x] + s)[1..] == s;
  }

  lemma InsertCons<T>(x: T, y: T, s: seq<T>, key: T -> int, descending: bool)
    ensures Insert(x, [y] + s, key, descending) ==
      if Precedes(x, y, key, descending) then [x, y] + s else [y] + Insert(x, s, key, descending)
  {
    assert ([y] + s)[0] == y;
    assert ([y] + s)[1..] == s;
  }

  lemma SortCons<T>(x: T, s: seq<T>, key: T -> int, descending: bool)
    ensures Sort([x] + s, key, descending) == Insert(x, Sort(s, key, descending), key, descending)
  {
    assert ([x] + s)[1..] == s;
  }

  lemma {:induction false} InsertOrdered<T>(x: T, s: seq<T>, key: T -> int, descending: bool)
    requires Ordered(s, key, descending)
    ensures Ordered(Insert(x, s, key, descending), key, descending)
    decreases |s|
  {
    var r := Insert(x, s, key, descending);
    if s == [] || Precedes(x, s[0], key, descending) {
      forall i, j | 0 <= i < j < |r| ensures Precedes(r[i], r[j], key, descending) {
        if i > 0 { assert r[i] == s[i - 1] && r[j] == s[j - 1]; }
        else { assert r[j] == s[j - 1]; }
      }
    } else {
      var t := Insert(x, s[1..], key, descending);
      InsertOrdered(x, s[1..], key, descending);
      InsertPermutes(x, s[1..], key, descending);
      forall i, j | 0 <= i < j < |r| ensures Precedes(r[i], r[j], key, descending) {
        if i == 0 {
          assert r[j] == t[j - 1];
          assert r[j] in multiset(t);
          assert r[j] == x || r[j] in multiset(s[1..]);
          if r[j] != x {
            assert r[j] in s[1..];
            var k :| 0 <= k < |s[1..]| && s[1..][k] == r[j];
            assert s[k + 1] == r[j];
          }
        } else {
          assert r[i] == t[i - 1] && r[j] == t[j - 1];
        }
      }
    }
  }

  /** The sorted list is ordered by the key. */
  lemma {:induction false} SortOrdered<T>(s: seq<T>, key: T -> int, descending: bool)
    ensures Ordered(Sort(s, key, descending), key, descending)
    decreases |s|
  {
    if s != [] {
      SortOrdered(s[1..], key, descending);
      InsertOrdered(s[0], Sort(s[1..], key, descending), key, descending);
    }
  }

  lemma WithKeyCons<T>(x: T, s: seq<T>, key: T -> int, v: int)
    ensures WithKey([x] + s, key, v) == (if key(x) == v then [x] else []) + WithKey(s, key, v)
  {
    assert ([x] + s)[0] == x;
    assert ([x] + s)[1..] == s;
  }

  lemma {:induction false} WithKeyAppend<T>(a: seq<T>, b: seq<T>, key: T -> int, v: int)
    ensures WithKey(a + b, key, v) == WithKey(a, key, v) + WithKey(b, key, v)
    decreases |a|
  {
    if a == [] {
      assert a + b == b;
    } else {
      assert (a + b)[0] == a[0];
      assert (a + b)[1..] == a[1..] + b;
      WithKeyAppend(a[1..], b, key, v);
    }
  }

  /** Insertion only moves x past elements with a different key. */
  lemma {:induction false} InsertStable<T>(x: T, s: seq<T>, key: T -> int, descending: bool, v: int)
    ensures WithKey(Insert(x, s, key, descending), key, v) == WithKey([x] + s, key, v)
    decreases |s|
  {
    if s != [] && !Precedes(x, s[0], key, descending) {
      var t := Insert(x, s[1..], key, descending);
      var a := if key(s[0]) == v then [s[0]] else [];
      var b := if key(x) == v then [x] else [];
      var rest := WithKey(s[1..], key, v);
      assert a == [] || b == [];
      calc {
        WithKey(Insert(x, s, key, descending), key, v);
        { WithKeyCons(s[0], t, key, v); }
        a + WithKey(t, key, v);
        { InsertStable(x, s[1..], key, descending, v); WithKeyCons(x, s[1..], key, v); }
        a + (b + rest);
        b + (a + rest);
        { assert [s[0]] + s[1..] == s; WithKeyCons(s[0], s[1..], key, v); }
        b + WithKey(s, key, v);
        { WithKeyCons(x, s, key, v); }
        WithKey([x] + s, key, v);
      }
    }
  }

  /** Stability: the elements of each key keep their original relative order. */
  lemma {:induction false} SortStable<T>(s: seq<T>, key: T -> int, descending: bool, v: int)
    ensures WithKey(Sort(s, key, descending), key, v) == WithKey(s, key, v)
    decreases |s|
  {
    if s != [] {
      var t := Sort(s[1..], key, descending);
      SortStable(s[1..], key, descending, v);
      InsertStable(s[0], t, key, descending, v);
      WithKeyCons(s[0], t, key, v);
    }
  }

  /** Filtering first does not change the key-v subsequence when every key-v element passes. */
  lemma {:induction false} WithKeyFilter<T>(s: seq<T>, p: T -> bool, key: T -> int, v: int)
    requires forall x :: x in s && key(x) == v ==> p(x)
    ensures WithKey(Filter(s, p), key, v) == WithKey(s, key, v)
    decreases |s|
  {
    if s != [] {
      WithKeyFilter(s[1..], p, key, v);
      WithKeyAppend(if p(s[0]) then [s[0]] else [], Filter(s[1..], p), key, v);
    }
  }

  lemma {:induction false} WithKeyAbsent<T>(s: seq<T>, key: T -> int, v: int)
    requires forall i :: 0 <= i < |s| ==> key(s[i]) != v
    ensures WithKey(s, key, v) == []
    decreases |s|
  {
    if s != [] {
      WithKeyAbsent(s[1..], key, v);
    }
  }

  /** Two filters that split s between them together keep every element once. */
  lemma {:induction false} FilterSplit<T>(s: seq<T>, p: T -> bool, q: T -> bool)
    requires forall x :: x in s ==> p(x) != q(x)
    ensures multiset(Filter(s, p)) + multiset(Filter(s, q)) == multiset(s)
    decreases |s|
  {
    if s != [] {
      FilterSplit(s[1..], p, q);
      assert s == [s[0]] + s[1..];
      assert s[0] in s;
    }
  }
}
