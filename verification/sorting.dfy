/** Python's `sorted(xs, key=k)` and `list.sort(key=k)`: a stable sort on a
    numeric key, written as an insertion sort that places each element after
    every element whose key is not greater than its own. */
module Sorting {

  /** `s` is in non-decreasing order of `key`. */
  predicate SortedBy<T>(s: seq<T>, key: T -> real)
  {
    forall i, j :: 0 <= i < j < |s| ==> key(s[i]) <= key(s[j])
  }

  /** The elements of `s` whose key is `m`, in their order in `s`. */
  function KeyClass<T>(s: seq<T>, key: T -> real, m: real): seq<T>
    decreases |s|
  {
    if s == [] then [] else (if key(s[0]) == m then [s[0]] else []) + KeyClass(s[1..], key, m)
  }

  /** Inserts `x` behind every leading element whose key is at most `key(x)`. */
  function Insert<T>(x: T, s: seq<T>, key: T -> real): seq<T>
    decreases |s|
  {
    if s == [] || key(x) < key(s[0]) then [x] + s else [s[0]] + Insert(x, s[1..], key)
  }

  /** The stable sort: the last element is inserted into the sorted prefix. */
  function SortBy<T>(xs: seq<T>, key: T -> real): seq<T>
    decreases |xs|
  {
    if xs == [] then [] else Insert(xs[|xs| - 1], SortBy(xs[..|xs| - 1], key), key)
  }

  lemma {:induction false} KeyClassAppend<T>(a: seq<T>, b: seq<T>, key: T -> real, m: real)
    ensures KeyClass(a + b, key, m) == KeyClass(a, key, m) + KeyClass(b, key, m)
    decreases |a|
  {
    if a == [] {
      assert a + b == b;
    } else {
      var head := if key(a[0]) == m then [a[0]] else [];
      var ab := a + b;
      assert ab[0] == a[0] && ab[1..] == a[1..] + b;
      assert KeyClass(ab, key, m) == head + KeyClass(a[1..] + b, key, m);
      KeyClassAppend(a[1..], b, key, m);
      assert KeyClass(a, key, m) == head + KeyClass(a[1..], key, m);
    }
  }

  lemma {:induction false} KeyClassNone<T>(s: seq<T>, key: T -> real, m: real)
    requires forall i :: 0 <= i < |s| ==> key(s[i]) != m
    ensures KeyClass(s, key, m) == []
    decreases |s|
  {
    if s != [] {
      KeyClassNone(s[1..], key, m);
    }
  }

  lemma {:induction false} InsertPermutes<T>(x: T, s: seq<T>, key: T -> real)
    ensures multiset(Insert(x, s, key)) == multiset(s) + multiset{x}
    decreases |s|
  {
    if s != [] && key(s[0]) <= key(x) {
      InsertPermutes(x, s[1..], key);
      assert s == [s[0]] + s[1..];
    }
  }

  lemma {:induction false} InsertSorted<T>(x: T, s: seq<T>, key: T -> real)
    requires SortedBy(s, key)
    ensures SortedBy(Insert(x, s, key), key)
    decreases |s|
  {
    if s != [] && key(s[0]) <= key(x) {
      var rest := Insert(x, s[1..], key);
      InsertSorted(x, s[1..], key);
      InsertPermutes(x, s[1..], key);
      forall j | 0 <= j < |rest| ensures key(s[0]) <= key(rest[j]) {
        assert rest[j] in multiset(rest);
        assert rest[j] == x || rest[j] in s[1..];
      }
    }
  }

  /** Inserting into a sorted sequence puts `x` behind every element of equal key. */
  lemma {:induction false} InsertKeyClass<T>(x: T, s: seq<T>, key: T -> real, m: real)
    requires SortedBy(s, key)
    ensures KeyClass(Insert(x, s, key), key, m) == KeyClass(s, key, m) + (if key(x) == m then [x] else [])
    decreases |s|
  {
    if s == [] {
    } else if key(x) < key(s[0]) {
      if key(x) == m {
        KeyClassNone(s, key, m);
      }
    } else {
      InsertKeyClass(x, s[1..], key, m);
    }
  }

  /** `SortBy` yields a sorted permutation that keeps the input order of
      elements with equal keys. */
  lemma {:induction false} SortByCorrect<T>(xs: seq<T>, key: T -> real)
    ensures SortedBy(SortBy(xs, key), key)
    ensures multiset(SortBy(xs, key)) == multiset(xs)
    ensures forall m :: KeyClass(SortBy(xs, key), key, m) == KeyClass(xs, key, m)
    decreases |xs|
  {
    if xs != [] {
      var init, x := xs[..|xs| - 1], xs[|xs| - 1];
      var sorted := SortBy(init, key);
      SortByCorrect(init, key);
      InsertSorted(x, sorted, key);
      InsertPermutes(x, sorted, key);
      assert xs == init + [x];
      forall m ensures KeyClass(SortBy(xs, key), key, m) == KeyClass(xs, key, m) {
        InsertKeyClass(x, sorted, key, m);
        KeyClassAppend(init, [x], key, m);
      }
    }
  }

  /** A sorted permutation has the length of its input. */
  lemma SortByLength<T>(xs: seq<T>, key: T -> real)
    ensures |SortBy(xs, key)| == |xs|
  {
    SortByCorrect(xs, key);
    assert |multiset(SortBy(xs, key))| == |multiset(xs)|;
  }
}
