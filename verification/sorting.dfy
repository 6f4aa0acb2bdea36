/**
 Python's `list.sort(key=k, reverse=True)` and `sorted(xs, key=k, reverse=True)`:
 a stable sort into non-increasing key order. Elements with equal keys keep
 their original relative order, which is what "stable" means for Python's
 sort also when `reverse=True` is given.
 */
module Sorting {

  /** Keys never increase from left to right. */
  ghost predicate SortedDesc<T>(s: seq<T>, key: T -> real) {
    forall i, j :: 0 <= i < j < |s| ==> key(s[i]) >= key(s[j])
  }

  /** The elements of `s` whose key is exactly `c`, in their order in `s`. */
  function KeyClass<T>(s: seq<T>, key: T -> real, c: real): seq<T> {
    if |s| == 0 then []
    else (if key(s[0]) == c then [s[0]] else []) + KeyClass(s[1..], key, c)
  }

  /**
   Inserts `x` in front of the first element whose key is not larger than
   its own, so that `x` stays ahead of every element it ties with.
   */
  function Insert<T>(x: T, s: seq<T>, key: T -> real): (r: seq<T>)
    ensures multiset(r) == multiset(s) + multiset{x}
    ensures SortedDesc(s, key) ==> SortedDesc(r, key)
  {
    if |s| == 0 || key(s[0]) <= key(x) then [x] + s
    else
      var tail := Insert(x, s[1..], key);
      InsertSortedStep(x, s, tail, key);
      [s[0]] + tail
  }

  /** Putting the larger head in front of the sorted insertion into the tail keeps the order. */
  lemma InsertSortedStep<T>(x: T, s: seq<T>, tail: seq<T>, key: T -> real)
    requires |s| > 0 && key(s[0]) > key(x)
    requires multiset(tail) == multiset(s[1..]) + multiset{x}
    requires SortedDesc(s[1..], key) ==> SortedDesc(tail, key)
    ensures multiset([s[0]] + tail) == multiset(s) + multiset{x}
    ensures SortedDesc(s, key) ==> SortedDesc([s[0]] + tail, key)
  {
    assert multiset([s[0]] + tail) == multiset(s) + multiset{x} by {
      assert s == [s[0]] + s[1..];
    }
    if SortedDesc(s, key) {
      assert SortedDesc(tail, key) by {
        assert SortedDesc(s[1..], key);
      }
      assert forall y :: y in tail ==> key(y) <= key(s[0]) by {
        forall y | y in tail
          ensures key(y) <= key(s[0])
        {
          assert y in multiset(tail);
          if y != x {
            assert y in multiset(s[1..]);
            var k :| 0 <= k < |s[1..]| && s[1..][k] == y;
            assert s[k + 1] == y;
          }
        }
      }
      var r := [s[0]] + tail;
      forall i, j | 0 <= i < j < |r| ensures key(r[i]) >= key(r[j]) {
        if i == 0 {
          assert r[j] == tail[j - 1] && r[j] in tail;
        } else {
          assert r[i] == tail[i - 1] && r[j] == tail[j - 1];
        }
      }
    }
  }

  /** Stable insertion sort into non-increasing key order. */
  function SortDesc<T>(s: seq<T>, key: T -> real): (r: seq<T>)
    ensures SortedDesc(r, key)
    ensures multiset(r) == multiset(s)
    ensures |r| == |s|
  {
    if |s| == 0 then []
    else
      assert s == [s[0]] + s[1..];
      Insert(s[0], SortDesc(s[1..], key), key)
  }

  lemma {:induction false} KeyClassAppend<T>(a: seq<T>, b: seq<T>, key: T -> real, c: real)
    ensures KeyClass(a + b, key, c) == KeyClass(a, key, c) + KeyClass(b, key, c)
  {
    if |a| > 0 {
      assert (a + b)[1..] == a[1..] + b;
      KeyClassAppend(a[1..], b, key, c);
    } else {
      assert a + b == b;
    }
  }

  /** Inserting `x` adds it at the front of its own key class and leaves every other class alone. */
  lemma {:induction false} InsertKeyClass<T>(x: T, s: seq<T>, key: T -> real, c: real)
    ensures KeyClass(Insert(x, s, key), key, c)
         == (if key(x) == c then [x] else []) + KeyClass(s, key, c)
  {
    var mine := if key(x) == c then [x] else [];
    if |s| == 0 || key(s[0]) <= key(x) {
      assert Insert(x, s, key) == [x] + s;
      KeyClassAppend([x], s, key, c);
      assert KeyClass([x], key, c) == mine;
    } else {
      var tail := Insert(x, s[1..], key);
      assert Insert(x, s, key) == [s[0]] + tail;
      InsertKeyClass(x, s[1..], key, c);
      InsertKeyClassStep(x, s, tail, key, c);
    }
  }

  /** Passing over a head with a larger key does not disturb the order within any key class. */
  lemma InsertKeyClassStep<T>(x: T, s: seq<T>, tail: seq<T>, key: T -> real, c: real)
    requires |s| > 0 && key(s[0]) > key(x)
    requires KeyClass(tail, key, c) == (if key(x) == c then [x] else []) + KeyClass(s[1..], key, c)
    ensures KeyClass([s[0]] + tail, key, c) == (if key(x) == c then [x] else []) + KeyClass(s, key, c)
  {
    var head := KeyClass([s[0]], key, c);
    var rest := KeyClass(s[1..], key, c);
    KeyClassAppend([s[0]], tail, key, c);
    assert KeyClass(s, key, c) == head + rest by {
      assert s == [s[0]] + s[1..];
      KeyClassAppend([s[0]], s[1..], key, c);
    }
    if key(x) == c {
      assert head == [];
      assert KeyClass([s[0]] + tail, key, c) == [x] + rest;
    } else {
      assert KeyClass(tail, key, c) == rest;
    }
  }

  /**
   Stability: for every key value, the elements carrying it appear in the
   sorted output in exactly the order they had in the input.
   */
  lemma {:induction false} SortDescStable<T>(s: seq<T>, key: T -> real, c: real)
    ensures KeyClass(SortDesc(s, key), key, c) == KeyClass(s, key, c)
  {
    if |s| > 0 {
      SortDescStable(s[1..], key, c);
      InsertKeyClass(s[0], SortDesc(s[1..], key), key, c);
    }
  }
}
