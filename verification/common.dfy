/**
 Shared vocabulary of the relationship analyser model: optional values,
 duplicate-freedom of sequences, the element set of a sequence, and the
 ASCII case folding applied to column names before they are compared.
 */
module Common {

  /** A value that may be missing: a null cell, an absent dictionary key. */
  datatype Option<+T> = None | Some(value: T)

  /** Dictionary lookup that yields None for a missing key (Python's `dict.get`). */
  function Get<K, V>(m: map<K, V>, k: K): (r: Option<V>)
    ensures r.Some? <==> k in m
    ensures r.Some? ==> r.value == m[k]
  {
    if k in m then Some(m[k]) else None
  }

  /** No element occurs twice. */
  ghost predicate NoDup<T>(s: seq<T>) {
    forall i, j :: 0 <= i < j < |s| ==> s[i] != s[j]
  }

  /**
   `a` can be obtained from `b` by deleting elements. Matching the heads
   greedily loses nothing, so this recursion decides the relation.
   */
  ghost predicate IsSubsequence<T>(a: seq<T>, b: seq<T>) {
    if |a| == 0 then true
    else if |b| == 0 then false
    else if a[0] == b[0] then IsSubsequence(a[1..], b[1..])
    else IsSubsequence(a, b[1..])
  }

  /** Skipping an unmatched head of the longer sequence keeps a subsequence. */
  lemma SubsequenceSkip<T>(a: seq<T>, b: seq<T>)
    requires |b| > 0 && IsSubsequence(a, b[1..])
    requires |a| > 0 ==> a[0] != b[0]
    ensures IsSubsequence(a, b)
  {
  }

  /** A common head extends a subsequence. */
  lemma SubsequenceKeep<T>(x: T, a: seq<T>, b: seq<T>)
    requires IsSubsequence(a, b)
    ensures IsSubsequence([x] + a, [x] + b)
  {
    assert ([x] + a)[1..] == a && ([x] + b)[1..] == b;
  }

  /** The set of elements of a sequence (Python's `set(xs)`). */
  function Elems<T>(s: seq<T>): set<T> {
    set x | x in s
  }

  /** A duplicate-free sequence has as many elements as its element set. */
  lemma {:induction false} NoDupCard<T>(s: seq<T>)
    requires NoDup(s)
    ensures |Elems(s)| == |s|
  {
    if |s| > 0 {
      var p := s[..|s| - 1];
      var v := s[|s| - 1];
      assert NoDup(p);
      NoDupCard(p);
      assert s == p + [v];
      assert v !in p;
      assert Elems(s) == Elems(p) + {v};
    }
  }

  /** In a duplicate-free sequence every element is counted once. */
  lemma {:induction false} NoDupCountsOnce<T>(s: seq<T>)
    requires NoDup(s)
    ensures forall x :: multiset(s)[x] <= 1
  {
    if |s| > 0 {
      var p := s[..|s| - 1];
      var v := s[|s| - 1];
      assert NoDup(p);
      NoDupCountsOnce(p);
      assert multiset(s) == multiset(p) + multiset{v} by {
        assert s == p + [v];
      }
      assert v !in multiset(p) by {
        assert v !in p;
      }
    }
  }

  /** An element at two positions is counted at least twice. */
  lemma RepeatCountsTwice<T>(s: seq<T>, i: int, j: int)
    requires 0 <= i < j < |s| && s[i] == s[j]
    ensures multiset(s)[s[j]] >= 2
  {
    var front := s[..j];
    assert multiset(s) == multiset(front) + multiset{s[j]} + multiset(s[j + 1..]) by {
      assert s == front + [s[j]] + s[j + 1..];
    }
    assert s[j] in multiset(front) by {
      assert front[i] == s[j];
    }
  }

  /** Duplicate-freedom is a property of the multiset: no element is counted twice. */
  lemma NoDupCounts<T>(s: seq<T>)
    ensures NoDup(s) <==> forall x :: multiset(s)[x] <= 1
  {
    if NoDup(s) {
      NoDupCountsOnce(s);
    } else {
      var i, j :| 0 <= i < j < |s| && s[i] == s[j];
      RepeatCountsTwice(s, i, j);
    }
  }

  /** A rearrangement of a duplicate-free sequence is duplicate-free. */
  lemma NoDupPermutation<T>(a: seq<T>, b: seq<T>)
    requires multiset(a) == multiset(b) && NoDup(b)
    ensures NoDup(a)
  {
    NoDupCounts(a);
    NoDupCounts(b);
  }

  /** Sequences with the same multiset have the same elements. */
  lemma SameElems<T>(a: seq<T>, b: seq<T>)
    requires multiset(a) == multiset(b)
    ensures forall x :: x in a <==> x in b
  {
    forall x ensures x in a <==> x in b {
      assert x in a <==> x in multiset(a);
      assert x in b <==> x in multiset(b);
    }
  }

  /** A sequence has at least as many positions as distinct elements. */
  lemma {:induction false} ElemsCardBound<T>(s: seq<T>)
    ensures |Elems(s)| <= |s|
  {
    if |s| > 0 {
      var p := s[..|s| - 1];
      ElemsCardBound(p);
      assert s == p + [s[|s| - 1]];
      assert Elems(s) == Elems(p) + {s[|s| - 1]};
    }
  }

  /** A count over a positive total gives a ratio in [0, 1] that scales back to the count. */
  lemma RatioInUnit(count: nat, total: nat)
    requires 0 < total && count <= total
    ensures 0.0 <= count as real / total as real <= 1.0
    ensures (count as real / total as real) * total as real == count as real
  {
    var q := count as real / total as real;
    assert q * total as real == count as real;
    assert q <= 1.0 by {
      if q > 1.0 {
        assert q * total as real > 1.0 * total as real;
      }
    }
  }

  /** The ratio is 0 exactly for a zero count and 1 exactly for a full count. */
  lemma RatioExtremes(count: nat, total: nat)
    requires 0 < total && count <= total
    ensures count as real / total as real == 0.0 <==> count == 0
    ensures count as real / total as real == 1.0 <==> count == total
  {
    RatioInUnit(count, total);
  }

  /** ASCII lower-casing of one character. */
  function LowerChar(c: char): char {
    if 'A' <= c <= 'Z' then (c as int + 32) as char else c
  }

  /** Lower-casing of a name, character by character (`str.lower()` on ASCII text). */
  function Lower(s: string): (r: string)
    ensures |r| == |s|
    ensures forall i :: 0 <= i < |s| ==> r[i] == LowerChar(s[i])
  {
    seq(|s|, i requires 0 <= i < |s| => LowerChar(s[i]))
  }

  /** Lower-casing twice is lower-casing once. */
  lemma LowerIdempotent(s: string)
    ensures Lower(Lower(s)) == Lower(s)
  {
    forall i | 0 <= i < |s| ensures Lower(Lower(s))[i] == Lower(s)[i] {
      var c := s[i];
      if 'A' <= c <= 'Z' {
        assert 'a' <= LowerChar(c) <= 'z';
      }
    }
  }
}
