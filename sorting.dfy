/**
 * Sorting a frame's rows by one numeric column, as `DataFrame.sort_values`
 * does. A descending sort is an ascending sort on the negated key. The model
 * sorts stably by insertion; the order among rows with equal keys is the one
 * place where it fixes a choice the library leaves open.
 */
module Sorting {

  /** Keys never decrease along s. */
  predicate SortedBy<T>(s: seq<T>, key: T -> real) {
    forall i, j :: 0 <= i < j < |s| ==> key(s[i]) <= key(s[j])
  }

  /** No key along s exceeds bound. */
  predicate KeysAtMost<T>(s: seq<T>, key: T -> real, bound: real) {
    forall i :: 0 <= i < |s| ==> key(s[i]) <= bound
  }

  /** Reordering a sequence keeps every key under the same bound. */
  lemma PermutationKeysAtMost<T>(a: seq<T>, b: seq<T>, key: T -> real, bound: real)
    requires multiset(a) == multiset(b) && KeysAtMost(b, key, bound)
    ensures KeysAtMost(a, key, bound)
  {
    forall i | 0 <= i < |a| ensures key(a[i]) <= bound {
      assert a[i] in multiset(b);
    }
  }

  /** A sorted sequence stays sorted when an element with a key no smaller than all goes at its end. */
  lemma SortedAppend<T>(s: seq<T>, y: T, key: T -> real)
    requires SortedBy(s, key) && KeysAtMost(s, key, key(y))
    ensures SortedBy(s + [y], key)
  {
  }

  /** x placed into sorted s after every element whose key is not larger. */
  function InsertBy<T>(x: T, s: seq<T>, key: T -> real): (r: seq<T>)
    requires SortedBy(s, key)
    ensures SortedBy(r, key)
    ensures multiset(r) == multiset(s) + multiset{x}
    ensures |r| == |s| + 1
  {
    if s == [] then [x]
    else
      var init, last := s[..|s| - 1], s[|s| - 1];
      assert s == init + [last];
      assert KeysAtMost(init, key, key(last));
      if key(x) < key(last) then
        var front := InsertBy(x, init, key);
        PermutationKeysAtMost(front, init + [x], key, key(last));
        SortedAppend(front, last, key);
        front + [last]
      else
        SortedAppend(s, x, key);
        s + [x]
  }

  /** The rows of s in ascending key order. */
  function SortBy<T>(s: seq<T>, key: T -> real): (r: seq<T>)
    ensures SortedBy(r, key)
    ensures multiset(r) == multiset(s)
    ensures |r| == |s|
  {
    if s == [] then []
    else
      var init := s[..|s| - 1];
      assert s == init + [s[|s| - 1]];
      InsertBy(s[|s| - 1], SortBy(init, key), key)
  }

  /** A sequence already in key order is left as it is. */
  lemma {:induction false} SortSorted<T>(s: seq<T>, key: T -> real)
    requires SortedBy(s, key)
    ensures SortBy(s, key) == s
  {
    if s != [] {
      var init := s[..|s| - 1];
      SortSorted(init, key);
      assert s == init + [s[|s| - 1]];
    }
  }
}
