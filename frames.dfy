/**
 * The two row-wise frame operations the report leans on, on sequences of
 * rows: keeping the rows a boolean mask selects (`df[mask]`, and list
 * comprehensions with an `if`), and `Series.unique()`, which lists each
 * value once in the order it first appears.
 */
module Frames {

  predicate Distinct<T(==)>(s: seq<T>) {
    forall i, j :: 0 <= i < j < |s| ==> s[i] != s[j]
  }

  /** A sequence without repeats holds each value at most once. */
  lemma {:induction false} DistinctCount<T>(s: seq<T>, x: T)
    requires Distinct(s)
    ensures multiset(s)[x] <= 1
  {
    if s != [] {
      assert Distinct(s[1..]);
      DistinctCount(s[1..], x);
      assert s == [s[0]] + s[1..];
      assert s[0] !in s[1..];
    }
  }

  /** Reordering rows without repeats gives rows without repeats. */
  lemma DistinctPermutation<T>(s: seq<T>, t: seq<T>)
    requires Distinct(s) && multiset(s) == multiset(t)
    ensures Distinct(t)
  {
    forall i, j | 0 <= i < j < |t|
      ensures t[i] != t[j]
    {
      DistinctCount(s, t[i]);
      assert t == t[..i] + [t[i]] + t[i + 1..j] + [t[j]] + t[j + 1..];
      assert multiset(t) == multiset(t[..i]) + multiset{t[i]} + multiset(t[i + 1..j]) + multiset{t[j]} + multiset(t[j + 1..]);
    }
  }

  /** The rows of s that satisfy p, in their original order. */
  function Filter<T>(s: seq<T>, p: T -> bool): (r: seq<T>)
    ensures |r| <= |s|
    ensures forall i :: 0 <= i < |r| ==> p(r[i])
  {
    if s == [] then []
    else (if p(s[0]) then [s[0]] else []) + Filter(s[1..], p)
  }

  /** The filter of s is the filter of its tail, behind s[0] when s[0] is selected. */
  lemma FilterUnfold<T>(s: seq<T>, p: T -> bool)
    requires s != []
    ensures p(s[0]) ==> Filter(s, p) == [s[0]] + Filter(s[1..], p)
    ensures !p(s[0]) ==> Filter(s, p) == Filter(s[1..], p)
  {
  }

  /** The k-th kept row sits at some position of s. */
  lemma {:induction false} KeptPosition<T>(s: seq<T>, p: T -> bool, k: int) returns (a: int)
    requires 0 <= k < |Filter(s, p)|
    ensures 0 <= a < |s| && s[a] == Filter(s, p)[k]
  {
    var d := if p(s[0]) then 1 else 0;
    if k < d {
      assert Filter(s, p)[k] == s[0] by {
        FilterUnfold(s, p);
      }
      a := 0;
    } else {
      assert Filter(s, p)[k] == Filter(s[1..], p)[k - d] by {
        FilterUnfold(s, p);
      }
      var a' := KeptPosition(s[1..], p, k - d);
      a := a' + 1;
    }
  }

  /** Every kept row is a row of s. */
  lemma FilterMember<T>(s: seq<T>, p: T -> bool, i: int)
    requires 0 <= i < |Filter(s, p)|
    ensures Filter(s, p)[i] in s
  {
    var a := KeptPosition(s, p, i);
  }

  /** Every selected row is kept. */
  lemma {:induction false} FilterKeeps<T>(s: seq<T>, p: T -> bool, i: int)
    requires 0 <= i < |s| && p(s[i])
    ensures s[i] in Filter(s, p)
  {
    FilterUnfold(s, p);
    if i > 0 {
      FilterKeeps(s[1..], p, i - 1);
    }
  }

  /** Every kept row is a row of s, and every selected row of s is kept. */
  lemma FilterMembers<T>(s: seq<T>, p: T -> bool)
    ensures forall i :: 0 <= i < |Filter(s, p)| ==> Filter(s, p)[i] in s
    ensures forall i :: 0 <= i < |s| && p(s[i]) ==> s[i] in Filter(s, p)
  {
    forall i | 0 <= i < |Filter(s, p)| ensures Filter(s, p)[i] in s {
      FilterMember(s, p, i);
    }
    forall i | 0 <= i < |s| && p(s[i]) ensures s[i] in Filter(s, p) {
      FilterKeeps(s, p, i);
    }
  }

  /** Filtering keeps every selected row as often as it occurs, and no other. */
  lemma {:induction false} FilterCount<T>(s: seq<T>, p: T -> bool, x: T)
    ensures multiset(Filter(s, p))[x] == if p(x) then multiset(s)[x] else 0
  {
    if s != [] {
      FilterCount(s[1..], p, x);
      var head := if p(s[0]) then [s[0]] else [];
      assert Filter(s, p) == head + Filter(s[1..], p);
      assert multiset(Filter(s, p)) == multiset(head) + multiset(Filter(s[1..], p));
      assert s == [s[0]] + s[1..];
      assert multiset(s) == multiset{s[0]} + multiset(s[1..]);
    }
  }

  /** Filtering a concatenation filters each part: the order of the rows is kept. */
  lemma {:induction false} FilterConcat<T>(a: seq<T>, b: seq<T>, p: T -> bool)
    ensures Filter(a + b, p) == Filter(a, p) + Filter(b, p)
  {
    if a != [] {
      FilterConcat(a[1..], b, p);
      assert (a + b)[1..] == a[1..] + b;
    } else {
      assert a + b == b;
    }
  }

  /** A mask that selects every row changes nothing. */
  lemma {:induction false} FilterKeepsAll<T>(s: seq<T>, p: T -> bool)
    requires forall i :: 0 <= i < |s| ==> p(s[i])
    ensures Filter(s, p) == s
  {
    if s != [] {
      FilterKeepsAll(s[1..], p);
      assert s == [s[0]] + s[1..];
    }
  }

  /** A filter of rows without repeats has no repeats. */
  lemma {:induction false} FilterDistinct<T>(s: seq<T>, p: T -> bool)
    requires Distinct(s)
    ensures Distinct(Filter(s, p))
  {
    if s != [] {
      var tail := s[1..];
      assert Distinct(tail);
      FilterDistinct(tail, p);
      FilterUnfold(s, p);
      forall k | 0 <= k < |Filter(tail, p)|
        ensures Filter(tail, p)[k] != s[0]
      {
        FilterMember(tail, p, k);
      }
    }
  }

  /** Any two kept rows come from positions a < b of s. */
  lemma {:induction false} FilterPositions<T>(s: seq<T>, p: T -> bool, i: int, j: int) returns (a: int, b: int)
    requires 0 <= i < j < |Filter(s, p)|
    ensures 0 <= a < b < |s| && s[a] == Filter(s, p)[i] && s[b] == Filter(s, p)[j]
  {
    var d := if p(s[0]) then 1 else 0;
    assert Filter(s, p)[j] == Filter(s[1..], p)[j - d] by {
      FilterUnfold(s, p);
    }
    if i >= d {
      assert Filter(s, p)[i] == Filter(s[1..], p)[i - d] by {
        FilterUnfold(s, p);
      }
      var a', b' := FilterPositions(s[1..], p, i - d, j - d);
      a, b := a' + 1, b' + 1;
    } else {
      assert Filter(s, p)[i] == s[0] by {
        FilterUnfold(s, p);
      }
      var b' := KeptPosition(s[1..], p, j - d);
      a, b := 0, b' + 1;
    }
  }

  /** The position of the first x in s. */
  function FirstIndex<T(==)>(s: seq<T>, x: T): (k: nat)
    requires x in s
    ensures k < |s| && s[k] == x
  {
    if s[0] == x then 0 else FirstIndex(s[1..], x) + 1
  }

  /** No earlier position holds x. */
  lemma {:induction false} FirstIndexIsFirst<T>(s: seq<T>, x: T, k: int)
    requires x in s && 0 <= k < FirstIndex(s, x)
    ensures s[k] != x
  {
    if k > 0 {
      FirstIndexIsFirst(s[1..], x, k - 1);
    }
  }

  /** Appending rows does not move the first occurrence of a value already present. */
  lemma {:induction false} FirstIndexPrefix<T>(s: seq<T>, t: seq<T>, x: T)
    requires x in s
    ensures FirstIndex(s + t, x) == FirstIndex(s, x)
  {
    if s[0] != x {
      assert (s + t)[1..] == s[1..] + t;
      FirstIndexPrefix(s[1..], t, x);
    }
  }

  /** x first occurs right after a prefix that lacks it. */
  lemma {:induction false} FirstIndexAfter<T>(w: seq<T>, x: T, t: seq<T>)
    requires x !in w && t != [] && t[0] == x
    ensures FirstIndex(w + t, x) == |w|
  {
    if w != [] {
      assert (w + t)[1..] == w[1..] + t;
      FirstIndexAfter(w[1..], x, t);
    }
  }

  /** In a sequence without repeats, every position is the first of its value. */
  lemma FirstIndexDistinct<T>(s: seq<T>, a: int)
    requires Distinct(s) && 0 <= a < |s|
    ensures FirstIndex(s, s[a]) == a
  {
  }

  /** A filter of rows without repeats lists them in their original order. */
  lemma FilterInOrder<T>(s: seq<T>, p: T -> bool, i: int, j: int)
    requires Distinct(s) && 0 <= i < j < |Filter(s, p)|
    ensures Filter(s, p)[i] in s && Filter(s, p)[j] in s
    ensures FirstIndex(s, Filter(s, p)[i]) < FirstIndex(s, Filter(s, p)[j])
  {
    var a, b := FilterPositions(s, p, i, j);
    FirstIndexDistinct(s, a);
    FirstIndexDistinct(s, b);
  }

  /** `Series.unique()`: each value of s once, in order of first appearance. */
  function Unique<T(==)>(s: seq<T>): (r: seq<T>)
    ensures Distinct(r)
    ensures forall i :: 0 <= i < |r| ==> r[i] in s
    ensures forall i :: 0 <= i < |s| ==> s[i] in r
  {
    if s == [] then []
    else
      var init, last := s[..|s| - 1], s[|s| - 1];
      assert s == init + [last];
      Unique(init) + (if last in init then [] else [last])
  }

  /** Values come out of `unique()` in the order of their first appearance. */
  lemma {:induction false} UniqueInFirstAppearanceOrder<T>(s: seq<T>)
    ensures forall i, j :: 0 <= i < j < |Unique(s)| ==> FirstIndex(s, Unique(s)[i]) < FirstIndex(s, Unique(s)[j])
  {
    if s != [] {
      var init, last := s[..|s| - 1], s[|s| - 1];
      assert s == init + [last];
      UniqueInFirstAppearanceOrder(init);
      var u := Unique(init);
      forall x | x in init
        ensures FirstIndex(s, x) == FirstIndex(init, x)
      {
        FirstIndexPrefix(init, [last], x);
      }
      if last !in init {
        assert FirstIndex(s, last) == |init| by {
          assert s[..|init|] == init;
        }
      }
    }
  }
}
