/** The text summary of a column (App.js lines 38-43): the distinct values in
    order of first appearance, as `[...new Set(values)]` yields them, and the
    first five of those. */
module Text {

  predicate NoDuplicates<T(==,!new)>(s: seq<T>) {
    forall i, j :: 0 <= i < j < |s| ==> s[i] != s[j]
  }

  function Elements<T(!new)>(s: seq<T>): set<T> {
    set x | x in s
  }

  /** Growing a prefix by one element adds that element to its elements. */
  lemma ElementsOfLongerPrefix<T(!new)>(s: seq<T>, k: nat)
    requires k < |s|
    ensures Elements(s[..k + 1]) == Elements(s[..k]) + {s[k]}
  {
    assert s[..k + 1] == s[..k] + [s[k]];
  }

  /** `[...new Set(values)]`: the set receives the values one at a time,
      ignores a value it already holds, and is read back in insertion
      order. */
  function Distinct<T(==,!new)>(s: seq<T>): (r: seq<T>)
    ensures NoDuplicates(r)
    ensures forall x :: x in r <==> x in s
    ensures |r| <= |s|
  {
    if s == [] then []
    else
      var d, x := Distinct(s[..|s| - 1]), s[|s| - 1];
      assert forall y :: y in s <==> y in s[..|s| - 1] || y == x by {
        assert s == s[..|s| - 1] + [x];
      }
      if x in d then d else d + [x]
  }

  /** Appending one element to a sequence appends it to the distinct
      values unless it has been seen. */
  lemma DistinctStep<T(!new)>(s: seq<T>, x: T)
    ensures Distinct(s + [x]) == if x in s then Distinct(s) else Distinct(s) + [x]
  {
    assert (s + [x])[..|s|] == s;
  }

  /** Position of the first occurrence of `x` in `s`. */
  function FirstIndex<T(==,!new)>(s: seq<T>, x: T): (k: nat)
    requires x in s
    ensures k < |s| && s[k] == x
    ensures forall i :: 0 <= i < k ==> s[i] != x
  {
    if s[0] == x then 0 else 1 + FirstIndex(s[1..], x)
  }

  lemma {:induction false} FirstIndexInPrefix<T(!new)>(s: seq<T>, t: seq<T>, x: T)
    requires x in s
    ensures x in s + t && FirstIndex(s + t, x) == FirstIndex(s, x)
  {
    if s[0] != x {
      assert (s + t)[1..] == s[1..] + t;
      FirstIndexInPrefix(s[1..], t, x);
    }
  }

  lemma FirstIndexOfNewValue<T(!new)>(s: seq<T>, x: T)
    requires x !in s
    ensures FirstIndex(s + [x], x) == |s|
  {
  }

  /** The distinct values come out in the order of their first occurrence
      in the column. */
  lemma {:induction false} DistinctInFirstOccurrenceOrder<T(!new)>(s: seq<T>)
    ensures forall i, j :: 0 <= i < j < |Distinct(s)| ==>
      FirstIndex(s, Distinct(s)[i]) < FirstIndex(s, Distinct(s)[j])
  {
    if s != [] {
      var p, x := s[..|s| - 1], s[|s| - 1];
      assert s == p + [x];
      var d := Distinct(p);
      DistinctInFirstOccurrenceOrder(p);
      forall y | y in p
        ensures FirstIndex(s, y) == FirstIndex(p, y) < |p|
      {
        FirstIndexInPrefix(p, [x], y);
      }
      if x !in d {
        FirstIndexOfNewValue(p, x);
        assert Distinct(s) == d + [x];
      }
    }
  }

  lemma {:induction false} NoDuplicatesCardinality<T(!new)>(r: seq<T>)
    requires NoDuplicates(r)
    ensures |Elements(r)| == |r|
  {
    if r != [] {
      var p, x := r[..|r| - 1], r[|r| - 1];
      assert r == p + [x];
      NoDuplicatesCardinality(p);
      assert x !in Elements(p);
      assert Elements(r) == Elements(p) + {x};
    }
  }

  /** `uniqueValues.length` is the number of distinct values of the column,
      which never exceeds the number of values. */
  lemma UniqueCount<T(!new)>(s: seq<T>)
    ensures |Distinct(s)| == |Elements(s)|
    ensures |Elements(s)| <= |s|
  {
    NoDuplicatesCardinality(Distinct(s));
    assert Elements(Distinct(s)) == Elements(s);
  }

  /** The most sample values a text summary shows. */
  const SampleSize: nat := 5

  /** `uniqueValues.slice(0, 5)`. */
  function Sample<T(==,!new)>(s: seq<T>): (r: seq<T>)
    ensures |r| == if |Elements(s)| < SampleSize then |Elements(s)| else SampleSize
    ensures r <= Distinct(s)
    ensures NoDuplicates(r)
  {
    UniqueCount(s);
    var d := Distinct(s);
    if |d| < SampleSize then d else d[..SampleSize]
  }
}
