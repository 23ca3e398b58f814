/** Ascending numeric order, as the copy of the numbers is sorted with a
    subtracting comparator.
    `SortSeq` is the reference definition; `SortInPlace` is the in-place
    sort of the copied array, proved to produce exactly `SortSeq`. */
module Sorting {

  predicate Sorted(s: seq<real>) {
    forall p, q :: 0 <= p < q < |s| ==> s[p] <= s[q]
  }

  lemma SortedCons(h: real, t: seq<real>)
    requires Sorted(t)
    requires forall i :: 0 <= i < |t| ==> h <= t[i]
    ensures Sorted([h] + t)
  {
    var r := [h] + t;
    forall p, q | 0 <= p < q < |r| ensures r[p] <= r[q] {
      assert r[q] == t[q - 1];
      if p > 0 {
        assert r[p] == t[p - 1];
      }
    }
  }

  /** Places `x` before the first element not smaller than it. */
  function Insert(x: real, s: seq<real>): (r: seq<real>)
    requires Sorted(s)
    ensures Sorted(r)
    ensures multiset(r) == multiset(s) + multiset{x}
    ensures |r| == |s| + 1
    ensures forall y :: y in r <==> y == x || y in s
  {
    if s == [] || x <= s[0] then
      SortedCons(x, s);
      [x] + s
    else
      var h, tail := s[0], s[1..];
      assert s == [h] + tail;
      assert Sorted(tail);
      var t := Insert(x, tail);
      assert forall i :: 0 <= i < |t| ==> h <= t[i] by {
        forall i | 0 <= i < |t| ensures h <= t[i] {
          assert t[i] in t;
        }
      }
      SortedCons(h, t);
      [h] + t
  }

  /** The ascending rearrangement of `s`. */
  function SortSeq(s: seq<real>): (r: seq<real>)
    ensures Sorted(r)
    ensures multiset(r) == multiset(s)
    ensures |r| == |s|
  {
    if s == [] then []
    else
      assert s == [s[0]] + s[1..];
      Insert(s[0], SortSeq(s[1..]))
  }

  /** Two sorted arrangements of one multiset start with the same value:
      its least. */
  lemma SortedHeadsAgree(a: seq<real>, b: seq<real>)
    requires Sorted(a) && Sorted(b) && a != []
    requires multiset(a) == multiset(b)
    ensures b != [] && a[0] == b[0]
  {
    assert a[0] in multiset(b);
    var i :| 0 <= i < |b| && b[i] == a[0];
    assert b[0] in multiset(a);
    var j :| 0 <= j < |a| && a[j] == b[0];
    assert b[0] <= a[0] && a[0] <= b[0];
  }

  /** A sorted arrangement of a multiset is unique: whatever order the
      values came in, sorting yields the same sequence. */
  lemma {:induction false} SortedUnique(a: seq<real>, b: seq<real>)
    requires Sorted(a) && Sorted(b)
    requires multiset(a) == multiset(b)
    ensures a == b
  {
    if a != [] {
      SortedHeadsAgree(a, b);
      assert a == [a[0]] + a[1..] && b == [b[0]] + b[1..];
      assert multiset(a[1..]) == multiset(a) - multiset{a[0]};
      assert multiset(b[1..]) == multiset(b) - multiset{b[0]};
      SortedUnique(a[1..], b[1..]);
    } else {
      assert |b| == |multiset(b)| == 0;
    }
  }

  /** Any sorted permutation of `s` is `SortSeq(s)`. */
  lemma SortSeqCharacterised(s: seq<real>, t: seq<real>)
    requires Sorted(t) && multiset(t) == multiset(s)
    ensures t == SortSeq(s)
  {
    SortedUnique(t, SortSeq(s));
  }

  /** Sorting in place by insertion; the array afterwards holds the
      ascending rearrangement of what it held before. */
  method SortInPlace(a: array<real>)
    modifies a
    ensures a[..] == SortSeq(old(a[..]))
  {
    for i := 0 to a.Length
      invariant forall p, q :: 0 <= p < q < i ==> a[p] <= a[q]
      invariant multiset(a[..]) == multiset(old(a[..]))
    {
      SinkLast(a, i);
    }
    SortSeqCharacterised(old(a[..]), a[..]);
  }

  /** One pass of insertion sort: swaps `a[i]` down into the sorted prefix
      `a[..i]`, leaving `a[..i + 1]` sorted. */
  method SinkLast(a: array<real>, i: nat)
    requires i < a.Length
    requires forall p, q :: 0 <= p < q < i ==> a[p] <= a[q]
    modifies a
    ensures forall p, q :: 0 <= p < q <= i ==> a[p] <= a[q]
    ensures multiset(a[..]) == multiset(old(a[..]))
    ensures forall k :: i < k < a.Length ==> a[k] == old(a[k])
  {
    var j := i;
    while j > 0 && a[j - 1] > a[j]
      invariant 0 <= j <= i
      invariant forall p, q :: 0 <= p < q <= i && p != j && q != j ==> a[p] <= a[q]
      invariant forall q :: j < q <= i ==> a[j] < a[q]
      invariant multiset(a[..]) == multiset(old(a[..]))
      invariant forall k :: i < k < a.Length ==> a[k] == old(a[k])
    {
      ghost var before := a[..];
      a[j - 1], a[j] := a[j], a[j - 1];
      assert a[..] == before[j - 1 := before[j]][j := before[j - 1]];
      j := j - 1;
    }
  }
}
