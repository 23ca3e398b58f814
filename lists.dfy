/** Sequence helpers shared by the column statistics: the `map(...).filter(...)`
    chains of App.js lines 16-17 are each one `FilterMap`. */
module Lists {

  datatype Option<T> = None | Some(value: T)

  /** Keeps, in order, the values `y` for which `f` gives `Some(y)`. */
  function FilterMap<A, B>(s: seq<A>, f: A -> Option<B>): (r: seq<B>)
    ensures |r| <= |s|
  {
    if s == [] then []
    else
      FilterMap(s[..|s| - 1], f) + match f(s[|s| - 1]) case Some(y) => [y] case None => []
  }

  /** Filtering distributes over concatenation, so the kept values appear
      in the order of the elements they came from. */
  lemma {:induction false} FilterMapAppend<A, B>(a: seq<A>, b: seq<A>, f: A -> Option<B>)
    ensures FilterMap(a + b, f) == FilterMap(a, f) + FilterMap(b, f)
    decreases |b|
  {
    if b != [] {
      var b', x := b[..|b| - 1], b[|b| - 1];
      assert (a + b)[..|a + b| - 1] == a + b';
      assert (a + b)[|a + b| - 1] == x;
      FilterMapAppend(a, b', f);
    } else {
      assert a + b == a;
    }
  }

  lemma FilterMapSingle<A, B>(x: A, f: A -> Option<B>)
    ensures FilterMap([x], f) == match f(x) case Some(y) => [y] case None => []
  {
    assert [x][..0] == [];
  }

  /** An element `y` is kept exactly when some element maps to `Some(y)`. */
  lemma {:induction false} FilterMapMembership<A, B>(s: seq<A>, f: A -> Option<B>, y: B)
    ensures y in FilterMap(s, f) <==> exists i :: 0 <= i < |s| && f(s[i]) == Some(y)
  {
    if s != [] {
      var p, x := s[..|s| - 1], s[|s| - 1];
      FilterMapMembership(p, f, y);
      var last := match f(x) case Some(z) => [z] case None => [];
      assert FilterMap(s, f) == FilterMap(p, f) + last;
      assert y in last <==> f(x) == Some(y);
      if exists i :: 0 <= i < |s| && f(s[i]) == Some(y) {
        var i :| 0 <= i < |s| && f(s[i]) == Some(y);
        if i < |p| {
          assert f(p[i]) == Some(y);
        }
      }
      if exists i :: 0 <= i < |p| && f(p[i]) == Some(y) {
        var i :| 0 <= i < |p| && f(p[i]) == Some(y);
        assert s[i] == p[i];
      }
    }
  }

  /** The positions of `s` whose element `f` keeps. */
  function KeptPositions<A, B>(s: seq<A>, f: A -> Option<B>): set<nat> {
    set i: nat | i < |s| && f(s[i]).Some?
  }

  /** The filtered sequence has one value per kept position. */
  lemma {:induction false} FilterMapLength<A, B>(s: seq<A>, f: A -> Option<B>)
    ensures |FilterMap(s, f)| == |KeptPositions(s, f)|
  {
    if s != [] {
      var p, x := s[..|s| - 1], s[|s| - 1];
      FilterMapLength(p, f);
      var kp := KeptPositions(p, f);
      assert |p| !in kp;
      if f(x).Some? {
        assert KeptPositions(s, f) == kp + {|p|};
      } else {
        assert KeptPositions(s, f) == kp;
      }
    }
  }

  /** Removing one element from the middle of the input removes its value,
      if kept, from the output's multiset. */
  lemma FilterMapWithout<A, B>(lo: seq<A>, x: A, hi: seq<A>, f: A -> Option<B>)
    ensures multiset(FilterMap(lo + [x] + hi, f)) ==
      multiset(FilterMap(lo + hi, f)) + multiset(FilterMap([x], f))
  {
    FilterMapAppend(lo + [x], hi, f);
    FilterMapAppend(lo, [x], f);
    FilterMapAppend(lo, hi, f);
  }

  /** Splitting a sequence around position `k`. */
  lemma SplitAt<A>(b: seq<A>, k: nat)
    requires k < |b|
    ensures b == b[..k] + [b[k]] + b[k + 1..]
    ensures multiset(b[..k] + b[k + 1..]) == multiset(b) - multiset{b[k]}
  {
    assert b == b[..k] + [b[k]] + b[k + 1..];
  }

  /** Rearranging the input rearranges the output: the kept values, with
      their multiplicities, do not depend on the input order. */
  lemma {:induction false} FilterMapPermutation<A, B>(a: seq<A>, b: seq<A>, f: A -> Option<B>)
    requires multiset(a) == multiset(b)
    ensures multiset(FilterMap(a, f)) == multiset(FilterMap(b, f))
    decreases |a|
  {
    if a == [] {
      assert |b| == |multiset(b)| == 0;
    } else {
      var a', x := a[..|a| - 1], a[|a| - 1];
      SplitAt(a, |a| - 1);
      assert a[|a| - 1 + 1..] == [];
      assert a == a' + [x];
      assert x in multiset(b);
      var k :| 0 <= k < |b| && b[k] == x;
      SplitAt(b, k);
      var lo, hi := b[..k], b[k + 1..];
      FilterMapPermutation(a', lo + hi, f);
      FilterMapAppend(a', [x], f);
      FilterMapWithout(lo, x, hi, f);
    }
  }
}
