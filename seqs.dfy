/** Facts about sequences shared by the whole model. */
module Seqs {

  /** No element occurs twice. */
  predicate NoDup<T(==)>(s: seq<T>) {
    forall i, j :: 0 <= i < j < |s| ==> s[i] != s[j]
  }

  /** Position of the first occurrence of `x` in `s`, or `|s|` when there is none. */
  function IndexOf<T(==)>(s: seq<T>, x: T): (i: nat)
    ensures i <= |s|
    ensures i < |s| ==> s[i] == x
    ensures forall j :: 0 <= j < i ==> s[j] != x
  {
    if s == [] then 0 else if s[0] == x then 0 else 1 + IndexOf(s[1..], x)
  }

  /** An element of `s` is found. */
  lemma {:induction false} IndexOfFound<T>(s: seq<T>, x: T)
    requires x in s
    ensures IndexOf(s, x) < |s|
  {
    if s[0] != x {
      IndexOfFound(s[1..], x);
    }
  }

  /** Appending `y` does not move the first occurrence of any other element. */
  lemma {:induction false} IndexOfAppend<T>(s: seq<T>, y: T, x: T)
    requires x != y
    ensures IndexOf(s + [y], x) == if x in s then IndexOf(s, x) else |s| + 1
  {
    if s != [] && s[0] != x {
      assert (s + [y])[1..] == s[1..] + [y];
      IndexOfAppend(s[1..], y, x);
    }
  }

  /** Appending `x` moves no first occurrence, and a new `x` is found at the end. */
  lemma {:induction false} IndexOfSnoc<T>(s: seq<T>, x: T, y: T)
    ensures y in s ==> IndexOf(s + [x], y) == IndexOf(s, y)
    ensures x !in s ==> IndexOf(s + [x], x) == |s|
  {
    if s != [] {
      assert (s + [x])[1..] == s[1..] + [x];
      IndexOfSnoc(s[1..], x, y);
    }
  }

  /** Number of occurrences of `x` in `s`, counted the way a loop over `s` counts them. */
  function Count<T(==)>(s: seq<T>, x: T): (c: nat)
    ensures c <= |s|
    ensures c > 0 <==> x in s
  {
    if s == [] then 0
    else
      assert s == s[..|s| - 1] + [s[|s| - 1]];
      Count(s[..|s| - 1], x) + (if s[|s| - 1] == x then 1 else 0)
  }

  /** Counting over `s + [x]` is counting over `s` and then looking at `x`. */
  lemma CountAppend<T>(s: seq<T>, x: T, y: T)
    ensures Count(s + [x], y) == Count(s, y) + if x == y then 1 else 0
  {
    assert (s + [x])[..|s|] == s;
  }

  /** The distinct elements of `s` in order of first appearance
      (what `Series.unique()` and the key order of a `Counter` give). */
  function Distinct<T(==,!new)>(s: seq<T>): (d: seq<T>)
    ensures NoDup(d)
    ensures forall x :: x in d <==> x in s
    ensures |d| <= |s|
  {
    if s == [] then []
    else
      assert s == s[..|s| - 1] + [s[|s| - 1]];
      var p := Distinct(s[..|s| - 1]);
      if s[|s| - 1] in p then p else p + [s[|s| - 1]]
  }

  /** The distinct elements come in order of their first occurrence in `s`. */
  lemma {:induction false} DistinctOrdered<T(!new)>(s: seq<T>)
    ensures forall i, j :: 0 <= i < j < |Distinct(s)| ==> IndexOf(s, Distinct(s)[i]) < IndexOf(s, Distinct(s)[j])
  {
    if s != [] {
      var s', x := s[..|s| - 1], s[|s| - 1];
      assert s == s' + [x];
      var p, d := Distinct(s'), Distinct(s);
      DistinctOrdered(s');
      forall i | 0 <= i < |p|
        ensures IndexOf(s, p[i]) == IndexOf(s', p[i]) < |s'|
      {
        assert p[i] in s';
        IndexOfSnoc(s', x, p[i]);
        IndexOfFound(s', p[i]);
      }
      if x !in p {
        assert d == p + [x];
        IndexOfSnoc(s', x, x);
      }
    }
  }

  /** The distinct elements of a prefix of `s` are a prefix of the distinct elements of `s`:
      first appearance fixes the order once and for all. */
  lemma {:induction false} DistinctPrefix<T(!new)>(s: seq<T>, n: nat)
    requires n <= |s|
    ensures |Distinct(s[..n])| <= |Distinct(s)|
    ensures Distinct(s[..n]) == Distinct(s)[..|Distinct(s[..n])|]
    decreases |s|
  {
    if n < |s| {
      var s' := s[..|s| - 1];
      assert s[..n] == s'[..n];
      DistinctPrefix(s', n);
    } else {
      assert s[..n] == s;
    }
  }

  /** Taking off the last element of `s` leaves every other element where it was: in the
      front exactly when in `s`, and as often. Without duplicates the last is not in the front. */
  lemma LastDiffers<T>(s: seq<T>, y: T)
    requires s != []
    ensures y in s <==> y in s[..|s| - 1] || y == s[|s| - 1]
    ensures y != s[|s| - 1] ==> Count(s, y) == Count(s[..|s| - 1], y)
    ensures NoDup(s) && y == s[|s| - 1] ==> y !in s[..|s| - 1]
  {
    assert s == s[..|s| - 1] + [s[|s| - 1]];
  }

  /** A non-empty sequence holding one value throughout has just that one distinct element. */
  lemma {:induction false} DistinctConstant<T(!new)>(s: seq<T>, v: T)
    requires s != [] && forall i :: 0 <= i < |s| ==> s[i] == v
    ensures Distinct(s) == [v]
  {
    if |s| > 1 {
      DistinctConstant(s[..|s| - 1], v);
    }
  }

  /** Python's `zip`: pairs up the elements, stopping at the shorter sequence. */
  function Zip<A, B>(a: seq<A>, b: seq<B>): seq<(A, B)> {
    seq(if |a| <= |b| then |a| else |b|, i requires 0 <= i < |a| && 0 <= i < |b| => (a[i], b[i]))
  }
}
