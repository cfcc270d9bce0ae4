/** `collections.Counter` and `Counter.most_common(1)[0][0]`, the majority vote of
    both rules (cervezas.py lines 50-52 and 85-86). */
module Counting {
  import opened Results
  import opened Seqs
  import opened Dicts

  /** `Counter(s)`: every distinct element of `s` with its number of occurrences, keyed in
      order of first appearance, built the way `Counter` builds it (one
      `c[x] = c.get(x, 0) + 1` per element). */
  function Tally<T(==,!new)>(s: seq<T>): (c: Dict<T, nat>)
    ensures Keys(c) == Distinct(s)
    ensures forall x :: Get(c, x) == if x in s then Some(Count(s, x)) else None
  {
    if s == [] then []
    else
      var p := Tally(s[..|s| - 1]);
      var x := s[|s| - 1];
      var v := match Get(p, x) case Some(n) => n + 1 case None => 1;
      TallyKeysStep(s, p, v);
      TallyCountStep(s, p);
      Put(p, x, v)
  }

  /** One step of `Counter`'s loop keeps the key order of first appearance ... */
  lemma TallyKeysStep<T(!new)>(s: seq<T>, p: Dict<T, nat>, v: nat)
    requires s != []
    requires Keys(p) == Distinct(s[..|s| - 1])
    ensures Keys(Put(p, s[|s| - 1], v)) == Distinct(s)
  {
    var s', x := s[..|s| - 1], s[|s| - 1];
    var d' := Distinct(s');
    assert Distinct(s) == if x in d' then d' else d' + [x];
    assert Keys(Put(p, x, v)) == if x in Keys(p) then Keys(p) else Keys(p) + [x];
  }

  /** ... and the count of every element. */
  lemma TallyCountStep<T(!new)>(s: seq<T>, p: Dict<T, nat>)
    requires s != []
    requires forall x :: Get(p, x) == if x in s[..|s| - 1] then Some(Count(s[..|s| - 1], x)) else None
    ensures var x := s[|s| - 1];
      var c := Put(p, x, match Get(p, x) case Some(n) => n + 1 case None => 1);
      forall y :: Get(c, y) == if y in s then Some(Count(s, y)) else None
  {
    var s', x := s[..|s| - 1], s[|s| - 1];
    var v := match Get(p, x) case Some(n) => n + 1 case None => 1;
    var c := Put(p, x, v);
    assert Get(p, x) == if x in s' then Some(Count(s', x)) else None;
    assert v == Count(s', x) + 1;
    assert Count(s, x) == Count(s', x) + 1;
    assert Get(c, x) == Some(v);
    assert x in s;
    forall y ensures Get(c, y) == if y in s then Some(Count(s, y)) else None {
      if y != x {
        LastDiffers(s, y);
        assert Get(c, y) == Get(p, y);
        assert Get(p, y) == if y in s' then Some(Count(s', y)) else None;
        assert Count(s, y) == Count(s', y);
      }
    }
  }

  /** Position of the first entry of largest count: `most_common(1)` takes `max` over the
      entries in their order, and `max` keeps the first of several equal maxima. */
  function FirstMax<T>(c: Dict<T, nat>): (k: nat)
    requires |c| > 0
    ensures k < |c|
    ensures forall j :: 0 <= j < |c| ==> c[j].1 <= c[k].1
    ensures forall j :: 0 <= j < k ==> c[j].1 < c[k].1
  {
    if |c| == 1 then 0
    else
      var k := FirstMax(c[..|c| - 1]);
      if c[|c| - 1].1 > c[k].1 then |c| - 1 else k
  }

  /** `c.most_common(1)[0][0]`; `None` stands for the IndexError an empty counter raises. */
  function MostCommon<T>(c: Dict<T, nat>): (r: Option<T>)
    ensures r.None? <==> c == []
    ensures r.Some? ==> r.value in Keys(c)
  {
    if c == [] then None
    else
      assert Keys(c)[FirstMax(c)] == c[FirstMax(c)].0;
      Some(c[FirstMax(c)].0)
  }

  /** `Counter(s).most_common(1)[0][0]`. */
  function Majority<T(==,!new)>(s: seq<T>): (r: Option<T>)
    ensures r.None? <==> s == []
    ensures r.Some? ==> r.value in s
  {
    var c := Tally(s);
    assert s != [] ==> s[0] in Distinct(s);
    assert c != [] ==> Keys(c)[FirstMax(c)] == c[FirstMax(c)].0;
    MostCommon(c)
  }

  /** The entries of `Counter(s)` are the distinct elements of `s`, each with its count. */
  lemma TallyEntry<T(!new)>(s: seq<T>, t: nat)
    requires t < |Tally(s)|
    ensures |Tally(s)| == |Distinct(s)|
    ensures Tally(s)[t].0 == Distinct(s)[t] && Tally(s)[t].1 == Count(s, Tally(s)[t].0)
  {
    var c := Tally(s);
    assert Keys(c)[t] == c[t].0;
    GetAt(c, t);
  }

  /** The majority is a most frequent element ... */
  lemma MajorityIsMode<T(!new)>(s: seq<T>)
    requires s != []
    ensures forall x :: Count(s, x) <= Count(s, Majority(s).value)
  {
    var c := Tally(s);
    var d := Distinct(s);
    var k := FirstMax(c);
    assert Majority(s) == Some(c[k].0);
    TallyEntry(s, k);
    forall x ensures Count(s, x) <= Count(s, c[k].0) {
      if x in s {
        var j := IndexOf(d, x);
        TallyEntry(s, j);
      }
    }
  }

  /** ... and among the elements tied with it on count it is the one that appears first: any
      element as frequent as the majority has the majority at or before its own position. */
  lemma MajorityIsFirstMode<T(!new)>(s: seq<T>)
    requires s != []
    ensures forall x :: Count(s, x) <= Count(s, Majority(s).value)
    ensures forall i :: 0 <= i < |s| && Count(s, s[i]) == Count(s, Majority(s).value) ==>
              Majority(s).value in s[..i + 1]
  {
    MajorityIsMode(s);
    forall i | 0 <= i < |s| && Count(s, s[i]) == Count(s, Majority(s).value)
      ensures Majority(s).value in s[..i + 1]
    {
      MajorityBefore(s, i);
    }
  }

  /** The majority appears no later than any element as frequent as it. */
  lemma MajorityBefore<T(!new)>(s: seq<T>, i: nat)
    requires i < |s| && Count(s, s[i]) == Count(s, Majority(s).value)
    ensures Majority(s).value in s[..i + 1]
  {
    var c := Tally(s);
    var k := FirstMax(c);
    assert Majority(s) == Some(c[k].0);
    TallyEntry(s, k);
    var j := IndexOf(Distinct(s), s[i]);
    TallyEntry(s, j);
    DistinctBefore(s, i, k);
  }

  /** An element that comes, among the distinct elements of `s`, no later than `s[i]` occurs
      in `s` at or before position `i`. */
  lemma DistinctBefore<T(!new)>(s: seq<T>, i: nat, k: nat)
    requires i < |s| && k <= IndexOf(Distinct(s), s[i])
    ensures k < |Distinct(s)| && Distinct(s)[k] in s[..i + 1]
  {
    var d, p := Distinct(s), Distinct(s[..i + 1]);
    DistinctPrefix(s, i + 1);
    assert s[..i + 1][i] == s[i];
    assert s[i] in p;
    IndexOfFound(p, s[i]);
    var j := IndexOf(p, s[i]);
    assert d[j] == s[i];
    assert IndexOf(d, s[i]) == j;
    assert p[k] == d[k];
  }
}
