/** Python dictionaries as association lists that keep insertion order. */
module Dicts {
  import opened Results
  import opened Seqs

  /** A `dict`: key/value pairs in insertion order. */
  type Dict<K, V> = seq<(K, V)>

  function Keys<K, V>(d: Dict<K, V>): seq<K> {
    seq(|d|, i requires 0 <= i < |d| => d[i].0)
  }

  /** `d[k] if k in d else None`. */
  function Get<K(==), V>(d: Dict<K, V>, k: K): (r: Option<V>)
    ensures r.Some? <==> k in Keys(d)
  {
    var i := IndexOf(Keys(d), k);
    if i < |d| then Some(d[i].1) else None
  }

  /** With distinct keys, the entry at position `i` is what a lookup of its key finds. */
  lemma GetAt<K, V>(d: Dict<K, V>, i: nat)
    requires NoDup(Keys(d)) && i < |d|
    ensures Get(d, d[i].0) == Some(d[i].1)
  {
    assert Keys(d)[i] == d[i].0;
  }

  /** A dictionary with the one key `k` holds just the entry of `k`. */
  lemma Singleton<K, V>(d: Dict<K, V>, k: K, v: V)
    requires Keys(d) == [k] && Get(d, k) == Some(v)
    ensures d == [(k, v)]
  {
    assert |d| == 1 && d[0].0 == Keys(d)[0];
  }

  /** `d[k] = v`: overwrites the value of a present key where it stands, appends a new key. */
  function Put<K(==,!new), V>(d: Dict<K, V>, k: K, v: V): (r: Dict<K, V>)
    ensures Keys(r) == if k in Keys(d) then Keys(d) else Keys(d) + [k]
    ensures Get(r, k) == Some(v)
    ensures forall k' :: k' != k ==> Get(r, k') == Get(d, k')
  {
    var i := IndexOf(Keys(d), k);
    if i < |d| then
      assert Keys(d[i := (k, v)]) == Keys(d);
      d[i := (k, v)]
    else
      assert Keys(d + [(k, v)]) == Keys(d) + [k];
      forall k' | k' != k ensures Get(d + [(k, v)], k') == Get(d, k') {
        IndexOfAppend(Keys(d), k, k');
      }
      d + [(k, v)]
  }
}
