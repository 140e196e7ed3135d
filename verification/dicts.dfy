/** Insertion-ordered dictionaries (Python `dict`, JavaScript plain objects)
    as association lists whose keys are pairwise distinct. */
module Dicts {
  import opened Wrappers
  import Seqs

  type Dict<K, V> = seq<(K, V)>

  function Keys<K, V>(d: Dict<K, V>): (ks: seq<K>)
    ensures |ks| == |d|
    ensures forall i :: 0 <= i < |d| ==> ks[i] == d[i].0
  {
    if |d| == 0 then [] else Keys(d[..|d| - 1]) + [d[|d| - 1].0]
  }

  predicate DistinctKeys<K(==), V>(d: Dict<K, V>) {
    Seqs.Distinct(Keys(d))
  }

  /** `d.get(k)`: the value stored under `k`, if any. */
  function Lookup<K(==), V>(d: Dict<K, V>, k: K): (r: Option<V>)
    ensures r.Some? <==> k in Keys(d)
    ensures r.Some? ==> (k, r.value) in d
  {
    if |d| == 0 then None
    else if d[|d| - 1].0 == k then Some(d[|d| - 1].1)
    else
      assert Keys(d) == Keys(d[..|d| - 1]) + [d[|d| - 1].0];
      Lookup(d[..|d| - 1], k)
  }

  /** Every entry stored under `k` rewritten to hold `v`; order kept. */
  function Replace<K(==), V>(d: Dict<K, V>, k: K, v: V): (r: Dict<K, V>)
    ensures |r| == |d| && Keys(r) == Keys(d)
    ensures forall i :: 0 <= i < |d| ==> r[i] == (if d[i].0 == k then (k, v) else d[i])
  {
    if |d| == 0 then []
    else
      var r := Replace(d[..|d| - 1], k, v) + [if d[|d| - 1].0 == k then (k, v) else d[|d| - 1]];
      assert r[..|r| - 1] == Replace(d[..|d| - 1], k, v);
      r
  }

  /** `d[k] = v`: overwrite in place when `k` is present, append otherwise. */
  function Put<K(==,!new), V>(d: Dict<K, V>, k: K, v: V): (r: Dict<K, V>)
    ensures Lookup(r, k) == Some(v)
    ensures forall k' :: k' != k ==> Lookup(r, k') == Lookup(d, k')
    ensures k !in Keys(d) ==> r == d + [(k, v)]
    ensures k in Keys(d) ==> |r| == |d| && Keys(r) == Keys(d)
    ensures DistinctKeys(d) ==> DistinctKeys(r)
  {
    if k in Keys(d) then
      var r := Replace(d, k, v);
      ReplaceLookup(d, k, v);
      r
    else
      var r := d + [(k, v)];
      assert r[..|r| - 1] == d;
      assert DistinctKeys(d) ==> DistinctKeys(r) by {
        assert Keys(r) == Keys(d) + [k];
      }
      r
  }

  lemma {:induction false} ReplaceLookup<K, V>(d: Dict<K, V>, k: K, v: V)
    requires k in Keys(d)
    ensures Lookup(Replace(d, k, v), k) == Some(v)
    ensures forall k' :: k' != k ==> Lookup(Replace(d, k, v), k') == Lookup(d, k')
  {
    var r := Replace(d, k, v);
    assert r[..|r| - 1] == Replace(d[..|d| - 1], k, v);
    if d[|d| - 1].0 != k {
      assert Keys(d) == Keys(d[..|d| - 1]) + [d[|d| - 1].0];
      ReplaceLookup(d[..|d| - 1], k, v);
    } else {
      forall k' | k' != k ensures Lookup(r, k') == Lookup(d, k') {
        ReplaceOther(d[..|d| - 1], k, v, k');
      }
    }
  }

  lemma {:induction false} ReplaceOther<K, V>(d: Dict<K, V>, k: K, v: V, k': K)
    requires k' != k
    ensures Lookup(Replace(d, k, v), k') == Lookup(d, k')
  {
    if |d| > 0 {
      var r := Replace(d, k, v);
      assert r[..|r| - 1] == Replace(d[..|d| - 1], k, v);
      ReplaceOther(d[..|d| - 1], k, v, k');
    }
  }
}
