/** Python dicts as the routes build them: key/value pairs in insertion order with distinct keys. */
module PyDict {

  function Keys<K, V>(d: seq<(K, V)>): (ks: seq<K>)
    ensures |ks| == |d|
    ensures forall i :: 0 <= i < |d| ==> ks[i] == d[i].0
  {
    seq(|d|, i requires 0 <= i < |d| => d[i].0)
  }

  predicate Distinct<K(==)>(s: seq<K>)
  {
    forall i, j :: 0 <= i < j < |s| ==> s[i] != s[j]
  }

  /** `d[k] = v`: the value of an existing key is replaced where it stands, a new key goes last. */
  function Put<K(==), V>(d: seq<(K, V)>, k: K, v: V): (r: seq<(K, V)>)
    ensures Keys(r) == if k in Keys(d) then Keys(d) else Keys(d) + [k]
    ensures Distinct(Keys(d)) ==> Distinct(Keys(r))
    ensures forall i :: 0 <= i < |r| ==> r[i].1 == (if r[i].0 == k then v else d[i].1)
  {
    if k in Keys(d) then
      seq(|d|, i requires 0 <= i < |d| => if d[i].0 == k then (k, v) else d[i])
    else
      d + [(k, v)]
  }

  /** Entry `i` after `d[k] = v`: the new value under `k`, otherwise the entry `d` had there. */
  lemma PutAt<K, V>(d: seq<(K, V)>, k: K, v: V, i: int)
    requires 0 <= i < |Put(d, k, v)|
    ensures var r := Put(d, k, v); r[i].0 == k ==> r[i].1 == v
    ensures var r := Put(d, k, v); r[i].0 != k ==> i < |d| && r[i] == d[i]
  {
  }

  /** `d.setdefault(k, []).append(v)`: `v` goes at the end of the list under `k`. */
  function AppendTo<K(==), V>(d: seq<(K, seq<V>)>, k: K, v: V): (r: seq<(K, seq<V>)>)
    ensures Keys(r) == if k in Keys(d) then Keys(d) else Keys(d) + [k]
    ensures Distinct(Keys(d)) ==> Distinct(Keys(r))
    ensures forall i :: 0 <= i < |d| ==> r[i].1 == (if d[i].0 == k then d[i].1 + [v] else d[i].1)
    ensures k !in Keys(d) ==> r[|d|].1 == [v]
  {
    if k in Keys(d) then
      seq(|d|, i requires 0 <= i < |d| => if d[i].0 == k then (k, d[i].1 + [v]) else d[i])
    else
      d + [(k, [v])]
  }

  /** The distinct elements of `s` in order of first occurrence: the key order of a dict filled from `s`. */
  function Dedup<K(==, !new)>(s: seq<K>): (r: seq<K>)
    ensures Distinct(r)
    ensures forall x :: x in r <==> x in s
  {
    if |s| == 0 then []
    else
      var r := Dedup(s[..|s| - 1]);
      assert forall x :: x in s <==> x in s[..|s| - 1] || x == s[|s| - 1];
      if s[|s| - 1] in r then r else r + [s[|s| - 1]]
  }

  /** A new element joins the end of the distinct elements; a repeated one changes nothing. */
  lemma DedupSnoc<K(!new)>(s: seq<K>, x: K)
    ensures Dedup(s + [x]) == if x in Dedup(s) then Dedup(s) else Dedup(s) + [x]
  {
    assert (s + [x])[..|s|] == s;
  }

  /** Where key `k` sits in the dict. */
  function IndexOfKey<K(==), V>(d: seq<(K, V)>, k: K): (i: nat)
    requires k in Keys(d)
    ensures i < |d| && d[i].0 == k
  {
    if d[0].0 == k then 0 else 1 + IndexOfKey(d[1..], k)
  }

  /** `d[k]`. */
  function Get<K(==), V>(d: seq<(K, V)>, k: K): V
    requires k in Keys(d)
  {
    d[IndexOfKey(d, k)].1
  }

  /** With distinct keys, the entry at any index is what `d[k]` returns for its key. */
  lemma GetAt<K, V>(d: seq<(K, V)>, i: nat)
    requires Distinct(Keys(d)) && i < |d|
    ensures d[i].0 in Keys(d) && Get(d, d[i].0) == d[i].1
  {
    assert Keys(d)[i] == d[i].0;
    var j := IndexOfKey(d, d[i].0);
    assert Keys(d)[j] == Keys(d)[i];
  }
}
