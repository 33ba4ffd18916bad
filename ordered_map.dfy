/**
 * An insertion-ordered dictionary, as Python's `dict` behaves: a sequence of
 * key/value pairs with distinct keys, where storing under a key that is
 * already present replaces its value in place and storing under a new key
 * appends the pair at the end.
 */
module OrderedMap {
  import opened Wrappers

  type OMap<K, V> = seq<(K, V)>

  predicate HasKey<K(==), V>(m: OMap<K, V>, k: K) {
    exists i :: 0 <= i < |m| && m[i].0 == k
  }

  predicate UniqueKeys<K(==), V>(m: OMap<K, V>) {
    forall i, j :: 0 <= i < j < |m| ==> m[i].0 != m[j].0
  }

  /** The position of the first pair whose key is `k`. */
  function IndexOf<K(==), V>(m: OMap<K, V>, k: K): (i: nat)
    requires HasKey(m, k)
    ensures i < |m| && m[i].0 == k
    ensures forall j :: 0 <= j < i ==> m[j].0 != k
  {
    if m[0].0 == k then 0
    else
      assert HasKey(m[1..], k) by {
        var i :| 0 <= i < |m| && m[i].0 == k;
        assert m[1..][i - 1].0 == k;
      }
      1 + IndexOf(m[1..], k)
  }

  /** The value stored under `k`. */
  function Get<K(==), V>(m: OMap<K, V>, k: K): (r: Option<V>)
    ensures r.Some? <==> HasKey(m, k)
    ensures UniqueKeys(m) ==> forall i :: 0 <= i < |m| && m[i].0 == k ==> r == Some(m[i].1)
  {
    if HasKey(m, k) then Some(m[IndexOf(m, k)].1) else None
  }

  /** `m[k] = v`: replace the value in place when `k` is present, otherwise append the pair. */
  function Put<K(==), V>(m: OMap<K, V>, k: K, v: V): (r: OMap<K, V>)
    ensures UniqueKeys(m) ==> UniqueKeys(r)
    ensures Get(r, k) == Some(v)
    ensures HasKey(m, k) ==> |r| == |m| && forall i :: 0 <= i < |m| ==> r[i].0 == m[i].0
    ensures !HasKey(m, k) ==> r == m + [(k, v)]
  {
    if HasKey(m, k) then
      var i := IndexOf(m, k);
      var r := m[i := (k, v)];
      assert r[i].0 == k;
      assert forall j :: 0 <= j < i ==> r[j].0 == m[j].0;
      assert IndexOf(r, k) == i;
      r
    else
      var r := m + [(k, v)];
      assert r[|m|].0 == k;
      assert IndexOf(r, k) == |m|;
      r
  }

  /** Storing under `k` leaves every other key's value as it was. */
  lemma PutOther<K, V>(m: OMap<K, V>, k: K, v: V, k': K)
    requires k' != k
    ensures Get(Put(m, k, v), k') == Get(m, k')
  {
    var r := Put(m, k, v);
    if HasKey(m, k) {
      assert forall i :: 0 <= i < |m| ==> r[i].0 == m[i].0;
      assert HasKey(r, k') <==> HasKey(m, k');
      if HasKey(m, k') {
        var a, b := IndexOf(r, k'), IndexOf(m, k');
        assert a == b;
      }
    } else {
      assert HasKey(r, k') ==> HasKey(m, k') by {
        if HasKey(r, k') {
          var i :| 0 <= i < |r| && r[i].0 == k';
          assert i < |m| && m[i].0 == k';
        }
      }
      if HasKey(m, k') {
        var b := IndexOf(m, k');
        assert r[b].0 == k';
        var a := IndexOf(r, k');
        assert a == b;
      }
    }
  }

  /** After `m[k] = v` the keys are those of `m` and `k`. */
  lemma PutHasKey<K, V>(m: OMap<K, V>, k: K, v: V, k': K)
    ensures HasKey(Put(m, k, v), k') <==> HasKey(m, k') || k' == k
  {
    if k' != k {
      PutOther(m, k, v, k');
      assert Get(Put(m, k, v), k').Some? <==> Get(m, k').Some?;
    } else {
      assert Get(Put(m, k, v), k).Some?;
    }
  }

  /** The keys in insertion order. */
  function Keys<K, V>(m: OMap<K, V>): (ks: seq<K>)
    ensures |ks| == |m| && forall i :: 0 <= i < |m| ==> ks[i] == m[i].0
  {
    seq(|m|, i requires 0 <= i < |m| => m[i].0)
  }
}
