/**
 * Ruby's Hash and Python's dict keep their keys in insertion order. An ordered hash is
 * modelled as a list of (key, value) entries with distinct keys; assigning to an existing
 * key replaces its value where it stands, assigning to a new key appends it.
 */
module OrderedHash {
  import opened Wrappers

  type Hash<K, V> = seq<(K, V)>

  predicate UniqueKeys<K(==), V>(h: Hash<K, V>) {
    forall i, j :: 0 <= i < j < |h| ==> h[i].0 != h[j].0
  }

  function Keys<K, V>(h: Hash<K, V>): seq<K> {
    seq(|h|, i requires 0 <= i < |h| => h[i].0)
  }

  /** `h[k]`: the value stored under k, None when k is absent. */
  function Get<K(==), V>(h: Hash<K, V>, k: K): (r: Option<V>)
    ensures r.None? <==> k !in Keys(h)
    ensures r.Some? ==> (k, r.value) in h
  {
    if h == [] then None
    else if h[0].0 == k then
      assert Keys(h)[0] == k;
      Some(h[0].1)
    else
      assert Keys(h) == [h[0].0] + Keys(h[1..]);
      Get(h[1..], k)
  }

  /** `h[k] = v`. */
  function Put<K(==), V>(h: Hash<K, V>, k: K, v: V): Hash<K, V> {
    if h == [] then [(k, v)]
    else if h[0].0 == k then [(k, v)] + h[1..]
    else [h[0]] + Put(h[1..], k, v)
  }

  /** Assigning to an existing key keeps the key order; a new key goes last. */
  lemma {:induction false} PutKeys<K, V>(h: Hash<K, V>, k: K, v: V)
    ensures k in Keys(h) ==> Keys(Put(h, k, v)) == Keys(h)
    ensures k !in Keys(h) ==> Keys(Put(h, k, v)) == Keys(h) + [k]
  {
    if h == [] {
    } else if h[0].0 == k {
      assert Keys(h) == [k] + Keys(h[1..]);
      assert Keys([(k, v)] + h[1..]) == [k] + Keys(h[1..]);
    } else {
      var rest := Put(h[1..], k, v);
      PutKeys(h[1..], k, v);
      assert Keys(h) == [h[0].0] + Keys(h[1..]);
      assert Keys([h[0]] + rest) == [h[0].0] + Keys(rest);
    }
  }

  /** Assignment keeps the keys distinct. */
  lemma PutUnique<K, V>(h: Hash<K, V>, k: K, v: V)
    requires UniqueKeys(h)
    ensures UniqueKeys(Put(h, k, v))
  {
    var r := Put(h, k, v);
    PutKeys(h, k, v);
    forall i, j | 0 <= i < j < |r|
      ensures r[i].0 != r[j].0
    {
      assert Keys(r)[i] == r[i].0 && Keys(r)[j] == r[j].0;
      if j < |h| {
        assert Keys(h)[i] == h[i].0 && Keys(h)[j] == h[j].0;
      } else {
        assert Keys(h)[i] == h[i].0;
      }
    }
  }

  /** Assigning to a new key appends the entry. */
  lemma {:induction false} PutFresh<K, V>(h: Hash<K, V>, k: K, v: V)
    requires k !in Keys(h)
    ensures Put(h, k, v) == h + [(k, v)]
  {
    if h != [] {
      assert Keys(h) == [h[0].0] + Keys(h[1..]);
      PutFresh(h[1..], k, v);
      assert h == [h[0]] + h[1..];
    }
  }

  /** Reading after `h[k] = v` gives v under k and the old value under every other key. */
  lemma {:induction false} GetPut<K, V>(h: Hash<K, V>, k: K, v: V, k': K)
    ensures Get(Put(h, k, v), k') == if k' == k then Some(v) else Get(h, k')
  {
    if h != [] && h[0].0 != k {
      GetPut(h[1..], k, v, k');
    }
  }

  /** `pairs.to_h`, `dict(pairs)`: the pairs assigned in order, so a later key overrides an earlier one. */
  function FromPairs<K(==), V>(keys: seq<K>, vals: seq<V>): Hash<K, V>
    requires |keys| == |vals|
  {
    if keys == [] then []
    else Put(FromPairs(keys[..|keys| - 1], vals[..|vals| - 1]), keys[|keys| - 1], vals[|vals| - 1])
  }

  /** Every entry of the hash built from pairs is one of the pairs. */
  lemma {:induction false} FromPairsGet<K, V>(keys: seq<K>, vals: seq<V>, k: K)
    requires |keys| == |vals|
    ensures var r := Get(FromPairs(keys, vals), k);
      r.Some? ==> exists j :: 0 <= j < |keys| && keys[j] == k && vals[j] == r.value
  {
    if keys != [] {
      var n := |keys| - 1;
      var h := FromPairs(keys[..n], vals[..n]);
      GetPut(h, keys[n], vals[n], k);
      if k != keys[n] {
        FromPairsGet(keys[..n], vals[..n], k);
        var r := Get(h, k);
        if r.Some? {
          var j :| 0 <= j < n && keys[..n][j] == k && vals[..n][j] == r.value;
          assert keys[j] == k && vals[j] == r.value;
        }
      }
    }
  }

  /** Every key of the pairs is a key of the hash built from them. */
  lemma {:induction false} FromPairsCovers<K, V>(keys: seq<K>, vals: seq<V>, j: nat)
    requires |keys| == |vals| && j < |keys|
    ensures Get(FromPairs(keys, vals), keys[j]).Some?
  {
    var n := |keys| - 1;
    var h := FromPairs(keys[..n], vals[..n]);
    GetPut(h, keys[n], vals[n], keys[j]);
    if j < n {
      assert keys[..n][j] == keys[j];
      FromPairsCovers(keys[..n], vals[..n], j);
    }
  }

  /** `h.delete(k)`. */
  function Delete<K(==,!new), V(!new)>(h: Hash<K, V>, k: K): (r: Hash<K, V>)
    ensures Get(r, k) == None
    ensures forall k' :: k' != k ==> Get(r, k') == Get(h, k')
    ensures forall p :: p in r <==> p in h && p.0 != k
    ensures |r| <= |h|
  {
    if h == [] then []
    else if h[0].0 == k then Delete(h[1..], k)
    else [h[0]] + Delete(h[1..], k)
  }
}
