/** A JavaScript plain object used as a dictionary: string-like keys with
    values, enumerated by `Object.keys` in insertion order. Assigning to an
    existing key keeps its position; `delete` drops it. */
module OrderedMap {
  import opened Base

  type Assoc<K, V> = seq<(K, V)>

  /** `Object.keys`: the keys in insertion order. */
  function Keys<K, V>(a: Assoc<K, V>): seq<K> {
    seq(|a|, i requires 0 <= i < |a| => a[i].0)
  }

  /** Objects never hold a key twice. */
  predicate Wf<K(==), V>(a: Assoc<K, V>) {
    Distinct(Keys(a))
  }

  /** `obj[k]`: the value under `k`, if the key is present. */
  function Get<K(==), V>(a: Assoc<K, V>, k: K): (r: Option<V>)
    ensures r.Some? <==> k in Keys(a)
  {
    var i := Find(Keys(a), k);
    if i < 0 then None else Some(a[i].1)
  }

  /** `obj[k] = v`: overwrite in place when the key exists, append otherwise. */
  function Put<K(==), V>(a: Assoc<K, V>, k: K, v: V): Assoc<K, V> {
    if k in Keys(a) then seq(|a|, i requires 0 <= i < |a| => if a[i].0 == k then (k, v) else a[i])
    else a + [(k, v)]
  }

  /** `delete obj[k]`. */
  function Remove<K(==), V>(a: Assoc<K, V>, k: K): Assoc<K, V> {
    Filter(a, (p: (K, V)) => p.0 != k)
  }

  /** On a well-formed object a lookup returns the value of the unique entry. */
  lemma GetWf<K, V>(a: Assoc<K, V>, k: K, v: V)
    requires Wf(a)
    ensures Get(a, k) == Some(v) <==> (k, v) in a
  {
    var i := Find(Keys(a), k);
    if (k, v) in a {
      var j :| 0 <= j < |a| && a[j] == (k, v);
      assert Keys(a)[j] == k;
      assert i == j;
    }
  }

  /** Writing a key: the key reads back the new value, every other key reads
      as before, the key order is kept (or extended by the new key), and keys
      stay distinct. */
  lemma PutSpec<K, V>(a: Assoc<K, V>, k: K, v: V)
    requires Wf(a)
    ensures Wf(Put(a, k, v))
    ensures Keys(Put(a, k, v)) == if k in Keys(a) then Keys(a) else Keys(a) + [k]
    ensures Get(Put(a, k, v), k) == Some(v)
    ensures forall k' :: k' != k ==> Get(Put(a, k, v), k') == Get(a, k')
    ensures forall i :: 0 <= i < |Put(a, k, v)| ==>
      (if Put(a, k, v)[i].0 == k then Put(a, k, v)[i] == (k, v) else Put(a, k, v)[i] in a)
  {
    var r := Put(a, k, v);
    forall i | 0 <= i < |r| ensures if r[i].0 == k then r[i] == (k, v) else r[i] in a {
      if i < |a| {
        assert Keys(a)[i] == a[i].0;
      }
    }
    if k in Keys(a) {
      assert Keys(r) == Keys(a);
    } else {
      assert Keys(r) == Keys(a) + [k];
    }
    assert Wf(r);
    GetWf(r, k, v);
    var j := Find(Keys(a), k);
    if j >= 0 {
      assert r[j] == (k, v);
    } else {
      assert r[|a|] == (k, v);
    }
    forall k' | k' != k ensures Get(r, k') == Get(a, k') {
      var i := Find(Keys(a), k');
      assert Find(Keys(r), k') == i || Find(Keys(r), k') == -1;
      if i >= 0 {
        assert r[i] == a[i];
      }
    }
  }

  /** Writing the same value twice is the same as writing it once. */
  lemma PutTwice<K, V>(a: Assoc<K, V>, k: K, v: V)
    requires Wf(a)
    ensures Put(Put(a, k, v), k, v) == Put(a, k, v)
  {
    PutSpec(a, k, v);
  }

  lemma KeysAppend<K, V>(a: Assoc<K, V>, b: Assoc<K, V>)
    ensures Keys(a + b) == Keys(a) + Keys(b)
  {
  }

  lemma {:induction false} KeysFilter<K, V>(a: Assoc<K, V>, k: K)
    ensures Keys(Remove(a, k)) == Filter(Keys(a), (x: K) => x != k)
  {
    if |a| > 0 {
      var ka := Keys(a);
      assert Keys(a[1..]) == ka[1..];
      KeysFilter(a[1..], k);
      var head: Assoc<K, V> := if a[0].0 != k then [a[0]] else [];
      assert Remove(a, k) == head + Remove(a[1..], k);
      KeysAppend(head, Remove(a[1..], k));
      assert Keys(head) == if ka[0] != k then [ka[0]] else [];
    }
  }

  /** Deleting a key: it is gone, the other keys keep their values and their
      relative order, and keys stay distinct. */
  lemma RemoveSpec<K, V>(a: Assoc<K, V>, k: K)
    requires Wf(a)
    ensures Wf(Remove(a, k))
    ensures Keys(Remove(a, k)) == Filter(Keys(a), (x: K) => x != k)
    ensures Get(Remove(a, k), k) == None
    ensures forall k' :: k' != k ==> Get(Remove(a, k), k') == Get(a, k')
  {
    var r := Remove(a, k);
    KeysFilter(a, k);
    FilterDistinct(Keys(a), (x: K) => x != k);
    assert k !in Keys(r);
    forall k' | k' != k ensures Get(r, k') == Get(a, k') {
      if k' in Keys(a) {
        var i := Find(Keys(a), k');
        var v := a[i].1;
        assert (k', v) in a;
        GetWf(a, k', v);
        assert (k', v) in r;
        GetWf(r, k', v);
      } else {
        assert k' !in Keys(r);
      }
    }
  }
}
