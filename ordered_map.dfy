/** JavaScript's `Map` as an association list in insertion order: `set` on a
    present key replaces its value in place, on a new key appends. Iteration
    order matters here because the stable sorts that rank concepts break ties
    by it. */
module OrderedMaps {
  import opened Optional

  type OrderedMap<K, V> = seq<(K, V)>

  /** `[...m.keys()]` */
  function Keys<K, V>(m: OrderedMap<K, V>): (r: seq<K>)
    ensures |r| == |m|
  {
    if m == [] then [] else [m[0].0] + Keys(m[1..])
  }

  lemma {:induction false} KeysAt<K, V>(m: OrderedMap<K, V>, i: nat)
    requires i < |m|
    ensures Keys(m)[i] == m[i].0
  {
    if i > 0 { KeysAt(m[1..], i - 1); }
  }

  /** Every key occurs once, as in a JavaScript `Map`. */
  ghost predicate DistinctKeys<K, V>(m: OrderedMap<K, V>) {
    forall i, j :: 0 <= i < j < |m| ==> m[i].0 != m[j].0
  }

  /** `m.get(k)`, `None` for `undefined`. */
  function Get<K(==), V>(m: OrderedMap<K, V>, k: K): (r: Option<V>)
    ensures r.None? <==> k !in Keys(m)
    ensures r.Some? ==> (k, r.value) in m
  {
    if m == [] then None
    else if m[0].0 == k then Some(m[0].1)
    else Get(m[1..], k)
  }

  /** `m.set(k, v)` */
  function Put<K(==), V>(m: OrderedMap<K, V>, k: K, v: V): OrderedMap<K, V> {
    if m == [] then [(k, v)]
    else if m[0].0 == k then [(k, v)] + m[1..]
    else [m[0]] + Put(m[1..], k, v)
  }

  /** After `set`, a present key keeps its position and a new key comes last. */
  lemma {:induction false} PutKeys<K, V>(m: OrderedMap<K, V>, k: K, v: V)
    ensures k in Keys(m) ==> Keys(Put(m, k, v)) == Keys(m)
    ensures k !in Keys(m) ==> Keys(Put(m, k, v)) == Keys(m) + [k]
  {
    if m != [] {
      if m[0].0 != k {
        PutKeys(m[1..], k, v);
        assert Put(m, k, v)[1..] == Put(m[1..], k, v);
      } else {
        assert Put(m, k, v)[1..] == m[1..];
      }
    }
  }

  /** After `set`, the key maps to the new value and every other key keeps
      its value. */
  lemma {:induction false} PutGet<K, V>(m: OrderedMap<K, V>, k: K, v: V)
    ensures Get(Put(m, k, v), k) == Some(v)
    ensures forall k' :: k' != k ==> Get(Put(m, k, v), k') == Get(m, k')
  {
    if m != [] && m[0].0 != k {
      PutGet(m[1..], k, v);
    }
  }

  /** `set` keeps the keys distinct. */
  lemma PutDistinct<K, V>(m: OrderedMap<K, V>, k: K, v: V)
    requires DistinctKeys(m)
    ensures DistinctKeys(Put(m, k, v))
  {
    PutKeys(m, k, v);
    var r := Put(m, k, v);
    forall i, j | 0 <= i < j < |r| ensures r[i].0 != r[j].0 {
      KeysAt(r, i);
      KeysAt(r, j);
      KeysAt(m, i);
      if j < |m| {
        KeysAt(m, j);
      }
    }
  }

  /** In a map with distinct keys, an entry is what `get` finds for its key. */
  lemma {:induction false} EntryGet<K, V>(m: OrderedMap<K, V>, e: (K, V))
    requires DistinctKeys(m) && e in m
    ensures e.0 in Keys(m) && Get(m, e.0) == Some(e.1)
  {
    if m[0] != e {
      assert DistinctKeys(m[1..]) by {
        forall i, j | 0 <= i < j < |m| - 1 ensures m[1..][i].0 != m[1..][j].0 {
          assert m[1..][i] == m[i + 1] && m[1..][j] == m[j + 1];
        }
      }
      var k :| 0 <= k < |m| && m[k] == e;
      assert m[1..][k - 1] == e;
      EntryGet(m[1..], e);
      assert m[0].0 != e.0;
    }
  }
}
