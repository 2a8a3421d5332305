/**
  An insertion-ordered map: the container the collection keeps its records
  and its scopes in. Replacing the value of a present key keeps the key's
  position; a new key goes last; removing a key keeps the others in order.
*/
module OrderedMaps {
  import opened Wrappers
  import opened Seqs

  datatype OrderedMap<K(!new), V> = OrderedMap(keys: seq<K>, entries: map<K, V>) {

    /** The keys, in order, are exactly the keys of the entries, each once. */
    ghost predicate Valid() {
      && Distinct(keys)
      && (forall k :: k in keys ==> k in entries)
      && (forall k :: k in entries ==> k in keys)
    }

    /** The number of entries, which is also the number of ordered keys. */
    function Size(): (n: nat)
      requires Valid()
      ensures n == |entries| && n == |keys|
    {
      DistinctCardinality(keys);
      assert Elements(keys) == entries.Keys;
      |keys|
    }

    predicate Has(k: K) {
      k in entries
    }

    /** The value stored under `k`, if any. */
    function Get(k: K): (r: Option<V>)
      ensures r.Some? <==> Has(k)
      ensures r.Some? ==> r.value == entries[k]
    {
      if k in entries then Some(entries[k]) else None
    }

    /** The stored values, in key order. */
    function Values(): (vs: seq<V>)
      requires Valid()
      ensures |vs| == |keys|
      ensures forall i :: 0 <= i < |keys| ==> Get(keys[i]) == Some(vs[i])
    {
      seq(|keys|, i requires 0 <= i < |keys| => entries[keys[i]])
    }

    /** Adds `v` under `k`, or replaces the value already there. */
    function Put(k: K, v: V): (r: OrderedMap<K, V>)
      requires Valid()
      ensures r.Valid()
      ensures r.Get(k) == Some(v)
      ensures forall j :: j != k ==> r.Get(j) == Get(j)
      ensures k in entries ==> r.keys == keys
      ensures k !in entries ==> r.keys == keys + [k]
    {
      if k in entries then OrderedMap(keys, entries[k := v])
      else
        assert Distinct(keys + [k]) by {
          forall i, j | 0 <= i < j < |keys| + 1 ensures (keys + [k])[i] != (keys + [k])[j] {
            if j == |keys| { assert keys[i] in keys; }
          }
        }
        OrderedMap(keys + [k], entries[k := v])
    }

    /** Removes the entry under `k`; no effect when there is none. */
    function Delete(k: K): (r: OrderedMap<K, V>)
      requires Valid()
      ensures r.Valid()
      ensures r.Get(k) == None
      ensures forall j :: j != k ==> r.Get(j) == Get(j)
      ensures !Has(k) ==> r == this
    {
      OrderedMap(Without(keys, k), entries - {k})
    }
  }

  /** The map with no entries. */
  function Empty<K(!new), V>(): (r: OrderedMap<K, V>)
    ensures r.Valid() && r.Size() == 0
    ensures forall k :: r.Get(k) == None
  {
    OrderedMap([], map[])
  }

  /** Deletes each key of `ks` in turn. */
  function DeleteAll<K(!new), V>(m: OrderedMap<K, V>, ks: seq<K>): (r: OrderedMap<K, V>)
    requires m.Valid()
    ensures r.Valid()
    decreases |ks|
  {
    if ks == [] then m else DeleteAll(m, ks[..|ks| - 1]).Delete(ks[|ks| - 1])
  }

  /** After deleting a list of keys, none of them is present and every other entry is as it was. */
  lemma {:induction false} DeleteAllGet<K(!new), V>(m: OrderedMap<K, V>, ks: seq<K>, k: K)
    requires m.Valid()
    ensures DeleteAll(m, ks).Get(k) == if k in ks then None else m.Get(k)
    decreases |ks|
  {
    if ks != [] {
      var init := ks[..|ks| - 1];
      DeleteAllGet(m, init, k);
      assert ks == init + [ks[|ks| - 1]];
    }
  }

  /** A value is listed exactly when some key holds it. */
  lemma ValuesHold<K(!new), V>(m: OrderedMap<K, V>)
    requires m.Valid()
    ensures forall v :: v in m.Values() <==> exists k :: m.Get(k) == Some(v)
  {
  }

  /** The values stored under the keys of `ks` that are present, in the order of `ks`. */
  function GetAll<K(!new), V>(m: OrderedMap<K, V>, ks: seq<K>): (vs: seq<V>)
    ensures forall v :: v in vs ==> exists k :: k in ks && m.Get(k) == Some(v)
    ensures forall k :: k in ks && m.Has(k) ==> m.entries[k] in vs
    ensures |vs| <= |ks|
  {
    if ks == [] then []
    else
      var rest := GetAll(m, ks[1..]);
      assert forall k :: k in ks[1..] ==> k in ks;
      if m.Has(ks[0]) then
        assert ks[0] in ks && m.Get(ks[0]) == Some(m.entries[ks[0]]);
        [m.entries[ks[0]]] + rest
      else rest
  }
}
