/**
 * Python's insertion-ordered `dict` with string keys: a key order plus a map.
 * Assigning to an existing key keeps its position; a new key goes last.
 * `UpdateWith` is `dict.update`.
 */
module OrderedMaps {

  ghost predicate Distinct<T>(s: seq<T>)
  {
    forall i, j :: 0 <= i < j < |s| ==> s[i] != s[j]
  }

  /** The elements of `ks` that are not in `present`, in order. */
  function Missing(ks: seq<string>, present: set<string>): (r: seq<string>)
    ensures forall k :: k in r <==> k in ks && k !in present
    ensures |r| <= |ks|
  {
    if ks == [] then []
    else (if ks[0] in present then [] else [ks[0]]) + Missing(ks[1..], present)
  }

  datatype OrderedMap<V> = OrderedMap(keys: seq<string>, values: map<string, V>)
  {
    ghost predicate Valid()
    {
      && Distinct(keys)
      && (forall k :: k in values <==> k in keys)
    }

    /** `d[k] = v`. */
    function Put(k: string, v: V): (r: OrderedMap<V>)
      ensures Valid() ==> r.Valid()
      ensures r.values == values[k := v]
      ensures r.keys == if k in values then keys else keys + [k]
    {
      OrderedMap(if k in values then keys else keys + [k], values[k := v])
    }

    /** `d.update(other)`: every key of `other` now holds `other`'s value,
        every other key is untouched, existing keys keep their positions and
        the new keys follow in `other`'s order. */
    function UpdateWith(other: OrderedMap<V>): (r: OrderedMap<V>)
      requires Valid() && other.Valid()
      ensures r.Valid()
      ensures forall k :: k in r.values <==> k in values || k in other.values
      ensures forall k :: k in other.values ==> r.values[k] == other.values[k]
      ensures forall k :: k in values && k !in other.values ==> r.values[k] == values[k]
      ensures r.keys == keys + Missing(other.keys, values.Keys)
    {
      PutAllKeys(this, other.keys, other.values);
      PutAll(this, other.keys, other.values)
    }
  }

  function Empty<V>(): (r: OrderedMap<V>)
    ensures r.Valid() && r.keys == [] && r.values == map[]
  {
    OrderedMap([], map[])
  }

  /** Assigns `src[k]` to each `k` of `ks` in turn. */
  function PutAll<V>(m: OrderedMap<V>, ks: seq<string>, src: map<string, V>): (r: OrderedMap<V>)
    requires m.Valid() && Distinct(ks)
    requires forall k :: k in ks ==> k in src
    ensures r.Valid()
    ensures forall k :: k in r.values <==> k in m.values || k in ks
    ensures forall k :: k in ks ==> r.values[k] == src[k]
    ensures forall k :: k in m.values && k !in ks ==> r.values[k] == m.values[k]
    decreases |ks|
  {
    if ks == [] then m
    else
      var m' := m.Put(ks[0], src[ks[0]]);
      DistinctTail(ks);
      assert ks == [ks[0]] + ks[1..];
      PutAll(m', ks[1..], src)
  }

  /** Existing keys keep their positions; the new ones follow in `ks` order. */
  lemma {:induction false} PutAllKeys<V>(m: OrderedMap<V>, ks: seq<string>, src: map<string, V>)
    requires m.Valid() && Distinct(ks)
    requires forall k :: k in ks ==> k in src
    ensures PutAll(m, ks, src).keys == m.keys + Missing(ks, m.values.Keys)
    decreases |ks|
  {
    if ks == [] {
      assert m.keys + [] == m.keys;
    } else {
      var m' := m.Put(ks[0], src[ks[0]]);
      DistinctTail(ks);
      PutAllKeys(m', ks[1..], src);
      assert m'.values.Keys == m.values.Keys + {ks[0]};
      MissingAfterPut(m.keys, m.values.Keys, ks);
    }
  }

  /** One step of `PutAll` on the key order. */
  lemma MissingAfterPut(keys: seq<string>, present: set<string>, ks: seq<string>)
    requires ks != [] && ks[0] !in ks[1..]
    ensures (if ks[0] in present then keys else keys + [ks[0]]) + Missing(ks[1..], present + {ks[0]})
         == keys + Missing(ks, present)
  {
    var rest := Missing(ks[1..], present);
    if ks[0] in present {
      assert present + {ks[0]} == present;
      assert Missing(ks, present) == rest;
    } else {
      MissingInsensitive(ks[1..], present, ks[0]);
      assert Missing(ks, present) == [ks[0]] + rest;
      assert (keys + [ks[0]]) + rest == keys + ([ks[0]] + rest);
    }
  }

  lemma DistinctTail<T>(s: seq<T>)
    requires Distinct(s) && s != []
    ensures Distinct(s[1..]) && s[0] !in s[1..]
  {
    forall j | 0 <= j < |s| - 1 ensures s[1..][j] != s[0] {
      assert s[1..][j] == s[j + 1];
    }
  }

  /** Adding to `present` a key that `ks` does not hold changes nothing. */
  lemma {:induction false} MissingInsensitive(ks: seq<string>, present: set<string>, x: string)
    requires x !in ks
    ensures Missing(ks, present + {x}) == Missing(ks, present)
  {
    if ks != [] {
      MissingInsensitive(ks[1..], present, x);
    }
  }

  /** Updating a dict with entries it already holds changes nothing. */
  lemma UpdateWithHeld<V>(m: OrderedMap<V>, other: OrderedMap<V>)
    requires m.Valid() && other.Valid()
    requires forall k :: k in other.values ==> k in m.values && other.values[k] == m.values[k]
    ensures m.UpdateWith(other) == m
  {
    UpdateWithHeldKeys(m, other);
    UpdateWithHeldValues(m, other);
  }

  lemma UpdateWithHeldKeys<V>(m: OrderedMap<V>, other: OrderedMap<V>)
    requires m.Valid() && other.Valid()
    requires forall k :: k in other.values ==> k in m.values
    ensures m.UpdateWith(other).keys == m.keys
  {
    MissingNone(other.keys, m.values.Keys);
    assert m.keys + [] == m.keys;
  }

  lemma UpdateWithHeldValues<V>(m: OrderedMap<V>, other: OrderedMap<V>)
    requires m.Valid() && other.Valid()
    requires forall k :: k in other.values ==> k in m.values && other.values[k] == m.values[k]
    ensures m.UpdateWith(other).values == m.values
  {
    var r := m.UpdateWith(other);
    assert r.values.Keys == m.values.Keys;
  }

  /** No key is missing when all of them are present. */
  lemma {:induction false} MissingNone(ks: seq<string>, present: set<string>)
    requires forall k :: k in ks ==> k in present
    ensures Missing(ks, present) == []
  {
    if ks != [] {
      MissingNone(ks[1..], present);
    }
  }
}
