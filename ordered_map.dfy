/** Python's dict as the stores use it: a map that remembers the order in which its keys were
    first inserted. Assigning to a present key keeps its place; deleting a key forgets it. */
module OrderedMaps {
  import opened Wrappers

  ghost predicate Distinct<K(!new)>(s: seq<K>)
  {
    forall i, j :: 0 <= i < j < |s| ==> s[i] != s[j]
  }

  /** `s` without the elements of `drop`, the rest in their order. */
  function Without<K(!new)>(s: seq<K>, drop: set<K>): (r: seq<K>)
    ensures forall x :: x in r <==> x in s && x !in drop
    ensures |r| <= |s|
  {
    if s == [] then [] else (if s[0] in drop then [] else [s[0]]) + Without(s[1..], drop)
  }

  lemma {:induction false} WithoutDistinct<K(!new)>(s: seq<K>, drop: set<K>)
    ensures Distinct(s) ==> Distinct(Without(s, drop))
  {
    if s != [] && Distinct(s) {
      WithoutDistinct(s[1..], drop);
      var rest := Without(s[1..], drop);
      assert s[0] !in rest by {
        assert s[0] !in s[1..];
      }
    }
  }

  lemma {:induction false} WithoutTwice<K(!new)>(s: seq<K>, a: set<K>, b: set<K>)
    ensures Without(Without(s, a), b) == Without(s, a + b)
  {
    if s != [] {
      WithoutTwice(s[1..], a, b);
      if s[0] in a {
        assert Without(s, a) == Without(s[1..], a);
      } else {
        assert Without(s, a) == [s[0]] + Without(s[1..], a);
        assert Without(s, a)[1..] == Without(s[1..], a);
      }
    }
  }

  lemma {:induction false} WithoutNothing<K(!new)>(s: seq<K>)
    ensures Without(s, {}) == s
  {
    if s != [] {
      WithoutNothing(s[1..]);
      assert s == [s[0]] + s[1..];
    }
  }

  /** `keys` lists the dict's keys in insertion order; `items` maps them to their values. */
  datatype OMap<K(==,!new), V> = OMap(keys: seq<K>, items: map<K, V>)
  {
    ghost predicate Valid()
    {
      Distinct(keys) && forall k :: k in items <==> k in keys
    }

    /** `d.get(k)`. */
    function Get(k: K): Option<V>
    {
      if k in items then Some(items[k]) else None
    }

    /** `d[k] = v`. */
    function Put(k: K, v: V): (r: OMap<K, V>)
      ensures Valid() ==> r.Valid()
      ensures r.Get(k) == Some(v)
      ensures forall k' :: k' != k ==> r.Get(k') == Get(k')
    {
      if k in items then OMap(keys, items[k := v]) else OMap(keys + [k], items[k := v])
    }

    /** Deletes every key of `drop` that the dict has. */
    function RemoveKeys(drop: set<K>): (r: OMap<K, V>)
      ensures Valid() ==> r.Valid()
      ensures forall k :: r.Get(k) == if k in drop then None else Get(k)
    {
      WithoutDistinct(keys, drop);
      OMap(Without(keys, drop), items - drop)
    }

    /** `del d[k]` (or `d.pop(k)`) on a present key. */
    function Remove(k: K): (r: OMap<K, V>)
      ensures Valid() ==> r.Valid()
      ensures r.Get(k) == None
      ensures forall k' :: k' != k ==> r.Get(k') == Get(k')
    {
      RemoveKeys({k})
    }

    /** `list(d.values())`: the values in key order. */
    function Values(): (vs: seq<V>)
      requires Valid()
      ensures |vs| == |keys|
      ensures forall i :: 0 <= i < |keys| ==> vs[i] == items[keys[i]]
    {
      seq(|keys|, i requires 0 <= i < |keys| && keys[i] in items => items[keys[i]])
    }
  }

  /** `{}`. */
  function Empty<K(==,!new), V>(): (r: OMap<K, V>)
    ensures r.Valid()
    ensures forall k :: r.Get(k) == None
  {
    OMap([], map[])
  }

  /** Inserting a new key appends its value to the dict's values. */
  lemma PutNewAppends<K(!new), V>(d: OMap<K, V>, k: K, v: V)
    requires d.Valid() && d.Get(k) == None
    ensures d.Put(k, v).Valid()
    ensures d.Put(k, v).Values() == d.Values() + [v]
  {
    var r := d.Put(k, v);
    assert r.keys == d.keys + [k];
    assert forall i :: 0 <= i < |d.keys| ==> r.Values()[i] == d.Values()[i];
  }

  /** Assigning to a present key changes that value in place and keeps the order of all others. */
  lemma PutPresentKeepsPlace<K(!new), V>(d: OMap<K, V>, i: nat, v: V)
    requires d.Valid() && i < |d.keys|
    ensures d.Put(d.keys[i], v).Valid()
    ensures d.Put(d.keys[i], v).Values() == d.Values()[i := v]
  {
    var r := d.Put(d.keys[i], v);
    assert r.keys == d.keys;
    forall j | 0 <= j < |d.keys|
      ensures r.Values()[j] == d.Values()[i := v][j]
    {
      if j != i {
        assert d.keys[j] != d.keys[i];
      }
    }
  }

  /** Deleting no key changes nothing. */
  lemma RemoveNoKeys<K(!new), V>(d: OMap<K, V>)
    ensures d.RemoveKeys({}) == d
  {
    WithoutNothing(d.keys);
    assert d.items - {} == d.items;
  }

  /** Deleting keys one batch after another deletes their union. */
  lemma {:induction false} RemoveKeysTwice<K(!new), V>(d: OMap<K, V>, a: set<K>, b: set<K>)
    ensures d.RemoveKeys(a).RemoveKeys(b) == d.RemoveKeys(a + b)
  {
    WithoutTwice(d.keys, a, b);
    assert d.items - a - b == d.items - (a + b);
  }
}
