/** Types shared by every part of the model. */
module Common {

  datatype Option<+T> = None | Some(value: T)

  datatype Result<+T, +E> = Ok(value: T) | Err(error: E)

  type byte = bv8
  type bytes = seq<byte>

  /** The sequence `s` without the elements of `gone`, in order. */
  function Without<K(==, !new)>(s: seq<K>, gone: set<K>): (r: seq<K>)
    ensures forall k :: k in r <==> k in s && k !in gone
    ensures NoDuplicates(s) ==> NoDuplicates(r)
  {
    if s == [] then []
    else
      var rest := Without(s[1..], gone);
      assert forall k :: k in s <==> k == s[0] || k in s[1..];
      if s[0] in gone then rest else [s[0]] + rest
  }

  /** The elements of `s` that are in `chosen`, in order. */
  function Within<K(==, !new)>(s: seq<K>, chosen: set<K>): (r: seq<K>)
    ensures forall k :: k in r <==> k in s && k in chosen
    ensures NoDuplicates(s) ==> NoDuplicates(r)
  {
    if s == [] then []
    else
      var rest := Within(s[1..], chosen);
      assert forall k :: k in s <==> k == s[0] || k in s[1..];
      if s[0] in chosen then [s[0]] + rest else rest
  }

  ghost predicate NoDuplicates<K>(s: seq<K>) {
    forall i, j :: 0 <= i < j < |s| ==> s[i] != s[j]
  }

  /** An insertion-ordered dictionary: `keys` is the iteration order. Replacing
      the value of a present key keeps its position. */
  datatype Dict<K(==, !new), V> = Dict(keys: seq<K>, items: map<K, V>) {

    ghost predicate Valid() {
      NoDuplicates(keys) && forall k :: k in keys <==> k in items
    }

    function Get(k: K): Option<V> {
      if k in items then Some(items[k]) else None
    }

    function Put(k: K, v: V): (d: Dict<K, V>)
      ensures Valid() ==> d.Valid()
    {
      Dict(if k in items then keys else keys + [k], items[k := v])
    }

    function RemoveAll(gone: set<K>): (d: Dict<K, V>)
      ensures Valid() ==> d.Valid()
    {
      Dict(Without(keys, gone), items - gone)
    }

    function Remove(k: K): Dict<K, V> {
      RemoveAll({k})
    }

    function Set(k: K, v: Option<V>): Dict<K, V> {
      if v.None? then Remove(k) else Put(k, v.value)
    }
  }

  lemma WithoutNothing<K(!new)>(s: seq<K>, gone: set<K>)
    requires forall k :: k in s ==> k !in gone
    ensures Without(s, gone) == s
  {
    if s != [] {
      assert forall k :: k in s[1..] ==> k in s;
      WithoutNothing(s[1..], gone);
    }
  }

  lemma WithinNothing<K(!new)>(s: seq<K>)
    ensures Within(s, {}) == []
  {
  }

  lemma WithinSnoc<K(!new)>(s: seq<K>, k: K, chosen: set<K>)
    ensures Within(s + [k], chosen) == Within(s, chosen) + if k in chosen then [k] else []
  {
    if s != [] {
      assert (s + [k])[1..] == s[1..] + [k];
      WithinSnoc(s[1..], k, chosen);
    }
  }

  lemma WithoutTwice<K(!new)>(s: seq<K>, a: set<K>, b: set<K>)
    ensures Without(Without(s, a), b) == Without(s, a + b)
  {
    if s != [] {
      WithoutTwice(s[1..], a, b);
    }
  }

  lemma WithoutSnoc<K(!new)>(s: seq<K>, k: K, gone: set<K>)
    ensures Without(s + [k], gone) == Without(s, gone) + if k in gone then [] else [k]
  {
    if s != [] {
      assert (s + [k])[1..] == s[1..] + [k];
      WithoutSnoc(s[1..], k, gone);
    }
  }

  /** A value put and then replaced or removed leaves no trace. */
  lemma PutThenSet<K(!new), V>(d: Dict<K, V>, k: K, v: V, entry: Option<V>)
    requires d.Valid()
    ensures d.Put(k, v).Set(k, entry) == d.Set(k, entry)
  {
    if k !in d.items {
      WithoutSnoc(d.keys, k, {k});
    }
    assert d.items[k := v] - {k} == d.items - {k};
    if entry.Some? {
      assert d.items[k := v][k := entry.value] == d.items[k := entry.value];
    }
  }
}
