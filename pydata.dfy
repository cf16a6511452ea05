/**
 * The Python values the dependency controller passes around: attribute
 * values, package records (`dict` from attribute name to value) and
 * insertion-ordered dictionaries keyed by package name.
 */
module PyData {

  /** A value stored under a record key: a `str`, `None`, a list of `str`, or a `bool`. */
  datatype Value = Text(text: string) | NoneValue | TextList(items: seq<string>) | Flag(on: bool)

  /** A package record or a graph node's attribute dictionary. */
  type Record = map<string, Value>

  /** Python truthiness of a value. */
  predicate Truthy(v: Value)
  {
    match v
    case Text(t) => t != []
    case NoneValue => false
    case TextList(items) => items != []
    case Flag(on) => on
  }

  /** No key occurs twice: each key is absent from the keys before it. */
  predicate Distinct(keys: seq<string>)
  {
    keys == [] || (Distinct(keys[..|keys| - 1]) && keys[|keys| - 1] !in keys[..|keys| - 1])
  }

  lemma {:induction false} DistinctPrefix(keys: seq<string>, n: nat)
    requires Distinct(keys) && n <= |keys|
    ensures Distinct(keys[..n])
    decreases |keys|
  {
    if n < |keys| {
      DistinctPrefix(keys[..|keys| - 1], n);
      assert keys[..|keys| - 1][..n] == keys[..n];
    } else {
      assert keys[..n] == keys;
    }
  }

  /** In a sequence without repeats, the key at position `n - 1` is not among those before it. */
  lemma FreshAt(keys: seq<string>, n: nat)
    requires Distinct(keys) && 0 < n <= |keys|
    ensures keys[n - 1] !in keys[..n - 1]
  {
    DistinctPrefix(keys, n);
    var prefix := keys[..n];
    assert prefix[..|prefix| - 1] == keys[..n - 1];
  }

  /** A `dict` keyed by strings, with the insertion order its iteration follows. */
  datatype DictRep<V> = DictRep(keys: seq<string>, entries: map<string, V>)
  {
    predicate Valid()
    {
      && Distinct(keys)
      && entries.Keys == set k | k in keys
    }
  }

  type Dict<V> = d: DictRep<V> | d.Valid() witness DictRep([], map[])

  function EmptyDict<V>(): (d: Dict<V>)
    ensures d.keys == [] && d.entries == map[]
  {
    DictRep([], map[])
  }

  /** `d[k] = v`: a new key goes to the end of the order, an existing key keeps its place. */
  function Put<V>(d: Dict<V>, k: string, v: V): (r: Dict<V>)
    ensures r.entries == d.entries[k := v]
    ensures k in d.keys ==> r.keys == d.keys
    ensures k !in d.keys ==> r.keys == d.keys + [k]
  {
    if k in d.keys then DictRep(d.keys, d.entries[k := v])
    else
      assert (d.keys + [k])[..|d.keys|] == d.keys;
      DictRep(d.keys + [k], d.entries[k := v])
  }

  /** A key missing from the order is missing from the dictionary, so `d[k] = v` appends it. */
  lemma AppendFresh<V>(d: Dict<V>, k: string, v: V)
    requires k !in d.keys
    ensures Put(d, k, v).keys == d.keys + [k]
  {
  }
}
