/**
  Python's built-in `dict` as `parse_env` uses it: a finite map that also
  remembers the order in which its keys were first inserted (the order
  `json.dumps` writes them in).
 */
module Dicts {

  /** keys lists every key once, in insertion order; entries holds the values. */
  datatype Dict<K(==, !new), V> = Dict(keys: seq<K>, entries: map<K, V>) {

    ghost predicate Valid() {
      && (forall i, j :: 0 <= i < j < |keys| ==> keys[i] != keys[j])
      && (forall k :: k in entries <==> k in keys)
    }

    /** `d[k] = v`: the value of k is replaced, or k is appended as the newest key. */
    function Put(k: K, v: V): (r: Dict<K, V>)
      requires Valid()
      ensures r.Valid()
      ensures r.entries == entries[k := v]
      ensures k in entries ==> r.keys == keys
      ensures k !in entries ==> r.keys == keys + [k]
    {
      if k in entries then Dict(keys, entries[k := v]) else Dict(keys + [k], entries[k := v])
    }
  }

  /** `{}` */
  function Empty<K(==, !new), V>(): (r: Dict<K, V>)
    ensures r.Valid() && r.keys == [] && r.entries == map[]
  {
    Dict([], map[])
  }
}
