/** A Python `dict` keyed by class: a map together with the order in which
    keys were first inserted. Overwriting an existing key keeps its original
    position, as CPython's dict does. */
module Dicts {
  import opened Beans

  datatype Dict<V> = Dict(entries: map<TypeId, V>, keys: seq<TypeId>) {

    /** The key sequence lists every key exactly once. */
    ghost predicate Valid() {
      && NoDup(keys)
      && (forall k :: k in entries <==> k in keys)
    }

    function Get(k: TypeId): (r: Option<V>)
      ensures r.Some? <==> k in entries
      ensures r.Some? ==> r.value == entries[k]
    {
      if k in entries then Some(entries[k]) else None
    }

    /** `d[k] = v`. */
    function Put(k: TypeId, v: V): (d: Dict<V>)
      requires Valid()
      ensures d.Valid()
      ensures d.entries == entries[k := v]
      ensures d.keys == if k in entries then keys else keys + [k]
    {
      Dict(entries[k := v], if k in entries then keys else keys + [k])
    }
  }

  /** `d.clear()`. */
  function Empty<V>(): (d: Dict<V>)
    ensures d.Valid() && d.entries == map[] && d.keys == []
  {
    Dict(map[], [])
  }

  /** Overwriting a key never reorders the dict; inserting a new one appends it. */
  lemma PutKeepsPositions<V>(d: Dict<V>, k: TypeId, v: V, i: nat)
    requires d.Valid() && i < |d.keys|
    ensures d.Put(k, v).keys[i] == d.keys[i]
    ensures k in d.entries ==> d.Put(k, v).keys == d.keys
    ensures k !in d.entries ==> d.Put(k, v).keys[|d.keys|] == k
  {
  }
}
