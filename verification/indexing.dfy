/** The index maps both crates derive from a function list: walking the list
    in order and inserting `key -> position` into an `IndexMap`, so a later
    entry with the same key overwrites an earlier one. A `None` key is not
    inserted (used for the empty function name). Insertion order of the
    `IndexMap` is not modelled, only its contents. */
module Indexing {
  import opened Wrappers

  /** The map built by inserting `keys[i] -> i` for i = 0, 1, ..., skipping `None`. */
  function IndexBy<K(==,!new)>(keys: seq<Option<K>>): (m: map<K, nat>)
    ensures forall k :: k in m <==> exists i :: 0 <= i < |keys| && keys[i] == Some(k)
    ensures forall k :: k in m ==> IsLastPosition(keys, k, m[k])
    decreases |keys|
  {
    if |keys| == 0 then map[]
    else
      var front := keys[..|keys| - 1];
      var m := IndexBy(front);
      assert forall i :: 0 <= i < |front| ==> front[i] == keys[i];
      match keys[|keys| - 1]
      case None => m
      case Some(k) => m[k := |keys| - 1]
  }

  /** `i` is the last position holding `Some(k)`. */
  predicate IsLastPosition<K(==)>(keys: seq<Option<K>>, k: K, i: nat) {
    && i < |keys|
    && keys[i] == Some(k)
    && forall j :: i < j < |keys| ==> keys[j] != Some(k)
  }

  /** Inserting one more key at the end, as `from_json` does, keeps the map
      equal to the index of the longer list. */
  lemma IndexByAppend<K(!new)>(keys: seq<Option<K>>, k: Option<K>)
    ensures IndexBy(keys + [k]) ==
      match k
      case None => IndexBy(keys)
      case Some(key) => IndexBy(keys)[key := |keys|]
  {
    assert (keys + [k])[..|keys|] == keys;
  }
}
