/** A dictionary that remembers the order in which its keys were first stored. */
module Dicts {

  ghost predicate NoDup<K>(s: seq<K>) {
    forall a, b :: 0 <= a < b < |s| ==> s[a] != s[b]
  }

  datatype Dict<K(==), V> = Dict(order: seq<K>, at: map<K, V>) {

    ghost predicate Valid() {
      NoDup(order) && (forall k | k in order :: k in at) && (forall k | k in at :: k in order)
    }

    /** d[k] = v: a key already there keeps its place. */
    function Set(k: K, v: V): (d: Dict<K, V>)
      ensures Valid() ==> d.Valid()
    {
      Dict(if k in at then order else order + [k], at[k := v])
    }

    /** del d[k], for a key that is there. */
    function Remove(k: K): (d: Dict<K, V>)
      ensures Valid() ==> d.Valid()
    {
      RemoveKeyProperties(order, k);
      Dict(RemoveKey(order, k), at - {k})
    }
  }

  function RemoveKey<K(==)>(s: seq<K>, k: K): seq<K> {
    if s == [] then []
    else if s[0] == k then RemoveKey(s[1..], k)
    else [s[0]] + RemoveKey(s[1..], k)
  }

  lemma RemoveKeyProperties<K>(s: seq<K>, k: K)
    ensures forall x | x in s :: x != k ==> x in RemoveKey(s, k)
    ensures forall x | x in RemoveKey(s, k) :: x in s && x != k
    ensures NoDup(s) ==> NoDup(RemoveKey(s, k))
  {
    if s != [] {
      RemoveKeyProperties(s[1..], k);
      var rest := RemoveKey(s[1..], k);
      if NoDup(s) {
        assert NoDup(s[1..]) && s[0] !in s[1..];
        assert NoDup(rest) && s[0] !in rest;
      }
    }
  }
}
