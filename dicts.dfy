/**
 * Python's built-in `dict` as the server uses it: a finite map that also
 * remembers the order in which its keys were first inserted. `values()`,
 * iteration and `max` follow that order; assigning to a key that is already
 * present changes its value but not its place.
 */
module Dicts {

  datatype Dict<K(==, !new), V> = Dict(keys: seq<K>, entries: map<K, V>)
  {
    /** Every stored key appears exactly once in the insertion order. */
    ghost predicate Valid()
    {
      && (forall i, j :: 0 <= i < j < |keys| ==> keys[i] != keys[j])
      && (forall k :: k in entries <==> k in keys)
    }

    /** `len(d)` */
    function Size(): nat
    {
      |keys|
    }

    /** `d[k] = v`: the keys already present keep their places, and at most `k` is added, at the end. */
    function Put(k: K, v: V): (d: Dict<K, V>)
      requires Valid()
      ensures d.Valid()
      ensures d.entries == entries[k := v]
      ensures |keys| <= |d.keys| <= |keys| + 1
      ensures d.keys[..|keys|] == keys
    {
      if k in entries then Dict(keys, entries[k := v]) else Dict(keys + [k], entries[k := v])
    }

    /** `d.values()`, in insertion order of the keys */
    function Values(): seq<V>
      requires Valid()
    {
      seq(|keys|, i requires 0 <= i < |keys| => entries[keys[i]])
    }
  }

  /** `{}` */
  function Empty<K(==, !new), V>(): (d: Dict<K, V>)
    ensures d.Valid() && d.Size() == 0 && d.entries == map[]
  {
    Dict([], map[])
  }

  /**
   * `d[k] = v` as `values()` sees it: a new key appends `v`; a key already
   * present has its value replaced where it stands and nothing else moves.
   */
  lemma PutKeepsPlace<K(!new), V>(d: Dict<K, V>, k: K, v: V)
    requires d.Valid()
    ensures k !in d.entries ==> d.Put(k, v).Values() == d.Values() + [v]
    ensures k in d.entries ==>
      && |d.Put(k, v).Values()| == |d.Values()|
      && forall i :: 0 <= i < |d.keys| ==> d.Put(k, v).Values()[i] == if d.keys[i] == k then v else d.Values()[i]
  {
    var d' := d.Put(k, v);
    if k !in d.entries {
      assert d'.keys == d.keys + [k];
      assert forall i :: 0 <= i < |d.keys| ==> d'.keys[i] == d.keys[i];
    }
  }

  /** `len(d)` counts distinct keys: it is the number of entries of the map. */
  lemma SizeIsEntryCount<K(!new), V>(d: Dict<K, V>)
    requires d.Valid()
    ensures d.Size() == |d.entries.Keys|
  {
    DistinctCount(d.keys, d.entries.Keys);
  }

  /** A sequence without repetitions has as many elements as the set of its elements. */
  lemma {:induction false} DistinctCount<K>(s: seq<K>, elements: set<K>)
    requires forall i, j :: 0 <= i < j < |s| ==> s[i] != s[j]
    requires forall k :: k in elements <==> k in s
    ensures |elements| == |s|
  {
    if |s| > 0 {
      var init, last := s[..|s| - 1], s[|s| - 1];
      forall k
        ensures k in elements - {last} <==> k in init
      {
        if k in init {
          var i :| 0 <= i < |init| && init[i] == k;
          assert s[i] == k;
        }
      }
      DistinctCount(init, elements - {last});
    }
  }
}
