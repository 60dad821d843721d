/** A JavaScript `Map` with string keys, as the program uses it: `set` on a new
    key appends that key to the iteration order, `set` on a present key replaces
    the value and keeps the key's position, and `values()` yields the values in
    that order. */
module InsertionMaps {

  predicate Distinct(s: seq<string>) {
    forall i, j :: 0 <= i < j < |s| ==> s[i] != s[j]
  }

  datatype InsertionMap<V> = InsertionMap(order: seq<string>, entries: map<string, V>) {

    /** Every key occurs exactly once in the iteration order. */
    ghost predicate Valid() {
      && Distinct(order)
      && (forall k :: k in entries <==> k in order)
    }

    /** `map.set(k, v)`. */
    function Put(k: string, v: V): (m: InsertionMap<V>)
      requires Valid()
      ensures m.Valid()
      ensures m.entries == entries[k := v]
      ensures k in entries ==> m.order == order
      ensures k !in entries ==> m.order == order + [k]
    {
      if k in entries then InsertionMap(order, entries[k := v])
      else InsertionMap(order + [k], entries[k := v])
    }

    /** `Array.from(map.values())`. */
    function Values(): (vs: seq<V>)
      requires Valid()
      ensures |vs| == |order|
      ensures forall i :: 0 <= i < |order| ==> vs[i] == entries[order[i]]
    {
      seq(|order|, i requires 0 <= i < |order| => entries[order[i]])
    }
  }

  function Empty<V>(): (m: InsertionMap<V>)
    ensures m.Valid() && m.entries == map[]
  {
    InsertionMap([], map[])
  }

  lemma {:induction false} DistinctCard(s: seq<string>)
    requires Distinct(s)
    ensures |set k | k in s| == |s|
  {
    if |s| > 0 {
      var t := s[..|s| - 1];
      DistinctCard(t);
      assert (set k | k in s) == (set k | k in t) + {s[|s| - 1]};
      assert s[|s| - 1] !in t;
    }
  }

  /** `map.size` is the length of the iteration order. */
  lemma SizeIsOrderLength<V>(m: InsertionMap<V>)
    requires m.Valid()
    ensures |m.entries| == |m.order| == |m.Values()|
  {
    DistinctCard(m.order);
    assert m.entries.Keys == set k | k in m.order;
  }
}
