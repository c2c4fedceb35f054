/** Python dicts with their insertion order. */
module Dicts {
  import opened SortedKeys
  import opened Wrappers

  /** A dict with its entries in insertion order. */
  type Dict<V> = seq<(string, V)>

  function Keys<V>(d: Dict<V>): seq<string> {
    if d == [] then [] else [d[0].0] + Keys(d[1..])
  }

  ghost predicate IsDict<V>(d: Dict<V>) {
    Distinct(Keys(d))
  }

  function Get<V>(d: Dict<V>, key: string): Option<V> {
    if d == [] then None else if d[0].0 == key then Some(d[0].1) else Get(d[1..], key)
  }

  /** `d[key] = value`. */
  function Put<V>(d: Dict<V>, key: string, value: V): Dict<V> {
    if d == [] then [(key, value)]
    else if d[0].0 == key then [(key, value)] + d[1..]
    else [d[0]] + Put(d[1..], key, value)
  }

  lemma {:induction false} GetFindsKeys<V>(d: Dict<V>, key: string)
    ensures Get(d, key).Some? <==> key in Keys(d)
  {
    if d != [] {
      GetFindsKeys(d[1..], key);
      assert Keys(d) == [d[0].0] + Keys(d[1..]);
    }
  }

  lemma {:induction false} GetAfterPut<V>(d: Dict<V>, key: string, value: V, other: string)
    ensures Get(Put(d, key, value), other) == if other == key then Some(value) else Get(d, other)
  {
    if d != [] {
      GetAfterPut(d[1..], key, value, other);
    }
  }

  lemma {:induction false} PutIsDict<V>(d: Dict<V>, key: string, value: V)
    requires IsDict(d)
    ensures IsDict(Put(d, key, value))
    ensures forall k :: k in Keys(Put(d, key, value)) <==> k == key || k in Keys(d)
  {
    if d != [] {
      var tail := d[1..];
      assert Keys(d) == [d[0].0] + Keys(tail) && Keys(d)[1..] == Keys(tail);
      DistinctTail(Keys(d));
      if d[0].0 == key {
        assert Put(d, key, value)[1..] == tail;
      } else {
        PutIsDict(tail, key, value);
        assert Put(d, key, value)[1..] == Put(tail, key, value);
        DistinctCons(d[0].0, Keys(Put(tail, key, value)));
      }
    }
  }

  lemma {:induction false} AppendIsDict<V>(d: Dict<V>, key: string, value: V)
    ensures Keys(d + [(key, value)]) == Keys(d) + [key]
    ensures IsDict(d) && key !in Keys(d) ==> IsDict(d + [(key, value)])
    ensures forall k :: Get(d + [(key, value)], k) ==
              if Get(d, k).Some? then Get(d, k) else if k == key then Some(value) else None
  {
    if d != [] {
      assert (d + [(key, value)])[1..] == d[1..] + [(key, value)];
      AppendIsDict(d[1..], key, value);
      assert Keys(d + [(key, value)]) == [d[0].0] + Keys(d[1..] + [(key, value)]);
      assert Keys(d) == [d[0].0] + Keys(d[1..]);
    }
  }

  lemma {:induction false} KeysByIndex<V>(d: Dict<V>)
    ensures |Keys(d)| == |d| && forall i :: 0 <= i < |d| ==> Keys(d)[i] == d[i].0
  {
    if d != [] {
      KeysByIndex(d[1..]);
    }
  }

  lemma {:induction false} GetAt<V>(d: Dict<V>, i: nat)
    requires IsDict(d) && i < |d|
    ensures Get(d, d[i].0) == Some(d[i].1)
  {
    KeysByIndex(d);
    if i > 0 {
      assert Keys(d)[0] != Keys(d)[i];
      DistinctTail(Keys(d));
      assert Keys(d)[1..] == Keys(d[1..]);
      GetAt(d[1..], i - 1);
    }
  }
}
