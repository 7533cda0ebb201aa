/** Plain JavaScript objects used as dictionaries. A dictionary is the list of
    its entries in `for (k in obj)` order: for the keys used here that is the
    order in which they were first assigned. */
module Dicts {
  import opened Wrappers

  datatype Entry<V> = Entry(key: string, value: V)

  type Dict<V> = seq<Entry<V>>

  function Keys<V>(d: Dict<V>): (ks: seq<string>)
    ensures |ks| == |d|
    ensures forall i :: 0 <= i < |d| ==> ks[i] == d[i].key
  {
    seq(|d|, i requires 0 <= i < |d| => d[i].key)
  }

  /** An object has each property once. */
  ghost predicate DistinctKeys<V>(d: Dict<V>)
  {
    forall i, j :: 0 <= i < j < |d| ==> d[i].key != d[j].key
  }

  /** `obj[k]`: the value stored under `k`, or `undefined`. */
  function Get<V>(d: Dict<V>, k: string): (r: Option<V>)
    ensures r.None? <==> k !in Keys(d)
    ensures r.Some? ==> exists i :: 0 <= i < |d| && d[i] == Entry(k, r.value)
  {
    if d == [] then None
    else if d[0].key == k then Some(d[0].value)
    else
      var r := Get(d[1..], k);
      assert Keys(d) == [d[0].key] + Keys(d[1..]);
      assert r.Some? ==> exists i :: 0 <= i < |d[1..]| && d[1..][i] == Entry(k, r.value);
      r
  }

  /** With distinct keys, an entry at position i is what a lookup of its key finds. */
  lemma {:induction false} GetEntry<V>(d: Dict<V>, i: int)
    requires DistinctKeys(d) && 0 <= i < |d|
    ensures Get(d, d[i].key) == Some(d[i].value)
  {
    if i > 0 {
      assert d[1..][i - 1] == d[i];
      GetEntry(d[1..], i - 1);
    }
  }

  /** Keys of a prefix stay keys once entries are appended. */
  lemma KeysGrow<V>(before: Dict<V>, after: Dict<V>, k: string)
    requires before <= after && k in Keys(before)
    ensures k in Keys(after)
  {
    var i :| 0 <= i < |before| && Keys(before)[i] == k;
    assert Keys(after)[i] == k;
  }

  /** Looking up a key that was already present gives the same answer after
      entries are appended. */
  lemma {:induction false} GetGrow<V>(before: Dict<V>, after: Dict<V>, k: string)
    requires before <= after && k in Keys(before)
    ensures Get(after, k) == Get(before, k)
  {
    assert before != [];
    if before[0].key != k {
      assert Keys(before) == [before[0].key] + Keys(before[1..]);
      GetGrow(before[1..], after[1..], k);
    }
  }

  /** Adding a new key keeps the keys distinct, and the new key finds its value. */
  lemma Appended<V>(d: Dict<V>, k: string, v: V)
    requires DistinctKeys(d) && k !in Keys(d)
    ensures DistinctKeys(d + [Entry(k, v)])
    ensures Get(d + [Entry(k, v)], k) == Some(v)
  {
    var e := d + [Entry(k, v)];
    forall i, j | 0 <= i < j < |e|
      ensures e[i].key != e[j].key
    {
      if j == |d| {
        assert Keys(d)[i] == d[i].key;
      }
    }
    GetEntry(e, |d|);
  }
}
