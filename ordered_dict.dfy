/**
 * Python's `dict` as the system uses it: entries in insertion order, each key
 * at most once. Assigning to an existing key replaces its value in place
 * (the key keeps its position); assigning to a new key appends an entry.
 */
module OrderedDict {
  import opened Wrappers

  type Dict<K, V> = seq<(K, V)>

  /** The dict invariant: no key occurs twice. */
  predicate DistinctKeys<K(==), V>(d: Dict<K, V>) {
    forall i, j :: 0 <= i < j < |d| ==> d[i].0 != d[j].0
  }

  /** `list(d.keys())`. */
  function Keys<K, V>(d: Dict<K, V>): (ks: seq<K>)
    ensures |ks| == |d|
    ensures forall i :: 0 <= i < |d| ==> ks[i] == d[i].0
  {
    if d == [] then [] else [d[0].0] + Keys(d[1..])
  }

  /** `list(d.values())`. */
  function Values<K, V>(d: Dict<K, V>): (vs: seq<V>)
    ensures |vs| == |d|
    ensures forall i :: 0 <= i < |d| ==> vs[i] == d[i].1
  {
    if d == [] then [] else [d[0].1] + Values(d[1..])
  }

  /** `d.get(k)`: the value of the first entry with key `k`, or None. */
  function Get<K(==), V>(d: Dict<K, V>, k: K): (r: Option<V>)
    ensures r.None? <==> forall i :: 0 <= i < |d| ==> d[i].0 != k
  {
    if d == [] then None
    else if d[0].0 == k then Some(d[0].1)
    else Get(d[1..], k)
  }

  /** Looking up in `[x] + rest` inspects `x` first. */
  lemma GetCons<K, V>(x: (K, V), rest: Dict<K, V>, j: K)
    ensures Get([x] + rest, j) == if x.0 == j then Some(x.1) else Get(rest, j)
  {
    assert ([x] + rest)[1..] == rest;
  }

  /** With distinct keys, looking up the key of any entry finds that entry's value. */
  lemma {:induction false} GetAt<K, V>(d: Dict<K, V>, i: nat)
    requires DistinctKeys(d) && i < |d|
    ensures Get(d, d[i].0) == Some(d[i].1)
  {
    if i > 0 {
      GetAt(d[1..], i - 1);
    }
  }

  /** Appending an entry leaves every other key's lookup as it was, and
      makes a new key map to the appended value. */
  lemma {:induction false} GetAppend<K, V>(d: Dict<K, V>, k: K, v: V, j: K)
    ensures Get(d + [(k, v)], j) == if Get(d, j).Some? then Get(d, j) else if j == k then Some(v) else None
  {
    if d != [] {
      assert (d + [(k, v)])[1..] == d[1..] + [(k, v)];
      GetAppend(d[1..], k, v, j);
    }
  }

  /** A key has no lookup exactly when it is not among the keys. */
  lemma GetNoneIffNotKey<K, V>(d: Dict<K, V>, k: K)
    ensures Get(d, k).None? <==> k !in Keys(d)
  {
    var ks := Keys(d);
    if k in ks {
      var i :| 0 <= i < |ks| && ks[i] == k;
      assert d[i].0 == k;
    }
  }

  /** Appending an entry appends its key to the keys. */
  lemma KeysAppend<K, V>(d: Dict<K, V>, k: K, v: V)
    ensures Keys(d + [(k, v)]) == Keys(d) + [k]
  {
    var e := d + [(k, v)];
    assert forall i :: 0 <= i < |e| ==> Keys(e)[i] == (Keys(d) + [k])[i];
  }

  /** `d[k] = v`. */
  function Put<K(==,!new), V>(d: Dict<K, V>, k: K, v: V): (r: Dict<K, V>)
    ensures Get(r, k) == Some(v)
    ensures forall j :: j != k ==> Get(r, j) == Get(d, j)
    ensures Get(d, k).None? ==> r == d + [(k, v)]
    ensures Get(d, k).Some? ==> Keys(r) == Keys(d)
  {
    if d == [] then [(k, v)]
    else if d[0].0 == k then [(k, v)] + d[1..]
    else
      var rest := Put(d[1..], k, v);
      assert d == [d[0]] + d[1..];
      GetCons(d[0], rest, k);
      GetCons(d[0], d[1..], k);
      assert forall j :: j != k ==> Get([d[0]] + rest, j) == Get(d, j) by {
        forall j | j != k ensures Get([d[0]] + rest, j) == Get(d, j) {
          GetCons(d[0], rest, j);
          GetCons(d[0], d[1..], j);
        }
      }
      assert Keys([d[0]] + rest) == [d[0].0] + Keys(rest) by {
        assert ([d[0]] + rest)[1..] == rest;
      }
      [d[0]] + rest
  }

  /** Assignment keeps the dict invariant. */
  lemma {:induction false} PutKeepsDistinctKeys<K(!new), V>(d: Dict<K, V>, k: K, v: V)
    requires DistinctKeys(d)
    ensures DistinctKeys(Put(d, k, v))
  {
    if d != [] && d[0].0 != k {
      var rest := Put(d[1..], k, v);
      PutKeepsDistinctKeys(d[1..], k, v);
      assert Get(d[1..], d[0].0).None?;
      assert Get(rest, d[0].0).None?;
      assert Put(d, k, v) == [d[0]] + rest;
    }
  }
}
