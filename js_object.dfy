/**
 * A plain JavaScript object used as a dictionary with string keys: its own
 * properties in insertion order, each with its value. Assigning to a new key
 * appends it; assigning to an existing key keeps its position.
 */
module JsObject {
  import opened JsValues

  type Dict<V> = seq<(string, V)>

  /** `Object.keys(d)`. */
  function Keys<V>(d: Dict<V>): (ks: seq<string>)
    ensures |ks| == |d|
    ensures forall i :: 0 <= i < |d| ==> ks[i] == d[i].0
  {
    seq(|d|, i requires 0 <= i < |d| => d[i].0)
  }

  /** `Object.values(d)`. */
  function Values<V>(d: Dict<V>): (vs: seq<V>)
    ensures |vs| == |d|
    ensures forall i :: 0 <= i < |d| ==> vs[i] == d[i].1
  {
    seq(|d|, i requires 0 <= i < |d| => d[i].1)
  }

  /** No key occurs twice, as in any JavaScript object. */
  predicate DistinctKeys<V>(d: Dict<V>)
  {
    forall i, j :: 0 <= i < j < |d| ==> d[i].0 != d[j].0
  }

  /** `d[k]`, with `None` for `undefined`. */
  function Get<V>(d: Dict<V>, k: string): (r: Option<V>)
    ensures r.Some? <==> k in Keys(d)
  {
    if d == [] then None
    else if d[0].0 == k then Some(d[0].1)
    else Get(d[1..], k)
  }

  /** The position of key `k`, its first one. */
  function KeyIndex<V>(d: Dict<V>, k: string): (i: nat)
    requires k in Keys(d)
    ensures i < |d| && d[i].0 == k
    ensures forall j :: 0 <= j < i ==> d[j].0 != k
  {
    if d[0].0 == k then 0 else 1 + KeyIndex(d[1..], k)
  }

  /** With distinct keys, looking up the key at position `i` finds the value at `i`. */
  lemma {:induction false} GetAt<V>(d: Dict<V>, i: int)
    requires DistinctKeys(d) && 0 <= i < |d|
    ensures Get(d, d[i].0) == Some(d[i].1)
  {
    if i > 0 {
      GetAt(d[1..], i - 1);
    }
  }

  /** `d[k] = v`. */
  function Put<V>(d: Dict<V>, k: string, v: V): (r: Dict<V>)
    ensures Get(r, k) == Some(v)
  {
    if d == [] then [(k, v)]
    else if d[0].0 == k then [(k, v)] + d[1..]
    else [d[0]] + Put(d[1..], k, v)
  }

  /** Assigning to a new key appends it, after every existing key. */
  lemma {:induction false} PutNew<V>(d: Dict<V>, k: string, v: V)
    requires k !in Keys(d)
    ensures Put(d, k, v) == d + [(k, v)]
  {
    if d != [] {
      PutNew(d[1..], k, v);
    }
  }

  /** Assigning to an existing key replaces its value in place and keeps every other entry. */
  lemma {:induction false} PutExisting<V>(d: Dict<V>, k: string, v: V)
    requires DistinctKeys(d) && k in Keys(d)
    ensures |Put(d, k, v)| == |d|
    ensures forall i :: 0 <= i < |d| ==> Put(d, k, v)[i] == if d[i].0 == k then (k, v) else d[i]
  {
    if d[0].0 != k {
      PutExisting(d[1..], k, v);
    }
  }

  /** Assigning to the key at position `p0` replaces that entry alone. */
  lemma PutAt<V>(d: Dict<V>, k: string, v: V, p0: nat)
    requires DistinctKeys(d) && p0 < |d| && d[p0].0 == k
    ensures |Put(d, k, v)| == |d|
    ensures forall p :: 0 <= p < |d| ==> Put(d, k, v)[p] == if p == p0 then (k, v) else d[p]
  {
    assert Keys(d)[p0] == k;
    PutExisting(d, k, v);
  }

  /** Adding an entry at the end adds its key at the end of the keys. */
  lemma AppendKey<V>(d: Dict<V>, k: string, v: V)
    ensures Keys(d + [(k, v)]) == Keys(d) + [k]
    ensures DistinctKeys(d) && k !in Keys(d) ==> DistinctKeys(d + [(k, v)])
  {
    assert forall i :: 0 <= i < |d| ==> d[i].0 == Keys(d)[i];
  }

  /** Adding an entry at the end adds its value at the end of the values. */
  lemma AppendValue<V>(d: Dict<V>, k: string, v: V)
    ensures Values(d + [(k, v)]) == Values(d) + [v]
  {
  }

  /** Two dictionaries with the same key at every position have the same keys. */
  lemma SameKeys<V>(d: Dict<V>, e: Dict<V>)
    requires |d| == |e| && forall i :: 0 <= i < |d| ==> d[i].0 == e[i].0
    ensures Keys(d) == Keys(e)
    ensures DistinctKeys(d) ==> DistinctKeys(e)
  {
  }

  /** Assigning to a key keeps the keys distinct. */
  lemma PutDistinct<V>(d: Dict<V>, k: string, v: V)
    requires DistinctKeys(d)
    ensures DistinctKeys(Put(d, k, v))
  {
    if k in Keys(d) {
      PutExistingKeys(d, k, v);
    } else {
      PutNew(d, k, v);
      AppendKey(d, k, v);
    }
  }

  /** Assigning to an existing key keeps every key where it was. */
  lemma PutExistingKeys<V>(d: Dict<V>, k: string, v: V)
    requires DistinctKeys(d) && k in Keys(d)
    ensures Keys(Put(d, k, v)) == Keys(d)
  {
    var r := Put(d, k, v);
    PutExisting(d, k, v);
    forall i | 0 <= i < |d|
      ensures r[i].0 == d[i].0
    {
    }
    SameKeys(d, r);
  }
}
