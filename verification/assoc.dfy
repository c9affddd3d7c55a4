/**
 An insertion-ordered association list: the model of a PHP array.
 Writing `$a[$k] = $v` replaces the value in place when the key is present
 and appends otherwise, so the order of keys is the order of first insertion.
 */
module Assoc {
  import opened Wrappers

  function Keys<K, V>(a: seq<(K, V)>): (ks: seq<K>)
    ensures |ks| == |a|
    ensures forall i :: 0 <= i < |a| ==> ks[i] == a[i].0
  {
    if |a| == 0 then [] else [a[0].0] + Keys(a[1..])
  }

  function Values<K, V>(a: seq<(K, V)>): (vs: seq<V>)
    ensures |vs| == |a|
    ensures forall i :: 0 <= i < |a| ==> vs[i] == a[i].1
  {
    if |a| == 0 then [] else [a[0].1] + Values(a[1..])
  }

  /** PHP arrays never hold the same key twice. */
  predicate Unique<K(==), V>(a: seq<(K, V)>) {
    forall i, j :: 0 <= i < j < |a| ==> a[i].0 != a[j].0
  }

  /** `$a[$k] ?? null`: the value stored under `k`, if any. */
  function Get<K(==), V>(a: seq<(K, V)>, k: K): Option<V> {
    if |a| == 0 then None
    else if a[0].0 == k then Some(a[0].1)
    else Get(a[1..], k)
  }

  /** A lookup finds a value exactly when the key is among the array's keys. */
  lemma {:induction false} GetDefined<K, V>(a: seq<(K, V)>, k: K)
    ensures Get(a, k).Some? <==> k in Keys(a)
  {
    if |a| > 0 {
      GetDefined(a[1..], k);
      assert Keys(a) == [a[0].0] + Keys(a[1..]);
    }
  }

  /** `$a[$k] = $v`. */
  function Put<K(==,!new), V>(a: seq<(K, V)>, k: K, v: V): (r: seq<(K, V)>)
    ensures Get(r, k) == Some(v)
    ensures forall k' :: k' != k ==> Get(r, k') == Get(a, k')
    ensures Keys(r) == if k in Keys(a) then Keys(a) else Keys(a) + [k]
  {
    if |a| == 0 then [(k, v)]
    else if a[0].0 == k then [(k, v)] + a[1..]
    else
      var rest := Put(a[1..], k, v);
      assert Keys(a) == [a[0].0] + Keys(a[1..]);
      assert Keys([a[0]] + rest) == [a[0].0] + Keys(rest);
      [a[0]] + rest
  }

  /** Writing a key keeps a PHP array free of duplicate keys. */
  lemma PutUnique<K(!new), V>(a: seq<(K, V)>, k: K, v: V)
    requires Unique(a)
    ensures Unique(Put(a, k, v))
  {
    var r := Put(a, k, v);
    var ka := Keys(a);
    forall i, j | 0 <= i < j < |r|
      ensures r[i].0 != r[j].0
    {
      assert Keys(r)[i] == r[i].0 && Keys(r)[j] == r[j].0;
      if k !in ka && j == |ka| {
        assert r[i].0 == ka[i] == a[i].0;
      } else {
        assert r[i].0 == a[i].0 && r[j].0 == a[j].0;
      }
    }
  }

  /** In a PHP array, the entry at any position is what a lookup of its key returns. */
  lemma {:induction false} GetAtPosition<K, V>(a: seq<(K, V)>, i: nat)
    requires Unique(a)
    requires i < |a|
    ensures Get(a, a[i].0) == Some(a[i].1)
  {
    if i > 0 {
      assert a[0].0 != a[i].0;
      assert a[1..][i - 1] == a[i];
      GetAtPosition(a[1..], i - 1);
    }
  }

  /** `array_sum()` of an array of counts. */
  function Sum<K>(a: seq<(K, nat)>): nat {
    if |a| == 0 then 0 else a[0].1 + Sum(a[1..])
  }

  /** Overwriting one count changes the sum by exactly the difference. */
  lemma {:induction false} SumAfterPut<K(!new)>(a: seq<(K, nat)>, k: K, v: nat)
    ensures Sum(Put(a, k, v)) + Get(a, k).GetOr(0) == Sum(a) + v
  {
    if |a| > 0 && a[0].0 != k {
      SumAfterPut(a[1..], k, v);
      assert Put(a, k, v) == [a[0]] + Put(a[1..], k, v);
      assert ([a[0]] + Put(a[1..], k, v))[1..] == Put(a[1..], k, v);
    }
  }
}
