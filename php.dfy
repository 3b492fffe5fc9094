/**
 * The two pieces of PHP semantics the poll code leans on: truthiness of a
 * request or cookie value, and arrays with string keys, which keep their
 * keys in insertion order.
 */
module Php {
  import opened Wrappers

  /** `if ($v)` on a value that is null or a string: null, "" and "0" are falsy. */
  predicate Truthy(v: Option<string>): (t: bool)
    ensures !t <==> v == None || v == Some("") || v == Some("0")
    ensures v.Some? && |v.value| >= 2 ==> t
  {
    v.Some? && v.value != "" && v.value != "0"
  }

  /** A PHP array with string keys, as its (key, value) pairs in insertion order. */
  type OrderedArray<V> = seq<(string, V)>

  predicate HasKey<V>(arr: OrderedArray<V>, k: string)
  {
    exists i :: 0 <= i < |arr| && arr[i].0 == k
  }

  predicate KeysUnique<V>(arr: OrderedArray<V>)
  {
    forall i, j :: 0 <= i < j < |arr| ==> arr[i].0 != arr[j].0
  }

  /** `$arr[$k]`, or None when the key is not set. */
  function Lookup<V>(arr: OrderedArray<V>, k: string): (r: Option<V>)
    ensures r.Some? <==> HasKey(arr, k)
  {
    if arr == [] then None
    else if arr[0].0 == k then Some(arr[0].1)
    else
      var r := Lookup(arr[1..], k);
      assert forall i :: 0 < i < |arr| ==> arr[i] == arr[1..][i - 1];
      assert HasKey(arr, k) ==> HasKey(arr[1..], k);
      r
  }

  /** `$arr[$k] = $v`: overwrites the value in place when `$k` is set, appends otherwise. */
  function Put<V>(arr: OrderedArray<V>, k: string, v: V): (r: OrderedArray<V>)
    ensures forall j :: Lookup(r, j) == if j == k then Some(v) else Lookup(arr, j)
    ensures KeysUnique(arr) ==> KeysUnique(r)
  {
    if arr == [] then [(k, v)]
    else if arr[0].0 == k then [(k, v)] + arr[1..]
    else
      var t := Put(arr[1..], k, v);
      var r := [arr[0]] + t;
      assert r[1..] == t;
      assert KeysUnique(arr) ==> KeysUnique(r) by {
        if KeysUnique(arr) {
          forall i | 0 < i < |r|
            ensures r[i].0 != arr[0].0
          {
            assert HasKey(t, t[i - 1].0);
            assert Lookup(t, t[i - 1].0).Some?;
            if t[i - 1].0 != k {
              var m :| 0 <= m < |arr[1..]| && arr[1..][m].0 == t[i - 1].0;
              assert arr[m + 1].0 == t[i - 1].0;
            }
          }
        }
      }
      r
  }

  /** `$counts[$k] ?? 0`. */
  function Get(counts: OrderedArray<nat>, k: string): nat
  {
    match Lookup(counts, k)
    case Some(n) => n
    case None => 0
  }

  /** `array_sum($counts)`. */
  function Sum(counts: OrderedArray<nat>): nat
  {
    if counts == [] then 0 else counts[0].1 + Sum(counts[1..])
  }

  /** Setting one key changes the sum by exactly the change in that key's value. */
  lemma {:induction false} SumPut(counts: OrderedArray<nat>, k: string, n: nat)
    ensures Sum(Put(counts, k, n)) + Get(counts, k) == Sum(counts) + n
  {
    if counts != [] && counts[0].0 != k {
      SumPut(counts[1..], k, n);
      assert Put(counts, k, n)[1..] == Put(counts[1..], k, n);
    }
  }

  /** No single count exceeds `array_sum` of the counts. */
  lemma {:induction false} GetAtMostSum(counts: OrderedArray<nat>, k: string)
    ensures Get(counts, k) <= Sum(counts)
  {
    if counts != [] && counts[0].0 != k {
      GetAtMostSum(counts[1..], k);
    }
  }
}
