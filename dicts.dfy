/** Feature dictionaries. A Python dict keeps its keys in insertion order, so a
    dictionary is a sequence of (key, value) pairs whose keys are distinct. */
module Dicts {
  import opened Actions

  /** A feature value: Python `int` or `float` (the state key rounds floats only). */
  datatype Num = IntV(i: int) | FloatV(r: real)
  {
    /** The value as a number, as Python compares an `int` with a `float`. */
    function AsReal(): real
    {
      match this
      case IntV(i) => i as real
      case FloatV(r) => r
    }
  }

  type FeatureDict = seq<(string, Num)>

  function Keys<V>(d: seq<(string, V)>): (ks: seq<string>)
    ensures |ks| == |d| && forall i :: 0 <= i < |d| ==> ks[i] == d[i].0
  {
    if |d| == 0 then [] else [d[0].0] + Keys(d[1..])
  }

  /** What makes a pair sequence a dictionary: no key occurs twice. */
  ghost predicate DistinctKeys<V>(d: seq<(string, V)>)
  {
    forall i, j :: 0 <= i < j < |d| ==> d[i].0 != d[j].0
  }

  /** `d[k]` when present. */
  function Get<V>(d: seq<(string, V)>, k: string): Option<V>
  {
    if |d| == 0 then None
    else if d[0].0 == k then Some(d[0].1)
    else Get(d[1..], k)
  }

  /** The lookup succeeds exactly for the keys present, with a value stored under the key. */
  lemma {:induction false} GetFound<V>(d: seq<(string, V)>, k: string)
    ensures Get(d, k).Some? <==> exists i :: 0 <= i < |d| && d[i].0 == k
    ensures Get(d, k).Some? ==> exists i :: 0 <= i < |d| && d[i] == (k, Get(d, k).value)
  {
    if |d| > 0 && d[0].0 != k {
      GetFound(d[1..], k);
      assert forall i :: 0 < i < |d| ==> d[i] == d[1..][i - 1];
      if Get(d, k).Some? {
        var j :| 0 <= j < |d[1..]| && d[1..][j] == (k, Get(d, k).value);
        assert d[j + 1] == (k, Get(d, k).value);
      }
    }
  }

  /** `d.get(k, default)`. */
  function GetOr<V>(d: seq<(string, V)>, k: string, default: V): V
  {
    match Get(d, k)
    case Some(v) => v
    case None => default
  }

  /** In a dictionary the value found for a key is the one stored with it. */
  lemma {:induction false} GetStored<V>(d: seq<(string, V)>, i: nat)
    requires DistinctKeys(d) && i < |d|
    ensures Get(d, d[i].0) == Some(d[i].1)
  {
    if i > 0 {
      assert d[0].0 != d[i].0;
      assert d[1..][i - 1] == d[i];
      GetStored(d[1..], i - 1);
    }
  }

  /** The lookup finds the first entry with the key. */
  lemma {:induction false} GetFirst<V>(d: seq<(string, V)>, i: nat)
    requires i < |d| && forall j :: 0 <= j < i ==> d[j].0 != d[i].0
    ensures Get(d, d[i].0) == Some(d[i].1)
  {
    if i > 0 {
      assert d[1..][i - 1] == d[i];
      GetFirst(d[1..], i - 1);
    }
  }

  /** `d[k] = v`: an existing key keeps its place and takes the new value, a new
      key goes at the end. */
  function Put<V>(d: seq<(string, V)>, k: string, v: V): seq<(string, V)>
  {
    if |d| == 0 then [(k, v)]
    else if d[0].0 == k then [(k, v)] + d[1..]
    else [d[0]] + Put(d[1..], k, v)
  }

  /** Assignment never reorders keys: it keeps them, or appends the new one. */
  lemma {:induction false} PutKeys<V>(d: seq<(string, V)>, k: string, v: V)
    ensures k in Keys(d) ==> Keys(Put(d, k, v)) == Keys(d)
    ensures k !in Keys(d) ==> Keys(Put(d, k, v)) == Keys(d) + [k]
  {
    if |d| > 0 && d[0].0 != k {
      PutKeys(d[1..], k, v);
      assert Keys(d) == [d[0].0] + Keys(d[1..]);
    }
  }

  /** After `d[k] = v`, `d[k]` is `v` and every other key reads as before. */
  lemma {:induction false} GetPut<V>(d: seq<(string, V)>, k: string, v: V, other: string)
    ensures Get(Put(d, k, v), k) == Some(v)
    ensures other != k ==> Get(Put(d, k, v), other) == Get(d, other)
  {
    if |d| > 0 && d[0].0 != k {
      GetPut(d[1..], k, v, other);
    }
  }
}
