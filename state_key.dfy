/** The canonical state key of a feature dictionary (`PolicyAgent._state_to_key`):
    the entries ordered by key name, float values rounded to four decimals. */
module StateKeys {
  import opened Dicts

  /** Python's `<` on `str`: lexicographic by code point, a proper prefix first. */
  predicate StrLt(a: string, b: string)
  {
    if |a| == 0 then |b| > 0
    else if |b| == 0 then false
    else if a[0] != b[0] then a[0] < b[0]
    else StrLt(a[1..], b[1..])
  }

  lemma StrLtIrreflexive(a: string)
    ensures !StrLt(a, a)
  {
  }

  lemma {:induction false} StrLtTransitive(a: string, b: string, c: string)
    requires StrLt(a, b) && StrLt(b, c)
    ensures StrLt(a, c)
  {
    if |a| > 0 && |b| > 0 && |c| > 0 && a[0] == b[0] && b[0] == c[0] {
      StrLtTransitive(a[1..], b[1..], c[1..]);
    }
  }

  lemma {:induction false} StrLtTotal(a: string, b: string)
    requires a != b
    ensures StrLt(a, b) || StrLt(b, a)
  {
    if |a| > 0 && |b| > 0 && a[0] == b[0] {
      assert a == [a[0]] + a[1..] && b == [b[0]] + b[1..];
      StrLtTotal(a[1..], b[1..]);
    }
  }

  /** `round(x, 4)` taken as round-half-up at four decimals. */
  function Round4(x: real): real
  {
    ((x * 10000.0 + 0.5).Floor as real) / 10000.0
  }

  /** Rounding moves a value by at most half a unit of the fourth decimal. */
  lemma Round4Close(x: real)
    ensures Round4(x) - 0.00005 <= x < Round4(x) + 0.00005
  {
  }

  /** A rounded value is its own rounding, so rounding twice changes nothing. */
  lemma Round4Idempotent(x: real)
    ensures Round4(Round4(x)) == Round4(x)
  {
    var n := (x * 10000.0 + 0.5).Floor;
    assert Round4(x) * 10000.0 + 0.5 == n as real + 0.5;
    assert (n as real + 0.5).Floor == n;
  }

  /** Only `float` values are rounded (`isinstance(value, float)`). */
  function RoundValue(v: Num): Num
  {
    match v
    case IntV(_) => v
    case FloatV(r) => FloatV(Round4(r))
  }

  function RoundEntry(e: (string, Num)): (string, Num)
  {
    (e.0, RoundValue(e.1))
  }

  /** Every value rounded, keys and order kept. */
  function RoundEntries(d: FeatureDict): (r: FeatureDict)
    ensures |r| == |d| && forall i :: 0 <= i < |d| ==> r[i] == RoundEntry(d[i])
  {
    if |d| == 0 then [] else [RoundEntry(d[0])] + RoundEntries(d[1..])
  }

  /** Strictly increasing key names. */
  ghost predicate SortedByKey(d: FeatureDict)
  {
    forall i, j :: 0 <= i < j < |d| ==> StrLt(d[i].0, d[j].0)
  }

  function InsertByKey(e: (string, Num), d: FeatureDict): FeatureDict
  {
    if |d| == 0 then [e]
    else if StrLt(e.0, d[0].0) then [e] + d
    else [d[0]] + InsertByKey(e, d[1..])
  }

  /** The entries in `sorted(state.keys())` order. */
  function SortByKey(d: FeatureDict): FeatureDict
  {
    if |d| == 0 then [] else InsertByKey(d[0], SortByKey(d[1..]))
  }

  type StateKey = FeatureDict

  /** The key `_state_to_key` builds for a feature dictionary. */
  function KeyOf(state: FeatureDict): StateKey
  {
    RoundEntries(SortByKey(state))
  }

  /** `_state_to_key`: walk the sorted keys, appending each (key, rounded value). */
  method StateToKey(state: FeatureDict) returns (key: StateKey)
    ensures key == KeyOf(state)
  {
    var sorted := SortByKey(state);
    key := [];
    var i := 0;
    while i < |sorted|
      invariant 0 <= i <= |sorted|
      invariant |key| == i
      invariant forall j :: 0 <= j < i ==> key[j] == RoundEntry(sorted[j])
    {
      var name := sorted[i].0;
      var value := sorted[i].1;
      key := key + [(name, RoundValue(value))];
      i := i + 1;
    }
  }

  lemma {:induction false} InsertByKeyContents(e: (string, Num), d: FeatureDict)
    ensures multiset(InsertByKey(e, d)) == multiset(d) + multiset{e}
  {
    if |d| > 0 && !StrLt(e.0, d[0].0) {
      InsertByKeyContents(e, d[1..]);
      assert d == [d[0]] + d[1..];
    }
  }

  lemma {:induction false} InsertByKeySorted(e: (string, Num), d: FeatureDict)
    requires SortedByKey(d)
    requires forall i :: 0 <= i < |d| ==> d[i].0 != e.0
    ensures SortedByKey(InsertByKey(e, d))
  {
    if |d| > 0 && !StrLt(e.0, d[0].0) {
      StrLtTotal(e.0, d[0].0);
      var rest := InsertByKey(e, d[1..]);
      InsertByKeySorted(e, d[1..]);
      InsertByKeyContents(e, d[1..]);
      forall j | 0 <= j < |rest| ensures StrLt(d[0].0, rest[j].0) {
        assert rest[j] in multiset(d[1..]) + multiset{e};
        if rest[j] != e {
          assert rest[j] in d[1..];
        }
      }
    } else if |d| > 0 {
      forall j | 0 < j < |d| ensures StrLt(e.0, d[j].0) {
        StrLtTransitive(e.0, d[0].0, d[j].0);
      }
    }
  }

  /** The sort yields the same entries, in strictly increasing key order. */
  lemma {:induction false} SortByKeyCorrect(d: FeatureDict)
    requires DistinctKeys(d)
    ensures SortedByKey(SortByKey(d))
    ensures multiset(SortByKey(d)) == multiset(d)
  {
    if |d| > 0 {
      var rest := SortByKey(d[1..]);
      SortByKeyCorrect(d[1..]);
      forall i | 0 <= i < |rest| ensures rest[i].0 != d[0].0 {
        assert rest[i] in multiset(d[1..]);
        var j :| 0 <= j < |d[1..]| && d[1..][j] == rest[i];
        assert d[j + 1] == rest[i];
      }
      InsertByKeySorted(d[0], rest);
      InsertByKeyContents(d[0], rest);
      assert d == [d[0]] + d[1..];
    }
  }

  lemma HeadIsLeast(a: FeatureDict, x: (string, Num))
    requires SortedByKey(a) && x in a && x != a[0]
    ensures StrLt(a[0].0, x.0)
  {
    var k :| 0 <= k < |a| && a[k] == x;
  }

  lemma TailContents(a: FeatureDict)
    requires |a| > 0
    ensures multiset(a[1..]) == multiset(a) - multiset{a[0]}
  {
    assert a == [a[0]] + a[1..];
  }

  /** Two key-sorted sequences holding the same entries are the same sequence. */
  lemma {:induction false} SortedUnique(a: FeatureDict, b: FeatureDict)
    requires SortedByKey(a) && SortedByKey(b)
    requires multiset(a) == multiset(b)
    ensures a == b
  {
    if |a| == 0 {
      assert |multiset(b)| == 0;
    } else {
      assert |b| == |a| by { assert |multiset(a)| == |multiset(b)|; }
      assert a[0] in multiset(b) && b[0] in multiset(a);
      if a[0] != b[0] {
        HeadIsLeast(a, b[0]);
        HeadIsLeast(b, a[0]);
        StrLtTransitive(a[0].0, b[0].0, a[0].0);
        StrLtIrreflexive(a[0].0);
        assert false;
      }
      TailContents(a);
      TailContents(b);
      SortedUnique(a[1..], b[1..]);
      assert a == [a[0]] + a[1..] && b == [b[0]] + b[1..];
    }
  }

  lemma {:induction false} InsertRounded(e: (string, Num), d: FeatureDict)
    ensures RoundEntries(InsertByKey(e, d)) == InsertByKey(RoundEntry(e), RoundEntries(d))
  {
    if |d| > 0 && !StrLt(e.0, d[0].0) {
      InsertRounded(e, d[1..]);
      assert RoundEntries(d)[1..] == RoundEntries(d[1..]);
    }
  }

  lemma {:induction false} SortRounded(d: FeatureDict)
    ensures RoundEntries(SortByKey(d)) == SortByKey(RoundEntries(d))
  {
    if |d| > 0 {
      SortRounded(d[1..]);
      InsertRounded(d[0], SortByKey(d[1..]));
      assert RoundEntries(d)[1..] == RoundEntries(d[1..]);
    }
  }

  /** The key lists exactly the rounded entries of the dictionary, sorted by name. */
  lemma KeyOfSortedRounded(state: FeatureDict)
    requires DistinctKeys(state)
    ensures SortedByKey(KeyOf(state))
    ensures multiset(KeyOf(state)) == multiset(RoundEntries(state))
  {
    SortRounded(state);
    SortByKeyCorrect(RoundEntries(state));
  }

  /** Two dictionaries whose rounded entries agree, whatever order they were
      inserted in, get the same key. */
  lemma KeyOfOrderIndependent(s1: FeatureDict, s2: FeatureDict)
    requires DistinctKeys(s1) && DistinctKeys(s2)
    requires multiset(RoundEntries(s1)) == multiset(RoundEntries(s2))
    ensures KeyOf(s1) == KeyOf(s2)
  {
    KeyOfSortedRounded(s1);
    KeyOfSortedRounded(s2);
    SortedUnique(KeyOf(s1), KeyOf(s2));
  }
}
