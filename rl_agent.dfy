/** The epsilon-greedy contextual bandit (`PolicyAgent` in rl_agent.py): a Q-table
    keyed by (state key, action), exploration and exploitation counters, the
    incremental update rule, and in-memory checkpoints. */
module PolicyAgents {
  import opened Actions
  import opened Dicts
  import opened StateKeys

  type QKey = (StateKey, Action)
  type QTable = map<QKey, real>

  /** `q_table[(key, a)]` read through the defaultdict's factory. */
  function Lookup(table: QTable, defaultQ: real, key: StateKey, a: Action): real
  {
    if (key, a) in table then table[(key, a)] else defaultQ
  }

  /** The table after a defaultdict read of all six actions of `key`: the
      missing entries now exist and hold the default. */
  function Materialized(table: QTable, defaultQ: real, key: StateKey): (r: QTable)
    ensures r.Keys == table.Keys + set a | a in AllActions :: (key, a)
    ensures forall k :: k in table ==> r[k] == table[k]
    ensures forall a :: (key, a) in r && ((key, a) !in table ==> r[(key, a)] == defaultQ)
  {
    assert forall a :: a in AllActions by {
      forall a ensures a in AllActions {
        AllActionsComplete(a);
      }
    }
    map k | k in table.Keys + (set a | a in AllActions :: (key, a)) :: if k in table then table[k] else defaultQ
  }

  /** `q_table[(key, a)]` on the defaultdict: a missing entry is stored with
      the default. */
  function Touched(table: QTable, defaultQ: real, key: StateKey, a: Action): QTable
  {
    if (key, a) in table then table else table[(key, a) := defaultQ]
  }

  /** The table once the `q_values` loop has read the first `n` actions of
      `key` through the defaultdict. */
  function MaterializedPrefix(table: QTable, defaultQ: real, key: StateKey, n: nat): QTable
    requires n <= |AllActions|
  {
    if n == 0 then table
    else Touched(MaterializedPrefix(table, defaultQ, key, n - 1), defaultQ, key, AllActions[n - 1])
  }

  /** Reads through the defaultdict never change what a lookup returns. */
  lemma {:induction false} PrefixLookup(table: QTable, defaultQ: real, key: StateKey, n: nat, k: StateKey, b: Action)
    requires n <= |AllActions|
    ensures Lookup(MaterializedPrefix(table, defaultQ, key, n), defaultQ, k, b) == Lookup(table, defaultQ, k, b)
  {
    if n > 0 {
      PrefixLookup(table, defaultQ, key, n - 1, k, b);
    }
  }

  /** The keys after reading `n` actions: the old ones and the first `n` of `key`'s row. */
  lemma {:induction false} PrefixKeys(table: QTable, defaultQ: real, key: StateKey, n: nat)
    requires n <= |AllActions|
    ensures forall k :: k in MaterializedPrefix(table, defaultQ, key, n) <==> k in table || (k.0 == key && k.1 in AllActions[..n])
  {
    if n > 0 {
      PrefixKeys(table, defaultQ, key, n - 1);
      assert AllActions[..n] == AllActions[..n - 1] + [AllActions[n - 1]];
    }
  }

  /** Reading all six actions materialises the whole row. */
  lemma MaterializedPrefixAll(table: QTable, defaultQ: real, key: StateKey)
    ensures MaterializedPrefix(table, defaultQ, key, |AllActions|) == Materialized(table, defaultQ, key)
  {
    var r, m := MaterializedPrefix(table, defaultQ, key, |AllActions|), Materialized(table, defaultQ, key);
    PrefixKeys(table, defaultQ, key, |AllActions|);
    assert AllActions[..|AllActions|] == AllActions;
    assert r.Keys == m.Keys;
    forall k | k in r
      ensures r[k] == m[k]
    {
      PrefixLookup(table, defaultQ, key, |AllActions|, k.0, k.1);
    }
  }

  /** Materialising entries never changes what a lookup returns. */
  lemma MaterializedLookups(table: QTable, defaultQ: real, key: StateKey)
    ensures forall k, a :: Lookup(Materialized(table, defaultQ, key), defaultQ, k, a) == Lookup(table, defaultQ, k, a)
  {
  }

  /** The six values of a state, in enum order (`q_values.values()`). */
  function QRow(table: QTable, defaultQ: real, key: StateKey): (row: seq<real>)
    ensures |row| == |AllActions|
    ensures forall i :: 0 <= i < |AllActions| ==> row[i] == Lookup(table, defaultQ, key, AllActions[i])
  {
    seq(|AllActions|, i requires 0 <= i < |AllActions| => Lookup(table, defaultQ, key, AllActions[i]))
  }

  /** `max(values)`. */
  function Max(s: seq<real>): (m: real)
    requires |s| > 0
    ensures m in s && forall i :: 0 <= i < |s| ==> s[i] <= m
  {
    if |s| == 1 then s[0]
    else
      var rest := Max(s[1..]);
      assert forall i :: 1 <= i < |s| ==> s[i] == s[1..][i - 1];
      if s[0] >= rest then s[0] else rest
  }

  /** `[a for a, q in q_values.items() if q == m]`. */
  function ArgMaxes(acts: seq<Action>, qs: seq<real>, m: real): (r: seq<Action>)
    requires |acts| == |qs|
    ensures forall a :: a in r <==> exists i :: 0 <= i < |acts| && acts[i] == a && qs[i] == m
  {
    if |acts| == 0 then []
    else
      var rest := ArgMaxes(acts[1..], qs[1..], m);
      assert forall i :: 1 <= i < |acts| ==> acts[i] == acts[1..][i - 1] && qs[i] == qs[1..][i - 1];
      if qs[0] == m then [acts[0]] + rest else rest
  }

  /** The actions tied for the largest value in state `key`, in enum order. */
  function BestActions(table: QTable, defaultQ: real, key: StateKey): (r: seq<Action>)
    ensures |r| > 0
  {
    var row := QRow(table, defaultQ, key);
    var m := Max(row);
    MaxIsAttained(row, m);
    ArgMaxes(AllActions, row, m)
  }

  lemma MaxIsAttained(row: seq<real>, m: real)
    requires |row| == |AllActions| && m in row
    ensures |ArgMaxes(AllActions, row, m)| > 0
  {
    var i :| 0 <= i < |row| && row[i] == m;
    assert AllActions[i] in ArgMaxes(AllActions, row, m);
  }

  /** The tie list is never empty, every member has the state's largest value,
      and every action with that value is a member. */
  lemma BestActionsMaximal(table: QTable, defaultQ: real, key: StateKey)
    ensures |BestActions(table, defaultQ, key)| > 0
    ensures forall a, b :: a in BestActions(table, defaultQ, key) ==>
              Lookup(table, defaultQ, key, b) <= Lookup(table, defaultQ, key, a)
    ensures forall a :: a in BestActions(table, defaultQ, key) <==>
              forall b :: Lookup(table, defaultQ, key, b) <= Lookup(table, defaultQ, key, a)
  {
    var row := QRow(table, defaultQ, key);
    var m := Max(row);
    var best := BestActions(table, defaultQ, key);
    var i :| 0 <= i < |row| && row[i] == m;
    assert AllActions[i] in best;
    forall a, b | a in best ensures Lookup(table, defaultQ, key, b) <= Lookup(table, defaultQ, key, a) {
      AllActionsComplete(b);
      var j :| 0 <= j < |AllActions| && AllActions[j] == b;
      assert row[j] <= m;
    }
    forall a | forall b :: Lookup(table, defaultQ, key, b) <= Lookup(table, defaultQ, key, a)
      ensures a in best
    {
      AllActionsComplete(a);
      var j :| 0 <= j < |AllActions| && AllActions[j] == a;
      var i' :| 0 <= i' < |row| && row[i'] == m;
      assert row[i'] <= row[j];
    }
  }

  /** `old_q + learning_rate * (reward - old_q)`. */
  function UpdatedQ(oldQ: real, lr: real, reward: real): real
  {
    oldQ + lr * (reward - oldQ)
  }

  function Abs(x: real): real { if x < 0.0 then -x else x }

  /** One update shrinks the distance to the reward by the factor `1 - lr`. */
  lemma UpdateContracts(oldQ: real, lr: real, reward: real)
    requires 0.0 <= lr <= 1.0
    ensures Abs(UpdatedQ(oldQ, lr, reward) - reward) == (1.0 - lr) * Abs(oldQ - reward)
  {
    var d := oldQ - reward;
    assert UpdatedQ(oldQ, lr, reward) - reward == (1.0 - lr) * d;
    if d >= 0.0 {
      assert (1.0 - lr) * d >= 0.0;
    } else {
      assert (1.0 - lr) * d <= 0.0;
      assert Abs((1.0 - lr) * d) == (1.0 - lr) * -d;
    }
  }

  /** A zero learning rate learns nothing; a learning rate of one adopts the reward. */
  lemma UpdateExtremes(oldQ: real, reward: real)
    ensures UpdatedQ(oldQ, 0.0, reward) == oldQ
    ensures UpdatedQ(oldQ, 1.0, reward) == reward
  {
  }

  /** The value after `n` identical updates. */
  function Repeated(q: real, lr: real, reward: real, n: nat): real
  {
    if n == 0 then q else UpdatedQ(Repeated(q, lr, reward, n - 1), lr, reward)
  }

  function Pow(x: real, n: nat): real
  {
    if n == 0 then 1.0 else x * Pow(x, n - 1)
  }

  lemma {:induction false} PowNonNegative(x: real, n: nat)
    requires 0.0 <= x
    ensures 0.0 <= Pow(x, n)
  {
    if n > 0 {
      PowNonNegative(x, n - 1);
    }
  }

  /** After `n` identical updates the offset from the reward is `(1 - lr)^n` times the first. */
  lemma {:induction false} RepeatedOffset(q: real, lr: real, reward: real, n: nat)
    ensures Repeated(q, lr, reward, n) - reward == Pow(1.0 - lr, n) * (q - reward)
  {
    if n > 0 {
      var prev := Repeated(q, lr, reward, n - 1);
      RepeatedOffset(q, lr, reward, n - 1);
      assert Repeated(q, lr, reward, n) - reward == (1.0 - lr) * (prev - reward);
      ScaleTwice(Repeated(q, lr, reward, n) - reward, prev - reward, 1.0 - lr, Pow(1.0 - lr, n - 1), q - reward);
    }
  }

  /** Scaling by `p` and then by `c` is scaling by `c * p`. */
  lemma ScaleTwice(x: real, y: real, c: real, p: real, d: real)
    requires x == c * y && y == p * d
    ensures x == (c * p) * d
  {
  }

  lemma AbsScale(p: real, d: real)
    requires p >= 0.0
    ensures Abs(p * d) == p * Abs(d)
  {
    if d < 0.0 {
      assert p * d <= 0.0;
      assert -(p * d) == p * -d;
    } else {
      assert p * d >= 0.0;
    }
  }

  /** After `n` identical updates the distance to the reward is `(1 - lr)^n` times the first. */
  lemma RepeatedDistance(q: real, lr: real, reward: real, n: nat)
    requires 0.0 <= lr <= 1.0
    ensures Abs(Repeated(q, lr, reward, n) - reward) == Pow(1.0 - lr, n) * Abs(q - reward)
  {
    RepeatedOffset(q, lr, reward, n);
    PowNonNegative(1.0 - lr, n);
    AbsScale(Pow(1.0 - lr, n), q - reward);
  }

  /** Repeating an update never moves the value away from the reward. */
  lemma {:induction false} RepeatedApproaches(q: real, lr: real, reward: real, n: nat)
    requires 0.0 <= lr <= 1.0
    ensures Abs(Repeated(q, lr, reward, n + 1) - reward) <= Abs(Repeated(q, lr, reward, n) - reward)
  {
    RepeatedStep(q, lr, reward, n + 1);
    ShrinkBy(Abs(Repeated(q, lr, reward, n) - reward), lr);
  }

  /** Each repetition shrinks the distance by the factor `1 - lr`. */
  lemma RepeatedStep(q: real, lr: real, reward: real, n: nat)
    requires 0.0 <= lr <= 1.0 && n > 0
    ensures Abs(Repeated(q, lr, reward, n) - reward) == (1.0 - lr) * Abs(Repeated(q, lr, reward, n - 1) - reward)
  {
    UpdateContracts(Repeated(q, lr, reward, n - 1), lr, reward);
  }

  lemma ShrinkBy(x: real, lr: real)
    requires 0.0 <= x && 0.0 <= lr <= 1.0
    ensures (1.0 - lr) * x <= x
  {
    assert x - (1.0 - lr) * x == lr * x;
  }

  lemma {:induction false} PowBernoulli(lr: real, n: nat)
    requires 0.0 <= lr <= 1.0
    ensures Pow(1.0 - lr, n) * (1.0 + (n as real) * lr) <= 1.0
  {
    if n > 0 {
      var p := Pow(1.0 - lr, n - 1);
      var m := (n - 1) as real;
      PowBernoulli(lr, n - 1);
      PowNonNegative(1.0 - lr, n - 1);
      assert (1.0 - lr) * (1.0 + (m + 1.0) * lr) == 1.0 + m * lr - (m + 1.0) * lr * lr;
      assert (m + 1.0) * lr * lr >= 0.0;
      assert (1.0 - lr) * (1.0 + (m + 1.0) * lr) <= 1.0 + m * lr;
      assert p * ((1.0 - lr) * (1.0 + (m + 1.0) * lr)) <= p * (1.0 + m * lr);
      assert Pow(1.0 - lr, n) * (1.0 + (n as real) * lr) == p * ((1.0 - lr) * (1.0 + (m + 1.0) * lr));
    }
  }

  /** Convergence with a rate: after `n` identical updates the distance to the
      reward is at most the first distance divided by `1 + n * lr`. */
  lemma {:induction false} RepeatedConverges(q: real, lr: real, reward: real, n: nat)
    requires 0.0 <= lr <= 1.0
    ensures Abs(Repeated(q, lr, reward, n) - reward) * (1.0 + (n as real) * lr) <= Abs(q - reward)
  {
    RepeatedDistance(q, lr, reward, n);
    PowBernoulli(lr, n);
    ScaleBelow(Abs(Repeated(q, lr, reward, n) - reward), Pow(1.0 - lr, n), 1.0 + (n as real) * lr, Abs(q - reward));
  }

  lemma ScaleBelow(e: real, p: real, g: real, d: real)
    requires e == p * d && p * g <= 1.0 && d >= 0.0
    ensures e * g <= d
  {
    assert e * g == (p * g) * d;
    assert d - (p * g) * d == (1.0 - p * g) * d;
  }

  /** `max(0.0, min(1.0, e))`. */
  function Clamp01(e: real): (r: real)
    ensures 0.0 <= r <= 1.0
    ensures 0.0 <= e <= 1.0 ==> r == e
    ensures e < 0.0 ==> r == 0.0
    ensures e > 1.0 ==> r == 1.0
  {
    var upper := if 1.0 <= e then 1.0 else e;
    if 0.0 >= upper then 0.0 else upper
  }

  /** `exploration_count / total_decisions if total_decisions > 0 else 0.0`. */
  function ExplorationRatio(explorations: nat, exploitations: nat): (r: real)
    ensures 0.0 <= r <= 1.0
    ensures explorations + exploitations == 0 ==> r == 0.0
    ensures r * ((explorations + exploitations) as real) == explorations as real
  {
    var total := explorations + exploitations;
    if total > 0 then (explorations as real) / (total as real) else 0.0
  }

  /** The dictionary `get_statistics` returns. */
  datatype AgentStats = AgentStats(
    totalUpdates: nat,
    totalDecisions: nat,
    explorationCount: nat,
    exploitationCount: nat,
    explorationRatio: real,
    qTableSize: nat,
    epsilon: real,
    learningRate: real)

  /** The dictionary `save_checkpoint` pickles. */
  datatype Checkpoint = Checkpoint(
    qTable: QTable,
    epsilon: real,
    learningRate: real,
    defaultQValue: real,
    totalUpdates: nat,
    explorationCount: nat,
    exploitationCount: nat)

  /** Checkpoint files by path. */
  type CheckpointStore = map<string, Checkpoint>

  /** `random.choice(s)`: the element of `s` that the draw `pick` selects. */
  function Choose(s: seq<Action>, pick: nat): (a: Action)
    requires |s| > 0
    ensures a in s
  {
    s[pick % |s|]
  }

  /** A draw `random.random() < epsilon` selects exploration. */
  predicate Explores(coin: real, epsilon: real)
  {
    coin < epsilon
  }

  /** With epsilon 0 no draw in [0, 1) explores. */
  lemma GreedyNeverExplores(coin: real)
    requires 0.0 <= coin < 1.0
    ensures !Explores(coin, 0.0)
  {
  }

  class PolicyAgent {
    var qTable: QTable
    var epsilon: real
    var learningRate: real
    var defaultQValue: real
    var totalUpdates: nat
    var explorationCount: nat
    var exploitationCount: nat

    constructor (epsilon: real, learningRate: real, defaultQValue: real)
      ensures qTable == map[]
      ensures this.epsilon == epsilon && this.learningRate == learningRate && this.defaultQValue == defaultQValue
      ensures totalUpdates == 0 && explorationCount == 0 && exploitationCount == 0
    {
      qTable := map[];
      this.epsilon := epsilon;
      this.learningRate := learningRate;
      this.defaultQValue := defaultQValue;
      totalUpdates := 0;
      explorationCount := 0;
      exploitationCount := 0;
    }

    /** Q(key, a), the default when no entry exists. */
    function Q(key: StateKey, a: Action): real
      reads this`qTable, this`defaultQValue
    {
      Lookup(qTable, defaultQValue, key, a)
    }

    function Snapshot(): Checkpoint
      reads this
    {
      Checkpoint(qTable, epsilon, learningRate, defaultQValue, totalUpdates, explorationCount, exploitationCount)
    }

    /** The `q_values` loop: reads every action's value for `key` through the
        defaultdict, which stores the default for each one missing. */
    method ReadQValues(key: StateKey) returns (qv: map<Action, real>)
      modifies this`qTable
      ensures qTable == Materialized(old(qTable), defaultQValue, key)
      ensures forall a :: a in qv && qv[a] == Lookup(old(qTable), defaultQValue, key, a)
    {
      qv := map[];
      var i := 0;
      while i < |AllActions|
        invariant 0 <= i <= |AllActions|
        invariant qTable == MaterializedPrefix(old(qTable), defaultQValue, key, i)
        invariant forall j :: 0 <= j < i ==> AllActions[j] in qv && qv[AllActions[j]] == Lookup(old(qTable), defaultQValue, key, AllActions[j])
      {
        var a := AllActions[i];
        PrefixLookup(old(qTable), defaultQValue, key, i, key, a);
        if (key, a) !in qTable {
          qTable := qTable[(key, a) := defaultQValue];
        }
        qv := qv[a := qTable[(key, a)]];
        i := i + 1;
      }
      MaterializedPrefixAll(old(qTable), defaultQValue, key);
      forall a ensures a in qv && qv[a] == Lookup(old(qTable), defaultQValue, key, a) {
        AllActionsComplete(a);
      }
    }

    /** `_get_best_action`: the tie list of maximal actions, one picked by `pick`
        (the index `random.choice` would draw). */
    method GetBestAction(key: StateKey, pick: nat) returns (a: Action)
      modifies this`qTable
      ensures qTable == Materialized(old(qTable), defaultQValue, key)
      ensures a in BestActions(qTable, defaultQValue, key)
      ensures a == Choose(BestActions(old(qTable), defaultQValue, key), pick)
      ensures forall b :: Q(key, b) <= Q(key, a)
    {
      ghost var before := qTable;
      var qv := ReadQValues(key);
      var row := seq(|AllActions|, i requires 0 <= i < |AllActions| => qv[AllActions[i]]);
      assert row == QRow(before, defaultQValue, key);
      var maxQ := Max(row);
      var best := ArgMaxes(AllActions, row, maxQ);
      BestActionsMaximal(before, defaultQValue, key);
      a := Choose(best, pick);
      MaterializedLookups(before, defaultQValue, key);
      assert QRow(qTable, defaultQValue, key) == QRow(before, defaultQValue, key);
    }

    /** The exploration branch of `select_action`: a uniformly drawn action. */
    method Explore(pick: nat) returns (a: Action)
      modifies this`explorationCount
      ensures a == Choose(AllActions, pick)
      ensures explorationCount == old(explorationCount) + 1
    {
      a := Choose(AllActions, pick);
      explorationCount := explorationCount + 1;
    }

    /** The exploitation branch of `select_action`: a best action of the state. */
    method Exploit(key: StateKey, pick: nat) returns (a: Action)
      modifies this`qTable, this`exploitationCount
      ensures exploitationCount == old(exploitationCount) + 1
      ensures qTable == Materialized(old(qTable), defaultQValue, key)
      ensures forall k, b :: Q(k, b) == Lookup(old(qTable), defaultQValue, k, b)
      ensures a == Choose(BestActions(old(qTable), defaultQValue, key), pick)
      ensures forall b :: Q(key, b) <= Q(key, a)
    {
      exploitationCount := exploitationCount + 1;
      MaterializedLookups(qTable, defaultQValue, key);
      a := GetBestAction(key, pick);
    }

    /** `select_action`: `coin` stands for `random.random()` and `pick` for the
        index `random.choice` draws. */
    method SelectAction(state: FeatureDict, coin: real, pick: nat) returns (a: Action)
      requires 0.0 <= coin < 1.0
      modifies this`qTable, this`explorationCount, this`exploitationCount
      ensures explorationCount + exploitationCount == old(explorationCount + exploitationCount) + 1
      ensures forall k, b :: Q(k, b) == Lookup(old(qTable), defaultQValue, k, b)
      ensures Explores(coin, epsilon) ==>
                explorationCount == old(explorationCount) + 1 && exploitationCount == old(exploitationCount)
                && a == Choose(AllActions, pick) && qTable == old(qTable)
      ensures !Explores(coin, epsilon) ==>
                exploitationCount == old(exploitationCount) + 1 && explorationCount == old(explorationCount)
      ensures !Explores(coin, epsilon) ==> qTable == Materialized(old(qTable), defaultQValue, KeyOf(state))
      ensures !Explores(coin, epsilon) ==>
                a == Choose(BestActions(old(qTable), defaultQValue, KeyOf(state)), pick)
      ensures !Explores(coin, epsilon) ==> forall b :: Q(KeyOf(state), b) <= Q(KeyOf(state), a)
    {
      var key := StateToKey(state);
      if coin < epsilon {
        a := Explore(pick);
      } else {
        a := Exploit(key, pick);
      }
    }

    /** `update`: Q(key(s), a) moves towards the reward; nothing else in the table changes. */
    method Update(state: FeatureDict, action: Action, reward: real)
      modifies this`qTable, this`totalUpdates
      ensures qTable == old(qTable)[(KeyOf(state), action) := UpdatedQ(Lookup(old(qTable), defaultQValue, KeyOf(state), action), learningRate, reward)]
      ensures totalUpdates == old(totalUpdates) + 1
      ensures Q(KeyOf(state), action) == UpdatedQ(Lookup(old(qTable), defaultQValue, KeyOf(state), action), learningRate, reward)
      ensures forall k, b :: (k, b) != (KeyOf(state), action) ==> Q(k, b) == Lookup(old(qTable), defaultQValue, k, b)
    {
      var key := StateToKey(state);
      var oldQ := if (key, action) in qTable then qTable[(key, action)] else defaultQValue;
      var newQ := UpdatedQ(oldQ, learningRate, reward);
      qTable := qTable[(key, action) := newQ];
      totalUpdates := totalUpdates + 1;
    }

    /** `get_q_values`: every action's value for the state (materialising defaults). */
    method GetQValues(state: FeatureDict) returns (qv: map<Action, real>)
      modifies this`qTable
      ensures qTable == Materialized(old(qTable), defaultQValue, KeyOf(state))
      ensures forall a :: a in qv && qv[a] == Lookup(old(qTable), defaultQValue, KeyOf(state), a) && qv[a] == Q(KeyOf(state), a)
    {
      var key := StateToKey(state);
      qv := ReadQValues(key);
      MaterializedLookups(old(qTable), defaultQValue, key);
    }

    /** `get_statistics`. */
    function GetStatistics(): (s: AgentStats)
      reads this
      ensures s.totalDecisions == explorationCount + exploitationCount
      ensures s.explorationCount == explorationCount && s.exploitationCount == exploitationCount
      ensures 0.0 <= s.explorationRatio <= 1.0
      ensures s.totalDecisions == 0 ==> s.explorationRatio == 0.0
      ensures s.explorationRatio * (s.totalDecisions as real) == explorationCount as real
      ensures s.totalUpdates == totalUpdates && s.qTableSize == |qTable|
      ensures s.epsilon == epsilon && s.learningRate == learningRate
    {
      AgentStats(totalUpdates, explorationCount + exploitationCount, explorationCount, exploitationCount,
                 ExplorationRatio(explorationCount, exploitationCount), |qTable|, epsilon, learningRate)
    }

    /** `save_checkpoint`: the snapshot is written under `path`; other files are untouched. */
    method SaveCheckpoint(store: CheckpointStore, path: string) returns (written: CheckpointStore)
      ensures path in written && written[path] == Snapshot()
      ensures forall p :: p != path ==> (p in written <==> p in store) && (p in store ==> written[p] == store[p])
    {
      written := store[path := Snapshot()];
    }

    /** `load_checkpoint`: false, with nothing changed, when no file exists at
        `path`; otherwise every field is replaced by the snapshot's. */
    method LoadCheckpoint(store: CheckpointStore, path: string) returns (ok: bool)
      modifies this
      ensures ok <==> path in store
      ensures ok ==> Snapshot() == store[path]
      ensures !ok ==> unchanged(this)
    {
      if path !in store {
        return false;
      }
      var cp := store[path];
      qTable := cp.qTable;
      epsilon := cp.epsilon;
      learningRate := cp.learningRate;
      defaultQValue := cp.defaultQValue;
      totalUpdates := cp.totalUpdates;
      explorationCount := cp.explorationCount;
      exploitationCount := cp.exploitationCount;
      ok := true;
    }

    /** `set_epsilon`. */
    method SetEpsilon(e: real)
      modifies this`epsilon
      ensures epsilon == Clamp01(e)
      ensures 0.0 <= epsilon <= 1.0
    {
      epsilon := Clamp01(e);
    }

    /** `reset_statistics`. */
    method ResetStatistics()
      modifies this`totalUpdates, this`explorationCount, this`exploitationCount
      ensures totalUpdates == 0 && explorationCount == 0 && exploitationCount == 0
    {
      totalUpdates := 0;
      explorationCount := 0;
      exploitationCount := 0;
    }
  }

  /** Saving one agent and loading the file into another reproduces its
      hyperparameters, counters, Q-values and preferred actions. */
  method CheckpointRoundTrip(source: PolicyAgent, target: PolicyAgent, store: CheckpointStore, path: string)
    returns (ok: bool)
    modifies target
    ensures ok
    ensures target.Snapshot() == old(source.Snapshot())
    ensures forall k, a :: target.Q(k, a) == Lookup(old(source.qTable), old(source.defaultQValue), k, a)
    ensures forall k :: BestActions(target.qTable, target.defaultQValue, k) == BestActions(old(source.qTable), old(source.defaultQValue), k)
  {
    var written := source.SaveCheckpoint(store, path);
    ok := target.LoadCheckpoint(written, path);
  }
}
