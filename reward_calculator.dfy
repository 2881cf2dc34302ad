/** The reward calculator (`RewardCalculator` in reward_calculator.py): an
    additive score of an action against an observed outcome, a capped additive
    attack-probability heuristic over the feature dictionary, and the seven
    tunable weights. Python floats are modelled as reals. */
module RewardCalculator {
  import opened Actions
  import opened Dicts
  import FeatureExtractor

  /** The seven weights, in the order `get_reward_weights` lists them. */
  datatype Weights = Weights(
    attackBlockedReward: real,
    legitimateAllowedReward: real,
    falsePositivePenalty: real,
    falseNegativePenalty: real,
    latencyPenaltyThresholdMs: real,
    maxLatencyPenalty: real,
    efficiencyBonus: real)

  /** The constructor's defaults. */
  const DefaultWeights: Weights := Weights(1.0, 0.5, -2.0, -1.5, 1000.0, -0.5, 0.2)

  /** The outcome dictionary; `None` marks a missing key. */
  datatype Outcome = Outcome(
    isAttack: Option<bool>,
    httpStatus: Option<int>,
    latencyMs: Option<real>,
    dbError: Option<bool>,
    userComplaint: Option<bool>)

  /** `outcome.get(key, default)` for each key. */
  function IsAttack(o: Outcome): bool { o.isAttack.Some? && o.isAttack.value }
  function HttpStatus(o: Outcome): int { if o.httpStatus.Some? then o.httpStatus.value else 200 }
  function LatencyMs(o: Outcome): real { if o.latencyMs.Some? then o.latencyMs.value else 0.0 }
  function DbError(o: Outcome): bool { o.dbError.Some? && o.dbError.value }
  function UserComplaint(o: Outcome): bool { o.userComplaint.Some? && o.userComplaint.value }

  /** The empty outcome `{}`. */
  const NoOutcome: Outcome := Outcome(None, None, None, None, None)

  /** The latency term divides by the threshold only when the latency exceeds
      it; a zero threshold there raises `ZeroDivisionError`. */
  predicate LatencyDefined(w: Weights, o: Outcome)
  {
    LatencyMs(o) > w.latencyPenaltyThresholdMs ==> w.latencyPenaltyThresholdMs != 0.0
  }

  function Min(a: real, b: real): real { if a <= b then a else b }

  /** `calculate_reward`: the terms added in the order the source adds them. */
  function Reward(w: Weights, action: Action, o: Outcome): real
    requires LatencyDefined(w, o)
  {
    var isAttack := IsAttack(o);
    var status := HttpStatus(o);
    var latency := LatencyMs(o);
    var reward := 0.0;
    var reward :=
      if action == Block || action == Challenge then
        (if isAttack then reward + w.attackBlockedReward else reward + w.falsePositivePenalty)
      else if action == Allow || action == LogOnly then
        (if isAttack then reward + w.falseNegativePenalty else reward + w.legitimateAllowedReward)
      else if action == Sanitize then
        (if isAttack then reward + w.attackBlockedReward * 0.7 else reward + w.legitimateAllowedReward * 0.8)
      else
        (if isAttack then reward + w.attackBlockedReward * 0.5 else reward + w.legitimateAllowedReward * 0.6);
    var reward :=
      if latency > w.latencyPenaltyThresholdMs then
        reward + LatencyPenalty(w, latency)
      else reward;
    var reward := if DbError(o) then reward + -0.5 else reward;
    var reward := if UserComplaint(o) then reward + -1.0 else reward;
    var reward := if !isAttack && (action == LogOnly || action == Sanitize) then reward + w.efficiencyBonus else reward;
    if status >= 500 then reward + -0.3
    else if status >= 400 && status != 403 then reward + -0.1
    else reward
  }

  /** The correctness term: what fraction of which weight each action earns. */
  function BaseTerm(w: Weights, action: Action, isAttack: bool): (t: real)
    ensures isAttack && action in {Block, Challenge} ==> t == w.attackBlockedReward
    ensures !isAttack && action in {Block, Challenge} ==> t == w.falsePositivePenalty
    ensures isAttack && action in {Allow, LogOnly} ==> t == w.falseNegativePenalty
    ensures !isAttack && action in {Allow, LogOnly} ==> t == w.legitimateAllowedReward
    ensures action == Sanitize ==>
              t == (if isAttack then 0.7 * w.attackBlockedReward else 0.8 * w.legitimateAllowedReward)
    ensures action == Throttle ==>
              t == (if isAttack then 0.5 * w.attackBlockedReward else 0.6 * w.legitimateAllowedReward)
  {
    match action
    case Block | Challenge => if isAttack then w.attackBlockedReward else w.falsePositivePenalty
    case Allow | LogOnly => if isAttack then w.falseNegativePenalty else w.legitimateAllowedReward
    case Sanitize => if isAttack then 0.7 * w.attackBlockedReward else 0.8 * w.legitimateAllowedReward
    case Throttle => if isAttack then 0.5 * w.attackBlockedReward else 0.6 * w.legitimateAllowedReward
  }

  /** The charge for a latency above the threshold, proportional to the excess
      and never positive: a non-negative `max_latency_penalty` charges nothing. */
  function LatencyPenalty(w: Weights, latency: real): (p: real)
    requires latency > w.latencyPenaltyThresholdMs && w.latencyPenaltyThresholdMs != 0.0
    ensures p <= 0.0
    ensures w.latencyPenaltyThresholdMs > 0.0 && w.maxLatencyPenalty >= 0.0 ==> p == 0.0
  {
    var excess := latency - w.latencyPenaltyThresholdMs;
    Min(0.0, w.maxLatencyPenalty * (excess / w.latencyPenaltyThresholdMs))
  }

  /** The latency term: zero up to the threshold, then proportional to the
      excess, never positive and not bounded below by `max_latency_penalty`. */
  function LatencyTerm(w: Weights, latency: real): (t: real)
    requires latency > w.latencyPenaltyThresholdMs ==> w.latencyPenaltyThresholdMs != 0.0
    ensures t <= 0.0
    ensures latency <= w.latencyPenaltyThresholdMs ==> t == 0.0
  {
    if latency <= w.latencyPenaltyThresholdMs then 0.0
    else LatencyPenalty(w, latency)
  }

  /** A database error costs 0.5 and a user complaint 1.0; the two add up, and
      nothing is charged when neither happened. */
  function IncidentTerm(dbError: bool, complaint: bool): (t: real)
    ensures t <= 0.0
    ensures t == 0.0 <==> !dbError && !complaint
    ensures dbError && !complaint ==> t == -0.5
    ensures !dbError && complaint ==> t == -1.0
    ensures dbError && complaint ==> t == -1.5
  {
    (if dbError then -0.5 else 0.0) + (if complaint then -1.0 else 0.0)
  }

  /** The efficiency bonus is paid exactly for restraint on legitimate traffic. */
  function EfficiencyTerm(w: Weights, action: Action, isAttack: bool): (t: real)
    ensures t != 0.0 ==> !isAttack && action in {LogOnly, Sanitize}
    ensures !isAttack && action in {LogOnly, Sanitize} ==> t == w.efficiencyBonus
  {
    if !isAttack && (action == LogOnly || action == Sanitize) then w.efficiencyBonus else 0.0
  }

  /** The status term: server errors cost 0.3, client errors other than the
      layer's own 403 cost 0.1, anything else nothing. */
  function StatusTerm(status: int): (t: real)
    ensures status >= 500 ==> t == -0.3
    ensures 400 <= status < 500 && status != 403 ==> t == -0.1
    ensures (status < 400 || status == 403) ==> t == 0.0
  {
    if status >= 500 then -0.3 else if status >= 400 && status != 403 then -0.1 else 0.0
  }

  /** The reward is the sum of five independent terms. */
  lemma RewardDecomposition(w: Weights, action: Action, o: Outcome)
    requires LatencyDefined(w, o)
    ensures Reward(w, action, o) ==
              BaseTerm(w, action, IsAttack(o)) + LatencyTerm(w, LatencyMs(o))
              + IncidentTerm(DbError(o), UserComplaint(o))
              + EfficiencyTerm(w, action, IsAttack(o)) + StatusTerm(HttpStatus(o))
  {
  }

  /** Two actions scored against the same outcome differ only in their
      correctness and efficiency terms. */
  lemma ActionDifference(w: Weights, a: Action, b: Action, o: Outcome)
    requires LatencyDefined(w, o)
    ensures Reward(w, a, o) - Reward(w, b, o) ==
              (BaseTerm(w, a, IsAttack(o)) + EfficiencyTerm(w, a, IsAttack(o)))
              - (BaseTerm(w, b, IsAttack(o)) + EfficiencyTerm(w, b, IsAttack(o)))
  {
    RewardDecomposition(w, a, o);
    RewardDecomposition(w, b, o);
  }

  /** Blocking a true attack scores higher than allowing it whenever the block
      reward exceeds the false-negative penalty, whatever else the outcome says. */
  lemma BlockBeatsAllowOnAttack(w: Weights, o: Outcome)
    requires LatencyDefined(w, o) && IsAttack(o)
    requires w.attackBlockedReward > w.falseNegativePenalty
    ensures Reward(w, Block, o) > Reward(w, Allow, o)
  {
    ActionDifference(w, Block, Allow, o);
  }

  /** With the default weights an attack ranks the actions Block = Challenge >
      Sanitize > Throttle > Allow = LogOnly. */
  lemma DefaultAttackRanking(o: Outcome)
    requires LatencyDefined(DefaultWeights, o) && IsAttack(o)
    ensures Reward(DefaultWeights, Block, o) == Reward(DefaultWeights, Challenge, o)
    ensures Reward(DefaultWeights, Challenge, o) > Reward(DefaultWeights, Sanitize, o)
    ensures Reward(DefaultWeights, Sanitize, o) > Reward(DefaultWeights, Throttle, o)
    ensures Reward(DefaultWeights, Throttle, o) > Reward(DefaultWeights, Allow, o)
    ensures Reward(DefaultWeights, Allow, o) == Reward(DefaultWeights, LogOnly, o)
  {
    var w := DefaultWeights;
    ActionDifference(w, Block, Challenge, o);
    ActionDifference(w, Challenge, Sanitize, o);
    ActionDifference(w, Sanitize, Throttle, o);
    ActionDifference(w, Throttle, Allow, o);
    ActionDifference(w, Allow, LogOnly, o);
  }

  /** With the default weights legitimate traffic ranks them LogOnly > Sanitize
      > Allow > Throttle > Block = Challenge. */
  lemma DefaultLegitimateRanking(o: Outcome)
    requires LatencyDefined(DefaultWeights, o) && !IsAttack(o)
    ensures Reward(DefaultWeights, LogOnly, o) > Reward(DefaultWeights, Sanitize, o)
    ensures Reward(DefaultWeights, Sanitize, o) > Reward(DefaultWeights, Allow, o)
    ensures Reward(DefaultWeights, Allow, o) > Reward(DefaultWeights, Throttle, o)
    ensures Reward(DefaultWeights, Throttle, o) > Reward(DefaultWeights, Block, o)
    ensures Reward(DefaultWeights, Block, o) == Reward(DefaultWeights, Challenge, o)
  {
    var w := DefaultWeights;
    ActionDifference(w, LogOnly, Sanitize, o);
    ActionDifference(w, Sanitize, Allow, o);
    ActionDifference(w, Allow, Throttle, o);
    ActionDifference(w, Throttle, Block, o);
    ActionDifference(w, Block, Challenge, o);
  }

  /** Above the threshold the latency penalty grows without bound: at 3000 ms
      the default weights charge 1.0, twice `max_latency_penalty`. */
  lemma LatencyPenaltyUncapped()
    ensures LatencyTerm(DefaultWeights, 3000.0) == -1.0
    ensures LatencyTerm(DefaultWeights, 3000.0) < DefaultWeights.maxLatencyPenalty
  {
  }

  /** An empty outcome is scored as legitimate, status 200, no latency, no incident. */
  lemma EmptyOutcomeDefaults(w: Weights, action: Action)
    requires w.latencyPenaltyThresholdMs >= 0.0
    ensures LatencyDefined(w, NoOutcome)
    ensures Reward(w, action, NoOutcome) == BaseTerm(w, action, false) + EfficiencyTerm(w, action, false)
  {
    RewardDecomposition(w, action, NoOutcome);
  }

  /** `features.get(name, 0)` as a number. */
  function Feature(features: FeatureDict, name: string): real
  {
    GetOr(features, name, IntV(0)).AsReal()
  }

  /** The six indicators of `estimate_attack_probability`, in order. */
  function Indicators(features: FeatureDict): (fires: seq<bool>)
    ensures |fires| == 6
  {
    [ Feature(features, "sql_keyword_count") > 0.0,
      Feature(features, "quote_count") > 2.0,
      Feature(features, "comment_pattern_count") > 0.0,
      Feature(features, "or_and_count") > 0.0,
      Feature(features, "entropy") > 5.0,
      Feature(features, "encoding_depth") > 1.0 ]
  }

  /** What each indicator adds to the score. */
  const IndicatorWeights: seq<real> := [0.3, 0.2, 0.3, 0.2, 0.1, 0.2]

  /** `estimate_attack_probability`: the indicator weights summed in order, then
      capped at 1. */
  function EstimateAttackProbability(features: FeatureDict): (p: real)
    ensures 0.0 <= p <= 1.0
  {
    var score := 0.0;
    var score := if Feature(features, "sql_keyword_count") > 0.0 then score + 0.3 else score;
    var score := if Feature(features, "quote_count") > 2.0 then score + 0.2 else score;
    var score := if Feature(features, "comment_pattern_count") > 0.0 then score + 0.3 else score;
    var score := if Feature(features, "or_and_count") > 0.0 then score + 0.2 else score;
    var score := if Feature(features, "entropy") > 5.0 then score + 0.1 else score;
    var score := if Feature(features, "encoding_depth") > 1.0 then score + 0.2 else score;
    Min(1.0, score)
  }

  /** The weights of the indicators from position `i` on that fire. */
  function FiredWeight(fires: seq<bool>, weights: seq<real>, i: nat): (s: real)
    requires |fires| == |weights| && i <= |fires|
    decreases |fires| - i
  {
    if i == |fires| then 0.0
    else (if fires[i] then weights[i] else 0.0) + FiredWeight(fires, weights, i + 1)
  }

  /** The number of indicators from position `i` on that fire. */
  function FiredCount(fires: seq<bool>, i: nat): nat
    requires i <= |fires|
    decreases |fires| - i
  {
    if i == |fires| then 0 else (if fires[i] then 1 else 0) + FiredCount(fires, i + 1)
  }

  /** The estimate is the capped total weight of the indicators that fire. */
  lemma ProbabilityIsCappedWeight(features: FeatureDict)
    ensures EstimateAttackProbability(features) == Min(1.0, FiredWeight(Indicators(features), IndicatorWeights, 0))
  {
    var f := Indicators(features);
    var ws := IndicatorWeights;
    assert FiredWeight(f, ws, 6) == 0.0;
    assert FiredWeight(f, ws, 5) == (if f[5] then 0.2 else 0.0);
    assert FiredWeight(f, ws, 4) == (if f[4] then 0.1 else 0.0) + FiredWeight(f, ws, 5);
    assert FiredWeight(f, ws, 3) == (if f[3] then 0.2 else 0.0) + FiredWeight(f, ws, 4);
    assert FiredWeight(f, ws, 2) == (if f[2] then 0.3 else 0.0) + FiredWeight(f, ws, 3);
    assert FiredWeight(f, ws, 1) == (if f[1] then 0.2 else 0.0) + FiredWeight(f, ws, 2);
    assert FiredWeight(f, ws, 0) == (if f[0] then 0.3 else 0.0) + FiredWeight(f, ws, 1);
  }

  lemma {:induction false} FiredWeightBounds(fires: seq<bool>, weights: seq<real>, i: nat, top: real)
    requires |fires| == |weights| && i <= |fires|
    requires forall j :: 0 <= j < |weights| ==> 0.0 < weights[j] <= top
    ensures 0.0 <= FiredWeight(fires, weights, i) <= top * (FiredCount(fires, i) as real)
    ensures FiredWeight(fires, weights, i) == 0.0 <==> FiredCount(fires, i) == 0
    decreases |fires| - i
  {
    if i < |fires| {
      FiredWeightBounds(fires, weights, i + 1, top);
    }
  }

  /** The estimate is zero exactly when no indicator fires, and exceeding 0.5
      takes at least two indicators, since none weighs more than 0.3. */
  lemma ProbabilityNeedsIndicators(features: FeatureDict)
    ensures EstimateAttackProbability(features) == 0.0 <==> FiredCount(Indicators(features), 0) == 0
    ensures EstimateAttackProbability(features) > 0.5 ==> FiredCount(Indicators(features), 0) >= 2
  {
    ProbabilityIsCappedWeight(features);
    var ws := IndicatorWeights;
    assert forall i :: 0 <= i < |ws| ==> 0.0 < ws[i] <= 0.3;
    FiredWeightBounds(Indicators(features), ws, 0, 0.3);
  }

  /** `calculate_reward_from_features`: the outcome's own `is_attack` is
      replaced by the thresholded estimate. */
  function RewardFromFeatures(w: Weights, action: Action, features: FeatureDict, o: Outcome): real
    requires LatencyDefined(w, o)
  {
    var attackProb := EstimateAttackProbability(features);
    var isAttack := attackProb > 0.5;
    Reward(w, action, o.(isAttack := Some(isAttack)))
  }

  /** Whatever label the outcome carried, the score uses the estimate's. */
  lemma RewardFromFeaturesIgnoresLabel(w: Weights, action: Action, features: FeatureDict, o: Outcome, given: Option<bool>)
    requires LatencyDefined(w, o)
    ensures LatencyDefined(w, o.(isAttack := given))
    ensures RewardFromFeatures(w, action, features, o) == RewardFromFeatures(w, action, features, o.(isAttack := given))
    ensures RewardFromFeatures(w, action, features, o) ==
              BaseTerm(w, action, EstimateAttackProbability(features) > 0.5) + LatencyTerm(w, LatencyMs(o))
              + IncidentTerm(DbError(o), UserComplaint(o))
              + EfficiencyTerm(w, action, EstimateAttackProbability(features) > 0.5) + StatusTerm(HttpStatus(o))
  {
    var p := EstimateAttackProbability(features);
    RewardDecomposition(w, action, o.(isAttack := Some(p > 0.5)));
    assert o.(isAttack := given).(isAttack := Some(p > 0.5)) == o.(isAttack := Some(p > 0.5));
  }

  /** A GET of the path `/api/user?id=1' OR '1'='1` scores only 0.4 from its
      extracted features (quotes and ` or ` fire; `or` is no keyword and the
      text has no comment marker), so the request is taken as legitimate: with
      the default weights and an empty outcome, Block earns -2.0 and Allow 0.5.
      Twenty-five characters have a Shannon entropy of at most log2(25) < 5,
      which the bound on `entropyOf` stands for. */
  lemma TautologyEstimate(entropyOf: string -> real)
    requires entropyOf(FeatureExtractor.TautologyPath) <= 5.0
    ensures var f := FeatureExtractor.ExtractFeatures(FeatureExtractor.TautologyRequest, entropyOf);
            EstimateAttackProbability(f) == 0.4
            && RewardFromFeatures(DefaultWeights, Block, f, NoOutcome) == -2.0
            && RewardFromFeatures(DefaultWeights, Allow, f, NoOutcome) == 0.5
  {
    var f := FeatureExtractor.ExtractFeatures(FeatureExtractor.TautologyRequest, entropyOf);
    FeatureExtractor.TautologyFeatures(entropyOf);
    QuotesAndOrScore(f, entropyOf(FeatureExtractor.TautologyPath));
  }

  /** Features where only the quote and ` or ` indicators fire score 0.4, so
      Block earns -2.0 and Allow 0.5 with the default weights. */
  lemma QuotesAndOrScore(f: FeatureDict, e: real)
    requires Get(f, "sql_keyword_count") == Some(IntV(0)) && Get(f, "quote_count") == Some(IntV(4))
    requires Get(f, "comment_pattern_count") == Some(IntV(0)) && Get(f, "or_and_count") == Some(IntV(1))
    requires Get(f, "entropy") == Some(FloatV(e)) && e <= 5.0 && Get(f, "encoding_depth") == Some(IntV(0))
    ensures EstimateAttackProbability(f) == 0.4
    ensures RewardFromFeatures(DefaultWeights, Block, f, NoOutcome) == -2.0
    ensures RewardFromFeatures(DefaultWeights, Allow, f, NoOutcome) == 0.5
  {
    var o := NoOutcome.(isAttack := Some(false));
    RewardDecomposition(DefaultWeights, Block, o);
    RewardDecomposition(DefaultWeights, Allow, o);
  }

  /** The weight names `hasattr` accepts, in `get_reward_weights` order. */
  const WeightNames: seq<string> := ["attack_blocked_reward", "legitimate_allowed_reward", "false_positive_penalty",
    "false_negative_penalty", "latency_penalty_threshold_ms", "max_latency_penalty", "efficiency_bonus"]

  /** `get_reward_weights` for a set of weights. */
  function WeightList(w: Weights): (ws: seq<(string, real)>)
    ensures Keys(ws) == WeightNames
  {
    [("attack_blocked_reward", w.attackBlockedReward),
     ("legitimate_allowed_reward", w.legitimateAllowedReward),
     ("false_positive_penalty", w.falsePositivePenalty),
     ("false_negative_penalty", w.falseNegativePenalty),
     ("latency_penalty_threshold_ms", w.latencyPenaltyThresholdMs),
     ("max_latency_penalty", w.maxLatencyPenalty),
     ("efficiency_bonus", w.efficiencyBonus)]
  }

  /** `setattr(self, key, value)` when `key` names a weight; other keys do nothing. */
  function SetWeight(w: Weights, key: string, value: real): Weights
  {
    if key == "attack_blocked_reward" then w.(attackBlockedReward := value)
    else if key == "legitimate_allowed_reward" then w.(legitimateAllowedReward := value)
    else if key == "false_positive_penalty" then w.(falsePositivePenalty := value)
    else if key == "false_negative_penalty" then w.(falseNegativePenalty := value)
    else if key == "latency_penalty_threshold_ms" then w.(latencyPenaltyThresholdMs := value)
    else if key == "max_latency_penalty" then w.(maxLatencyPenalty := value)
    else if key == "efficiency_bonus" then w.(efficiencyBonus := value)
    else w
  }

  /** The weights after `update_weights(**kwargs)`: each named weight takes its
      new value, every other weight keeps its own. */
  function WithUpdates(w: Weights, kwargs: map<string, real>): Weights
  {
    Weights(
      if "attack_blocked_reward" in kwargs then kwargs["attack_blocked_reward"] else w.attackBlockedReward,
      if "legitimate_allowed_reward" in kwargs then kwargs["legitimate_allowed_reward"] else w.legitimateAllowedReward,
      if "false_positive_penalty" in kwargs then kwargs["false_positive_penalty"] else w.falsePositivePenalty,
      if "false_negative_penalty" in kwargs then kwargs["false_negative_penalty"] else w.falseNegativePenalty,
      if "latency_penalty_threshold_ms" in kwargs then kwargs["latency_penalty_threshold_ms"] else w.latencyPenaltyThresholdMs,
      if "max_latency_penalty" in kwargs then kwargs["max_latency_penalty"] else w.maxLatencyPenalty,
      if "efficiency_bonus" in kwargs then kwargs["efficiency_bonus"] else w.efficiencyBonus)
  }

  /** One more keyword argument is one more `setattr`. */
  lemma WithUpdatesStep(w: Weights, kwargs: map<string, real>, key: string, value: real)
    requires key !in kwargs
    ensures WithUpdates(w, kwargs[key := value]) == SetWeight(WithUpdates(w, kwargs), key, value)
  {
    var m := kwargs[key := value];
    if key == "attack_blocked_reward" {
    } else if key == "legitimate_allowed_reward" {
    } else if key == "false_positive_penalty" {
    } else if key == "false_negative_penalty" {
    } else if key == "latency_penalty_threshold_ms" {
    } else if key == "max_latency_penalty" {
    } else if key == "efficiency_bonus" {
    } else {
      assert forall k :: k in WeightNames ==> (k in m <==> k in kwargs) && (k in m ==> m[k] == kwargs[k]);
    }
  }

  /** Each reported weight is the keyword argument of that name when one was
      given, and the old weight otherwise. */
  lemma WithUpdatesReported(w: Weights, kwargs: map<string, real>)
    ensures forall i :: 0 <= i < |WeightNames| ==>
              WeightList(WithUpdates(w, kwargs))[i].1 ==
                if WeightNames[i] in kwargs then kwargs[WeightNames[i]] else WeightList(w)[i].1
  {
    var ws := WeightNames;
    forall i | 0 <= i < |ws|
      ensures WeightList(WithUpdates(w, kwargs))[i].1 == if ws[i] in kwargs then kwargs[ws[i]] else WeightList(w)[i].1
    {
      assert WeightList(WithUpdates(w, kwargs))[i].0 == ws[i] == WeightList(w)[i].0;
    }
  }

  /** `get_reward_weights()` as keyword arguments. */
  function AsKwargs(ws: seq<(string, real)>): (m: map<string, real>)
    ensures forall i :: 0 <= i < |ws| ==> ws[i].0 in m
  {
    if |ws| == 0 then map[] else AsKwargs(ws[..|ws| - 1])[ws[|ws| - 1].0 := ws[|ws| - 1].1]
  }

  lemma AsKwargsSnoc(ws: seq<(string, real)>, k: nat)
    requires k < |ws|
    ensures AsKwargs(ws[..k + 1]) == AsKwargs(ws[..k])[ws[k].0 := ws[k].1]
  {
    assert ws[..k + 1][..k] == ws[..k];
  }

  /** Feeding `get_reward_weights` back to `update_weights` changes nothing. */
  lemma WithUpdatesRoundTrip(w: Weights)
    ensures WithUpdates(w, AsKwargs(WeightList(w))) == w
  {
    var ws := WeightList(w);
    assert ws[..0] == [] && ws[..7] == ws;
    AsKwargsSnoc(ws, 0);
    AsKwargsSnoc(ws, 1);
    AsKwargsSnoc(ws, 2);
    AsKwargsSnoc(ws, 3);
    AsKwargsSnoc(ws, 4);
    AsKwargsSnoc(ws, 5);
    AsKwargsSnoc(ws, 6);
    assert AsKwargs(ws) == map["attack_blocked_reward" := w.attackBlockedReward,
      "legitimate_allowed_reward" := w.legitimateAllowedReward,
      "false_positive_penalty" := w.falsePositivePenalty,
      "false_negative_penalty" := w.falseNegativePenalty,
      "latency_penalty_threshold_ms" := w.latencyPenaltyThresholdMs,
      "max_latency_penalty" := w.maxLatencyPenalty,
      "efficiency_bonus" := w.efficiencyBonus];
  }

  /** Keyword arguments that name no weight are ignored. */
  lemma WithUpdatesIgnoresOthers(w: Weights, junk: map<string, real>)
    requires forall k :: k in junk ==> k !in WeightNames
    ensures WithUpdates(w, junk) == w
  {
    assert forall k :: k in WeightNames ==> k !in junk;
  }

  class RewardCalculator {
    var attackBlockedReward: real
    var legitimateAllowedReward: real
    var falsePositivePenalty: real
    var falseNegativePenalty: real
    var latencyPenaltyThresholdMs: real
    var maxLatencyPenalty: real
    var efficiencyBonus: real

    constructor (w: Weights)
      ensures CurrentWeights() == w
    {
      attackBlockedReward := w.attackBlockedReward;
      legitimateAllowedReward := w.legitimateAllowedReward;
      falsePositivePenalty := w.falsePositivePenalty;
      falseNegativePenalty := w.falseNegativePenalty;
      latencyPenaltyThresholdMs := w.latencyPenaltyThresholdMs;
      maxLatencyPenalty := w.maxLatencyPenalty;
      efficiencyBonus := w.efficiencyBonus;
    }

    function CurrentWeights(): Weights
      reads this
    {
      Weights(attackBlockedReward, legitimateAllowedReward, falsePositivePenalty, falseNegativePenalty,
              latencyPenaltyThresholdMs, maxLatencyPenalty, efficiencyBonus)
    }

    /** `calculate_reward` with the current weights. */
    function CalculateReward(action: Action, o: Outcome): real
      reads this
      requires LatencyDefined(CurrentWeights(), o)
    {
      Reward(CurrentWeights(), action, o)
    }

    /** `calculate_reward_from_features` with the current weights. */
    function CalculateRewardFromFeatures(action: Action, features: FeatureDict, o: Outcome): real
      reads this
      requires LatencyDefined(CurrentWeights(), o)
    {
      RewardFromFeatures(CurrentWeights(), action, features, o)
    }

    /** `get_reward_weights`. */
    function GetRewardWeights(): seq<(string, real)>
      reads this
    {
      WeightList(CurrentWeights())
    }

    /** `update_weights(**kwargs)`: one `setattr` per keyword argument naming a weight. */
    method UpdateWeights(kwargs: map<string, real>)
      modifies this
      ensures CurrentWeights() == WithUpdates(old(CurrentWeights()), kwargs)
    {
      var pending := kwargs.Keys;
      while pending != {}
        invariant pending <= kwargs.Keys
        invariant CurrentWeights() == WithUpdates(old(CurrentWeights()), kwargs - pending)
        decreases |pending|
      {
        var key :| key in pending;
        var value := kwargs[key];
        WithUpdatesStep(old(CurrentWeights()), kwargs - pending, key, value);
        assert (kwargs - pending)[key := value] == kwargs - (pending - {key});
        if key == "attack_blocked_reward" {
          attackBlockedReward := value;
        } else if key == "legitimate_allowed_reward" {
          legitimateAllowedReward := value;
        } else if key == "false_positive_penalty" {
          falsePositivePenalty := value;
        } else if key == "false_negative_penalty" {
          falseNegativePenalty := value;
        } else if key == "latency_penalty_threshold_ms" {
          latencyPenaltyThresholdMs := value;
        } else if key == "max_latency_penalty" {
          maxLatencyPenalty := value;
        } else if key == "efficiency_bonus" {
          efficiencyBonus := value;
        }
        pending := pending - {key};
      }
      assert kwargs - {} == kwargs;
    }
  }
}
