# Decision components of an adaptive SQL-injection WAF

This project models, in Dafny, the decision pipeline of an adaptive web
application firewall against SQL injection. A request is turned into a
fifteen-key feature dictionary. An epsilon-greedy policy agent chooses one of
six actions from a Q-table keyed by the canonical form of that dictionary. A
safety layer rewrites the chosen action. An executor carries the action out and
counts it. A reward calculator scores the action against the observed outcome,
and the agent learns from that score.

| file | module | models |
|---|---|---|
| `actions.dfy` | `Actions` | the six-value `Action` enum and its declaration order |
| `text.dfy` | `Text` | the Python string operations the components use: `lower`, `startswith`, `count`, `replace`, `split`/`join`, character classes |
| `dicts.dfy` | `Dicts` | insertion-ordered dictionaries as sequences of pairs, and `int`/`float` values |
| `state_key.dfy` | `StateKeys` | `_state_to_key`: keys sorted, floats rounded to four places |
| `rl_agent.dfy` | `PolicyAgents` | `PolicyAgent` as a class: Q-table, hyper-parameters, counters, checkpoints |
| `safety_layer.dfy` | `SafetyLayer` | `apply_constraints`, the endpoint and origin checks, `get_allowed_actions` |
| `action_executor.dfy` | `ActionExecutor` | the handlers, `_sanitize_text`, and the `ActionExecutor` class with its counters |
| `reward_calculator.dfy` | `RewardCalculator` | the additive reward, the attack-probability heuristic, and the weights class |
| `feature_extractor.dfy` | `FeatureExtractor` | `extract_features` and all of its helpers |

The components follow the source's own form:
- The agent, the executor's counters and the reward weights change in place, so they are classes whose methods carry `modifies` clauses.
- The safety layer, the sanitiser and the feature extractor are functions of their arguments.
- Randomness becomes parameters: `coin` stands for `random.random()` and `pick` for the index `random.choice` takes.
- File I/O is replaced by an in-memory checkpoint store.
- Shannon entropy is a parameter `entropyOf: string -> real`.

## Model

| member | source | states |
|---|---|---|
| `Actions.AllActionsComplete` | ML-based-WAF/WAF/rl_agent.py:20-27 | every action appears in the enum-ordered list `list(Action)` iterates |
| `Actions.AllActionsDistinct` | ML-based-WAF/WAF/rl_agent.py:20-27 | the six actions are pairwise distinct |
| `Text.LowerStr` | ML-based-WAF/WAF/feature_extractor.py:151 | `lower()` on ASCII: keeps the length, lowers each ASCII capital and leaves every other character |
| `Text.CharCountSplitAt` | ML-based-WAF/WAF/feature_extractor.py:51 | splitting a slice at an occurrence of a character splits its count, plus one for that occurrence |
| `Text.LowerStrIdempotent` | ML-based-WAF/WAF/feature_extractor.py:55 | lowering twice is lowering once |
| `Text.StartsWithIsPrefix` | ML-based-WAF/WAF/safety_layer.py:97-100 | the step-by-step prefix match is Dafny's prefix relation |
| `Text.CountOccZeroIff` | ML-based-WAF/WAF/feature_extractor.py:169-170 | a non-overlapping `count` is 0 exactly when the pattern occurs at no position |
| `Text.CountOccChar` | ML-based-WAF/WAF/feature_extractor.py:51-54 | counting a one-character pattern counts that character |
| `Text.CountOccAbsentChar` | ML-based-WAF/WAF/feature_extractor.py:168-170 | a pattern with a character the text lacks is counted 0 times |
| `Text.CountOccSkip` | ML-based-WAF/WAF/feature_extractor.py:55 | a prefix without the pattern's first character adds no occurrence |
| `Text.CharCountAppend` | ML-based-WAF/WAF/feature_extractor.py:51 | character counts add up over concatenation |
| `Text.SplitWordSpace` | ML-based-WAF/WAF/feature_extractor.py:121 | a word, one space and more text split into that word and the split of the rest |
| `Text.SplitThreeWords` | ML-based-WAF/WAF/feature_extractor.py:121 | three space-free words joined by single spaces split back into those three words |
| `Text.CharCountMultiset` | ML-based-WAF/WAF/feature_extractor.py:51-54 | a character count is that character's multiplicity |
| `Text.RemoveAllShrinks` | ML-based-WAF/WAF/action_executor.py:147-149 | `replace(p, '')` only deletes characters |
| `Text.RemoveAllCiShrinks` | ML-based-WAF/WAF/action_executor.py:142-144 | case-insensitive `re.sub(kw, '')` only deletes characters |
| `Text.RemoveAllCharGone` | ML-based-WAF/WAF/action_executor.py:157 | after `replace(c, '')` no `c` is left |
| `Text.Split` | ML-based-WAF/WAF/feature_extractor.py:121 | `split()` yields non-empty words without whitespace |
| `Text.DropSpacesEmptyIff` | ML-based-WAF/WAF/feature_extractor.py:72 | `strip()` gives empty text exactly when the text is all whitespace |
| `Text.CollapseWord` | ML-based-WAF/WAF/feature_extractor.py:119-121 | one whitespace-free word survives whitespace normalisation unchanged |
| `Dicts.GetFound` | ML-based-WAF/WAF/feature_extractor.py:43-73 | a lookup succeeds exactly when the key is stored, and returns a stored pair's value |
| `Dicts.GetStored` | ML-based-WAF/WAF/feature_extractor.py:43-73 | in a dictionary with distinct keys, each stored pair is what its key reads |
| `Dicts.PutKeys` | ML-based-WAF/WAF/feature_extractor.py:71-73 | `d[k] = v` keeps the key order, appending a new key at the end |
| `Dicts.GetPut` | ML-based-WAF/WAF/feature_extractor.py:71-73 | after `d[k] = v`, `k` reads `v` and every other key reads as before |
| `StateKeys.StrLtTransitive` | ML-based-WAF/WAF/rl_agent.py:77 | the string order `sorted` uses is transitive |
| `StateKeys.StrLtTotal` | ML-based-WAF/WAF/rl_agent.py:77 | two different strings are ordered one way or the other |
| `StateKeys.Round4Close` | ML-based-WAF/WAF/rl_agent.py:79-80 | rounding to four places moves a float by at most half a unit in the fourth place |
| `StateKeys.Round4Idempotent` | ML-based-WAF/WAF/rl_agent.py:79-80 | a rounded value rounds to itself |
| `StateKeys.RoundEntries` | ML-based-WAF/WAF/rl_agent.py:78-81 | each entry is kept with its value rounded when it is a float |
| `StateKeys.StateToKey` | ML-based-WAF/WAF/rl_agent.py:65-82 | the append loop over the sorted keys builds exactly the sorted, rounded key |
| `StateKeys.InsertByKeyContents` | ML-based-WAF/WAF/rl_agent.py:77 | inserting adds the entry and loses nothing |
| `StateKeys.InsertByKeySorted` | ML-based-WAF/WAF/rl_agent.py:77 | inserting a fresh key into a key-sorted list keeps it sorted |
| `StateKeys.SortByKeyCorrect` | ML-based-WAF/WAF/rl_agent.py:77 | sorting yields a key-sorted permutation of the entries |
| `StateKeys.SortedUnique` | ML-based-WAF/WAF/rl_agent.py:77 | two key-sorted lists with the same entries are equal |
| `StateKeys.SortRounded` | ML-based-WAF/WAF/rl_agent.py:74-81 | rounding and sorting commute |
| `StateKeys.KeyOfSortedRounded` | ML-based-WAF/WAF/rl_agent.py:74-82 | the key is sorted by name and holds exactly the rounded entries |
| `StateKeys.KeyOfOrderIndependent` | ML-based-WAF/WAF/rl_agent.py:74-82 | two feature dictionaries with the same rounded entries give the same key, in whatever order they were built |
| `PolicyAgents.Materialized` | ML-based-WAF/WAF/rl_agent.py:116-119 | reading all six Q-values of a state through the defaultdict adds the missing pairs with the default value and keeps every stored pair |
| `PolicyAgents.PrefixLookup` | ML-based-WAF/WAF/rl_agent.py:117-118 | after the loop has read any number of actions through the defaultdict, every lookup returns what it returned before |
| `PolicyAgents.PrefixKeys` | ML-based-WAF/WAF/rl_agent.py:117-118 | after reading the first n actions the table holds exactly the old pairs and the state's first n pairs |
| `PolicyAgents.MaterializedPrefixAll` | ML-based-WAF/WAF/rl_agent.py:117-118 | reading all six actions one by one leaves the same table as materialising the whole row |
| `PolicyAgents.MaterializedLookups` | ML-based-WAF/WAF/rl_agent.py:116-119 | the reads change no Q-value any later read sees |
| `PolicyAgents.QRow` | ML-based-WAF/WAF/rl_agent.py:117-119 | the row lists each action's Q-value in enum order |
| `PolicyAgents.Max` | ML-based-WAF/WAF/rl_agent.py:123 | `max` returns an element that no element exceeds |
| `PolicyAgents.ArgMaxes` | ML-based-WAF/WAF/rl_agent.py:124 | the list holds exactly the actions whose value equals the maximum |
| `PolicyAgents.MaxIsAttained` | ML-based-WAF/WAF/rl_agent.py:123-124 | the list of best actions is never empty |
| `PolicyAgents.BestActionsMaximal` | ML-based-WAF/WAF/rl_agent.py:116-125 | the best actions are non-empty, none is beaten, and every action with the maximal Q-value is among them |
| `PolicyAgents.UpdateContracts` | ML-based-WAF/WAF/rl_agent.py:145-152 | for a learning rate in [0,1], the distance to the reward shrinks by the factor 1 − lr |
| `PolicyAgents.UpdateExtremes` | ML-based-WAF/WAF/rl_agent.py:149 | learning rate 0 keeps Q; learning rate 1 sets Q to the reward |
| `PolicyAgents.RepeatedOffset` | ML-based-WAF/WAF/rl_agent.py:149 | after n identical updates the signed offset from the reward is (1 − lr)^n times the first offset, for any learning rate |
| `PolicyAgents.RepeatedDistance` | ML-based-WAF/WAF/rl_agent.py:149 | after n identical updates the distance is (1 − lr)^n times the first distance |
| `PolicyAgents.RepeatedApproaches` | ML-based-WAF/WAF/rl_agent.py:149 | repeated identical updates never move Q away from the reward |
| `PolicyAgents.PowBernoulli` | ML-based-WAF/WAF/rl_agent.py:149 | (1 − lr)^n · (1 + n·lr) ≤ 1, the bound behind convergence |
| `PolicyAgents.RepeatedConverges` | ML-based-WAF/WAF/rl_agent.py:149 | after n identical updates the distance is at most the first distance over 1 + n·lr |
| `PolicyAgents.Clamp01` | ML-based-WAF/WAF/rl_agent.py:250 | `max(0.0, min(1.0, e))` lies in [0,1] and equals `e` when `e` already does |
| `PolicyAgents.ExplorationRatio` | ML-based-WAF/WAF/rl_agent.py:177-181 | the ratio is in [0,1], 0 without decisions, and exploration/total otherwise |
| `PolicyAgents.GreedyNeverExplores` | ML-based-WAF/WAF/rl_agent.py:96 | with epsilon 0, `random() < epsilon` never holds |
| `PolicyAgents.PolicyAgent.constructor` | ML-based-WAF/WAF/rl_agent.py:43-63 | empty Q-table, the given hyper-parameters, all counters 0 |
| `PolicyAgents.PolicyAgent.ReadQValues` | ML-based-WAF/WAF/rl_agent.py:116-119 | the loop returns each action's Q-value and leaves the table materialised for the state |
| `PolicyAgents.PolicyAgent.GetBestAction` | ML-based-WAF/WAF/rl_agent.py:107-125 | the result is the tie-break's pick among the best actions, and no action has a higher Q-value |
| `PolicyAgents.PolicyAgent.Explore` | ML-based-WAF/WAF/rl_agent.py:96-99 | the exploration branch returns the drawn element of all six actions and counts one exploration |
| `PolicyAgents.PolicyAgent.Exploit` | ML-based-WAF/WAF/rl_agent.py:100-103 | the exploitation branch counts one exploitation, only stores defaults (no Q-value changes), and returns the tie-break's pick among the maximal actions |
| `PolicyAgents.PolicyAgent.SelectAction` | ML-based-WAF/WAF/rl_agent.py:84-105 | exactly one decision counter goes up by one, no Q-value changes, exploring picks from all actions, and exploiting returns a maximal action |
| `PolicyAgents.PolicyAgent.Update` | ML-based-WAF/WAF/rl_agent.py:127-154 | Q(key(s), a) becomes old + lr·(reward − old), with old defaulting; every other pair is unchanged; `total_updates` goes up by one |
| `PolicyAgents.PolicyAgent.GetQValues` | ML-based-WAF/WAF/rl_agent.py:156-169 | each action maps to its Q-value in the state, and the reads materialise the entries |
| `PolicyAgents.PolicyAgent.GetStatistics` | ML-based-WAF/WAF/rl_agent.py:171-192 | total decisions is the sum of the counters; the ratio is in [0,1] and times the total gives the exploration count; the other fields are copied |
| `PolicyAgents.PolicyAgent.SaveCheckpoint` | ML-based-WAF/WAF/rl_agent.py:194-211 | the store maps the path to a snapshot of every field, and no other path changes |
| `PolicyAgents.PolicyAgent.LoadCheckpoint` | ML-based-WAF/WAF/rl_agent.py:213-242 | it succeeds exactly when the path is stored, restores every field, and leaves the agent untouched when the path is missing |
| `PolicyAgents.PolicyAgent.SetEpsilon` | ML-based-WAF/WAF/rl_agent.py:244-250 | epsilon becomes the clamped argument, always in [0,1] |
| `PolicyAgents.PolicyAgent.ResetStatistics` | ML-based-WAF/WAF/rl_agent.py:252-256 | the three counters are zero |
| `PolicyAgents.CheckpointRoundTrip` | ML-based-WAF/WAF/rl_agent.py:200-242 | loading what one agent saved makes another agent's snapshot, Q-values and best actions equal to the first's |
| `SafetyLayer.ProtectedEndpointIff` | ML-based-WAF/WAF/safety_layer.py:27-32 | an endpoint is protected exactly when it starts with `/admin`, `/api/auth`, `/health` or `/metrics` |
| `SafetyLayer.ClassBOctetIff` | ML-based-WAF/WAF/safety_layer.py:39 | the second-octet group of the class-B pattern matches exactly the two-digit numbers 16 to 31 |
| `SafetyLayer.InternalIpUnrolled` | ML-based-WAF/WAF/safety_layer.py:102-114 | the pattern loop is the disjunction of the six patterns |
| `SafetyLayer.ClassBPrefixIff` | ML-based-WAF/WAF/safety_layer.py:39 | the class-B pattern matches exactly the origins starting with `172.`, a number from 16 to 31 in two digits, and a dot |
| `SafetyLayer.InternalIpIff` | ML-based-WAF/WAF/safety_layer.py:35-42 | an origin is internal exactly when it starts with `127.`, `192.168.`, `10.`, `fe80:` or `172.16.`–`172.31.`, or is `::1` |
| `SafetyLayer.ApplyConstraints` | ML-based-WAF/WAF/safety_layer.py:54-86 | the result is the input action, CHALLENGE or ALLOW, and BLOCK comes out only when BLOCK went in |
| `SafetyLayer.ApplyConstraintsDecision` | ML-based-WAF/WAF/safety_layer.py:66-86 | the four ordered rules as one decision: ALLOW for known-safe or health checks, else BLOCK softened to CHALLENGE for protected or internal, else unchanged |
| `SafetyLayer.ProtectedNeverBlocked` | ML-based-WAF/WAF/safety_layer.py:69-71 | a protected endpoint is never blocked, whatever the input action |
| `SafetyLayer.InternalNeverBlocked` | ML-based-WAF/WAF/safety_layer.py:74-76 | an internal origin is never blocked |
| `SafetyLayer.SafeTrafficAllowed` | ML-based-WAF/WAF/safety_layer.py:79-84 | known-safe context, `/health` and `/ping` force ALLOW |
| `SafetyLayer.NonBlockKept` | ML-based-WAF/WAF/safety_layer.py:66-86 | a non-BLOCK action is returned unchanged unless rule 3 or 4 fires |
| `SafetyLayer.ApplyConstraintsIdempotent` | ML-based-WAF/WAF/safety_layer.py:66-86 | applying the constraints twice gives the same action as once |
| `SafetyLayer.RemoveFirstAt` | ML-based-WAF/WAF/safety_layer.py:133 | `list.remove` deletes the first occurrence only |
| `SafetyLayer.RemoveFirstAbsent` | ML-based-WAF/WAF/safety_layer.py:132-133 | removing an absent element changes nothing |
| `SafetyLayer.GetAllowedActionsExact` | ML-based-WAF/WAF/safety_layer.py:116-140 | the list is the enum in order, minus BLOCK exactly when the endpoint is protected or the origin internal |
| `SafetyLayer.AllowedAgreesWithConstraints` | ML-based-WAF/WAF/safety_layer.py:116-140 | BLOCK missing from the allowed list means the layer never returns BLOCK; without a context and apart from `/ping`, the converse holds too |
| `SafetyLayer.OriginExamples` | ML-based-WAF/WAF/safety_layer.py:35-42 | `203.0.113.5` is external and `127.0.0.1` internal |
| `SafetyLayer.EndpointExamples` | ML-based-WAF/WAF/safety_layer.py:27-32 | `/admin/users` is protected and `/api/data` is not |
| `SafetyLayer.ConstraintExamples` | ML-based-WAF/WAF/safety_layer.py:54-86 | BLOCK on `/admin/users`, or from `127.0.0.1`, becomes CHALLENGE |
| `SafetyLayer.AllowedExamples` | ML-based-WAF/WAF/safety_layer.py:116-140 | `/admin/users` loses BLOCK; an external origin on `/api/data` keeps all six actions |
| `ActionExecutor.RemoveKeywordsShrinks` | ML-based-WAF/WAF/action_executor.py:142-144 | the keyword loop only deletes characters |
| `ActionExecutor.CollapseRunsShrinks` | ML-based-WAF/WAF/action_executor.py:153-154 | collapsing quote runs only deletes characters and keeps the first |
| `ActionExecutor.CollapseRunsNoPair` | ML-based-WAF/WAF/action_executor.py:153-154 | after collapsing, the quote never follows itself |
| `ActionExecutor.SanitizeShrinks` | ML-based-WAF/WAF/action_executor.py:127-159 | sanitising only deletes characters, never lengthens, and leaves no `;` |
| `ActionExecutor.Dispatch` | ML-based-WAF/WAF/action_executor.py:56-211 | the result names the action; `allowed` holds exactly for ALLOW, LOG_ONLY, SANITIZE and THROTTLE; only SANITIZE may modify; BLOCK carries 403, CHALLENGE `challenge_required`, THROTTLE the delay, LOG_ONLY `requires_logging` |
| `ActionExecutor.SanitizeResult` | ML-based-WAF/WAF/action_executor.py:95-125 | `modified` holds exactly when the path or body text changed; other keys, headers included, are kept; empty or `None` fields are left as they are |
| `ActionExecutor.ZeroCounts` | ML-based-WAF/WAF/action_executor.py:37 | every action starts at count 0 |
| `ActionExecutor.IncrementTotal` | ML-based-WAF/WAF/action_executor.py:54 | one execution adds one to its action's count and to the total, and no other count changes |
| `ActionExecutor.CountsInOrder` | ML-based-WAF/WAF/action_executor.py:222-225 | one (value, count) pair per action, in enum order |
| `ActionExecutor.Percentages` | ML-based-WAF/WAF/action_executor.py:230-233 | each action's count / total × 100 |
| `ActionExecutor.Statistics` | ML-based-WAF/WAF/action_executor.py:213-235 | the total is the counts' sum; the percentages are present exactly when the total is positive |
| `ActionExecutor.StatisticsConsistent` | ML-based-WAF/WAF/action_executor.py:219-233 | the listed counts add up to the total, and the percentages add up to 100 |
| `ActionExecutor.ActionExecutor.constructor` | ML-based-WAF/WAF/action_executor.py:30-37 | the given delay, all counters 0 |
| `ActionExecutor.ActionExecutor.Execute` | ML-based-WAF/WAF/action_executor.py:39-70 | the action's counter goes up by one, and the result is that action's handler |
| `ActionExecutor.KeywordsInitials` | ML-based-WAF/WAF/action_executor.py:25-28 | every keyword starts with one of `suidcaej` |
| `ActionExecutor.KeywordsIgnoreAvoided` | ML-based-WAF/WAF/action_executor.py:142-144 | text with none of those letters passes the keyword loop unchanged |
| `ActionExecutor.SanitizeNotIdempotent` | ML-based-WAF/WAF/action_executor.py:147-149 | `-/**/-` sanitises to `--`, which a second pass removes |
| `ActionExecutor.StripPunctuationKeeps` | ML-based-WAF/WAF/action_executor.py:147-157 | text without comment characters, `;` or doubled quotes passes the punctuation steps unchanged |
| `ActionExecutor.SanitizeKeeps` | ML-based-WAF/WAF/action_executor.py:127-159 | such text that also avoids the keyword initials is left unchanged |
| `ActionExecutor.SanitizeKeepsTautology` | ML-based-WAF/WAF/action_executor.py:25-28 | `' OR '1'='1` is left unchanged, since `or` is not a keyword |
| `RewardCalculator.BaseTerm` | ML-based-WAF/WAF/reward_calculator.py:81-117 | the correctness term for BLOCK/CHALLENGE and ALLOW/LOG_ONLY by attack label; SANITIZE and THROTTLE earn 0.7/0.8 and 0.5/0.6 of a weight |
| `RewardCalculator.LatencyPenalty` | ML-based-WAF/WAF/reward_calculator.py:122-126 | the penalty is never positive, and 0 for a non-negative `max_latency_penalty` with a positive threshold |
| `RewardCalculator.LatencyTerm` | ML-based-WAF/WAF/reward_calculator.py:120-127 | the latency term is never positive, and 0 up to the threshold |
| `RewardCalculator.IncidentTerm` | ML-based-WAF/WAF/reward_calculator.py:130-135 | never positive, and 0 exactly when there is neither a database error nor a complaint; −0.5 for a database error alone, −1.0 for a complaint alone, −1.5 for both |
| `RewardCalculator.EfficiencyTerm` | ML-based-WAF/WAF/reward_calculator.py:138-140 | the bonus is paid exactly for LOG_ONLY or SANITIZE on legitimate traffic |
| `RewardCalculator.StatusTerm` | ML-based-WAF/WAF/reward_calculator.py:143-147 | status ≥ 500 adds −0.3; 4xx other than 403 adds −0.1; anything else adds 0 |
| `RewardCalculator.RewardDecomposition` | ML-based-WAF/WAF/reward_calculator.py:72-149 | the reward is the sum of the five terms, with missing keys at their defaults |
| `RewardCalculator.ActionDifference` | ML-based-WAF/WAF/reward_calculator.py:81-140 | two actions on one outcome differ only in their correctness and efficiency terms |
| `RewardCalculator.BlockBeatsAllowOnAttack` | ML-based-WAF/WAF/reward_calculator.py:81-97 | on an attack, BLOCK outscores ALLOW whenever the block reward exceeds the false-negative penalty |
| `RewardCalculator.DefaultAttackRanking` | ML-based-WAF/WAF/reward_calculator.py:81-117 | with the default weights an attack ranks BLOCK = CHALLENGE > SANITIZE > THROTTLE > ALLOW = LOG_ONLY |
| `RewardCalculator.DefaultLegitimateRanking` | ML-based-WAF/WAF/reward_calculator.py:81-140 | with the default weights legitimate traffic ranks LOG_ONLY > SANITIZE > ALLOW > THROTTLE > BLOCK = CHALLENGE |
| `RewardCalculator.LatencyPenaltyUncapped` | ML-based-WAF/WAF/reward_calculator.py:120-127 | at 3000 ms the default latency term is −1.0, below `max_latency_penalty` |
| `RewardCalculator.EmptyOutcomeDefaults` | ML-based-WAF/WAF/reward_calculator.py:72-76 | an empty outcome scores as legitimate, status 200, no latency, no incident |
| `RewardCalculator.EstimateAttackProbability` | ML-based-WAF/WAF/reward_calculator.py:151-187 | the estimate lies in [0,1] |
| `RewardCalculator.ProbabilityIsCappedWeight` | ML-based-WAF/WAF/reward_calculator.py:163-187 | the estimate is min(1, total weight of the indicators that fire) |
| `RewardCalculator.FiredWeightBounds` | ML-based-WAF/WAF/reward_calculator.py:163-184 | the fired weight is non-negative, bounded by count × largest weight, and 0 exactly when nothing fires |
| `RewardCalculator.ProbabilityNeedsIndicators` | ML-based-WAF/WAF/reward_calculator.py:163-187 | the estimate is 0 exactly when no indicator fires, and exceeding 0.5 needs two indicators |
| `RewardCalculator.QuotesAndOrScore` | ML-based-WAF/WAF/reward_calculator.py:151-213 | features with no keyword, four quotes, no comment marker, one ` or `, entropy at most 5 and depth 0 estimate 0.4, since only the quote and ` or ` indicators fire, so with the default weights BLOCK scores −2.0 and ALLOW 0.5 |
| `RewardCalculator.RewardFromFeaturesIgnoresLabel` | ML-based-WAF/WAF/reward_calculator.py:189-213 | the score is `calculate_reward` with `is_attack := estimate > 0.5`, whatever label the outcome carried |
| `RewardCalculator.TautologyEstimate` | ML-based-WAF/WAF/reward_calculator.py:163-213 | on the features `extract_features` computes for a GET of `/api/user?id=1' OR '1'='1` (entropy at most 5), the estimate is 0.4, so BLOCK scores −2.0 and ALLOW 0.5 |
| `RewardCalculator.WeightList` | ML-based-WAF/WAF/reward_calculator.py:215-229 | the seven weight names, in order |
| `RewardCalculator.WithUpdatesStep` | ML-based-WAF/WAF/reward_calculator.py:239-241 | one more keyword argument is one more `setattr` |
| `RewardCalculator.WithUpdatesReported` | ML-based-WAF/WAF/reward_calculator.py:221-241 | each reported weight is the keyword argument of that name if one was given, else the old weight |
| `RewardCalculator.AsKwargs` | ML-based-WAF/WAF/reward_calculator.py:221-229 | every reported name becomes a keyword argument |
| `RewardCalculator.WithUpdatesRoundTrip` | ML-based-WAF/WAF/reward_calculator.py:215-241 | passing `get_reward_weights()` back to `update_weights` changes nothing |
| `RewardCalculator.WithUpdatesIgnoresOthers` | ML-based-WAF/WAF/reward_calculator.py:239-241 | keyword arguments that name no weight are ignored |
| `RewardCalculator.RewardCalculator.constructor` | ML-based-WAF/WAF/reward_calculator.py:28-55 | the calculator holds the given weights |
| `RewardCalculator.RewardCalculator.UpdateWeights` | ML-based-WAF/WAF/reward_calculator.py:231-241 | the weights become the old ones updated by the keyword arguments |
| `FeatureExtractor.DecodeOnce` | ML-based-WAF/WAF/feature_extractor.py:136 | one decoding round never lengthens the text |
| `FeatureExtractor.PlainCons` | ML-based-WAF/WAF/feature_extractor.py:136-137 | text is plain exactly when its head is neither `+` nor an escape and its tail is plain |
| `FeatureExtractor.DecodeFixedIff` | ML-based-WAF/WAF/feature_extractor.py:137-138 | a decoding round leaves text unchanged exactly when it has no `+` and no valid `%XY` |
| `FeatureExtractor.PlainSlice` | ML-based-WAF/WAF/feature_extractor.py:119-121 | a piece of plain text is plain |
| `FeatureExtractor.PlainJoinSpace` | ML-based-WAF/WAF/feature_extractor.py:101 | joining two plain texts with a space is plain |
| `FeatureExtractor.PlainJoin` | ML-based-WAF/WAF/feature_extractor.py:101 | joining plain parts with spaces is plain |
| `FeatureExtractor.PlainSplit` | ML-based-WAF/WAF/feature_extractor.py:121 | the words of plain text are plain |
| `FeatureExtractor.PlainCollapse` | ML-based-WAF/WAF/feature_extractor.py:119-121 | whitespace normalisation keeps text plain |
| `FeatureExtractor.DepthRounds` | ML-based-WAF/WAF/feature_extractor.py:253-263 | the depth never exceeds the round budget |
| `FeatureExtractor.RoundsAgree` | ML-based-WAF/WAF/feature_extractor.py:253-263 | `_unquote` returns the text decoded as many times as the depth counts; each counted round changed the text, and below the cap the result is a fixed point |
| `FeatureExtractor.UnquoteIsDepthRounds` | ML-based-WAF/WAF/feature_extractor.py:134-140 | the depth is in [0,10]; below 10 the decoded text is plain |
| `FeatureExtractor.PlainNotDecoded` | ML-based-WAF/WAF/feature_extractor.py:253-263 | plain text has depth 0 and decodes to itself |
| `FeatureExtractor.CleanAll` | ML-based-WAF/WAF/feature_extractor.py:86-99 | each source is cleaned, in order |
| `FeatureExtractor.CharFeature` | ML-based-WAF/WAF/feature_extractor.py:52-54 | `count` of a one-character pattern is the number of times that character occurs, used for `;` and `=` |
| `FeatureExtractor.Ratio` | ML-based-WAF/WAF/feature_extractor.py:199-242 | each ratio lies in [0,1] and is 0 for empty text |
| `FeatureExtractor.Zip` | ML-based-WAF/WAF/feature_extractor.py:50-65 | the dictionary pairs each name with its value, in order |
| `FeatureExtractor.FeatureNamesDistinct` | ML-based-WAF/WAF/feature_extractor.py:271-287 | the fifteen feature names are distinct |
| `FeatureExtractor.BaseFeaturesKeys` | ML-based-WAF/WAF/feature_extractor.py:48-68 | the non-empty branch stores the twelve text keys; the empty branch stores all fifteen |
| `FeatureExtractor.FlagsAppended` | ML-based-WAF/WAF/feature_extractor.py:71-73 | the flags append the three metadata keys after the text keys |
| `FeatureExtractor.FlagsOverwritten` | ML-based-WAF/WAF/feature_extractor.py:66-73 | on the zero dictionary the flags overwrite in place |
| `FeatureExtractor.ExtractFeaturesKeys` | ML-based-WAF/WAF/feature_extractor.py:40-75 | both branches return the same fifteen keys, in the same order, each once |
| `FeatureExtractor.SetFlagsValues` | ML-based-WAF/WAF/feature_extractor.py:71-73 | the flags store their values and leave the text features alone |
| `FeatureExtractor.MetadataFlags` | ML-based-WAF/WAF/feature_extractor.py:71-73 | each flag is 0 or 1: `method_is_post` is 1 exactly for POST, `has_body` exactly for a non-blank body, `has_cookie` exactly when the headers hold `Cookie` |
| `FeatureExtractor.EmptyTextZeros` | ML-based-WAF/WAF/feature_extractor.py:271-283 | with empty combined text every text feature is 0 |
| `FeatureExtractor.QuoteCountChars` | ML-based-WAF/WAF/feature_extractor.py:51 | the quote count is the number of `'` plus the number of `"` |
| `FeatureExtractor.CountFeatures` | ML-based-WAF/WAF/feature_extractor.py:46-58 | `quote_count`, `semicolon_count`, `equals_count` and `length` are those counts of the combined text |
| `FeatureExtractor.PatternFeatures` | ML-based-WAF/WAF/feature_extractor.py:50-55 | `sql_keyword_count`, `comment_pattern_count` and `or_and_count` are those counts of the combined text |
| `FeatureExtractor.BoundedFeatures` | ML-based-WAF/WAF/feature_extractor.py:199-263 | the three ratios lie in [0,1] and `encoding_depth` in [0,10] |
| `FeatureExtractor.WordMatchesZeroIff` | ML-based-WAF/WAF/feature_extractor.py:155-156 | a keyword has no word-bounded match exactly when it matches at no position |
| `FeatureExtractor.KeywordFreeIff` | ML-based-WAF/WAF/feature_extractor.py:151-157 | the keyword loop counts 0 exactly when no keyword has a word-bounded match anywhere |
| `FeatureExtractor.CaseBlindCounts` | ML-based-WAF/WAF/feature_extractor.py:151-157 | the keyword and or/and counts ignore letter case |
| `FeatureExtractor.MarkerFreeText` | ML-based-WAF/WAF/feature_extractor.py:18-22 | text with none of `t`, `o`, `l`, `x`, which every keyword contains, has keyword count 0 |
| `FeatureExtractor.OtherHeadersIgnored` | ML-based-WAF/WAF/feature_extractor.py:86-101 | two requests agreeing on path, body, method and the `Cookie`, `User_Agent` and `Referer` headers get the same features |
| `FeatureExtractor.PlainWordPath` | ML-based-WAF/WAF/feature_extractor.py:86-123 | a plain, non-empty, whitespace-free path is its own combined text |
| `FeatureExtractor.BenignText` | ML-based-WAF/WAF/feature_extractor.py:51 | text of digits, `/?=&` and lower-case letters without `t`, `o`, `l`, `x` is plain and quote-free |
| `FeatureExtractor.BenignPathFeatures` | ML-based-WAF/WAF/feature_extractor.py:46-55 | such a path yields `sql_keyword_count` 0 and `quote_count` 0 |
| `FeatureExtractor.BenignPath` | ML-based-WAF/WAF/test_feature_extractor.py:10-12 | `/api/user?id=1` yields `sql_keyword_count` 0 and `quote_count` 0 |
| `FeatureExtractor.ClueFreeCount` | ML-based-WAF/WAF/feature_extractor.py:142-157 | text with none of t, l, x, n and c and no "dr" matches no SQL keyword |
| `FeatureExtractor.NoPairNoMatch` | ML-based-WAF/WAF/feature_extractor.py:142-157 | text without the pair "dr" has no word-bounded match of a keyword starting with "dr" |
| `FeatureExtractor.TautologyCombinedText` | ML-based-WAF/WAF/feature_extractor.py:77-123 | the path `/api/user?id=1' OR '1'='1` is its own combined text |
| `FeatureExtractor.TautologyKeywordFree` | ML-based-WAF/WAF/feature_extractor.py:142-157 | that path matches no SQL keyword (`or` is not one) |
| `FeatureExtractor.TautologyQuotes` | ML-based-WAF/WAF/feature_extractor.py:51 | that path has four quotes |
| `FeatureExtractor.TautologyNoComment` | ML-based-WAF/WAF/feature_extractor.py:159-171 | that path has no comment marker |
| `FeatureExtractor.TautologyOrAnd` | ML-based-WAF/WAF/feature_extractor.py:55 | that path has exactly one ` or ` and no ` and ` |
| `FeatureExtractor.OneOrBetween` | ML-based-WAF/WAF/feature_extractor.py:55 | two space-free pieces joined by ` or ` hold exactly one ` or ` |
| `FeatureExtractor.TautologyFeatures` | ML-based-WAF/WAF/test_feature_extractor.py:22-23 | a GET of that path yields `sql_keyword_count` 0, `quote_count` 4, `comment_pattern_count` 0, `or_and_count` 1, `encoding_depth` 0, and the path's entropy |
| `FeatureExtractor.CombinedTextDecoded` | ML-based-WAF/WAF/feature_extractor.py:86-123 | when no source needs all ten rounds, the combined text is plain with depth 0 |
| `FeatureExtractor.EncodingDepthFeature` | ML-based-WAF/WAF/feature_extractor.py:65 | `encoding_depth` is the depth of the combined text |
| `FeatureExtractor.RecordedDepthIsZero` | ML-based-WAF/WAF/feature_extractor.py:46-65 | as written, `encoding_depth` is 0 whenever no source needs all ten rounds |
| `FeatureExtractor.SourcesDepth` | ML-based-WAF/WAF/feature_extractor.py:253-263 | the depth of the raw sources: at most 10, at least each source's depth, and reached by one of them |
| `FeatureExtractor.IntendedFeaturesSpec` | ML-based-WAF/WAF/feature_extractor.py:40-75 | the corrected dictionary has the same fifteen keys, records the raw depth, and agrees elsewhere |
| `FeatureExtractor.DoubleEncodedDepth` | ML-based-WAF/WAF/feature_extractor.py:253-263 | `%2527` has depth 2 |
| `FeatureExtractor.DoubleEncodedQuote` | ML-based-WAF/WAF/feature_extractor.py:46-65 | for the path `%2527`, the raw depth is 2 but the recorded feature is 0 (the corrected dictionary records 2) |

## Left out

- `sniffing_rl.py` is not part of this model. That covers packet capture, argument parsing, database persistence, printing, and the mode gate that forces LOG_ONLY in passive mode.
- Pickle files and `os.path.exists` become a map from path to snapshot. A missing path is a missing key.
- `random.random()` and `random.choice` become the parameters `coin` (in [0,1)) and `pick` (taken modulo the list length). The model says which element is picked, not how likely it is.
- `time.sleep` in THROTTLE is left out. Only the `delay_ms` metadata is modelled.
- Shannon entropy (`math.log2`) is the parameter `entropyOf`. Its value is stored as given.
- Floats are modelled as exact reals. Rounding error is not modelled.
- `StateKeys.Round4`: rounds half up on exact reals. Python rounds the binary float half to even, so a tie can round differently.
- `urllib.parse.unquote_plus` is modelled as a simplified decoder: `+` becomes a space, a valid `%XY` becomes the character with that code, anything else is kept. UTF-8 sequences are not combined, so a non-ASCII escape decodes to one Latin-1 character.
- Character classes (`isalnum`, `isdigit`, `isupper`, `\w`) are ASCII only. `isspace` (`Text.IsSpace`) is Python's full whitespace set, Unicode separators included.
- `Text.LowerStr`: lower-cases ASCII capitals only. Python's `lower()` also maps non-ASCII letters, and `'İ'.lower()` is two characters long, so the model's length-preserving `lower()` differs on such input.
- `ActionExecutor.RemoveKeywordsFrom`: matches keywords with ASCII-only case folding. Python's `re.IGNORECASE` also lets `ſ` match `s`, `ı` and `İ` match `i`, and the Kelvin sign match `k`, so `_sanitize_text("ſelect")` removes the word in the source but keeps it in the model.
- `Dicts.Num`: `IntV(1)` and `FloatV(1.0)` are different values, so they give different state keys (`StateKeys.KeyOf`). In Python `1 == 1.0` with equal hashes, so a Q-entry stored under one is read through the other. The extractor gives each feature a fixed type, so keys built from its dictionaries never meet this case.
- `strip()`, `splitlines()` and `split()` in `_clean_text` are folded into one whitespace split. This holds only because every line separator is also whitespace.
- `ActionExecutor.Dispatch`: the unknown-action fallback to BLOCK is not modelled. `Action` is a closed datatype, and `execution_count[action] += 1` raises before the fallback for any other value.
- `ActionExecutor.ActionExecutor.Execute`: requires `request` and `body` to be strings or `None`, because sanitising any other value raises.
- `setattr` through `update_weights` on attributes other than the seven weights is left out. Those keys are ignored.
- `RewardCalculator.LatencyDefined`: the latency term divides by the threshold, so a zero threshold with a latency above it is a precondition rather than a `ZeroDivisionError`.
- Truthiness of outcome and context values other than booleans is left out. Those values are booleans or absent.
- `FeatureExtractor.KeywordFreeIff`: stated on the keyword loop over the lowered text (`KeywordCountFrom`). `CaseBlindCounts` makes the link to the feature.
- `PolicyAgents.PolicyAgent.Exploit` adds one to `exploitation_count` before the greedy lookup rather than after it. The two steps touch different fields, so the resulting state is the same.
- `ExtractFeatures` keeps the as-written `encoding_depth`, since that value is what the agent's state key consumes. `IntendedFeatures` is the corrected dictionary.

## Behaviours worth knowing

These follow the code as written and are proved about it. Where the design description says otherwise, the model follows the code.
- **Sanitising is not idempotent.** Deleting one comment marker can join its neighbours into another one (`SanitizeNotIdempotent`).
- **The executor's keyword list has no `or`.** So `' OR '1'='1` passes sanitising untouched (`SanitizeKeepsTautology`).
- **The latency penalty is not capped at `max_latency_penalty`.** At 3000 ms with the defaults it is −1.0 (`LatencyPenaltyUncapped`).
- **The tautology path `/api/user?id=1' OR '1'='1` scores only 0.4.** Its extracted features have four quotes and one ` or `, but no keyword and no comment marker (`TautologyFeatures`). Scored from features, blocking it therefore costs −2.0 and allowing it earns 0.5 (`TautologyEstimate`).
- **Reading Q-values through the defaultdict stores the defaults.** So `q_table_size` grows on exploitation and on `get_q_values` (`Materialized`, `GetBestAction`).

## Findings

| source | as written | input that shows it | evidently intended | confidence | as-written member | corrected member |
|---|---|---|---|---|---|---|
| ML-based-WAF/WAF/feature_extractor.py:253-263 | `encoding_depth` is measured on the combined text, which `_clean_text` has already decoded, so it is 0 unless a source needed all ten rounds | a request whose path is `%2527` | the number of layers the raw input was encoded with, here 2, so the heuristic's "encoding depth > 1" indicator can fire | not executed | `FeatureExtractor.DoubleEncodedQuote` | `FeatureExtractor.IntendedFeaturesSpec` |
