/** The action executor (`ActionExecutor` in action_executor.py): one handler per
    action producing an execution result, the list-driven text sanitiser, and
    per-action invocation counters with their statistics. */
module ActionExecutor {
  import opened Actions
  import opened Text

  /** A value in the request dictionary: the `request` path and the `body` are
      strings or `None`; `headers` is a dictionary. */
  datatype Field = Str(s: string) | NoneV | Headers(h: map<string, string>)

  type RequestData = map<string, Field>

  /** A metadata value. */
  datatype Meta = MStr(s: string) | MBool(b: bool) | MInt(i: int)

  /** The dictionary `execute` returns. */
  datatype ExecutionResult = ExecutionResult(
    action: Action,
    allowed: bool,
    modified: bool,
    requestData: RequestData,
    metadata: map<string, Meta>)

  /** The handlers read `request` and `body` as text: when present they are a
      string or `None` (sanitising any other truthy value raises). */
  predicate WellTyped(data: RequestData)
  {
    ("request" in data ==> !data["request"].Headers?) && ("body" in data ==> !data["body"].Headers?)
  }

  /** `SQL_KEYWORDS`, in order. */
  const SqlKeywords: seq<string> :=
    ["select", "union", "insert", "update", "delete", "drop", "create", "alter", "exec", "execute", "script", "javascript"]

  /** The keyword loop from index `i` on: each keyword deleted case-insensitively
      in turn. */
  function RemoveKeywordsFrom(s: string, i: nat): string
    decreases |SqlKeywords| - i
  {
    if i >= |SqlKeywords| then s
    else RemoveKeywordsFrom(RemoveAllCi(s, SqlKeywords[i]), i + 1)
  }

  lemma {:induction false} RemoveKeywordsShrinks(s: string, i: nat)
    ensures multiset(RemoveKeywordsFrom(s, i)) <= multiset(s) && |RemoveKeywordsFrom(s, i)| <= |s|
    decreases |SqlKeywords| - i
  {
    if i < |SqlKeywords| {
      RemoveAllCiShrinks(s, SqlKeywords[i]);
      RemoveKeywordsShrinks(RemoveAllCi(s, SqlKeywords[i]), i + 1);
    }
  }

  /** `re.sub(c + '{2,}', c, s)`: every run of two or more `c` becomes one `c`. */
  function CollapseRuns(s: string, c: char): string
  {
    if |s| == 0 then s
    else if |s| >= 2 && s[0] == c && s[1] == c then CollapseRuns(s[1..], c)
    else [s[0]] + CollapseRuns(s[1..], c)
  }

  /** Collapsing deletes characters only and keeps the first one. */
  lemma {:induction false} CollapseRunsShrinks(s: string, c: char)
    ensures multiset(CollapseRuns(s, c)) <= multiset(s) && |CollapseRuns(s, c)| <= |s|
    ensures |s| > 0 ==> |CollapseRuns(s, c)| > 0 && CollapseRuns(s, c)[0] == s[0]
  {
    if |s| > 0 {
      CollapseRunsShrinks(s[1..], c);
      assert s == [s[0]] + s[1..];
    }
  }

  /** After collapsing, `c` never follows itself. */
  lemma {:induction false} CollapseRunsNoPair(s: string, c: char)
    ensures forall i :: 0 <= i < |CollapseRuns(s, c)| - 1 ==> !(CollapseRuns(s, c)[i] == c && CollapseRuns(s, c)[i + 1] == c)
  {
    if |s| > 0 {
      CollapseRunsNoPair(s[1..], c);
      CollapseRunsShrinks(s[1..], c);
      var rest := CollapseRuns(s[1..], c);
      if !(|s| >= 2 && s[0] == c && s[1] == c) {
        var r := [s[0]] + rest;
        assert forall i :: 1 <= i < |r| ==> r[i] == rest[i - 1];
      }
    }
  }

  /** The deletion and collapsing steps after the keywords. */
  function StripPunctuation(s: string): string
  {
    var noComments := RemoveAll(RemoveAll(RemoveAll(s, "--"), "/*"), "*/");
    var singleQuotes := CollapseRuns(CollapseRuns(noComments, '\''), '"');
    RemoveAll(singleQuotes, ";")
  }

  /** `_sanitize_text`: keywords, then comment markers, then quote runs, then
      semicolons. Empty text is returned as it is. */
  function SanitizeText(text: string): string
  {
    if |text| == 0 then text else StripPunctuation(RemoveKeywordsFrom(text, 0))
  }

  /** Sanitising only deletes characters, and no semicolon survives it. */
  lemma SanitizeShrinks(text: string)
    ensures multiset(SanitizeText(text)) <= multiset(text)
    ensures |SanitizeText(text)| <= |text|
    ensures ';' !in SanitizeText(text)
  {
    if |text| > 0 {
      var s0 := RemoveKeywordsFrom(text, 0);
      RemoveKeywordsShrinks(text, 0);
      var s1 := RemoveAll(s0, "--");
      RemoveAllShrinks(s0, "--");
      var s2 := RemoveAll(s1, "/*");
      RemoveAllShrinks(s1, "/*");
      var s3 := RemoveAll(s2, "*/");
      RemoveAllShrinks(s2, "*/");
      var s4 := CollapseRuns(s3, '\'');
      CollapseRunsShrinks(s3, '\'');
      var s5 := CollapseRuns(s4, '"');
      CollapseRunsShrinks(s4, '"');
      RemoveAllShrinks(s5, ";");
      RemoveAllCharGone(s5, ';');
    }
  }

  /** `_execute_allow`. */
  function ExecuteAllow(data: RequestData): ExecutionResult
  {
    ExecutionResult(Allow, true, false, data, map["reason" := MStr("Request allowed by policy")])
  }

  /** `_execute_log_only`. */
  function ExecuteLogOnly(data: RequestData): ExecutionResult
  {
    ExecutionResult(LogOnly, true, false, data,
      map["reason" := MStr("Request allowed but flagged for review"), "requires_logging" := MBool(true)])
  }

  /** Python truthiness of a text field: present, not `None`, not empty. */
  predicate HasText(data: RequestData, key: string)
  {
    key in data && data[key].Str? && |data[key].s| > 0
  }

  /** One field of `_execute_sanitize`: replaced only when sanitising changes it. */
  function SanitizeField(data: RequestData, key: string): (r: (RequestData, bool))
  {
    if HasText(data, key) && SanitizeText(data[key].s) != data[key].s then
      (data[key := Str(SanitizeText(data[key].s))], true)
    else (data, false)
  }

  /** `_execute_sanitize`: the path, then the body, of a copy of the request. */
  function ExecuteSanitize(data: RequestData): ExecutionResult
  {
    var (afterRequest, requestChanged) := SanitizeField(data, "request");
    var (afterBody, bodyChanged) := SanitizeField(afterRequest, "body");
    var modified := requestChanged || bodyChanged;
    ExecutionResult(Sanitize, true, modified, afterBody,
      map["reason" := MStr("Request sanitized to remove SQL injection patterns"), "sanitization_applied" := MBool(modified)])
  }

  /** `_execute_challenge`. */
  function ExecuteChallenge(data: RequestData): ExecutionResult
  {
    ExecutionResult(Challenge, false, false, data,
      map["reason" := MStr("Request requires additional verification"),
          "challenge_required" := MBool(true),
          "challenge_type" := MStr("captcha")])
  }

  /** `_execute_throttle`, without the sleep itself. */
  function ExecuteThrottle(data: RequestData, delayMs: int): ExecutionResult
  {
    ExecutionResult(Throttle, true, false, data,
      map["reason" := MStr("Request throttled due to suspicious activity"),
          "delay_ms" := MInt(delayMs),
          "rate_limit_applied" := MBool(true)])
  }

  /** `_execute_block`. */
  function ExecuteBlock(data: RequestData): ExecutionResult
  {
    ExecutionResult(Block, false, false, data,
      map["reason" := MStr("Request blocked by security policy"), "http_status" := MInt(403)])
  }

  /** The handler `execute` dispatches to. */
  function Dispatch(action: Action, data: RequestData, delayMs: int): (r: ExecutionResult)
    ensures r.action == action
    ensures r.allowed <==> action in {Allow, LogOnly, Sanitize, Throttle}
    ensures action != Sanitize ==> !r.modified && r.requestData == data
    ensures "reason" in r.metadata
    ensures action == Block ==> "http_status" in r.metadata && r.metadata["http_status"] == MInt(403)
    ensures action == Challenge ==> "challenge_required" in r.metadata && r.metadata["challenge_required"] == MBool(true)
    ensures action == Throttle ==> "delay_ms" in r.metadata && r.metadata["delay_ms"] == MInt(delayMs)
    ensures action == LogOnly ==> "requires_logging" in r.metadata && r.metadata["requires_logging"] == MBool(true)
  {
    match action
    case Allow => ExecuteAllow(data)
    case LogOnly => ExecuteLogOnly(data)
    case Sanitize => ExecuteSanitize(data)
    case Challenge => ExecuteChallenge(data)
    case Throttle => ExecuteThrottle(data, delayMs)
    case Block => ExecuteBlock(data)
  }

  /** Sanitising reports a modification exactly when the path or the body text
      changed; the result holds the sanitised texts, every other key (headers
      included) is untouched, no key is added or dropped, and the metadata
      records the same flag. */
  lemma SanitizeResult(data: RequestData)
    ensures var r := ExecuteSanitize(data);
      && (r.modified <==>
            (HasText(data, "request") && SanitizeText(data["request"].s) != data["request"].s)
            || (HasText(data, "body") && SanitizeText(data["body"].s) != data["body"].s))
      && r.requestData.Keys == data.Keys
      && (forall k :: k in data && k != "request" && k != "body" ==> r.requestData[k] == data[k])
      && (forall k :: k in {"request", "body"} && k in data ==>
            r.requestData[k] == if HasText(data, k) then Str(SanitizeText(data[k].s)) else data[k])
      && r.metadata["sanitization_applied"] == MBool(r.modified)
  {
  }

  /** The per-action counters `execution_count` starts from. */
  function ZeroCounts(): (m: map<Action, nat>)
    ensures forall a :: a in m && m[a] == 0
  {
    assert forall a :: a in AllActions by {
      forall a ensures a in AllActions {
        AllActionsComplete(a);
      }
    }
    map a | a in AllActions :: 0
  }

  predicate Complete(counts: map<Action, nat>)
  {
    forall a :: a in counts
  }

  /** `sum(execution_count.values())`. */
  function TotalFrom(counts: map<Action, nat>, i: nat): nat
    requires Complete(counts)
    decreases |AllActions| - i
  {
    if i >= |AllActions| then 0 else counts[AllActions[i]] + TotalFrom(counts, i + 1)
  }

  function Total(counts: map<Action, nat>): nat
    requires Complete(counts)
  {
    TotalFrom(counts, 0)
  }

  /** `execution_count[action] += 1`. */
  function Increment(counts: map<Action, nat>, action: Action): (r: map<Action, nat>)
    requires Complete(counts)
    ensures Complete(r)
  {
    counts[action := counts[action] + 1]
  }

  lemma {:induction false} IncrementTotalFrom(counts: map<Action, nat>, action: Action, i: nat)
    requires Complete(counts) && i <= |AllActions|
    ensures TotalFrom(Increment(counts, action), i) ==
              TotalFrom(counts, i) + (if action in AllActions[i..] then 1 else 0)
    decreases |AllActions| - i
  {
    if i < |AllActions| {
      IncrementTotalFrom(counts, action, i + 1);
      var a, inc := AllActions[i], Increment(counts, action);
      assert TotalFrom(inc, i) == inc[a] + TotalFrom(inc, i + 1);
      assert TotalFrom(counts, i) == counts[a] + TotalFrom(counts, i + 1);
      assert inc[a] == counts[a] + (if a == action then 1 else 0);
      assert AllActions[i..] == [a] + AllActions[i + 1..];
    }
  }

  /** One execution adds exactly one to the total and to its own action's count,
      and leaves every other count as it was. */
  lemma IncrementTotal(counts: map<Action, nat>, action: Action)
    requires Complete(counts)
    ensures Total(Increment(counts, action)) == Total(counts) + 1
    ensures Increment(counts, action)[action] == counts[action] + 1
    ensures forall b :: b != action ==> Increment(counts, action)[b] == counts[b]
  {
    IncrementTotalFrom(counts, action, 0);
    AllActionsComplete(action);
  }

  /** The dictionary `get_statistics` returns; the percentages are absent while
      nothing has been executed. */
  datatype ExecutorStats = ExecutorStats(
    totalExecutions: nat,
    actionCounts: seq<(string, nat)>,
    actionPercentages: Option<seq<(string, real)>>)

  function CountsInOrder(counts: map<Action, nat>): (cs: seq<(string, nat)>)
    requires Complete(counts)
    ensures |cs| == |AllActions|
    ensures forall i :: 0 <= i < |AllActions| ==> cs[i] == (AllActions[i].Value(), counts[AllActions[i]])
  {
    seq(|AllActions|, i requires 0 <= i < |AllActions| => (AllActions[i].Value(), counts[AllActions[i]]))
  }

  function Percentages(cs: seq<(string, nat)>, total: nat): (ps: seq<(string, real)>)
    requires total > 0
    ensures |ps| == |cs|
    ensures forall i :: 0 <= i < |cs| ==> ps[i] == (cs[i].0, (cs[i].1 as real / total as real) * 100.0)
  {
    seq(|cs|, i requires 0 <= i < |cs| => (cs[i].0, (cs[i].1 as real / total as real) * 100.0))
  }

  function SumCounts(cs: seq<(string, nat)>): nat
  {
    if |cs| == 0 then 0 else cs[0].1 + SumCounts(cs[1..])
  }

  function SumPercent(ps: seq<(string, real)>): real
  {
    if |ps| == 0 then 0.0 else ps[0].1 + SumPercent(ps[1..])
  }

  /** `get_statistics` over a set of counters. */
  function Statistics(counts: map<Action, nat>): (s: ExecutorStats)
    requires Complete(counts)
    ensures s.totalExecutions == Total(counts)
    ensures s.actionCounts == CountsInOrder(counts)
    ensures s.actionPercentages.Some? <==> s.totalExecutions > 0
    ensures s.actionPercentages.Some? ==> s.actionPercentages.value == Percentages(s.actionCounts, s.totalExecutions)
  {
    var total := Total(counts);
    var cs := CountsInOrder(counts);
    ExecutorStats(total, cs, if total > 0 then Some(Percentages(cs, total)) else None)
  }

  lemma {:induction false} SumPercentScales(cs: seq<(string, nat)>, total: nat)
    requires total > 0
    ensures SumPercent(Percentages(cs, total)) == (SumCounts(cs) as real / total as real) * 100.0
  {
    if |cs| > 0 {
      SumPercentScales(cs[1..], total);
      assert Percentages(cs, total)[1..] == Percentages(cs[1..], total);
      PercentAdds(cs[0].1 as real, SumCounts(cs[1..]) as real, total as real);
    }
  }

  /** Percentages of a common total add up like their counts. */
  lemma PercentAdds(a: real, b: real, t: real)
    requires t > 0.0
    ensures (a + b) / t * 100.0 == a / t * 100.0 + b / t * 100.0
  {
  }

  lemma {:induction false} SumCountsFrom(counts: map<Action, nat>, i: nat)
    requires Complete(counts) && i <= |AllActions|
    ensures SumCounts(CountsInOrder(counts)[i..]) == TotalFrom(counts, i)
    decreases |AllActions| - i
  {
    if i < |AllActions| {
      SumCountsFrom(counts, i + 1);
      assert CountsInOrder(counts)[i..][1..] == CountsInOrder(counts)[i + 1..];
    }
  }

  /** The six counts add up to the total, and once anything has been executed
      the percentages add up to 100. */
  lemma StatisticsConsistent(counts: map<Action, nat>)
    requires Complete(counts)
    ensures SumCounts(Statistics(counts).actionCounts) == Statistics(counts).totalExecutions
    ensures Statistics(counts).actionPercentages.Some? ==> SumPercent(Statistics(counts).actionPercentages.value) == 100.0
  {
    var s := Statistics(counts);
    var cs := CountsInOrder(counts);
    SumCountsFrom(counts, 0);
    assert cs[0..] == cs;
    assert SumCounts(cs) == s.totalExecutions;
    if s.totalExecutions > 0 {
      var total := s.totalExecutions;
      SumPercentScales(cs, total);
      var ps := s.actionPercentages.value;
      assert ps == Percentages(cs, total);
      assert SumPercent(ps) == (SumCounts(cs) as real / total as real) * 100.0;
      assert SumCounts(cs) as real == total as real;
      WholeIsHundred(total as real);
    }
  }

  lemma WholeIsHundred(t: real)
    requires t > 0.0
    ensures (t / t) * 100.0 == 100.0
  {
  }

  class ActionExecutor {
    var throttleDelayMs: int
    var executionCount: map<Action, nat>

    constructor (throttleDelayMs: int)
      ensures this.throttleDelayMs == throttleDelayMs && executionCount == ZeroCounts()
    {
      this.throttleDelayMs := throttleDelayMs;
      executionCount := ZeroCounts();
    }

    /** `execute`: count the action, then run its handler. */
    method Execute(action: Action, data: RequestData) returns (r: ExecutionResult)
      requires Complete(executionCount) && WellTyped(data)
      modifies this`executionCount
      ensures executionCount == Increment(old(executionCount), action)
      ensures r == Dispatch(action, data, throttleDelayMs)
    {
      executionCount := executionCount[action := executionCount[action] + 1];
      match action {
        case Allow => r := ExecuteAllow(data);
        case LogOnly => r := ExecuteLogOnly(data);
        case Sanitize => r := ExecuteSanitize(data);
        case Challenge => r := ExecuteChallenge(data);
        case Throttle => r := ExecuteThrottle(data, throttleDelayMs);
        case Block => r := ExecuteBlock(data);
      }
    }

    /** `get_statistics`. */
    function GetStatistics(): ExecutorStats
      reads this
      requires Complete(executionCount)
    {
      Statistics(executionCount)
    }
  }

  /** The first letters of the keywords. */
  const KeywordInitials: string := "suidcaej"

  lemma KeywordsInitials()
    ensures forall j :: 0 <= j < |SqlKeywords| ==> |SqlKeywords[j]| > 0 && SqlKeywords[j][0] in KeywordInitials
  {
    forall j | 0 <= j < |SqlKeywords| ensures |SqlKeywords[j]| > 0 && SqlKeywords[j][0] in KeywordInitials {
      if j == 0 { assert SqlKeywords[j] == "select"; }
      else if j == 1 { assert SqlKeywords[j] == "union"; }
      else if j == 2 { assert SqlKeywords[j] == "insert"; }
      else if j == 3 { assert SqlKeywords[j] == "update"; }
      else if j == 4 { assert SqlKeywords[j] == "delete"; }
      else if j == 5 { assert SqlKeywords[j] == "drop"; }
      else if j == 6 { assert SqlKeywords[j] == "create"; }
      else if j == 7 { assert SqlKeywords[j] == "alter"; }
      else if j == 8 { assert SqlKeywords[j] == "exec"; }
      else if j == 9 { assert SqlKeywords[j] == "execute"; }
      else if j == 10 { assert SqlKeywords[j] == "script"; }
      else if j == 11 { assert SqlKeywords[j] == "javascript"; }
    }
  }

  /** No character of `s` reads, in lower case, as the first letter of a keyword. */
  predicate AvoidsInitials(s: string)
  {
    forall i :: 0 <= i < |s| ==> Lower(s[i]) !in KeywordInitials
  }

  lemma {:induction false} RemoveAllCiAvoided(s: string, p: string)
    requires |p| > 0 && p[0] in KeywordInitials && AvoidsInitials(s)
    ensures RemoveAllCi(s, p) == s
    decreases |s|
  {
    if |s| >= |p| {
      assert !StartsWithCi(s, p);
      RemoveAllCiAvoided(s[1..], p);
      assert s == [s[0]] + s[1..];
    }
  }

  /** Text in which no keyword can start passes the keyword stage unchanged. */
  lemma {:induction false} KeywordsIgnoreAvoided(s: string, i: nat)
    requires AvoidsInitials(s)
    ensures RemoveKeywordsFrom(s, i) == s
    decreases |SqlKeywords| - i
  {
    if i < |SqlKeywords| {
      KeywordsInitials();
      RemoveAllCiAvoided(s, SqlKeywords[i]);
      KeywordsIgnoreAvoided(s, i + 1);
    }
  }

  lemma CommentMarkersExample()
    ensures StripPunctuation("-/**/-") == "--"
  {
    assert RemoveAll("-/**/-", "--") == "-/**/-";
    assert RemoveAll("-/**/-", "/*") == "-*/-";
    assert RemoveAll("-*/-", "*/") == "--";
    assert CollapseRuns("--", '\'') == "--" && CollapseRuns("--", '"') == "--";
    assert RemoveAll("--", ";") == "--";
  }

  lemma DoubleDashExample()
    ensures StripPunctuation("--") == ""
  {
    assert RemoveAll("--", "--") == "";
  }

  /** Sanitising is not idempotent: deleting one comment marker can join its
      neighbours into another, which only a second pass removes. */
  lemma SanitizeNotIdempotent()
    ensures SanitizeText("-/**/-") == "--"
    ensures SanitizeText(SanitizeText("-/**/-")) == ""
  {
    assert AvoidsInitials("-/**/-") && AvoidsInitials("--");
    KeywordsIgnoreAvoided("-/**/-", 0);
    KeywordsIgnoreAvoided("--", 0);
    CommentMarkersExample();
    DoubleDashExample();
  }

  /** A pattern whose first character does not occur is never deleted. */
  lemma {:induction false} RemoveAllAbsent(s: string, p: string)
    requires |p| > 0 && p[0] !in s
    ensures RemoveAll(s, p) == s
    decreases |s|
  {
    if |s| >= |p| {
      assert s[0] in s;
      RemoveAllAbsent(s[1..], p);
      assert s == [s[0]] + s[1..];
    }
  }

  /** Without two adjacent `c` there is nothing to collapse. */
  lemma {:induction false} CollapseRunsNoRun(s: string, c: char)
    requires forall i :: 0 <= i < |s| - 1 ==> !(s[i] == c && s[i + 1] == c)
    ensures CollapseRuns(s, c) == s
  {
    if |s| > 0 {
      CollapseRunsNoRun(s[1..], c);
      assert s == [s[0]] + s[1..];
    }
  }

  /** Text without comment characters, semicolons or doubled quotes passes the
      punctuation steps unchanged. */
  lemma StripPunctuationKeeps(s: string)
    requires '-' !in s && '/' !in s && '*' !in s && ';' !in s
    requires forall i :: 0 <= i < |s| - 1 ==> !(s[i] == '\'' && s[i + 1] == '\'') && !(s[i] == '"' && s[i + 1] == '"')
    ensures StripPunctuation(s) == s
  {
    RemoveAllAbsent(s, "--");
    RemoveAllAbsent(s, "/*");
    RemoveAllAbsent(s, "*/");
    CollapseRunsNoRun(s, '\'');
    CollapseRunsNoRun(s, '"');
    RemoveAllAbsent(s, ";");
  }

  /** Text in which no keyword can start and no punctuation step applies is
      left as it is by sanitising. */
  lemma SanitizeKeeps(s: string)
    requires AvoidsInitials(s)
    requires '-' !in s && '/' !in s && '*' !in s && ';' !in s
    requires forall i :: 0 <= i < |s| - 1 ==> !(s[i] == '\'' && s[i + 1] == '\'') && !(s[i] == '"' && s[i + 1] == '"')
    ensures SanitizeText(s) == s
  {
    KeywordsIgnoreAvoided(s, 0);
    StripPunctuationKeeps(s);
  }

  /** "or" is not on the keyword list and the tautology has no run of quotes,
      so sanitising leaves the classic `' OR '1'='1` untouched. */
  lemma SanitizeKeepsTautology()
    ensures SanitizeText("' OR '1'='1") == "' OR '1'='1"
  {
    SanitizeKeeps("' OR '1'='1");
  }
}
