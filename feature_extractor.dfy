/** The feature extractor (`FeatureExtractor` in feature_extractor.py): a
    stateless map from a request record to a fifteen-key feature dictionary.
    The text sources are percent-decoded to a fixed point (at most ten rounds),
    whitespace-normalised and joined; the features count SQL-injection markers
    in the joined text and describe its make-up. Shannon entropy is a parameter. */
module FeatureExtractor {
  import opened Actions
  import opened Text
  import opened Dicts

  /** The request record: path with query string, body, headers and method. */
  datatype Request = Request(
    request: Option<string>,
    body: Option<string>,
    headers: Option<map<string, string>>,
    httpMethod: string)

  /** Python truthiness of an optional string. */
  predicate Truthy(s: Option<string>) { s.Some? && |s.value| > 0 }

  // ---------------------------------------------------------------------------
  // Percent-decoding (`urllib.parse.unquote_plus`, simplified)

  predicate IsHex(c: char) { '0' <= c <= '9' || 'a' <= c <= 'f' || 'A' <= c <= 'F' }

  function HexValue(c: char): (v: nat)
    requires IsHex(c)
    ensures v < 16
  {
    if '0' <= c <= '9' then c as int - '0' as int
    else if 'a' <= c <= 'f' then c as int - 'a' as int + 10
    else c as int - 'A' as int + 10
  }

  /** An escape `%XY` starts at position `i` of `s`. */
  predicate EscapeAt(s: string, i: nat)
  {
    i + 3 <= |s| && s[i] == '%' && IsHex(s[i + 1]) && IsHex(s[i + 2])
  }

  /** One decoding round: `+` becomes a space and `%XY` the character with code XY. */
  function DecodeOnce(s: string): (r: string)
    ensures |r| <= |s|
  {
    if |s| == 0 then ""
    else if s[0] == '+' then " " + DecodeOnce(s[1..])
    else if EscapeAt(s, 0) then [(16 * HexValue(s[1]) + HexValue(s[2])) as char] + DecodeOnce(s[3..])
    else [s[0]] + DecodeOnce(s[1..])
  }

  /** Text in which a decoding round finds nothing to decode: no `+`, no escape. */
  predicate Plain(s: string)
  {
    forall i :: 0 <= i < |s| ==> s[i] != '+' && !EscapeAt(s, i)
  }

  /** Plain text is plain at its first character and from its second on. */
  lemma PlainCons(s: string)
    requires |s| > 0
    ensures Plain(s) <==> s[0] != '+' && !EscapeAt(s, 0) && Plain(s[1..])
  {
    assert forall i :: 0 < i < |s| ==> s[i] == s[1..][i - 1] && (EscapeAt(s, i) <==> EscapeAt(s[1..], i - 1));
  }

  /** A round leaves the text unchanged exactly when there is nothing to decode. */
  lemma {:induction false} DecodeFixedIff(s: string)
    ensures DecodeOnce(s) == s <==> Plain(s)
  {
    if |s| > 0 {
      DecodeFixedIff(s[1..]);
      PlainCons(s);
      if s[0] == '+' {
        assert DecodeOnce(s)[0] == ' ';
      } else if EscapeAt(s, 0) {
        assert |DecodeOnce(s)| <= 1 + |s[3..]|;
      } else {
        assert s == [s[0]] + s[1..];
      }
    }
  }

  /** Text with neither `%` nor `+` is plain. */
  lemma PlainWithoutMarkers(s: string)
    requires '%' !in s && '+' !in s
    ensures Plain(s)
  {
    assert forall i :: 0 <= i < |s| ==> s[i] in s;
  }

  /** Every slice of plain text is plain. */
  lemma PlainSlice(s: string, i: nat, j: nat)
    requires Plain(s) && i <= j <= |s|
    ensures Plain(s[i..j])
  {
    var t := s[i..j];
    forall k | 0 <= k < |t| ensures t[k] != '+' && !EscapeAt(t, k) {
      assert t[k] == s[i + k];
    }
  }

  /** Plain pieces joined by a space stay plain: a space is neither `%` nor a hex digit. */
  lemma PlainJoinSpace(a: string, b: string)
    requires Plain(a) && Plain(b)
    ensures Plain(a + " " + b)
  {
    var t := a + " " + b;
    var n := |a|;
    forall k | 0 <= k < |t| ensures t[k] != '+' && !EscapeAt(t, k) {
      if k < n {
        assert t[k] == a[k];
      } else if k == n {
        assert t[k] == ' ';
      } else {
        assert t[k] == b[k - n - 1];
      }
    }
  }

  /** Plain parts joined by spaces are plain. */
  lemma {:induction false} PlainJoin(parts: seq<string>)
    requires forall i :: 0 <= i < |parts| ==> Plain(parts[i])
    ensures Plain(Join(parts, " "))
  {
    if |parts| > 1 {
      PlainJoin(parts[1..]);
      PlainJoinSpace(parts[0], Join(parts[1..], " "));
    }
  }

  /** The words of plain text are plain. */
  lemma {:induction false} PlainSplit(s: string)
    requires Plain(s)
    ensures forall i :: 0 <= i < |Split(s)| ==> Plain(Split(s)[i])
    decreases |s|
  {
    var t := DropSpaces(s);
    if |t| > 0 {
      var w := WordPrefix(t);
      var rest := t[|w|..];
      PlainPieces(s, t, w);
      PlainSplit(rest);
      SplitUnfold(s, t, w);
      PlainWords(w, Split(rest));
    }
  }

  /** The first word of plain text, and what follows it, are plain. */
  lemma PlainPieces(s: string, t: string, w: string)
    requires Plain(s) && t == DropSpaces(s) && w == WordPrefix(t)
    ensures Plain(w) && Plain(t[|w|..])
  {
    assert Plain(t) by {
      PlainSuffix(s, |s| - |t|);
    }
    assert Plain(w) by {
      PlainPrefix(t, |w|);
    }
    PlainSuffix(t, |w|);
  }

  lemma PlainSuffix(s: string, i: nat)
    requires Plain(s) && i <= |s|
    ensures Plain(s[i..])
  {
    PlainSlice(s, i, |s|);
    assert s[i..|s|] == s[i..];
  }

  lemma PlainPrefix(s: string, j: nat)
    requires Plain(s) && j <= |s|
    ensures Plain(s[..j])
  {
    PlainSlice(s, 0, j);
    assert s[0..j] == s[..j];
  }

  /** A plain word in front of plain words keeps them all plain. */
  lemma PlainWords(w: string, ws: seq<string>)
    requires Plain(w) && forall i :: 0 <= i < |ws| ==> Plain(ws[i])
    ensures forall i :: 0 <= i < |[w] + ws| ==> Plain(([w] + ws)[i])
  {
    forall i | 0 < i < |[w] + ws| ensures Plain(([w] + ws)[i]) {
      assert ([w] + ws)[i] == ws[i - 1];
    }
  }

  /** Collapsing whitespace keeps plain text plain. */
  lemma PlainCollapse(s: string)
    requires Plain(s)
    ensures Plain(CollapseSpaces(s))
  {
    PlainSplit(s);
    PlainJoin(Split(s));
  }

  /** `k` decoding rounds. */
  function DecodeTimes(s: string, k: nat): string
    decreases k
  {
    if k == 0 then s else DecodeTimes(DecodeOnce(s), k - 1)
  }

  /** `_unquote` with `rounds` rounds left: decode until a round changes nothing. */
  function UnquoteRounds(s: string, rounds: nat): string
    decreases rounds
  {
    if rounds == 0 then s
    else
      var decoded := DecodeOnce(s);
      if decoded == s then s else UnquoteRounds(decoded, rounds - 1)
  }

  /** `_calculate_encoding_depth` with `rounds` rounds left: the rounds that changed something. */
  function DepthRounds(s: string, rounds: nat): (n: nat)
    ensures n <= rounds
    decreases rounds
  {
    if rounds == 0 then 0
    else
      var decoded := DecodeOnce(s);
      if decoded == s then 0 else 1 + DepthRounds(decoded, rounds - 1)
  }

  /** The decode loop's cap. */
  const MaxRounds: nat := 10

  function Unquote(text: string): string { UnquoteRounds(text, MaxRounds) }

  function EncodingDepth(text: string): nat { DepthRounds(text, MaxRounds) }

  lemma {:induction false} RoundsAgree(s: string, rounds: nat)
    ensures UnquoteRounds(s, rounds) == DecodeTimes(s, DepthRounds(s, rounds))
    ensures forall k :: 0 <= k < DepthRounds(s, rounds) ==> DecodeOnce(DecodeTimes(s, k)) != DecodeTimes(s, k)
    ensures DepthRounds(s, rounds) < rounds ==> DecodeOnce(UnquoteRounds(s, rounds)) == UnquoteRounds(s, rounds)
    decreases rounds
  {
    if rounds > 0 && DecodeOnce(s) != s {
      var d := DecodeOnce(s);
      RoundsAgree(d, rounds - 1);
      forall k | 0 <= k < DepthRounds(s, rounds)
        ensures DecodeOnce(DecodeTimes(s, k)) != DecodeTimes(s, k)
      {
        if k > 0 {
          assert DecodeTimes(s, k) == DecodeTimes(d, k - 1);
        }
      }
    }
  }

  /** `_unquote` applies exactly `encoding_depth` rounds, at most ten, each of
      which changed the text; when it stops before the cap the result is plain. */
  lemma UnquoteIsDepthRounds(text: string)
    ensures EncodingDepth(text) <= MaxRounds
    ensures Unquote(text) == DecodeTimes(text, EncodingDepth(text))
    ensures forall k :: 0 <= k < EncodingDepth(text) ==> DecodeOnce(DecodeTimes(text, k)) != DecodeTimes(text, k)
    ensures EncodingDepth(text) < MaxRounds ==> Plain(Unquote(text))
  {
    RoundsAgree(text, MaxRounds);
    DecodeFixedIff(Unquote(text));
  }

  /** Plain text needs no decoding: depth 0, unchanged by `_unquote`. */
  lemma PlainNotDecoded(text: string)
    requires Plain(text)
    ensures EncodingDepth(text) == 0 && Unquote(text) == text
  {
    DecodeFixedIff(text);
  }

  // ---------------------------------------------------------------------------
  // Cleaning and combining the text sources

  /** `_clean_text`: decode, then collapse every whitespace run to one space and
      trim the ends. */
  function Clean(text: string): string
  {
    if |text| == 0 then "" else CollapseSpaces(Unquote(text))
  }

  /** The only headers whose values are analysed. */
  const DangerousHeaders: seq<string> := ["Cookie", "User_Agent", "Referer"]

  /** `req.headers[name]` when the headers are given and hold the name. */
  function Header(headers: Option<map<string, string>>, name: string): Option<string>
  {
    if headers.Some? && name in headers.value then Some(headers.value[name]) else None
  }

  /** The non-empty values of the dangerous headers from the `i`-th on. */
  function HeaderSources(headers: Option<map<string, string>>, i: nat): seq<string>
    requires i <= |DangerousHeaders|
    decreases |DangerousHeaders| - i
  {
    if i == |DangerousHeaders| then []
    else
      var v := Header(headers, DangerousHeaders[i]);
      (if Truthy(v) then [v.value] else []) + HeaderSources(headers, i + 1)
  }

  /** The raw texts `_get_combined_text` cleans, in order: path, body, then the
      non-empty dangerous headers. */
  function Sources(req: Request): seq<string>
  {
    (if Truthy(req.request) then [req.request.value] else [])
    + (if Truthy(req.body) then [req.body.value] else [])
    + HeaderSources(req.headers, 0)
  }

  function CleanAll(texts: seq<string>): (r: seq<string>)
    ensures |r| == |texts| && forall i :: 0 <= i < |texts| ==> r[i] == Clean(texts[i])
  {
    if |texts| == 0 then [] else [Clean(texts[0])] + CleanAll(texts[1..])
  }

  /** `_get_combined_text`: the cleaned sources joined by single spaces. */
  function CombinedText(req: Request): string
  {
    Join(CleanAll(Sources(req)), " ")
  }

  // ---------------------------------------------------------------------------
  // Counts and ratios

  const SqlKeywords: seq<string> := ["select", "union", "insert", "update", "delete", "drop", "create",
    "alter", "exec", "execute", "script", "javascript", "onerror",
    "onload", "alert", "prompt", "confirm", "eval", "expression"]

  /** `\bkw\b` matches at position `i` of `t`. */
  predicate WordMatchAt(t: string, kw: string, i: nat)
    requires i + |kw| <= |t|
  {
    t[i..i + |kw|] == kw
    && (i == 0 || !IsWordChar(t[i - 1]))
    && (i + |kw| == |t| || !IsWordChar(t[i + |kw|]))
  }

  /** The positions from `i` on where `\bkw\b` matches. */
  function WordMatchesFrom(t: string, kw: string, i: nat): nat
    requires |kw| > 0 && i <= |t|
    decreases |t| - i
  {
    if i + |kw| > |t| then 0
    else (if WordMatchAt(t, kw, i) then 1 else 0) + WordMatchesFrom(t, kw, i + 1)
  }

  /** Matches of a word keyword never overlap, so counting match positions
      counts what `re.findall` returns. */
  lemma WordMatchesDisjoint(t: string, kw: string, i: nat, j: nat)
    requires |kw| > 0 && forall p :: 0 <= p < |kw| ==> IsWordChar(kw[p])
    requires i < j && j + |kw| <= |t|
    requires WordMatchAt(t, kw, i) && WordMatchAt(t, kw, j)
    ensures i + |kw| <= j
  {
  }

  function KeywordCountFrom(t: string, k: nat): nat
    requires k <= |SqlKeywords|
    decreases |SqlKeywords| - k
  {
    if k == |SqlKeywords| then 0
    else WordMatchesFrom(t, SqlKeywords[k], 0) + KeywordCountFrom(t, k + 1)
  }

  /** `_count_sql_keywords`: word-bounded matches of every keyword in the lower-cased text. */
  function SqlKeywordCount(text: string): nat
  {
    KeywordCountFrom(LowerStr(text), 0)
  }

  function QuoteCount(text: string): nat { CountOcc(text, "'") + CountOcc(text, "\"") }

  /** `text.count(c)` for a one-character `c`: the number of times `c` occurs. */
  function CharFeature(text: string, c: char): (n: nat)
    ensures n == CharCount(text, c)
  {
    CountOccChar(text, c);
    CountOcc(text, [c])
  }

  /** `_count_comment_patterns`: non-overlapping `--`, `/*`, `*/` and `#`. */
  function CommentCount(text: string): nat
  {
    CountOcc(text, "--") + CountOcc(text, "/*") + CountOcc(text, "*/") + CountOcc(text, "#")
  }

  function OrAndCount(text: string): nat
  {
    var lower := LowerStr(text);
    CountOcc(lower, " or ") + CountOcc(lower, " and ")
  }

  predicate IsSpecial(c: char) { !IsAlnum(c) && !IsSpace(c) }

  /** The share of characters with property `f`; 0 for empty text. */
  function Ratio(text: string, f: char -> bool): (r: real)
    ensures 0.0 <= r <= 1.0
    ensures |text| == 0 ==> r == 0.0
  {
    if |text| == 0 then 0.0 else CountIf(text, f) as real / |text| as real
  }

  /** The keys of the text features, in insertion order. */
  const TextFeatureNames: seq<string> := ["sql_keyword_count", "quote_count", "semicolon_count",
    "comment_pattern_count", "equals_count", "or_and_count", "length", "entropy",
    "special_char_ratio", "digit_ratio", "uppercase_ratio", "encoding_depth"]

  /** The keys of the request metadata flags, in insertion order. */
  const MetadataNames: seq<string> := ["method_is_post", "has_body", "has_cookie"]

  const FeatureNames: seq<string> := TextFeatureNames + MetadataNames

  /** A dictionary literal: the i-th key with the i-th value. */
  function Zip(names: seq<string>, values: seq<Num>): (d: FeatureDict)
    requires |names| == |values|
    ensures |d| == |names| && forall i :: 0 <= i < |names| ==> d[i] == (names[i], values[i])
  {
    if |names| == 0 then [] else [(names[0], values[0])] + Zip(names[1..], values[1..])
  }

  /** The twelve text features, computed from non-empty combined text. */
  function TextFeatures(text: string, entropyOf: string -> real): FeatureDict
  {
    Zip(TextFeatureNames,
      [IntV(SqlKeywordCount(text)), IntV(QuoteCount(text)), IntV(CharFeature(text, ';')),
       IntV(CommentCount(text)), IntV(CharFeature(text, '=')), IntV(OrAndCount(text)),
       IntV(|text|), FloatV(entropyOf(text)), FloatV(Ratio(text, IsSpecial)),
       FloatV(Ratio(text, IsDigit)), FloatV(Ratio(text, IsAsciiUpper)), IntV(EncodingDepth(text))])
  }

  /** `_get_zero_features`. */
  const ZeroFeatures: FeatureDict :=
    Zip(FeatureNames,
      [IntV(0), IntV(0), IntV(0), IntV(0), IntV(0), IntV(0), IntV(0), FloatV(0.0),
       FloatV(0.0), FloatV(0.0), FloatV(0.0), IntV(0), IntV(0), IntV(0), IntV(0)])

  /** `req.body.strip()` is non-empty. */
  predicate HasBody(req: Request)
  {
    req.body.Some? && |DropSpaces(req.body.value)| > 0
  }

  predicate HasCookie(req: Request)
  {
    Header(req.headers, "Cookie").Some?
  }

  /** The dictionary before the metadata flags: text features for non-empty
      combined text, zero features otherwise. */
  function BaseFeatures(text: string, entropyOf: string -> real): FeatureDict
  {
    if |text| > 0 then TextFeatures(text, entropyOf) else ZeroFeatures
  }

  /** `1 if cond else 0`. */
  function Flag(cond: bool): Num { IntV(if cond then 1 else 0) }

  /** The three metadata assignments, in order. */
  function SetFlags(features: FeatureDict, post: Num, body: Num, cookie: Num): FeatureDict
  {
    var features := Put(features, "method_is_post", post);
    var features := Put(features, "has_body", body);
    Put(features, "has_cookie", cookie)
  }

  function WithMetadata(features: FeatureDict, req: Request): FeatureDict
  {
    SetFlags(features, Flag(req.httpMethod == "POST"), Flag(HasBody(req)), Flag(HasCookie(req)))
  }

  /** The dictionary `extract_features` builds from a combined text. */
  function FeaturesOf(text: string, req: Request, entropyOf: string -> real): FeatureDict
  {
    WithMetadata(BaseFeatures(text, entropyOf), req)
  }

  /** `extract_features`. */
  function ExtractFeatures(req: Request, entropyOf: string -> real): FeatureDict
  {
    FeaturesOf(CombinedText(req), req, entropyOf)
  }

  // ---------------------------------------------------------------------------
  // Properties

  lemma FeatureNamesDistinct()
    ensures forall i, j :: 0 <= i < j < |TextFeatureNames| ==> TextFeatureNames[i] != TextFeatureNames[j]
    ensures forall i, j :: 0 <= i < j < |MetadataNames| ==> MetadataNames[i] != MetadataNames[j]
    ensures forall m :: m in MetadataNames ==> m !in TextFeatureNames
  {
  }

  lemma MetadataFresh()
    ensures "method_is_post" !in TextFeatureNames
    ensures "has_body" !in TextFeatureNames + ["method_is_post"]
    ensures "has_cookie" !in TextFeatureNames + ["method_is_post", "has_body"]
  {
    FeatureNamesDistinct();
    var ms := MetadataNames;
    assert ms[0] in ms && ms[1] in ms && ms[2] in ms;
  }

  lemma BaseFeaturesKeys(text: string, entropyOf: string -> real)
    ensures Keys(BaseFeatures(text, entropyOf)) == if |text| > 0 then TextFeatureNames else FeatureNames
  {
  }

  /** On the text features the flags are appended. */
  lemma FlagsAppended(d: FeatureDict, post: Num, body: Num, cookie: Num)
    requires Keys(d) == TextFeatureNames
    ensures Keys(SetFlags(d, post, body, cookie)) == FeatureNames
  {
    var f1 := Put(d, "method_is_post", post);
    var f2 := Put(f1, "has_body", body);
    MetadataFresh();
    PutKeys(d, "method_is_post", post);
    PutKeys(f1, "has_body", body);
    assert TextFeatureNames + ["method_is_post"] + ["has_body"] == TextFeatureNames + ["method_is_post", "has_body"];
    PutKeys(f2, "has_cookie", cookie);
    assert TextFeatureNames + ["method_is_post", "has_body"] + ["has_cookie"] == FeatureNames;
  }

  /** On the zero features the flags overwrite the zeros in place. */
  lemma FlagsOverwritten(d: FeatureDict, post: Num, body: Num, cookie: Num)
    requires Keys(d) == FeatureNames
    ensures Keys(SetFlags(d, post, body, cookie)) == FeatureNames
  {
    var f1 := Put(d, "method_is_post", post);
    var f2 := Put(f1, "has_body", body);
    var ns := FeatureNames;
    assert ns[12] == "method_is_post" && ns[13] == "has_body" && ns[14] == "has_cookie";
    PutKeys(d, "method_is_post", post);
    PutKeys(f1, "has_body", body);
    PutKeys(f2, "has_cookie", cookie);
  }

  lemma FeatureNamesDictionary(d: FeatureDict)
    requires Keys(d) == FeatureNames
    ensures DistinctKeys(d)
  {
    FeatureNamesDistinct();
    var ts, ms := TextFeatureNames, MetadataNames;
    forall i, j | 0 <= i < j < |d| ensures d[i].0 != d[j].0 {
      var n := |ts|;
      assert d[i].0 == (ts + ms)[i] && d[j].0 == (ts + ms)[j];
      if j >= n && i < n {
        var m := ms[j - n];
        assert m in ms;
        assert (ts + ms)[j] == m && (ts + ms)[i] == ts[i];
      } else if i >= n {
        assert (ts + ms)[j] == ms[j - n] && (ts + ms)[i] == ms[i - n];
      } else {
        assert (ts + ms)[j] == ts[j] && (ts + ms)[i] == ts[i];
      }
    }
  }

  /** Whichever branch built it, the dictionary holds the fifteen keys in
      insertion order, each once. */
  lemma ExtractFeaturesKeys(req: Request, entropyOf: string -> real)
    ensures Keys(ExtractFeatures(req, entropyOf)) == FeatureNames
    ensures DistinctKeys(ExtractFeatures(req, entropyOf))
  {
    var text := CombinedText(req);
    var d := BaseFeatures(text, entropyOf);
    BaseFeaturesKeys(text, entropyOf);
    if |text| > 0 {
      FlagsAppended(d, Flag(req.httpMethod == "POST"), Flag(HasBody(req)), Flag(HasCookie(req)));
    } else {
      FlagsOverwritten(d, Flag(req.httpMethod == "POST"), Flag(HasBody(req)), Flag(HasCookie(req)));
    }
    FeatureNamesDictionary(ExtractFeatures(req, entropyOf));
  }

  /** What the flag assignments store, and that they leave the text features alone. */
  lemma SetFlagsValues(d: FeatureDict, post: Num, body: Num, cookie: Num, i: nat)
    requires i < |TextFeatureNames|
    ensures Get(SetFlags(d, post, body, cookie), "method_is_post") == Some(post)
    ensures Get(SetFlags(d, post, body, cookie), "has_body") == Some(body)
    ensures Get(SetFlags(d, post, body, cookie), "has_cookie") == Some(cookie)
    ensures Get(SetFlags(d, post, body, cookie), TextFeatureNames[i]) == Get(d, TextFeatureNames[i])
  {
    var name := TextFeatureNames[i];
    MetadataFresh();
    assert name in TextFeatureNames;
    var f1 := Put(d, "method_is_post", post);
    var f2 := Put(f1, "has_body", body);
    GetPut(d, "method_is_post", post, name);
    GetPut(f1, "has_body", body, name);
    GetPut(f1, "has_body", body, "method_is_post");
    GetPut(f2, "has_cookie", cookie, name);
    GetPut(f2, "has_cookie", cookie, "method_is_post");
    GetPut(f2, "has_cookie", cookie, "has_body");
  }

  /** A text feature reads back as the value the branch stored for it. */
  lemma BaseLookup(text: string, entropyOf: string -> real, i: nat)
    requires i < |TextFeatureNames|
    ensures Get(BaseFeatures(text, entropyOf), TextFeatureNames[i]) == Some(BaseFeatures(text, entropyOf)[i].1)
  {
    var d := BaseFeatures(text, entropyOf);
    FeatureNamesDistinct();
    BaseFeaturesKeys(text, entropyOf);
    if |text| == 0 {
      assert forall j :: 0 <= j < |TextFeatureNames| ==> FeatureNames[j] == TextFeatureNames[j];
    }
    assert d[i].0 == TextFeatureNames[i];
    GetFirst(d, i);
  }

  /** `features[name]` for the i-th text feature is the i-th value of its branch. */
  lemma StoredFeature(req: Request, entropyOf: string -> real, i: nat, v: Num)
    requires i < |TextFeatureNames|
    requires BaseFeatures(CombinedText(req), entropyOf)[i].1 == v
    ensures Get(ExtractFeatures(req, entropyOf), TextFeatureNames[i]) == Some(v)
  {
    var d := BaseFeatures(CombinedText(req), entropyOf);
    BaseLookup(CombinedText(req), entropyOf, i);
    SetFlagsValues(d, Flag(req.httpMethod == "POST"), Flag(HasBody(req)), Flag(HasCookie(req)), i);
  }

  /** The flags: `method_is_post` is 1 exactly for POST, `has_body` exactly when
      the body has a non-whitespace character, `has_cookie` exactly when the
      headers have a Cookie entry; otherwise each is 0. */
  lemma MetadataFlags(req: Request, entropyOf: string -> real)
    ensures Get(ExtractFeatures(req, entropyOf), "method_is_post") in {Some(IntV(0)), Some(IntV(1))}
    ensures Get(ExtractFeatures(req, entropyOf), "method_is_post") == Some(IntV(1)) <==> req.httpMethod == "POST"
    ensures Get(ExtractFeatures(req, entropyOf), "has_body") in {Some(IntV(0)), Some(IntV(1))}
    ensures Get(ExtractFeatures(req, entropyOf), "has_body") == Some(IntV(1)) <==>
              req.body.Some? && exists i :: 0 <= i < |req.body.value| && !IsSpace(req.body.value[i])
    ensures Get(ExtractFeatures(req, entropyOf), "has_cookie") in {Some(IntV(0)), Some(IntV(1))}
    ensures Get(ExtractFeatures(req, entropyOf), "has_cookie") == Some(IntV(1)) <==>
              req.headers.Some? && "Cookie" in req.headers.value
  {
    var d := BaseFeatures(CombinedText(req), entropyOf);
    SetFlagsValues(d, Flag(req.httpMethod == "POST"), Flag(HasBody(req)), Flag(HasCookie(req)), 0);
    if req.body.Some? {
      DropSpacesEmptyIff(req.body.value);
    }
  }

  /** Empty combined text gives 0 for every one of the twelve text features. */
  lemma EmptyTextZeros(req: Request, entropyOf: string -> real)
    requires CombinedText(req) == ""
    ensures forall i :: 0 <= i < |TextFeatureNames| ==>
              Get(ExtractFeatures(req, entropyOf), TextFeatureNames[i]).Some?
              && Get(ExtractFeatures(req, entropyOf), TextFeatureNames[i]).value.AsReal() == 0.0
  {
    forall i | 0 <= i < |TextFeatureNames|
      ensures Get(ExtractFeatures(req, entropyOf), TextFeatureNames[i]).Some?
      ensures Get(ExtractFeatures(req, entropyOf), TextFeatureNames[i]).value.AsReal() == 0.0
    {
      StoredFeature(req, entropyOf, i, ZeroFeatures[i].1);
    }
  }

  lemma QuoteCountChars(t: string)
    ensures QuoteCount(t) == CharCount(t, '\'') + CharCount(t, '"')
  {
    CountOccChar(t, '\'');
    CountOccChar(t, '"');
  }

  /** `features[name]` for the i-th text feature of a given combined text. */
  lemma StoredTextFeature(text: string, req: Request, entropyOf: string -> real, i: nat, v: Num)
    requires i < |TextFeatureNames|
    requires BaseFeatures(text, entropyOf)[i].1 == v
    ensures Get(FeaturesOf(text, req, entropyOf), TextFeatureNames[i]) == Some(v)
  {
    BaseLookup(text, entropyOf, i);
    SetFlagsValues(BaseFeatures(text, entropyOf), Flag(req.httpMethod == "POST"), Flag(HasBody(req)), Flag(HasCookie(req)), i);
  }

  lemma TextCountValues(text: string, entropyOf: string -> real)
    requires |text| > 0
    ensures BaseFeatures(text, entropyOf)[1].1 == IntV(QuoteCount(text))
    ensures BaseFeatures(text, entropyOf)[2].1 == IntV(CharFeature(text, ';'))
    ensures BaseFeatures(text, entropyOf)[4].1 == IntV(CharFeature(text, '='))
    ensures BaseFeatures(text, entropyOf)[6].1 == IntV(|text|)
  {
  }

  lemma QuoteCountFeature(text: string, req: Request, entropyOf: string -> real)
    requires |text| > 0
    ensures Get(FeaturesOf(text, req, entropyOf), "quote_count") == Some(IntV(QuoteCount(text)))
  {
    TextCountValues(text, entropyOf);
    StoredTextFeature(text, req, entropyOf, 1, IntV(QuoteCount(text)));
  }

  lemma SemicolonCountFeature(text: string, req: Request, entropyOf: string -> real)
    requires |text| > 0
    ensures Get(FeaturesOf(text, req, entropyOf), "semicolon_count") == Some(IntV(CharFeature(text, ';')))
  {
    TextCountValues(text, entropyOf);
    StoredTextFeature(text, req, entropyOf, 2, IntV(CharFeature(text, ';')));
  }

  lemma EqualsCountFeature(text: string, req: Request, entropyOf: string -> real)
    requires |text| > 0
    ensures Get(FeaturesOf(text, req, entropyOf), "equals_count") == Some(IntV(CharFeature(text, '=')))
  {
    TextCountValues(text, entropyOf);
    StoredTextFeature(text, req, entropyOf, 4, IntV(CharFeature(text, '=')));
  }

  lemma LengthFeature(text: string, req: Request, entropyOf: string -> real)
    requires |text| > 0
    ensures Get(FeaturesOf(text, req, entropyOf), "length") == Some(IntV(|text|))
  {
    TextCountValues(text, entropyOf);
    StoredTextFeature(text, req, entropyOf, 6, IntV(|text|));
  }

  /** For non-empty combined text: `quote_count`, `semicolon_count` and
      `equals_count` count those characters (each a character count by the
      contracts of the count functions and `QuoteCountChars`), and `length` is
      the text's length. */
  lemma CountFeatures(req: Request, entropyOf: string -> real)
    requires |CombinedText(req)| > 0
    ensures Get(ExtractFeatures(req, entropyOf), "quote_count") == Some(IntV(QuoteCount(CombinedText(req))))
    ensures Get(ExtractFeatures(req, entropyOf), "semicolon_count") == Some(IntV(CharFeature(CombinedText(req), ';')))
    ensures Get(ExtractFeatures(req, entropyOf), "equals_count") == Some(IntV(CharFeature(CombinedText(req), '=')))
    ensures Get(ExtractFeatures(req, entropyOf), "length") == Some(IntV(|CombinedText(req)|))
  {
    var t := CombinedText(req);
    QuoteCountFeature(t, req, entropyOf);
    SemicolonCountFeature(t, req, entropyOf);
    EqualsCountFeature(t, req, entropyOf);
    LengthFeature(t, req, entropyOf);
  }

  lemma TextBounds(text: string, req: Request, entropyOf: string -> real)
    ensures forall i :: 8 <= i <= 10 ==>
              var v := Get(FeaturesOf(text, req, entropyOf), TextFeatureNames[i]);
              v.Some? && v.value.FloatV? && 0.0 <= v.value.r <= 1.0
    ensures var v := Get(FeaturesOf(text, req, entropyOf), "encoding_depth");
            v.Some? && v.value.IntV? && 0 <= v.value.i <= MaxRounds
  {
    var d := BaseFeatures(text, entropyOf);
    BaseBounds(text, entropyOf);
    forall i | 8 <= i <= 10
      ensures var v := Get(FeaturesOf(text, req, entropyOf), TextFeatureNames[i]);
              v.Some? && v.value.FloatV? && 0.0 <= v.value.r <= 1.0
    {
      StoredTextFeature(text, req, entropyOf, i, d[i].1);
    }
    StoredTextFeature(text, req, entropyOf, 11, d[11].1);
  }

  /** Before the flags: the three ratios are floats in [0, 1] and the depth an
      integer in [0, 10]. */
  lemma BaseBounds(text: string, entropyOf: string -> real)
    ensures var d := BaseFeatures(text, entropyOf);
            |d| >= 12
            && (forall i :: 8 <= i <= 10 ==> d[i].1.FloatV? && 0.0 <= d[i].1.r <= 1.0)
            && d[11].1.IntV? && 0 <= d[11].1.i <= MaxRounds
  {
    if |text| > 0 {
      TextFeaturesBounds(text, entropyOf);
    } else {
      ZeroFeaturesBounds();
    }
  }

  lemma TextFeaturesBounds(text: string, entropyOf: string -> real)
    ensures var d := TextFeatures(text, entropyOf);
            |d| == 12
            && (forall i :: 8 <= i <= 10 ==> d[i].1.FloatV? && 0.0 <= d[i].1.r <= 1.0)
            && d[11].1.IntV? && 0 <= d[11].1.i <= MaxRounds
  {
  }

  lemma ZeroFeaturesBounds()
    ensures |ZeroFeatures| == 15
            && (forall i :: 8 <= i <= 10 ==> ZeroFeatures[i].1 == FloatV(0.0))
            && ZeroFeatures[11].1 == IntV(0)
  {
  }

  /** In either branch the three ratios are floats in [0, 1] and the encoding
      depth is an integer in [0, 10]. */
  lemma BoundedFeatures(req: Request, entropyOf: string -> real)
    ensures forall i :: 8 <= i <= 10 ==>
              var v := Get(ExtractFeatures(req, entropyOf), TextFeatureNames[i]);
              v.Some? && v.value.FloatV? && 0.0 <= v.value.r <= 1.0
    ensures var v := Get(ExtractFeatures(req, entropyOf), "encoding_depth");
            v.Some? && v.value.IntV? && 0 <= v.value.i <= MaxRounds
  {
    TextBounds(CombinedText(req), req, entropyOf);
  }

  // ---------------------------------------------------------------------------
  // Keyword counts

  lemma {:induction false} WordMatchesZeroIff(t: string, kw: string, i: nat)
    requires |kw| > 0 && i <= |t|
    ensures WordMatchesFrom(t, kw, i) == 0 <==> forall j :: i <= j <= |t| - |kw| ==> !WordMatchAt(t, kw, j)
    decreases |t| - i
  {
    if i + |kw| <= |t| {
      WordMatchesZeroIff(t, kw, i + 1);
    }
  }

  lemma {:induction false} KeywordCountZeroIff(t: string, k: nat)
    requires k <= |SqlKeywords|
    ensures KeywordCountFrom(t, k) == 0 <==>
              forall m :: k <= m < |SqlKeywords| ==> WordMatchesFrom(t, SqlKeywords[m], 0) == 0
    decreases |SqlKeywords| - k
  {
    if k < |SqlKeywords| {
      KeywordCountZeroIff(t, k + 1);
    }
  }

  /** Keyword number `m` matches as a whole word at position `j` of `t`. */
  predicate KeywordAt(t: string, m: nat, j: nat)
    requires m < |SqlKeywords|
  {
    j + |SqlKeywords[m]| <= |t| && WordMatchAt(t, SqlKeywords[m], j)
  }

  lemma KeywordMatchesZeroIff(t: string, m: nat)
    requires m < |SqlKeywords|
    ensures WordMatchesFrom(t, SqlKeywords[m], 0) == 0 <==> forall j: nat :: !KeywordAt(t, m, j)
  {
    var kw := SqlKeywords[m];
    WordMatchesZeroIff(t, kw, 0);
    assert forall j: nat :: KeywordAt(t, m, j) <==> j <= |t| - |kw| && WordMatchAt(t, kw, j);
  }

  /** No keyword is counted exactly when no keyword matches as a whole word
      (`SqlKeywordCount` applies this count to the lower-cased text). */
  lemma KeywordFreeIff(t: string)
    ensures KeywordCountFrom(t, 0) == 0 <==>
              forall m: nat, j: nat :: m < |SqlKeywords| ==> !KeywordAt(t, m, j)
  {
    KeywordCountZeroIff(t, 0);
    forall m | 0 <= m < |SqlKeywords|
      ensures WordMatchesFrom(t, SqlKeywords[m], 0) == 0 <==> forall j: nat :: !KeywordAt(t, m, j)
    {
      KeywordMatchesZeroIff(t, m);
    }
  }

  /** Keyword and `or`/`and` counts ignore letter case. */
  lemma CaseBlindCounts(text: string)
    ensures SqlKeywordCount(LowerStr(text)) == SqlKeywordCount(text)
    ensures OrAndCount(LowerStr(text)) == OrAndCount(text)
  {
    LowerStrIdempotent(text);
  }

  /** A letter of each keyword that is one of t, o, l and x. */
  const MarkerPositions: seq<nat> := [2, 3, 5, 4, 2, 2, 4, 1, 1, 1, 5, 9, 0, 0, 1, 2, 1, 3, 1]

  predicate IsMarker(c: char) { c == 't' || c == 'o' || c == 'l' || c == 'x' }

  lemma KeywordMarkers()
    ensures |MarkerPositions| == |SqlKeywords|
    ensures forall k :: 0 <= k < |SqlKeywords| ==>
              MarkerPositions[k] < |SqlKeywords[k]| && IsMarker(SqlKeywords[k][MarkerPositions[k]])
  {
  }

  /** A keyword one of whose letters is absent never matches. */
  lemma {:induction false} AbsentLetterNoMatch(t: string, kw: string, p: nat, i: nat)
    requires p < |kw| && i <= |t|
    requires forall j :: 0 <= j < |t| ==> t[j] != kw[p]
    ensures WordMatchesFrom(t, kw, i) == 0
    decreases |t| - i
  {
    if i + |kw| <= |t| {
      assert t[i..i + |kw|][p] == t[i + p];
      AbsentLetterNoMatch(t, kw, p, i + 1);
    }
  }

  lemma {:induction false} MarkerFreeCount(t: string, k: nat)
    requires k <= |SqlKeywords|
    requires forall j :: 0 <= j < |t| ==> !IsMarker(t[j])
    ensures KeywordCountFrom(t, k) == 0
    decreases |SqlKeywords| - k
  {
    if k < |SqlKeywords| {
      KeywordMarkers();
      AbsentLetterNoMatch(t, SqlKeywords[k], MarkerPositions[k], 0);
      MarkerFreeCount(t, k + 1);
    }
  }

  /** Text without the letters t, o, l and x, in either case, has no SQL keyword:
      every keyword contains one of them. */
  lemma MarkerFreeText(text: string)
    requires forall j :: 0 <= j < |text| ==> !IsMarker(Lower(text[j]))
    ensures SqlKeywordCount(text) == 0
  {
    MarkerFreeCount(LowerStr(text), 0);
  }

  // ---------------------------------------------------------------------------
  // Which parts of the request matter

  lemma {:induction false} HeaderSourcesAgree(h1: Option<map<string, string>>, h2: Option<map<string, string>>, i: nat)
    requires i <= |DangerousHeaders|
    requires forall k :: i <= k < |DangerousHeaders| ==> Header(h1, DangerousHeaders[k]) == Header(h2, DangerousHeaders[k])
    ensures HeaderSources(h1, i) == HeaderSources(h2, i)
    decreases |DangerousHeaders| - i
  {
    if i < |DangerousHeaders| {
      HeaderSourcesAgree(h1, h2, i + 1);
    }
  }

  /** Only the path, the body, the method and the Cookie, User_Agent and Referer
      headers matter: requests that agree on them get the same dictionary,
      whatever their other headers. */
  lemma OtherHeadersIgnored(r1: Request, r2: Request, entropyOf: string -> real)
    requires r1.request == r2.request && r1.body == r2.body && r1.httpMethod == r2.httpMethod
    requires forall k :: 0 <= k < |DangerousHeaders| ==>
               Header(r1.headers, DangerousHeaders[k]) == Header(r2.headers, DangerousHeaders[k])
    ensures ExtractFeatures(r1, entropyOf) == ExtractFeatures(r2, entropyOf)
  {
    HeaderSourcesAgree(r1.headers, r2.headers, 0);
    assert DangerousHeaders[0] == "Cookie";
    assert Sources(r1) == Sources(r2);
  }

  lemma TextPatternValues(text: string, entropyOf: string -> real)
    requires |text| > 0
    ensures BaseFeatures(text, entropyOf)[0].1 == IntV(SqlKeywordCount(text))
    ensures BaseFeatures(text, entropyOf)[3].1 == IntV(CommentCount(text))
    ensures BaseFeatures(text, entropyOf)[5].1 == IntV(OrAndCount(text))
  {
  }

  lemma KeywordCountFeature(text: string, req: Request, entropyOf: string -> real)
    requires |text| > 0
    ensures Get(FeaturesOf(text, req, entropyOf), "sql_keyword_count") == Some(IntV(SqlKeywordCount(text)))
  {
    TextPatternValues(text, entropyOf);
    StoredTextFeature(text, req, entropyOf, 0, IntV(SqlKeywordCount(text)));
  }

  lemma CommentCountFeature(text: string, req: Request, entropyOf: string -> real)
    requires |text| > 0
    ensures Get(FeaturesOf(text, req, entropyOf), "comment_pattern_count") == Some(IntV(CommentCount(text)))
  {
    TextPatternValues(text, entropyOf);
    StoredTextFeature(text, req, entropyOf, 3, IntV(CommentCount(text)));
  }

  lemma OrAndCountFeature(text: string, req: Request, entropyOf: string -> real)
    requires |text| > 0
    ensures Get(FeaturesOf(text, req, entropyOf), "or_and_count") == Some(IntV(OrAndCount(text)))
  {
    TextPatternValues(text, entropyOf);
    StoredTextFeature(text, req, entropyOf, 5, IntV(OrAndCount(text)));
  }

  /** For non-empty combined text the three pattern counts are those of the
      combined text. */
  lemma PatternFeatures(req: Request, entropyOf: string -> real)
    requires |CombinedText(req)| > 0
    ensures Get(ExtractFeatures(req, entropyOf), "sql_keyword_count") == Some(IntV(SqlKeywordCount(CombinedText(req))))
    ensures Get(ExtractFeatures(req, entropyOf), "comment_pattern_count") == Some(IntV(CommentCount(CombinedText(req))))
    ensures Get(ExtractFeatures(req, entropyOf), "or_and_count") == Some(IntV(OrAndCount(CombinedText(req))))
  {
    var t := CombinedText(req);
    KeywordCountFeature(t, req, entropyOf);
    CommentCountFeature(t, req, entropyOf);
    OrAndCountFeature(t, req, entropyOf);
  }

  /** A request with only a path has the path as its one source. */
  lemma PathOnlySources(path: string, httpMethod: string)
    requires |path| > 0
    ensures Sources(Request(Some(path), None, None, httpMethod)) == [path]
  {
    assert HeaderSources(None, 0) == [];
  }

  /** A path that is one plain word is its own combined text. */
  lemma PlainWordPath(path: string, httpMethod: string)
    requires |path| > 0 && Plain(path) && forall j :: 0 <= j < |path| ==> !IsSpace(path[j])
    ensures CombinedText(Request(Some(path), None, None, httpMethod)) == path
  {
    PathOnlySources(path, httpMethod);
    PlainNotDecoded(path);
    CollapseWord(path);
    assert CleanAll([path]) == [path];
  }

  /** Digits, `/`, `?`, `=`, `&`, and lower-case letters other than t, o, l and x. */
  predicate BenignChar(c: char)
  {
    IsDigit(c) || c == '/' || c == '?' || c == '=' || c == '&' || (IsAsciiLower(c) && !IsMarker(c))
  }

  lemma BenignText(text: string)
    requires forall j :: 0 <= j < |text| ==> BenignChar(text[j])
    ensures Plain(text) && QuoteCount(text) == 0
    ensures forall j :: 0 <= j < |text| ==> !IsSpace(text[j]) && !IsMarker(Lower(text[j]))
  {
    assert forall j :: 0 <= j < |text| ==> text[j] in text;
    PlainWithoutMarkers(text);
    QuoteCountChars(text);
    CharCountAbsent(text, '\'');
    CharCountAbsent(text, '"');
  }

  /** A path made of benign characters is its own combined text, with no SQL
      keyword and no quote. */
  lemma BenignPathFeatures(path: string, httpMethod: string, entropyOf: string -> real)
    requires |path| > 0 && forall j :: 0 <= j < |path| ==> BenignChar(path[j])
    ensures var req := Request(Some(path), None, None, httpMethod);
            CombinedText(req) == path
            && Get(ExtractFeatures(req, entropyOf), "sql_keyword_count") == Some(IntV(0))
            && Get(ExtractFeatures(req, entropyOf), "quote_count") == Some(IntV(0))
  {
    var req := Request(Some(path), None, None, httpMethod);
    BenignText(path);
    PlainWordPath(path, httpMethod);
    MarkerFreeText(path);
    KeywordCountFeature(path, req, entropyOf);
    QuoteCountFeature(path, req, entropyOf);
  }

  /** A plain GET of `/api/user?id=1`: the combined text is the path itself,
      with no SQL keyword and no quote. */
  lemma BenignPath(entropyOf: string -> real)
    ensures var req := Request(Some("/api/user?id=1"), None, None, "GET");
            CombinedText(req) == "/api/user?id=1"
            && Get(ExtractFeatures(req, entropyOf), "sql_keyword_count") == Some(IntV(0))
            && Get(ExtractFeatures(req, entropyOf), "quote_count") == Some(IntV(0))
  {
    var path := "/api/user?id=1";
    assert forall j :: 0 <= j < |path| ==> BenignChar(path[j]);
    BenignPathFeatures(path, "GET", entropyOf);
  }

  // ---------------------------------------------------------------------------
  // The tautology path

  /** The injection path of the tests, `/api/user?id=1' OR '1'='1`, written as
      the concatenation of its words and spaces. */
  const TautologyPath: string := "/api/user" + "?id=1'" + " OR " + "'1'='1"

  const TautologyRequest: Request := Request(Some(TautologyPath), None, None, "GET")

  /** The characters of the tautology path, in either case. */
  predicate TautologyChar(c: char) { c in "/apiuser?d=1' oOR" }

  /** A letter of each keyword other than `drop` that is one of t, l, x, n and c. */
  const CluePositions: seq<nat> := [2, 1, 1, 4, 2, 0, 0, 1, 1, 1, 1, 5, 1, 1, 1, 5, 0, 3, 1]

  predicate IsClue(c: char) { c == 't' || c == 'l' || c == 'x' || c == 'n' || c == 'c' }

  lemma KeywordClues()
    ensures |CluePositions| == |SqlKeywords| && SqlKeywords[5] == "drop"
    ensures forall k :: 0 <= k < |SqlKeywords| && k != 5 ==>
              CluePositions[k] < |SqlKeywords[k]| && IsClue(SqlKeywords[k][CluePositions[k]])
  {
  }

  /** Text without the letters t, l, x, n and c and without the pair "dr" has
      no SQL keyword. */
  lemma {:induction false} ClueFreeCount(t: string, k: nat)
    requires k <= |SqlKeywords|
    requires forall j :: 0 <= j < |t| ==> !IsClue(t[j])
    requires forall j :: 0 <= j < |t| - 1 ==> !(t[j] == 'd' && t[j + 1] == 'r')
    ensures KeywordCountFrom(t, k) == 0
    decreases |SqlKeywords| - k
  {
    if k < |SqlKeywords| {
      KeywordClues();
      var kw := SqlKeywords[k];
      if k == 5 {
        NoPairNoMatch(t, kw);
      } else {
        var p := CluePositions[k];
        assert forall j :: 0 <= j < |t| ==> t[j] != kw[p];
        AbsentLetterNoMatch(t, kw, p, 0);
      }
      ClueFreeCount(t, k + 1);
    }
  }

  /** Text without the pair "dr" has no match of a keyword starting with "dr". */
  lemma NoPairNoMatch(t: string, kw: string)
    requires |kw| >= 2 && kw[0] == 'd' && kw[1] == 'r'
    requires forall j :: 0 <= j < |t| - 1 ==> !(t[j] == 'd' && t[j + 1] == 'r')
    ensures WordMatchesFrom(t, kw, 0) == 0
  {
    WordMatchesZeroIff(t, kw, 0);
    forall j | 0 <= j <= |t| - |kw| ensures !WordMatchAt(t, kw, j) {
      assert t[j..j + |kw|][0] == t[j] && t[j..j + |kw|][1] == t[j + 1];
    }
  }

  lemma NotSpace(c: char)
    requires TautologyChar(c) && c != ' '
    ensures !IsSpace(c)
  {
  }

  /** A run of the tautology path's characters other than the space is a word. */
  lemma TautologyWord(w: string)
    requires |w| > 0 && forall i :: 0 <= i < |w| ==> TautologyChar(w[i]) && w[i] != ' '
    ensures forall i :: 0 <= i < |w| ==> !IsSpace(w[i])
  {
    forall i | 0 <= i < |w| ensures !IsSpace(w[i]) {
      NotSpace(w[i]);
    }
  }

  lemma TautologyWordChars()
    ensures forall i :: 0 <= i < |"/api/user" + "?id=1'"| ==>
              TautologyChar(("/api/user" + "?id=1'")[i]) && ("/api/user" + "?id=1'")[i] != ' '
    ensures forall i :: 0 <= i < |"'1'='1"| ==> TautologyChar("'1'='1"[i]) && "'1'='1"[i] != ' '
  {
  }

  /** `/api/user?id=1'`, `OR` and `'1'='1` are words. */
  lemma TautologyWords()
    ensures Split(TautologyPath) == ["/api/user" + "?id=1'", "OR", "'1'='1"]
  {
    var w1, w2, w3 := "/api/user" + "?id=1'", "OR", "'1'='1";
    assert TautologyPath == w1 + " " + (w2 + " " + w3);
    TautologyWordChars();
    TautologyWord(w1);
    TautologyWord(w3);
    NotSpace('O');
    NotSpace('R');
    assert forall i :: 0 <= i < |w2| ==> !IsSpace(w2[i]);
    SplitThreeWords(w1, w2, w3);
  }

  lemma TautologyJoin()
    ensures Join(["/api/user" + "?id=1'", "OR", "'1'='1"], " ") == TautologyPath
  {
    var w1, w2, w3 := "/api/user" + "?id=1'", "OR", "'1'='1";
    var ws := [w1, w2, w3];
    assert ws[1..] == [w2, w3] && ws[1..][1..] == [w3];
    assert Join([w3], " ") == w3;
    assert Join([w2, w3], " ") == w2 + " " + w3;
    assert Join(ws, " ") == w1 + " " + (w2 + " " + w3);
    assert TautologyPath == w1 + " " + (w2 + " " + w3);
  }

  /** The tautology path is its own combined text: one plain line whose words
      are separated by single spaces. */
  lemma TautologyCombinedText()
    ensures CombinedText(TautologyRequest) == TautologyPath
  {
    var p := TautologyPath;
    TautologyWords();
    TautologyJoin();
    TautologyPlain();
    PlainNotDecoded(p);
    PathOnlySources(p, "GET");
    assert CleanAll([p]) == [p];
  }

  /** The tautology path has no `%` and no `+`, so nothing in it is decoded. */
  lemma TautologyPlain()
    ensures Plain(TautologyPath)
  {
    PlainWithoutMarkers(TautologyPath);
  }

  /** The tautology path read in lower case: only `OR` changes. */
  lemma TautologyLower()
    ensures LowerStr(TautologyPath) == "/api/user" + "?id=1'" + " or " + "'1'='1"
  {
    var p := TautologyPath;
    var lower := "/api/user" + "?id=1'" + " or " + "'1'='1";
    assert forall i :: 0 <= i < |p| ==> Lower(p[i]) == lower[i];
  }

  /** The lower-cased tautology path has none of t, l, x, n and c, and no "dr". */
  lemma TautologyClueFree()
    ensures var lower := "/api/user" + "?id=1'" + " or " + "'1'='1";
            (forall j :: 0 <= j < |lower| ==> !IsClue(lower[j]))
            && forall j :: 0 <= j < |lower| - 1 ==> !(lower[j] == 'd' && lower[j + 1] == 'r')
  {
  }

  /** `or` is not a keyword, and no keyword occurs in the tautology path. */
  lemma TautologyKeywordFree()
    ensures SqlKeywordCount(TautologyPath) == 0
  {
    TautologyLower();
    TautologyClueFree();
    ClueFreeCount("/api/user" + "?id=1'" + " or " + "'1'='1", 0);
  }

  /** The stretches of the tautology path between its single quotes. */
  lemma TautologyQuoteFree()
    ensures CharCount(TautologyPath[0..14], '\'') == 0 && CharCount(TautologyPath[15..19], '\'') == 0
    ensures CharCount(TautologyPath[20..21], '\'') == 0 && CharCount(TautologyPath[22..23], '\'') == 0
    ensures CharCount(TautologyPath[24..25], '\'') == 0
  {
    var p := TautologyPath;
    assert forall j :: 0 <= j < |p| && j !in {14, 19, 21, 23} ==> p[j] != '\'';
    CharCountAbsent(p[0..14], '\'');
    CharCountAbsent(p[15..19], '\'');
    CharCountAbsent(p[20..21], '\'');
    CharCountAbsent(p[22..23], '\'');
    CharCountAbsent(p[24..25], '\'');
  }

  /** Four single quotes, at positions 14, 19, 21 and 23. */
  lemma TautologySingleQuotes()
    ensures CharCount(TautologyPath, '\'') == 4
  {
    var q := '\'';
    var p := TautologyPath;
    assert p[0..25] == p;
    CharCountSplitAt(p, 0, 14, 25, q);
    CharCountSplitAt(p, 15, 19, 25, q);
    CharCountSplitAt(p, 20, 21, 25, q);
    CharCountSplitAt(p, 22, 23, 25, q);
    TautologyQuoteFree();
  }

  lemma TautologyQuotes()
    ensures QuoteCount(TautologyPath) == 4
  {
    var p := TautologyPath;
    assert forall j :: 0 <= j < |p| ==> TautologyChar(p[j]);
    QuoteCountChars(p);
    CharCountAbsent(p, '"');
    TautologySingleQuotes();
  }

  lemma TautologyNoComment()
    ensures CommentCount(TautologyPath) == 0
  {
    var p := TautologyPath;
    assert forall j :: 0 <= j < |p| ==> TautologyChar(p[j]);
    CountOccAbsentChar(p, "--", 0);
    CountOccAbsentChar(p, "/*", 1);
    CountOccAbsentChar(p, "*/", 0);
    CountOccAbsentChar(p, "#", 0);
  }

  /** Exactly one ` or `, between `id=1'` and `'1'='1`. */
  lemma TautologyOrAnd()
    ensures OrAndCount(TautologyPath) == 1
  {
    TautologyOneOr();
    TautologyNoAnd();
  }

  lemma TautologyOneOr()
    ensures CountOcc(LowerStr(TautologyPath), " or ") == 1
  {
    var a, b := "/api/user" + "?id=1'", "'1'='1";
    TautologyLower();
    assert forall j :: 0 <= j < |a| ==> a[j] != ' ';
    assert forall j :: 0 <= j < |b| ==> b[j] != ' ';
    OneOrBetween(a, b);
  }

  lemma TautologyNoAnd()
    ensures CountOcc(LowerStr(TautologyPath), " and ") == 0
  {
    var lower := LowerStr(TautologyPath);
    TautologyLower();
    assert forall j :: 0 <= j < |lower| ==> TautologyChar(lower[j]);
    CountOccAbsentChar(lower, " and ", 2);
  }

  /** Two space-free pieces joined by ` or ` hold exactly one ` or `. */
  lemma OneOrBetween(a: string, b: string)
    requires forall j :: 0 <= j < |a| ==> a[j] != ' '
    requires forall j :: 0 <= j < |b| ==> b[j] != ' '
    ensures CountOcc(a + " or " + b, " or ") == 1
  {
    var tail := " or " + b;
    assert a + " or " + b == a + tail;
    CountOccSkip(a, tail, " or ");
    StartsWithIsPrefix(tail, " or ");
    assert tail[4..] == b;
    CountOccAbsentChar(b, " or ", 0);
  }

  lemma EntropyFeature(text: string, req: Request, entropyOf: string -> real)
    requires |text| > 0
    ensures Get(FeaturesOf(text, req, entropyOf), "entropy") == Some(FloatV(entropyOf(text)))
  {
    StoredTextFeature(text, req, entropyOf, 7, FloatV(entropyOf(text)));
  }

  /** The feature dictionary of a GET of the tautology path, at the keys the
      attack-probability heuristic reads. */
  lemma TautologyFeatures(entropyOf: string -> real)
    ensures var f := ExtractFeatures(TautologyRequest, entropyOf);
            Get(f, "sql_keyword_count") == Some(IntV(0))
            && Get(f, "quote_count") == Some(IntV(4))
            && Get(f, "comment_pattern_count") == Some(IntV(0))
            && Get(f, "or_and_count") == Some(IntV(1))
            && Get(f, "entropy") == Some(FloatV(entropyOf(TautologyPath)))
            && Get(f, "encoding_depth") == Some(IntV(0))
  {
    var p := TautologyPath;
    TautologyCombinedText();
    TautologyKeywordFree();
    TautologyQuotes();
    TautologyNoComment();
    TautologyOrAnd();
    TautologyPlain();
    PlainNotDecoded(p);
    PatternFeatures(TautologyRequest, entropyOf);
    CountFeatures(TautologyRequest, entropyOf);
    EntropyFeature(p, TautologyRequest, entropyOf);
    EncodingDepthFeature(p, TautologyRequest, entropyOf);
  }

  // ---------------------------------------------------------------------------
  // Encoding depth is measured after decoding

  /** A source that `_unquote` decodes before the cap comes out of `_clean_text` plain. */
  lemma PlainClean(text: string)
    requires EncodingDepth(text) < MaxRounds
    ensures Plain(Clean(text))
  {
    if |text| > 0 {
      UnquoteIsDepthRounds(text);
      PlainCollapse(Unquote(text));
    }
  }

  /** When no source needs all ten rounds, the combined text is already fully
      decoded: plain, with encoding depth 0. */
  lemma CombinedTextDecoded(req: Request)
    requires forall i :: 0 <= i < |Sources(req)| ==> EncodingDepth(Sources(req)[i]) < MaxRounds
    ensures Plain(CombinedText(req)) && EncodingDepth(CombinedText(req)) == 0
  {
    var parts := CleanAll(Sources(req));
    forall i | 0 <= i < |parts| ensures Plain(parts[i]) {
      PlainClean(Sources(req)[i]);
    }
    PlainJoin(parts);
    PlainNotDecoded(CombinedText(req));
  }

  /** `encoding_depth` is the depth of the combined text in either branch. */
  lemma EncodingDepthFeature(text: string, req: Request, entropyOf: string -> real)
    ensures Get(FeaturesOf(text, req, entropyOf), "encoding_depth") == Some(IntV(EncodingDepth(text)))
  {
    StoredTextFeature(text, req, entropyOf, 11, BaseFeatures(text, entropyOf)[11].1);
  }

  /** As written, `encoding_depth` is measured on text `_clean_text` has already
      decoded, so it is 0 unless some source needed all ten rounds. */
  lemma RecordedDepthIsZero(req: Request, entropyOf: string -> real)
    requires forall i :: 0 <= i < |Sources(req)| ==> EncodingDepth(Sources(req)[i]) < MaxRounds
    ensures Get(ExtractFeatures(req, entropyOf), "encoding_depth") == Some(IntV(0))
  {
    CombinedTextDecoded(req);
    EncodingDepthFeature(CombinedText(req), req, entropyOf);
  }

  /** The depth the design describes: the largest number of decoding rounds any
      raw source needs. */
  function SourcesDepth(texts: seq<string>): (n: nat)
    ensures n <= MaxRounds
    ensures forall i :: 0 <= i < |texts| ==> EncodingDepth(texts[i]) <= n
    ensures |texts| == 0 ==> n == 0
    ensures |texts| > 0 ==> exists i :: 0 <= i < |texts| && EncodingDepth(texts[i]) == n
  {
    if |texts| == 0 then 0
    else
      var rest := SourcesDepth(texts[1..]);
      assert forall i :: 1 <= i < |texts| ==> texts[i] == texts[1..][i - 1];
      if EncodingDepth(texts[0]) >= rest then EncodingDepth(texts[0]) else rest
  }

  /** The encoding depth of the request measured on its raw sources. */
  function RawEncodingDepth(req: Request): nat
  {
    SourcesDepth(Sources(req))
  }

  /** The feature dictionary with `encoding_depth` measured on the raw sources;
      every other entry is the one `extract_features` records. */
  function IntendedFeatures(req: Request, entropyOf: string -> real): FeatureDict
  {
    Put(ExtractFeatures(req, entropyOf), "encoding_depth", IntV(RawEncodingDepth(req)))
  }

  /** The corrected dictionary keeps the fifteen keys in order, records the raw
      depth, and agrees with `extract_features` on every other key. */
  lemma IntendedFeaturesSpec(req: Request, entropyOf: string -> real)
    ensures Keys(IntendedFeatures(req, entropyOf)) == FeatureNames
    ensures Get(IntendedFeatures(req, entropyOf), "encoding_depth") == Some(IntV(RawEncodingDepth(req)))
    ensures forall k :: k != "encoding_depth" ==>
              Get(IntendedFeatures(req, entropyOf), k) == Get(ExtractFeatures(req, entropyOf), k)
  {
    var f := ExtractFeatures(req, entropyOf);
    var v := IntV(RawEncodingDepth(req));
    ExtractFeaturesKeys(req, entropyOf);
    assert FeatureNames[11] == "encoding_depth";
    PutKeys(f, "encoding_depth", v);
    forall k | k != "encoding_depth"
      ensures Get(IntendedFeatures(req, entropyOf), k) == Get(f, k)
    {
      GetPut(f, "encoding_depth", v, k);
    }
    GetPut(f, "encoding_depth", v, "encoding_depth");
  }

  /** `%2527` decodes to `%27`, then to a quote, then stays. */
  lemma DoubleEncodedDepth()
    ensures EncodingDepth("%2527") == 2
  {
    var raw := "%2527";
    assert EscapeAt(raw, 0) && HexValue('2') == 2 && HexValue('5') == 5;
    assert DecodeOnce("27") == "27";
    assert DecodeOnce(raw) == "%27";
    assert EscapeAt("%27", 0) && HexValue('7') == 7;
    assert DecodeOnce("%27") == "'";
    assert DecodeOnce("'") == "'";
  }

  /** A doubly encoded quote in the path: the raw path takes two rounds, the
      recorded feature says 0. */
  lemma DoubleEncodedQuote(entropyOf: string -> real)
    ensures var req := Request(Some("%2527"), None, None, "GET");
            RawEncodingDepth(req) == 2
            && Get(ExtractFeatures(req, entropyOf), "encoding_depth") == Some(IntV(0))
            && Get(IntendedFeatures(req, entropyOf), "encoding_depth") == Some(IntV(2))
  {
    var req := Request(Some("%2527"), None, None, "GET");
    PathOnlySources("%2527", "GET");
    DoubleEncodedDepth();
    RecordedDepthIsZero(req, entropyOf);
    IntendedFeaturesSpec(req, entropyOf);
  }
}
