/** The safety layer (`SafetyLayer` in safety_layer.py): an ordered rewrite of
    the agent's action that keeps BLOCK away from protected endpoints and
    internal origins and forces ALLOW for known-safe traffic and health checks.
    The layer holds nothing but compiled constant patterns, so every operation
    is a function of its arguments. */
module SafetyLayer {
  import opened Actions
  import opened Text

  /** Python truthiness of an optional string argument: `None` and `''` are false. */
  predicate Truthy(s: Option<string>)
  {
    s.Some? && |s.value| > 0
  }

  /** `PROTECTED_ENDPOINTS`: each pattern `/x.*` under `re.match` is the prefix test "/x". */
  const ProtectedPrefixes: seq<string> := ["/admin", "/api/auth", "/health", "/metrics"]

  /** The early-return loop over a list of prefix patterns, from index `i` on. */
  predicate AnyPrefixFrom(s: string, prefixes: seq<string>, i: nat)
    decreases |prefixes| - i
  {
    if i >= |prefixes| then false
    else if StartsWith(s, prefixes[i]) then true
    else AnyPrefixFrom(s, prefixes, i + 1)
  }

  /** `_is_protected_endpoint`. */
  predicate IsProtectedEndpoint(endpoint: string)
  {
    AnyPrefixFrom(endpoint, ProtectedPrefixes, 0)
  }

  /** The four protected areas, stated with Dafny's own prefix relation. */
  lemma ProtectedEndpointIff(endpoint: string)
    ensures IsProtectedEndpoint(endpoint) <==>
              "/admin" <= endpoint || "/api/auth" <= endpoint || "/health" <= endpoint || "/metrics" <= endpoint
  {
    StartsWithIsPrefix(endpoint, "/admin");
    StartsWithIsPrefix(endpoint, "/api/auth");
    StartsWithIsPrefix(endpoint, "/health");
    StartsWithIsPrefix(endpoint, "/metrics");
    var ps := ProtectedPrefixes;
    assert !AnyPrefixFrom(endpoint, ps, 4);
  }

  /** One entry of `INTERNAL_IP_PATTERNS`. */
  datatype IpPattern =
    | Prefix(p: string)   // `^p` with only literal characters
    | PrivateClassB       // `^172\.(1[6-9]|2[0-9]|3[0-1])\.`
    | LoopbackV6          // `^::1$`

  /** The two characters `(1[6-9]|2[0-9]|3[0-1])` accepts. */
  predicate ClassBOctet(d1: char, d2: char)
  {
    (d1 == '1' && '6' <= d2 <= '9') || (d1 == '2' && IsDigit(d2)) || (d1 == '3' && '0' <= d2 <= '1')
  }

  /** `pattern.match(ip)`. Python's `$` also matches just before a final newline,
      so `^::1$` accepts "::1\n" as well as "::1". */
  predicate IpMatches(pattern: IpPattern, ip: string)
  {
    match pattern
    case Prefix(p) => StartsWith(ip, p)
    case PrivateClassB => |ip| >= 7 && StartsWith(ip, "172.") && ClassBOctet(ip[4], ip[5]) && ip[6] == '.'
    case LoopbackV6 => ip == "::1" || ip == "::1\n"
  }

  /** `INTERNAL_IP_PATTERNS`, in order. */
  const InternalIpPatterns: seq<IpPattern> :=
    [Prefix("127."), Prefix("192.168."), Prefix("10."), PrivateClassB, LoopbackV6, Prefix("fe80:")]

  predicate AnyIpMatchFrom(ip: string, patterns: seq<IpPattern>, i: nat)
    decreases |patterns| - i
  {
    if i >= |patterns| then false
    else if IpMatches(patterns[i], ip) then true
    else AnyIpMatchFrom(ip, patterns, i + 1)
  }

  /** `_is_internal_ip`. */
  predicate IsInternalIp(ip: string)
  {
    AnyIpMatchFrom(ip, InternalIpPatterns, 0)
  }

  /** The two decimal digits of `n` (for `n < 100`). */
  function TwoDigits(n: nat): (s: string)
    requires n < 100
    ensures |s| == 2 && IsDigit(s[0]) && IsDigit(s[1])
  {
    [('0' as int + n / 10) as char, ('0' as int + n % 10) as char]
  }

  lemma ClassBOctetIff(d1: char, d2: char)
    ensures ClassBOctet(d1, d2) <==> exists n :: 16 <= n <= 31 && TwoDigits(n) == [d1, d2]
  {
    if ClassBOctet(d1, d2) {
      var n := (d1 as int - '0' as int) * 10 + (d2 as int - '0' as int);
      assert TwoDigits(n) == [d1, d2];
    }
    if exists n :: 16 <= n <= 31 && TwoDigits(n) == [d1, d2] {
      var n :| 16 <= n <= 31 && TwoDigits(n) == [d1, d2];
      assert d1 == TwoDigits(n)[0] && d2 == TwoDigits(n)[1];
    }
  }

  /** `_is_internal_ip` with its loop unrolled over the six patterns. */
  lemma InternalIpUnrolled(ip: string)
    ensures IsInternalIp(ip) <==>
              StartsWith(ip, "127.") || StartsWith(ip, "192.168.") || StartsWith(ip, "10.")
              || IpMatches(PrivateClassB, ip) || ip == "::1" || ip == "::1\n" || StartsWith(ip, "fe80:")
    ensures IsInternalIp(ip) ==> |ip| > 0
  {
    var ps := InternalIpPatterns;
    assert !AnyIpMatchFrom(ip, ps, 6);
  }

  /** The internal ranges: loopback, the three private IPv4 blocks (class B as
      the second octet 16 to 31), IPv6 loopback exactly, and IPv6 link-local. */
  lemma InternalIpIff(ip: string)
    ensures IsInternalIp(ip) <==>
              "127." <= ip || "192.168." <= ip || "10." <= ip || "fe80:" <= ip
              || (exists n :: 16 <= n <= 31 && "172." + TwoDigits(n) + "." <= ip)
              || ip == "::1" || ip == "::1\n"
  {
    StartsWithIsPrefix(ip, "127.");
    StartsWithIsPrefix(ip, "192.168.");
    StartsWithIsPrefix(ip, "10.");
    StartsWithIsPrefix(ip, "fe80:");
    InternalIpUnrolled(ip);
    ClassBPrefixIff(ip);
  }

  /** `^172\.(1[6-9]|2[0-9]|3[0-1])\.` matches exactly when `ip` starts with
      `172.`, a number from 16 to 31 written in two digits, and a dot. */
  lemma ClassBPrefixIff(ip: string)
    ensures IpMatches(PrivateClassB, ip) <==> exists n :: 16 <= n <= 31 && "172." + TwoDigits(n) + "." <= ip
  {
    StartsWithIsPrefix(ip, "172.");
    if |ip| >= 7 {
      ClassBOctetIff(ip[4], ip[5]);
      forall n | 16 <= n <= 31
        ensures "172." + TwoDigits(n) + "." <= ip <==> ip[..4] == "172." && [ip[4], ip[5]] == TwoDigits(n) && ip[6] == '.'
      {
        var t := "172." + TwoDigits(n) + ".";
        assert |t| == 7;
        assert t <= ip <==> t == ip[..7];
        assert t == ip[..7] <==> t[..4] == ip[..4] && t[4] == ip[4] && t[5] == ip[5] && t[6] == ip[6];
      }
      assert StartsWith(ip, "172.") <==> ip[..4] == "172.";
    } else {
      forall n | 16 <= n <= 31 ensures !("172." + TwoDigits(n) + "." <= ip) {
        assert |"172." + TwoDigits(n) + "."| == 7;
      }
    }
  }

  /** `context and context.get('is_known_safe', False)`. */
  predicate KnownSafe(context: Option<map<string, bool>>)
  {
    context.Some? && "is_known_safe" in context.value && context.value["is_known_safe"]
  }

  /** Rule 4's guard: the endpoint is exactly a health check. */
  predicate IsHealthCheck(endpoint: Option<string>)
  {
    Truthy(endpoint) && (endpoint.value == "/health" || endpoint.value == "/ping")
  }

  /** Rule 1's guard. */
  predicate ProtectedTarget(endpoint: Option<string>)
  {
    Truthy(endpoint) && IsProtectedEndpoint(endpoint.value)
  }

  /** Rule 2's guard. */
  predicate InternalOrigin(origin: Option<string>)
  {
    Truthy(origin) && IsInternalIp(origin.value)
  }

  /** `apply_constraints`: rules 1 to 4 in order, each reading the action the
      previous rules left. */
  function ApplyConstraints(action: Action, endpoint: Option<string>, origin: Option<string>,
                            context: Option<map<string, bool>>): (r: Action)
    ensures r in {action, Challenge, Allow}
    ensures r == Block ==> action == Block
  {
    var afterRule1 := if ProtectedTarget(endpoint) && action == Block then Challenge else action;
    var afterRule2 := if InternalOrigin(origin) && afterRule1 == Block then Challenge else afterRule1;
    var afterRule3 := if KnownSafe(context) then Allow else afterRule2;
    if IsHealthCheck(endpoint) then Allow else afterRule3
  }

  /** The rules as one decision: ALLOW when rule 3 or 4 fires, otherwise BLOCK
      is softened to CHALLENGE for a protected endpoint or an internal origin,
      and any other action is kept. */
  lemma ApplyConstraintsDecision(action: Action, endpoint: Option<string>, origin: Option<string>,
                                 context: Option<map<string, bool>>)
    ensures ApplyConstraints(action, endpoint, origin, context) ==
              if KnownSafe(context) || IsHealthCheck(endpoint) then Allow
              else if action == Block && (ProtectedTarget(endpoint) || InternalOrigin(origin)) then Challenge
              else action
  {
  }

  /** Rule 1: a protected endpoint is never blocked, whatever the agent chose. */
  lemma ProtectedNeverBlocked(action: Action, endpoint: string, origin: Option<string>,
                              context: Option<map<string, bool>>)
    requires "/admin" <= endpoint || "/api/auth" <= endpoint || "/health" <= endpoint || "/metrics" <= endpoint
    ensures ApplyConstraints(action, Some(endpoint), origin, context) != Block
  {
    ProtectedEndpointIff(endpoint);
  }

  /** Rule 2: a request from an internal address is never blocked. */
  lemma InternalNeverBlocked(action: Action, endpoint: Option<string>, origin: string,
                             context: Option<map<string, bool>>)
    requires IsInternalIp(origin)
    ensures ApplyConstraints(action, endpoint, Some(origin), context) != Block
  {
    InternalIpUnrolled(origin);
  }

  /** Rules 3 and 4 override everything before them. */
  lemma SafeTrafficAllowed(action: Action, endpoint: Option<string>, origin: Option<string>,
                           context: Option<map<string, bool>>)
    requires KnownSafe(context) || endpoint == Some("/health") || endpoint == Some("/ping")
    ensures ApplyConstraints(action, endpoint, origin, context) == Allow
  {
  }

  /** An action other than BLOCK passes unchanged unless rule 3 or rule 4 fires. */
  lemma NonBlockKept(action: Action, endpoint: Option<string>, origin: Option<string>,
                     context: Option<map<string, bool>>)
    requires action != Block && !KnownSafe(context) && !IsHealthCheck(endpoint)
    ensures ApplyConstraints(action, endpoint, origin, context) == action
  {
  }

  /** Applying the layer twice in the same context changes nothing more. */
  lemma ApplyConstraintsIdempotent(action: Action, endpoint: Option<string>, origin: Option<string>,
                                   context: Option<map<string, bool>>)
    ensures ApplyConstraints(ApplyConstraints(action, endpoint, origin, context), endpoint, origin, context)
            == ApplyConstraints(action, endpoint, origin, context)
  {
  }

  /** `list.remove(x)`: the first occurrence of `x` deleted. */
  function RemoveFirst(s: seq<Action>, x: Action): (r: seq<Action>)
  {
    if |s| == 0 then []
    else if s[0] == x then s[1..]
    else [s[0]] + RemoveFirst(s[1..], x)
  }

  /** `remove` deletes the first occurrence and keeps everything around it. */
  lemma {:induction false} RemoveFirstAt(s: seq<Action>, x: Action, i: nat)
    requires i < |s| && s[i] == x && x !in s[..i]
    ensures RemoveFirst(s, x) == s[..i] + s[i + 1..]
  {
    if i > 0 {
      assert s[0] in s[..i];
      assert s[1..][..i - 1] == s[1..i];
      RemoveFirstAt(s[1..], x, i - 1);
    }
  }

  /** Without an occurrence `remove` leaves the list as it was (Python raises
      instead, which the callers' membership test rules out). */
  lemma {:induction false} RemoveFirstAbsent(s: seq<Action>, x: Action)
    requires x !in s
    ensures RemoveFirst(s, x) == s
  {
    if |s| > 0 {
      RemoveFirstAbsent(s[1..], x);
    }
  }

  /** `get_allowed_actions`: all actions, BLOCK removed by either rule when present. */
  function GetAllowedActions(endpoint: Option<string>, origin: Option<string>): seq<Action>
  {
    var allowed := AllActions;
    var afterEndpoint := if ProtectedTarget(endpoint) && Block in allowed then RemoveFirst(allowed, Block) else allowed;
    if InternalOrigin(origin) && Block in afterEndpoint then RemoveFirst(afterEndpoint, Block) else afterEndpoint
  }

  /** The allowed list is the enum in order, without BLOCK exactly when the
      endpoint is protected or the origin internal. */
  lemma GetAllowedActionsExact(endpoint: Option<string>, origin: Option<string>)
    ensures GetAllowedActions(endpoint, origin) ==
              if ProtectedTarget(endpoint) || InternalOrigin(origin) then [Allow, LogOnly, Sanitize, Challenge, Throttle]
              else AllActions
    ensures Block in GetAllowedActions(endpoint, origin) <==> !(ProtectedTarget(endpoint) || InternalOrigin(origin))
  {
    RemoveBlockFromAll();
    assert Block !in [Allow, LogOnly, Sanitize, Challenge, Throttle];
  }

  lemma RemoveBlockFromAll()
    ensures RemoveFirst(AllActions, Block) == [Allow, LogOnly, Sanitize, Challenge, Throttle]
  {
    var s := AllActions;
    assert s[5..] == [Block];
    assert RemoveFirst(s[4..], Block) == [Throttle] + RemoveFirst(s[5..], Block);
  }

  /** When the allowed list excludes BLOCK, the layer never lets BLOCK through;
      without a context and apart from "/ping", which rule 4 alone allows, the
      converse holds too. */
  lemma AllowedAgreesWithConstraints(endpoint: Option<string>, origin: Option<string>,
                                     context: Option<map<string, bool>>)
    ensures Block !in GetAllowedActions(endpoint, origin) ==> ApplyConstraints(Block, endpoint, origin, context) != Block
    ensures endpoint != Some("/ping") ==>
              (ApplyConstraints(Block, endpoint, origin, None) == Block <==> Block in GetAllowedActions(endpoint, origin))
  {
    GetAllowedActionsExact(endpoint, origin);
    if endpoint == Some("/health") {
      ProtectedEndpointIff("/health");
    }
  }

  /** "203.0.113.5" is an external address and "127.0.0.1" an internal one. */
  lemma OriginExamples()
    ensures !IsInternalIp("203.0.113.5")
    ensures IsInternalIp("127.0.0.1")
  {
    var ext := "203.0.113.5";
    InternalIpUnrolled(ext);
    assert !StartsWith(ext, "127.") && !StartsWith(ext, "192.168.") && !StartsWith(ext, "10.");
    assert !StartsWith(ext, "172.") && !StartsWith(ext, "fe80:");
    InternalIpUnrolled("127.0.0.1");
    assert StartsWith("127.0.0.1", "127.");
  }

  /** "/admin/users" is protected, "/api/data" is not. */
  lemma EndpointExamples()
    ensures IsProtectedEndpoint("/admin/users")
    ensures !IsProtectedEndpoint("/api/data")
  {
    var ps := ProtectedPrefixes;
    assert StartsWith("/admin/users", ps[0]);
    assert !StartsWith("/api/data", ps[0]) && !StartsWith("/api/data", ps[1]);
    assert !StartsWith("/api/data", ps[2]) && !StartsWith("/api/data", ps[3]);
    assert !AnyPrefixFrom("/api/data", ps, 4);
  }

  /** The shipped examples: BLOCK on "/admin/users" from an external address
      becomes CHALLENGE, as does BLOCK on "/api/data" from 127.0.0.1. */
  lemma ConstraintExamples()
    ensures ApplyConstraints(Block, Some("/admin/users"), Some("203.0.113.5"), None) == Challenge
    ensures ApplyConstraints(Block, Some("/api/data"), Some("127.0.0.1"), None) == Challenge
  {
    OriginExamples();
    EndpointExamples();
    assert !IsHealthCheck(Some("/admin/users")) && !IsHealthCheck(Some("/api/data"));
    ApplyConstraintsDecision(Block, Some("/admin/users"), Some("203.0.113.5"), None);
    ApplyConstraintsDecision(Block, Some("/api/data"), Some("127.0.0.1"), None);
  }

  /** The admin path loses BLOCK from its allowed list; an ordinary path from
      an external address keeps all six actions. */
  lemma AllowedExamples()
    ensures Block !in GetAllowedActions(Some("/admin/users"), None)
    ensures GetAllowedActions(Some("/api/data"), Some("203.0.113.5")) == AllActions
  {
    OriginExamples();
    EndpointExamples();
    GetAllowedActionsExact(Some("/admin/users"), None);
    GetAllowedActionsExact(Some("/api/data"), Some("203.0.113.5"));
  }
}
