/** The URL risk analyzer behind `/tools/url/analyze`: the URL is split, its
    netloc cut into a registrable `domain` (the last two dot-separated labels)
    and a `subdomain` (the labels before them), the query read into a
    dictionary, and five fixed rules are tried in order, each adding its label
    to `risk_indicators`; every rule but the shortener one also marks the URL
    suspicious. A URL without a netloc is refused with status 400. */
module UrlAnalyzer {
  import opened Wrappers
  import opened Text
  import IpLiteral
  import UrlParse
  import QueryString

  datatype UrlAnalysis = UrlAnalysis(
    url: string,
    domain: string,
    subdomain: Option<string>,
    path: string,
    queryParams: map<string, string>,
    isSuspicious: bool,
    riskIndicators: seq<string>)

  /** Why the analysis was refused: no netloc (the "Invalid URL format"
      exception, caught and re-raised by the handler's broad `except`), or a
      `ValueError` of `urlparse` about brackets in the netloc. */
  datatype Reason = InvalidUrlFormat | MalformedNetloc(cause: UrlParse.SplitError)

  /** The HTTP error the handler raises. */
  datatype AnalysisError = AnalysisError(status: nat, reason: Reason)

  const SUSPICIOUS_TLDS: seq<string> := [".tk", ".ml", ".ga", ".cf", ".bit", ".onion"]

  const SHORTENERS: seq<string> := ["bit.ly", "tinyurl.com", "t.co", "goo.gl", "ow.ly", "short.link"]

  const MAX_NETLOC_LENGTH := 60

  const MAX_HYPHENS := 3

  // ---------------------------------------------------------------------------
  // Domain and subdomain

  /** The last two labels of the netloc joined, or the whole netloc when it has
      fewer than two labels. */
  function Domain(netloc: string): (d: string)
    ensures var labels := Split(netloc, '.');
      && (|labels| <= 2 ==> d == netloc)
      && (|labels| >= 2 ==> Split(d, '.') == labels[|labels| - 2..])
  {
    var labels := Split(netloc, '.');
    if |labels| >= 2 then
      var last2 := labels[|labels| - 2..];
      SplitJoin(last2, '.');
      JoinSplit(netloc, '.');
      assert |labels| == 2 ==> last2 == labels;
      Join(last2, '.')
    else netloc
  }

  /** The labels before the last two joined, or none when there are at most two
      labels; the subdomain, a dot and the domain make up the netloc. */
  function Subdomain(netloc: string): (r: Option<string>)
    ensures var labels := Split(netloc, '.');
      && (r.None? <==> |labels| <= 2)
      && (r.Some? ==> Split(r.value, '.') == labels[..|labels| - 2])
      && (r.Some? ==> r.value + "." + Domain(netloc) == netloc)
  {
    var labels := Split(netloc, '.');
    if |labels| > 2 then
      var front := labels[..|labels| - 2];
      var last2 := labels[|labels| - 2..];
      SplitJoin(front, '.');
      JoinAppend(front, last2, '.');
      assert front + last2 == labels;
      JoinSplit(netloc, '.');
      Some(Join(front, '.'))
    else None
  }

  // ---------------------------------------------------------------------------
  // Risk rules

  datatype Rule = SuspiciousTld | UrlShortener | LongNetloc | ExcessiveHyphens | IpAddressHost

  /** The order in which the handler tries the rules. */
  const RULE_ORDER: seq<Rule> := [SuspiciousTld, UrlShortener, LongNetloc, ExcessiveHyphens, IpAddressHost]

  function Label(rule: Rule): string
  {
    match rule
    case SuspiciousTld => "Suspicious TLD"
    case UrlShortener => "URL shortener detected"
    case LongNetloc => "Unusually long domain name"
    case ExcessiveHyphens => "Excessive hyphens in domain"
    case IpAddressHost => "IP address instead of domain name"
  }

  /** Every rule but the shortener one sets `is_suspicious`. */
  predicate MarksSuspicious(rule: Rule)
  {
    rule != UrlShortener
  }

  predicate HasSuspiciousTld(domain: string)
  {
    exists i :: 0 <= i < |SUSPICIOUS_TLDS| && EndsWith(domain, SUSPICIOUS_TLDS[i])
  }

  predicate HasShortener(domain: string)
  {
    exists i :: 0 <= i < |SHORTENERS| && Contains(domain, SHORTENERS[i])
  }

  /** Whether a rule matches: the TLD and shortener rules look at the domain,
      the other three at the whole netloc. */
  predicate Fires(rule: Rule, domain: string, netloc: string)
  {
    match rule
    case SuspiciousTld => HasSuspiciousTld(domain)
    case UrlShortener => HasShortener(domain)
    case LongNetloc => |netloc| > MAX_NETLOC_LENGTH
    case ExcessiveHyphens => CountChar(netloc, '-') > MAX_HYPHENS
    case IpAddressHost => IpLiteral.IsIpAddress(netloc)
  }

  /** The rules among `rules` that match, in their order. */
  function FiredAmong(rules: seq<Rule>, domain: string, netloc: string): (fired: seq<Rule>)
    ensures |fired| <= |rules|
    ensures forall r :: r in fired <==> r in rules && Fires(r, domain, netloc)
  {
    if rules == [] then []
    else (if Fires(rules[0], domain, netloc) then [rules[0]] else []) + FiredAmong(rules[1..], domain, netloc)
  }

  function FiredRules(domain: string, netloc: string): seq<Rule>
  {
    FiredAmong(RULE_ORDER, domain, netloc)
  }

  function Labels(rules: seq<Rule>): (labels: seq<string>)
    ensures |labels| == |rules|
    ensures forall i :: 0 <= i < |rules| ==> labels[i] == Label(rules[i])
  {
    if rules == [] then [] else [Label(rules[0])] + Labels(rules[1..])
  }

  /** The logical OR of the rules that may set `is_suspicious`. */
  predicate Suspicious(domain: string, netloc: string)
  {
    || Fires(SuspiciousTld, domain, netloc)
    || Fires(LongNetloc, domain, netloc)
    || Fires(ExcessiveHyphens, domain, netloc)
    || Fires(IpAddressHost, domain, netloc)
  }

  /** The rule block of the handler (lines 198-227): `risk_indicators` grows by
      one label per matching rule, in rule order, and `is_suspicious` is set by
      every matching rule but the shortener one. */
  method EvaluateRisk(domain: string, netloc: string) returns (riskIndicators: seq<string>, isSuspicious: bool)
    ensures riskIndicators == Labels(FiredRules(domain, netloc))
    ensures isSuspicious == Suspicious(domain, netloc)
  {
    riskIndicators := [];
    isSuspicious := false;
    ghost var tld, short, long, hyphens, ip :=
      LabelIfFires(SuspiciousTld, domain, netloc), LabelIfFires(UrlShortener, domain, netloc),
      LabelIfFires(LongNetloc, domain, netloc), LabelIfFires(ExcessiveHyphens, domain, netloc),
      LabelIfFires(IpAddressHost, domain, netloc);
    if HasSuspiciousTld(domain) {
      riskIndicators := riskIndicators + [Label(SuspiciousTld)];
      isSuspicious := true;
    }
    assert riskIndicators == [] + tld;
    if HasShortener(domain) {
      riskIndicators := riskIndicators + [Label(UrlShortener)];
    }
    assert riskIndicators == [] + tld + short;
    if |netloc| > MAX_NETLOC_LENGTH {
      riskIndicators := riskIndicators + [Label(LongNetloc)];
      isSuspicious := true;
    }
    assert riskIndicators == [] + tld + short + long;
    if CountChar(netloc, '-') > MAX_HYPHENS {
      riskIndicators := riskIndicators + [Label(ExcessiveHyphens)];
      isSuspicious := true;
    }
    assert riskIndicators == [] + tld + short + long + hyphens;
    if IpLiteral.IsIpAddress(netloc) {
      riskIndicators := riskIndicators + [Label(IpAddressHost)];
      isSuspicious := true;
    }
    assert riskIndicators == [] + tld + short + long + hyphens + ip;
    LabelsOfFiredRules(domain, netloc);
    Assoc5(tld, short, long, hyphens, ip);
  }

  /** The labels of one rule: its label when it matches, nothing otherwise. */
  function LabelIfFires(rule: Rule, domain: string, netloc: string): seq<string>
  {
    if Fires(rule, domain, netloc) then [Label(rule)] else []
  }

  /** The labels of the matching rules, written out rule by rule. */
  lemma LabelsOfFiredRules(domain: string, netloc: string)
    ensures Labels(FiredRules(domain, netloc)) ==
      LabelIfFires(SuspiciousTld, domain, netloc) + (LabelIfFires(UrlShortener, domain, netloc)
      + (LabelIfFires(LongNetloc, domain, netloc) + (LabelIfFires(ExcessiveHyphens, domain, netloc)
      + LabelIfFires(IpAddressHost, domain, netloc))))
  {
    var t4: seq<Rule> := [IpAddressHost];
    var t3 := [ExcessiveHyphens] + t4;
    var t2 := [LongNetloc] + t3;
    var t1 := [UrlShortener] + t2;
    assert RULE_ORDER == [SuspiciousTld] + t1;
    var l5 := Labels(FiredAmong([], domain, netloc));
    assert l5 == [];
    LabelsStep(IpAddressHost, [], domain, netloc);
    assert [IpAddressHost] + [] == t4;
    var l4 := Labels(FiredAmong(t4, domain, netloc));
    assert l4 == LabelIfFires(IpAddressHost, domain, netloc);
    LabelsStep(ExcessiveHyphens, t4, domain, netloc);
    var l3 := Labels(FiredAmong(t3, domain, netloc));
    assert l3 == LabelIfFires(ExcessiveHyphens, domain, netloc) + l4;
    LabelsStep(LongNetloc, t3, domain, netloc);
    var l2 := Labels(FiredAmong(t2, domain, netloc));
    assert l2 == LabelIfFires(LongNetloc, domain, netloc) + l3;
    LabelsStep(UrlShortener, t2, domain, netloc);
    var l1 := Labels(FiredAmong(t1, domain, netloc));
    assert l1 == LabelIfFires(UrlShortener, domain, netloc) + l2;
    LabelsStep(SuspiciousTld, t1, domain, netloc);
  }

  /** Regrouping five concatenated pieces. */
  lemma Assoc5(a: seq<string>, b: seq<string>, c: seq<string>, d: seq<string>, e: seq<string>)
    ensures [] + a + b + c + d + e == a + (b + (c + (d + e)))
  {
    assert [] + a == a;
    assert a + b + c == a + (b + c);
    assert a + (b + c) + d == a + (b + c + d);
    assert b + c + d == b + (c + d);
    assert a + (b + (c + d)) + e == a + (b + (c + d) + e);
    assert b + (c + d) + e == b + (c + d + e);
    assert c + d + e == c + (d + e);
  }

  /** Trying one rule in front of others puts its label, if it matches, in front. */
  lemma LabelsStep(rule: Rule, rest: seq<Rule>, domain: string, netloc: string)
    ensures Labels(FiredAmong([rule] + rest, domain, netloc)) ==
      LabelIfFires(rule, domain, netloc) + Labels(FiredAmong(rest, domain, netloc))
  {
    assert ([rule] + rest)[1..] == rest;
    LabelsAppend(if Fires(rule, domain, netloc) then [rule] else [], FiredAmong(rest, domain, netloc));
  }

  lemma {:induction false} LabelsAppend(a: seq<Rule>, b: seq<Rule>)
    ensures Labels(a + b) == Labels(a) + Labels(b)
  {
    if a == [] {
      assert a + b == b;
    } else {
      assert (a + b)[1..] == a[1..] + b;
      LabelsAppend(a[1..], b);
    }
  }

  // ---------------------------------------------------------------------------
  // The handler

  /** `analyze_url` (lines 171-240), with percent-decoding of the query as the
      parameter `unquote`: refused with 400 when `urlparse` raises or finds no
      netloc; otherwise the domain parts, the path, the query dictionary and
      the rule verdicts of the netloc. */
  method AnalyzeUrl(url: string, unquote: string -> string) returns (r: Result<UrlAnalysis, AnalysisError>)
    ensures UrlParse.UrlParse(url).Failure? ==>
      r == Failure(AnalysisError(400, MalformedNetloc(UrlParse.UrlParse(url).error)))
    ensures UrlParse.UrlParse(url).Success? && UrlParse.UrlParse(url).value.netloc == "" ==>
      r == Failure(AnalysisError(400, InvalidUrlFormat))
    ensures r.Success? <==> UrlParse.UrlParse(url).Success? && UrlParse.UrlParse(url).value.netloc != ""
    ensures r.Success? ==>
      var p := UrlParse.UrlParse(url).value;
      var domain := Domain(p.netloc);
      r.value == UrlAnalysis(
        url, domain, Subdomain(p.netloc), p.path, QueryString.QueryParams(p.query, unquote),
        Suspicious(domain, p.netloc), Labels(FiredRules(domain, p.netloc)))
  {
    var parsed := UrlParse.UrlParse(url);
    if parsed.Failure? {
      return Failure(AnalysisError(400, MalformedNetloc(parsed.error)));
    }
    var netloc := parsed.value.netloc;
    if netloc == "" {
      return Failure(AnalysisError(400, InvalidUrlFormat));
    }
    var domain := Domain(netloc);
    var subdomain := Subdomain(netloc);
    var queryParams: map<string, string> := map[];
    if parsed.value.query != "" {
      queryParams := QueryString.QueryParams(parsed.value.query, unquote);
    }
    var riskIndicators, isSuspicious := EvaluateRisk(domain, netloc);
    r := Success(UrlAnalysis(url, domain, subdomain, parsed.value.path, queryParams, isSuspicious, riskIndicators));
  }

  // ---------------------------------------------------------------------------
  // Properties of the rule verdicts

  predicate IsSubsequence(xs: seq<string>, ys: seq<string>)
  {
    || xs == []
    || (ys != [] && ((xs[0] == ys[0] && IsSubsequence(xs[1..], ys[1..])) || IsSubsequence(xs, ys[1..])))
  }

  predicate NoDuplicates<T(==)>(xs: seq<T>)
  {
    forall i, j :: 0 <= i < j < |xs| ==> xs[i] != xs[j]
  }

  function Occurrences(xs: seq<string>, x: string): nat
  {
    if xs == [] then 0 else (if xs[0] == x then 1 else 0) + Occurrences(xs[1..], x)
  }

  lemma {:induction false} FiredAmongRespectsOrder(rules: seq<Rule>, domain: string, netloc: string)
    ensures IsSubsequence(Labels(FiredAmong(rules, domain, netloc)), Labels(rules))
  {
    if rules != [] {
      var rest := FiredAmong(rules[1..], domain, netloc);
      FiredAmongRespectsOrder(rules[1..], domain, netloc);
      if Fires(rules[0], domain, netloc) {
        LabelsAppend([rules[0]], rest);
        assert Labels(rules)[1..] == Labels(rules[1..]);
        assert Labels([rules[0]] + rest)[1..] == Labels(rest);
      } else {
        assert [] + rest == rest;
        assert Labels(rules)[1..] == Labels(rules[1..]);
      }
    }
  }

  /** Filtering keeps distinct rules distinct. */
  lemma {:induction false} FiredAmongDistinct(rules: seq<Rule>, domain: string, netloc: string)
    requires NoDuplicates(rules)
    ensures NoDuplicates(FiredAmong(rules, domain, netloc))
  {
    if rules != [] {
      var rest := FiredAmong(rules[1..], domain, netloc);
      FiredAmongDistinct(rules[1..], domain, netloc);
      assert rules[0] !in rules[1..];
      assert rules[0] !in rest;
      if Fires(rules[0], domain, netloc) {
        var all := [rules[0]] + rest;
        assert forall j :: 0 < j < |all| ==> all[j] == rest[j - 1];
      } else {
        assert [] + rest == rest;
      }
    }
  }

  /** Distinct rules have distinct labels. */
  lemma LabelsDistinct(rules: seq<Rule>)
    requires NoDuplicates(rules)
    ensures NoDuplicates(Labels(rules))
  {
    forall i, j | 0 <= i < j < |rules| ensures Labels(rules)[i] != Labels(rules)[j] {
      LabelInjective(rules[i], rules[j]);
    }
  }

  /** The five labels differ. */
  lemma LabelInjective(r1: Rule, r2: Rule)
    ensures Label(r1) == Label(r2) ==> r1 == r2
  {
  }

  lemma {:induction false} OccursOnce(xs: seq<string>, x: string)
    requires NoDuplicates(xs) && x in xs
    ensures Occurrences(xs, x) == 1
  {
    if xs[0] == x {
      OccursNever(xs[1..], x);
    } else {
      OccursOnce(xs[1..], x);
    }
  }

  lemma {:induction false} OccursNever(xs: seq<string>, x: string)
    requires x !in xs
    ensures Occurrences(xs, x) == 0
  {
    if xs != [] {
      OccursNever(xs[1..], x);
    }
  }

  /** `risk_indicators` lists the labels of the matching rules in rule order,
      each at most once. */
  lemma IndicatorsInRuleOrder(domain: string, netloc: string)
    ensures IsSubsequence(Labels(FiredRules(domain, netloc)), Labels(RULE_ORDER))
    ensures NoDuplicates(Labels(FiredRules(domain, netloc)))
  {
    FiredAmongRespectsOrder(RULE_ORDER, domain, netloc);
    FiredAmongDistinct(RULE_ORDER, domain, netloc);
    LabelsDistinct(FiredRules(domain, netloc));
  }

  /** A rule's label is among `risk_indicators` exactly when the rule matches. */
  lemma IndicatorIffRuleFires(rule: Rule, domain: string, netloc: string)
    ensures Label(rule) in Labels(FiredRules(domain, netloc)) <==> Fires(rule, domain, netloc)
  {
    var fired := FiredRules(domain, netloc);
    if Label(rule) in Labels(fired) {
      var i :| 0 <= i < |fired| && Labels(fired)[i] == Label(rule);
      LabelInjective(fired[i], rule);
    }
    if Fires(rule, domain, netloc) {
      assert rule in RULE_ORDER;
      var i :| 0 <= i < |fired| && fired[i] == rule;
      assert Labels(fired)[i] == Label(rule);
    }
  }

  /** `is_suspicious` holds exactly when some rule that marks a URL suspicious
      has matched: the shortener rule alone never sets it. */
  lemma SuspiciousIffMarkingRuleFired(domain: string, netloc: string)
    ensures Suspicious(domain, netloc) <==>
      exists r :: r in FiredRules(domain, netloc) && MarksSuspicious(r)
    ensures FiredRules(domain, netloc) == [UrlShortener] ==> !Suspicious(domain, netloc)
  {
    var fired := FiredRules(domain, netloc);
    if Suspicious(domain, netloc) {
      if Fires(SuspiciousTld, domain, netloc) {
        assert SuspiciousTld in fired;
      } else if Fires(LongNetloc, domain, netloc) {
        assert LongNetloc in fired;
      } else if Fires(ExcessiveHyphens, domain, netloc) {
        assert ExcessiveHyphens in fired;
      } else {
        assert IpAddressHost in fired;
      }
    }
  }

  /** A suspicious TLD makes the URL suspicious and is reported exactly once,
      whatever else matches. */
  lemma SuspiciousTldReportedOnce(domain: string, netloc: string)
    requires HasSuspiciousTld(domain)
    ensures Suspicious(domain, netloc)
    ensures Occurrences(Labels(FiredRules(domain, netloc)), "Suspicious TLD") == 1
  {
    IndicatorsInRuleOrder(domain, netloc);
    IndicatorIffRuleFires(SuspiciousTld, domain, netloc);
    OccursOnce(Labels(FiredRules(domain, netloc)), "Suspicious TLD");
  }

  /** A netloc that is an IP literal is reported and marked suspicious. */
  lemma IpNetlocFlagged(domain: string, netloc: string)
    requires IpLiteral.IsIpAddress(netloc)
    ensures Suspicious(domain, netloc)
    ensures "IP address instead of domain name" in Labels(FiredRules(domain, netloc))
  {
    IndicatorIffRuleFires(IpAddressHost, domain, netloc);
  }

  /** A port stays in the netloc, and so in the domain: `evil.tk:80` does not end
      with `.tk`, because every suspicious TLD ends with a letter. */
  lemma PortHidesTld(host: string, port: string)
    requires port != [] && forall i :: 0 <= i < |port| ==> IsAsciiDigit(port[i])
    ensures !HasSuspiciousTld(host + ":" + port)
  {
    var d := host + ":" + port;
    assert IsAsciiDigit(d[|d| - 1]);
  }

  /** The shortener test is a substring test: `microsoft.com` contains `t.co`. */
  lemma ShortenerMatchesInsideName()
    ensures HasShortener("microsoft.com")
  {
    var d := "microsoft.com";
    assert StartsWith(d[8..], "t.co");
    ContainsAt(d, "t.co", 8);
    assert SHORTENERS[2] == "t.co";
  }
}
