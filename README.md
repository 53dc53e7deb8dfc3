# OSINT tools server: URL risk analyzer, username prober, WHOIS normalisation

This project is a Dafny model of the three pieces of logic in the OSINT tools
API server (`openapi-tools/osint_tools_server.py`), with proofs about them.

- **The URL risk analyzer** is `analyze_url`, behind `/tools/url/analyze`.
  - The URL is split the way Python's `urllib.parse.urlparse` splits it. The model follows CPython 3.12.0 to 3.12.8, which implement the generic syntax of section 3 of RFC 3986.
  - The netloc is cut at its dots into a registrable `domain` (the last two labels) and a `subdomain` (the labels before them).
  - The query becomes a dictionary through `dict(parse_qsl(query))`.
  - Five fixed rules are then tried in order. Each rule that matches appends its label to `risk_indicators`. Every rule except the URL-shortener rule also sets `is_suspicious`.
  - The IP-literal rule needs to know what `ipaddress.ip_address` accepts. That is modelled for both IPv4 and IPv6.
  - A URL without a netloc is refused with status 400. So is a URL whose brackets make `urlparse` raise.
- **The username presence prober** is `check_social_media_username`.
  - The username is appended verbatim to each of eight fixed profile-URL prefixes.
  - Each URL is probed once, in registry order. An answered probe records its status, and the profile "likely exists" exactly when the status is 200. A failed probe records no status and the error "Request failed".
  - A summary counts the platforms and the likely-existing profiles.
- **The WHOIS handler** is `get_domain_whois`.
  - The requested domain is lower-cased and stripped. When it starts with `http://` or `https://`, it is reduced to its netloc.
  - The reply is then normalised:
    - a date given as a list yields its first entry;
    - a single status becomes a one-element list;
    - name servers are lower-cased, with empty entries dropped.

Inputs that come from outside the program become parameters:
- the HTTP `HEAD` probe is `probe: string -> ProbeOutcome`;
- the WHOIS query is `lookup: string -> Option<WhoisReply>`;
- percent-decoding (`urllib.parse.unquote`) is `unquote: string -> string`.

A `datetime` is represented by its `isoformat()` text.

Modules, leaf-first:
- `Wrappers`: `Option` and `Result`.
- `Text`: the Python `str` operations the code uses.
- `IpLiteral`: `ipaddress.ip_address` acceptance.
- `UrlParse`: `urlsplit` and `urlparse`.
- `QueryString`: `dict(parse_qsl(...))`.
- `UrlAnalyzer`, `UsernameProber` and `Whois`: the three handlers.

The handlers are methods written in the same order as the source:
- `EvaluateRisk` builds `risk_indicators` by appending and assigns `is_suspicious`;
- `CheckUsername` has the `for` loop that fills `results`;
- `GetDomainWhois` makes the conditional assignments of dates and status.

Each of these methods is proved against specification functions. Lemmas then state the properties of those functions.

Two behaviours of the code worth knowing:
- **Repeated query keys.** `dict(parse_qsl(...))` keeps the last occurrence of a repeated query key, and so does `QueryString.QueryParams`.
- **Sequential probing.** The code probes the platforms one after another in a plain loop, and so does `UsernameProber.CheckUsername`.

## Model

| member | source | states |
|---|---|---|
| Text.Split | openapi-tools/osint_tools_server.py:188 | `str.split` on one character: never empty, no piece holds the separator, one piece more than there are separators |
| Text.Join | openapi-tools/osint_tools_server.py:188-190 | `sep.join(parts)`; the empty list joins to the empty string (its meaning is given by `JoinSplit` and `SplitJoin`) |
| Text.CountChar | openapi-tools/osint_tools_server.py:217 | `s.count(c)` for one character: the number of positions holding `c` |
| Text.IndexOf | openapi-tools/osint_tools_server.py:182 | `find` of one character: the first position holding `c`, the length when there is none |
| Text.StartsWith | openapi-tools/osint_tools_server.py:88 | `startswith`: the string begins with the prefix |
| Text.EndsWith | openapi-tools/osint_tools_server.py:203 | `endswith`: the string ends with the suffix |
| Text.Contains | openapi-tools/osint_tools_server.py:209 | substring `in`: the text occurs at some position |
| Text.JoinSplit | openapi-tools/osint_tools_server.py:188-189 | joining the pieces of a split with the same separator gives the string back |
| Text.SplitJoin | openapi-tools/osint_tools_server.py:189-190 | splitting a join of separator-free pieces gives the pieces back |
| Text.SplitAppend | openapi-tools/osint_tools_server.py:188 | splitting `a + sep + b` splits `a` and `b` separately |
| Text.Lower | openapi-tools/osint_tools_server.py:87 | `lower()` maps each character to its ASCII lower case and keeps the length |
| Text.StripLeft | openapi-tools/osint_tools_server.py:87 | the removed prefix is all white space, and the rest is a suffix that does not start with white space |
| Text.StripRight | openapi-tools/osint_tools_server.py:87 | the removed suffix is all white space, and the rest is a prefix that does not end with white space |
| Text.IsSpace | openapi-tools/osint_tools_server.py:87 | the characters for which `str.isspace()` holds |
| Text.Strip | openapi-tools/osint_tools_server.py:87 | `strip()`: the left strip, then the right strip |
| Text.StripIdempotent | openapi-tools/osint_tools_server.py:87 | stripping twice gives the same as stripping once |
| Text.StripKeepsLowerCase | openapi-tools/osint_tools_server.py:87 | stripping a string without upper-case letters leaves none |
| IpLiteral.InnerEmpties | openapi-tools/osint_tools_server.py:223 | lists exactly the inner empty groups of an IPv6 text, the places of a `::` |
| IpLiteral.IsOctet | openapi-tools/osint_tools_server.py:223 | a decimal octet as `ipaddress` accepts it: one to three digits, no leading zero, at most 255 |
| IpLiteral.IsIPv4 | openapi-tools/osint_tools_server.py:223 | four dot-separated octets |
| IpLiteral.IsIPv6 | openapi-tools/osint_tools_server.py:223 | the IPv6 text forms `ipaddress` accepts: hextet groups, at most one `::`, an optional IPv4 tail and scope id |
| IpLiteral.IsIpAddress | openapi-tools/osint_tools_server.py:223 | `ip_address` succeeds: the text is IPv4 or IPv6 |
| IpLiteral.FirstGroupRead | openapi-tools/osint_tools_server.py:223 | groups whose first part is non-empty and not a hextet never form an IPv6 address |
| IpLiteral.BracketedIsNotIpAddress | openapi-tools/osint_tools_server.py:222-227 | a netloc starting with `[`, such as `[::1]`, is never accepted as an IP literal |
| IpLiteral.ColonIsNotIPv4 | openapi-tools/osint_tools_server.py:223 | a text with a `:` is never an IPv4 address |
| IpLiteral.SingleColonIsNotIPv6 | openapi-tools/osint_tools_server.py:223 | a text with at most one `:` is never an IPv6 address |
| IpLiteral.HostWithPortIsNotIpAddress | openapi-tools/osint_tools_server.py:222-227 | `host:port` with colon-free host and port is never an IP literal, so the IP rule cannot match it |
| IpLiteral.SplitDottedQuad | openapi-tools/osint_tools_server.py:223 | four dot-free pieces joined by dots split back into the four octets |
| IpLiteral.DottedQuadIsIPv4 | openapi-tools/osint_tools_server.py:223 | four octets without leading zeros and at most 255, joined by dots, form an IPv4 address |
| IpLiteral.LoopbackIsIPv4 | openapi-tools/osint_tools_server.py:223 | example: `127.0.0.1` is accepted |
| IpLiteral.LeadingZeroIsNotIPv4 | openapi-tools/osint_tools_server.py:223 | example: `01.2.3.4` is refused because of its leading zero |
| IpLiteral.LargeOctetIsNotIPv4 | openapi-tools/osint_tools_server.py:223 | example: `256.0.0.1` is refused because an octet exceeds 255 |
| IpLiteral.LoopbackIsIPv6 | openapi-tools/osint_tools_server.py:223 | example: `::1` is accepted as IPv6 |
| UrlParse.StripC0Left | openapi-tools/osint_tools_server.py:182 | exactly the leading run of C0 controls and spaces is removed: the result is a suffix, everything cut off is a C0 control or a space, and the result does not start with one |
| UrlParse.RemoveUnsafe | openapi-tools/osint_tools_server.py:182 | every tab, CR and LF goes and every other character stays; a text without them is returned unchanged |
| UrlParse.RemoveUnsafeAppend | openapi-tools/osint_tools_server.py:182 | the removal works piece by piece, so the kept characters keep their order and their number |
| UrlParse.Sanitize | openapi-tools/osint_tools_server.py:182 | the text `urlsplit` works on: C0 lead stripped, then tab, CR and LF removed |
| UrlParse.SchemeEnd | openapi-tools/osint_tools_server.py:182 | a scheme ends at a `:` preceded only by scheme characters and starting with a letter; conversely, whenever such a `:` exists it is found |
| UrlParse.AuthorityEnd | openapi-tools/osint_tools_server.py:182 | the netloc ends at the first `/`, `?` or `#`, or at the end of the text |
| UrlParse.HexRun | openapi-tools/osint_tools_server.py:182 | the longest run of hex digits at the front |
| UrlParse.IsIPvFuture | openapi-tools/osint_tools_server.py:182 | the IPvFuture form: `v`, hex digits, `.`, then at least one character other than a newline |
| UrlParse.IsValidBracketedHost | openapi-tools/osint_tools_server.py:182 | the bracketed host is an IPvFuture when it starts with `v`, otherwise an IPv6 address |
| UrlParse.BracketedHost | openapi-tools/osint_tools_server.py:182 | `netloc.partition('[')[2].partition(']')[0]`: the text after the first `[` up to the next `]` |
| UrlParse.CheckNetloc | openapi-tools/osint_tools_server.py:182 | no error exactly when the brackets are balanced and the bracketed host is IPv6 or IPvFuture |
| UrlParse.SplitScheme | openapi-tools/osint_tools_server.py:182 | the URL is the raw scheme, `:` and the rest; the scheme is lower-cased; with no scheme the URL stays whole |
| UrlParse.SplitAuthority | openapi-tools/osint_tools_server.py:182 | after `//`, the text is `//` + netloc + the rest; the netloc holds no `/`, `?` or `#`; without `//` the netloc is empty |
| UrlParse.CutAt | openapi-tools/osint_tools_server.py:182 | with `c` present, `s` is the head, `c` and the tail, and the head holds no `c`; otherwise `s` and an empty tail |
| UrlParse.TailCuts | openapi-tools/osint_tools_server.py:182 | cutting the fragment and then the query off the text after the netloc gives a path, query and fragment that join back into it |
| UrlParse.JoinsTail | openapi-tools/osint_tools_server.py:182 | path, then `?` and query when there was a `?`, then `#` and fragment when there was a `#`, make up the text after the netloc |
| UrlParse.UrlSplit | openapi-tools/osint_tools_server.py:182 | fails exactly when the bracket checks on the netloc fail, with their error; otherwise the scheme is the lower-cased scheme of the sanitized URL, the netloc is the text after its `//`, and path, `?` query and `#` fragment join back into the text after the netloc; params empty; no `/?#` in the netloc, no `?#` in the path, no `#` in the query |
| UrlParse.LastIndexOf | openapi-tools/osint_tools_server.py:182 | the position of the last `c`, or the length when there is none |
| UrlParse.LastSegmentStart | openapi-tools/osint_tools_server.py:182 | the position of the last `/`, or 0 when there is none; no `/` follows it |
| UrlParse.ParamsStart | openapi-tools/osint_tools_server.py:182 | the first `;` at or after the last `/`: no `;` between the last `/` and the result, and the result is the length exactly when the last segment has no `;` |
| UrlParse.SplitParams | openapi-tools/osint_tools_server.py:182 | when the scheme uses params and the last segment has a `;`, the path is cut at its first `;`: path + `;` + params is the old path and params hold no `/`; otherwise the path is unchanged and params empty |
| UrlParse.ParamsCut | openapi-tools/osint_tools_server.py:182 | the path is the part before the cut, `;` and the params, and the params hold no `/` |
| UrlParse.UsesParams | openapi-tools/osint_tools_server.py:182 | the scheme is one of `uses_params` |
| UrlParse.USES_PARAMS | openapi-tools/osint_tools_server.py:182 | the schemes for which `urlparse` separates `;params` |
| UrlParse.UrlParse | openapi-tools/osint_tools_server.py:182 | fails exactly when `urlsplit` fails, with its error; keeps scheme, netloc, query and fragment; cuts `;params` off the path exactly when the scheme uses params and the last path segment has a `;` |
| UrlParse.NoDoubleSlashNoNetloc | openapi-tools/osint_tools_server.py:182-185 | a URL whose text after the scheme does not start with `//` parses with an empty netloc, whatever follows (`http:/a//b` too), which makes the handler refuse it |
| UrlParse.AuthorityEndOfHost | openapi-tools/osint_tools_server.py:182 | a host free of `/?#` followed by nothing or a delimiter ends the netloc exactly at its end |
| UrlParse.AuthorityOfHost | openapi-tools/osint_tools_server.py:182 | the netloc of `//` + host + nothing or a delimiter is that host |
| UrlParse.SanitizeKeepsFront | openapi-tools/osint_tools_server.py:182 | sanitizing keeps a front without C0 lead or tab, CR, LF, and sanitizes the rest |
| UrlParse.RemoveUnsafeKeepsFirst | openapi-tools/osint_tools_server.py:182 | a safe first character stays first after the removal |
| UrlParse.LetterSchemeSplit | openapi-tools/osint_tools_server.py:182 | a scheme of letters followed by `:` is split off, leaving the text after the `:` |
| UrlParse.WebSchemeSplit | openapi-tools/osint_tools_server.py:182 | after `http://` or `https://` the remaining text starts with `//` |
| UrlParse.WebUrlNetloc | openapi-tools/osint_tools_server.py:182 | `http(s)://` + a plain host + nothing or a path, query or fragment parses, with that host as the netloc |
| QueryString.PlusToSpace | openapi-tools/osint_tools_server.py:195 | each `+` becomes a space; every other character and the length are kept |
| QueryString.RawField | openapi-tools/osint_tools_server.py:195 | a field is kept exactly when it has a `=` followed by a non-empty value; the name holds no `=` |
| QueryString.DecodeFields | openapi-tools/osint_tools_server.py:195 | never more pairs than fields |
| QueryString.ParseQsl | openapi-tools/osint_tools_server.py:195 | `parse_qsl` with `&`: the decoded pairs of the kept fields, in order |
| QueryString.DictFrom | openapi-tools/osint_tools_server.py:195 | `dict(pairs)`: the pairs inserted one after another |
| QueryString.QueryParams | openapi-tools/osint_tools_server.py:193-195 | the query dictionary, empty when there is no query |
| QueryString.LastValue | openapi-tools/osint_tools_server.py:195 | reference definition: the value of the last pair with the key |
| QueryString.LastFieldValue | openapi-tools/osint_tools_server.py:195 | reference definition on the raw fields: the decoded value of the last kept field with the decoded name |
| QueryString.DecodeFieldsAppend | openapi-tools/osint_tools_server.py:195 | fields are decoded one by one, in order |
| QueryString.DictFromSnoc | openapi-tools/osint_tools_server.py:195 | `dict` of a list extended by one pair is the earlier `dict` updated with that pair |
| QueryString.DictFromLastWins | openapi-tools/osint_tools_server.py:195 | after inserting the pairs, a key is present exactly when some pair or the start has it, and maps to the value of its last pair |
| QueryString.LastValueAppend | openapi-tools/osint_tools_server.py:195 | a pair added at the end is the last value for its key |
| QueryString.LastValueOfDecoded | openapi-tools/osint_tools_server.py:195 | the last pair for a key is the last kept field with that decoded name |
| QueryString.QueryParamsLastWins | openapi-tools/osint_tools_server.py:193-195 | a key is in `query_params` exactly when a kept field has it, and maps to the value of the last such field; no query gives an empty map |
| QueryString.DroppedFieldIgnored | openapi-tools/osint_tools_server.py:195 | appending a field without `=` or with an empty value leaves the dictionary unchanged |
| UrlAnalyzer.Domain | openapi-tools/osint_tools_server.py:188-189 | the whole netloc when it has at most two labels; otherwise its labels are the netloc's last two |
| UrlAnalyzer.Subdomain | openapi-tools/osint_tools_server.py:188-190 | none exactly when there are at most two labels; otherwise its labels are the leading ones, and subdomain + `.` + domain is the netloc |
| UrlAnalyzer.Label | openapi-tools/osint_tools_server.py:204-224 | the text each rule appends to `risk_indicators` |
| UrlAnalyzer.HasSuspiciousTld | openapi-tools/osint_tools_server.py:202-203 | the domain ends with one of the six listed TLDs |
| UrlAnalyzer.HasShortener | openapi-tools/osint_tools_server.py:208-209 | one of the six shortener names occurs in the domain |
| UrlAnalyzer.Fires | openapi-tools/osint_tools_server.py:201-227 | when each of the five rules matches |
| UrlAnalyzer.MarksSuspicious | openapi-tools/osint_tools_server.py:201-227 | every rule but the shortener rule sets `is_suspicious` |
| UrlAnalyzer.FiredRules | openapi-tools/osint_tools_server.py:201-227 | the rules that match, tried in source order |
| UrlAnalyzer.RULE_ORDER | openapi-tools/osint_tools_server.py:201-227 | the five rules in the order the handler tries them |
| UrlAnalyzer.FiredAmong | openapi-tools/osint_tools_server.py:201-227 | a rule is kept exactly when it is among the rules tried and matches |
| UrlAnalyzer.Labels | openapi-tools/osint_tools_server.py:204-224 | one label per rule, in the same order |
| UrlAnalyzer.Suspicious | openapi-tools/osint_tools_server.py:199-227 | reference definition: some marking rule matches |
| UrlAnalyzer.EvaluateRisk | openapi-tools/osint_tools_server.py:198-227 | the appended labels are those of the matching rules in rule order; `is_suspicious` is the OR of the four marking rules |
| UrlAnalyzer.LabelsOfFiredRules | openapi-tools/osint_tools_server.py:201-227 | the labels of the matching rules are each rule's label, if it matches, in the fixed order |
| UrlAnalyzer.LabelsStep | openapi-tools/osint_tools_server.py:201-227 | trying one rule before others puts its label first when it matches |
| UrlAnalyzer.LabelsAppend | openapi-tools/osint_tools_server.py:204-224 | labels of a concatenation are the concatenation of labels |
| UrlAnalyzer.AnalyzeUrl | openapi-tools/osint_tools_server.py:171-240 | a parse error or an empty netloc gives a 400 error and never an analysis; otherwise the analysis holds the URL, domain, subdomain, path, query dictionary and rule verdicts of the netloc |
| UrlAnalyzer.FiredAmongRespectsOrder | openapi-tools/osint_tools_server.py:201-227 | the labels of the matching rules are a subsequence of the labels of the rules tried |
| UrlAnalyzer.FiredAmongDistinct | openapi-tools/osint_tools_server.py:201-227 | filtering a list of distinct rules keeps them distinct |
| UrlAnalyzer.LabelsDistinct | openapi-tools/osint_tools_server.py:204-224 | distinct rules have distinct labels |
| UrlAnalyzer.OccursOnce | openapi-tools/osint_tools_server.py:204 | an element of a duplicate-free list occurs exactly once |
| UrlAnalyzer.OccursNever | openapi-tools/osint_tools_server.py:204 | an element not in the list occurs zero times |
| UrlAnalyzer.IndicatorsInRuleOrder | openapi-tools/osint_tools_server.py:198-227 | `risk_indicators` is a subsequence of the five labels in rule order, without duplicates |
| UrlAnalyzer.IndicatorIffRuleFires | openapi-tools/osint_tools_server.py:201-227 | a label is in `risk_indicators` exactly when its rule matches |
| UrlAnalyzer.SuspiciousIffMarkingRuleFired | openapi-tools/osint_tools_server.py:199-227 | `is_suspicious` exactly when a rule other than the shortener rule matched; the shortener alone leaves it false |
| UrlAnalyzer.SuspiciousTldReportedOnce | openapi-tools/osint_tools_server.py:202-205 | a suspicious TLD makes the URL suspicious and is reported exactly once |
| UrlAnalyzer.IpNetlocFlagged | openapi-tools/osint_tools_server.py:222-225 | an IP-literal netloc is reported and marked suspicious |
| UrlAnalyzer.PortHidesTld | openapi-tools/osint_tools_server.py:189-203 | a domain ending in `:port` never ends with a suspicious TLD, so `evil.tk:80` is not flagged |
| UrlAnalyzer.ShortenerMatchesInsideName | openapi-tools/osint_tools_server.py:208-209 | the shortener test is a substring test: `microsoft.com` matches `t.co` |
| UsernameProber.Outcomes | openapi-tools/osint_tools_server.py:377-379 | one probe outcome per registry URL, in registry order |
| UsernameProber.ProfileUrl | openapi-tools/osint_tools_server.py:365-372 | the platform's prefix followed by the username |
| UsernameProber.REGISTRY | openapi-tools/osint_tools_server.py:364-373 | the eight platforms and their prefixes, in the order of the dictionary literal |
| UsernameProber.EntryFor | openapi-tools/osint_tools_server.py:378-391 | the entry an outcome becomes: status, likely-exists and error for an answer and for a failure |
| UsernameProber.FoundCount | openapi-tools/osint_tools_server.py:396-399 | reference count: the probes that answered 200 |
| UsernameProber.LikelyExistsCount | openapi-tools/osint_tools_server.py:398 | the count is at most the number of entries |
| UsernameProber.ProbePlatform | openapi-tools/osint_tools_server.py:378-391 | an answered probe gives its status, no error, and "likely exists" exactly for 200; a failed probe gives no status, "not found" and `Request failed` |
| UsernameProber.ProbeAll | openapi-tools/osint_tools_server.py:375-391 | one entry per platform in order, keyed by its name, from the probe of prefix + username, whatever earlier probes did; the likely-existing entries are the probes that answered 200 |
| UsernameProber.CountStep | openapi-tools/osint_tools_server.py:396-399 | one more entry made from the next outcome keeps the likely-exists count equal to the answered-200 count |
| UsernameProber.CheckUsername | openapi-tools/osint_tools_server.py:354-400 | one entry per platform in registry order; URL = prefix + username; each outcome handled as the source does, and a failure does not stop later probes; total is 8; count = answered-200 probes ≤ total |
| UsernameProber.AllFoundIffAllAnswered200 | openapi-tools/osint_tools_server.py:396-399 | the count is at most the number of probes, and equal exactly when every probe answered 200 |
| UsernameProber.NoneFoundCountsZero | openapi-tools/osint_tools_server.py:396-399 | with no probe answering 200 the count is zero |
| UsernameProber.RegistryNamesDistinct | openapi-tools/osint_tools_server.py:364-373 | the eight platform names are distinct, so `results` has one key per platform |
| Whois.CleanDomain | openapi-tools/osint_tools_server.py:87-89 | the cleaned domain has no upper-case letter; without an `http(s)://` prefix it is the lowered, stripped text; with one it is the netloc of `urlparse` of that text (no `/` in it), and cleaning fails exactly when `urlparse` raises, with its error |
| Whois.WebUrlCleansToHost | openapi-tools/osint_tools_server.py:87-89 | a domain that lowers and strips to `http(s)://` + a plain host + nothing or a path, query or fragment cleans to that host |
| Whois.NetlocKeepsLowerCase | openapi-tools/osint_tools_server.py:89 | the netloc of a URL with no upper-case letter has none either |
| Whois.CleanDomainIdempotent | openapi-tools/osint_tools_server.py:87-89 | cleaning a domain that is already clean and not a URL changes nothing |
| Whois.LowerNonEmpty | openapi-tools/osint_tools_server.py:111 | every name server kept is non-empty and lower-case, at most one per entry |
| Whois.LowerNonEmptyKeeps | openapi-tools/osint_tools_server.py:111 | every non-empty name server of the reply is in the list, lower-cased |
| Whois.LowerNonEmptyAppend | openapi-tools/osint_tools_server.py:111 | the comprehension works entry by entry, keeping the order |
| Whois.LowerNonEmptyIdempotent | openapi-tools/osint_tools_server.py:111 | normalising an already normalised name-server list gives it back |
| Whois.Somes | openapi-tools/osint_tools_server.py:111 | every name is wrapped, in order |
| Whois.Characters | openapi-tools/osint_tools_server.py:111 | iterating over a `str` yields its one-character strings |
| Whois.NameServersAsWritten | openapi-tools/osint_tools_server.py:109-111 | the name-server list as line 111 builds it: a `str` is iterated character by character |
| Whois.ScalarNameServerAsLetters | openapi-tools/osint_tools_server.py:110-111 | as written, a single name server given as a `str` becomes one lower-cased one-letter entry per character |
| Whois.ScalarNameServerSplitIntoLetters | openapi-tools/osint_tools_server.py:110-111 | as written, a single name server `NS1.X` given as a `str` becomes `["n","s","1",".","x"]` |
| Whois.NameServers | openapi-tools/osint_tools_server.py:109-111 | every entry is non-empty lower-case; a single non-empty name server gives a one-element list; a list is handled as written |
| Whois.NormalizeReply | openapi-tools/osint_tools_server.py:94-127 | the reply's registrar is kept; each date is unwrapped (a list gives its first entry, none when that is `None`); name servers by the corrected `NameServers`; a non-empty status text becomes a singleton and a list is kept |
| Whois.DateUnwrapped | openapi-tools/osint_tools_server.py:97-107 | a date: missing gives none, one date its text, a list its first entry's text, none when that is `None` or the list is empty |
| Whois.StatusListed | openapi-tools/osint_tools_server.py:113-118 | the status: missing gives `[]`, a non-empty text a one-element list, a list is kept |
| Whois.GetDomainWhois | openapi-tools/osint_tools_server.py:85-130 | a cleaning or lookup failure gives 400; otherwise the cleaned domain, the registrar, dates unwrapped (a list gives its first entry), normalised name servers, and the status listed (a scalar becomes a singleton, a list is kept) |

## Left out

- The FastAPI application, routing, pydantic validation, the `/health` endpoint and the server start-up are left out. They are framework glue.
- The DNS, hash, base64, IP-analysis and Wayback endpoints are not part of this model. They delegate to `dns.resolver`, `hashlib`, `base64`, the `ipaddress` classification tables and the network.
- Network calls become parameters: `requests.head` is `probe`, and `whois.whois` is `lookup`. The outcome is a stored value, so the 5-second timeout, redirect following, retries and timing are left out.
- `UsernameProber.CheckUsername`: exceptions other than `requests.RequestException` are left out. In the source they escape the loop and the handler.
- `UrlAnalyzer.AnalyzeUrl`: the `detail` text of an error is reduced to a reason value. The model does not build the message `str(e)`. It models only `UrlParse.SplitError` for the `ValueError`s of `urlparse`, and `InvalidUrlFormat` for the empty netloc.
- `UrlParse.UrlSplit` leaves out two checks:
  - the Unicode NFKC check that `urlsplit` makes on a non-ASCII netloc, because it needs Unicode normalisation;
  - the scheme whitelist details of releases other than CPython 3.12;
  - the check added in CPython 3.12.9 (gh-105704) that also refuses text before `[` or after `]` in the netloc.

  Ports are not validated, and neither does `urlparse` validate them.
- Percent-decoding is the parameter `unquote`. UTF-8 decoding and replacement characters are not modelled. The `parse_qsl` options `max_num_fields`, `separator`, `strict_parsing` and `keep_blank_values` are fixed at their defaults.
- `Text.Lower`: covers ASCII letters only. Python's `str.lower()` also maps non-ASCII letters, which would need Unicode tables.
- `Text.StripLeft`: uses Python's `str.isspace` set of white space characters. It has no Unicode database beyond that set.
- `Whois.GetDomainWhois` does not model four shapes of reply:
  - dates that a WHOIS library returns as text rather than `datetime`: in the source, `isoformat` then raises and the handler gives 400;
  - a `registrar` given as a list;
  - status or name-server entries that are not strings;
  - a reply attribute that is a string but not a date.

  A `datetime` is represented only by its `isoformat()` text.
- Whois.NormalizeReply: builds `name_servers` with the corrected `Whois.NameServers`, so a single name server given as a `str` gives one entry, where line 111 as written gives its letters (see "## Findings"); for a list the two agree.
- Whois.GetDomainWhois: inherits the corrected name servers of `Whois.NormalizeReply`.
- `Whois.GetDomainWhois`: the error's detail text "WHOIS lookup failed: ..." is reduced to a reason value.
- Nothing concurrent is modelled: the code probes the platforms sequentially, and so does the model.

## Findings

| source | as written | input that shows it | evidently intended | confidence | as-written member | corrected member |
|---|---|---|---|---|---|---|
| openapi-tools/osint_tools_server.py:110-111 | `[ns.lower() for ns in w.name_servers if ns]` iterates over the attribute even when the WHOIS library reports a single name server as a plain `str` | `name_servers = "NS1.X"` gives `["n", "s", "1", ".", "x"]` | a single name server becomes a one-element list, as the handler already does for `status` (lines 113-118) | medium, not executed | Whois.ScalarNameServerSplitIntoLetters | Whois.NameServers |

`Whois.NameServersAsWritten` builds the list exactly as the code does. `Whois.GetDomainWhois` uses the corrected `Whois.NameServers`, which treats a list exactly as written.
