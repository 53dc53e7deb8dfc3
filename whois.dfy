/** The WHOIS handler behind `/tools/domain/whois`: the requested domain is
    cleaned (lower-cased, stripped, and reduced to its netloc when it is given
    as an `http://` or `https://` URL), looked up, and the reply normalised:
    a date that comes as a list gives its first entry, a single status becomes
    a one-element list, and name servers are lower-cased with empty entries
    dropped. Every failure becomes status 400.

    The WHOIS query itself is the parameter `lookup`; a reply's `datetime`
    values are known only by their `isoformat()` text. */
module Whois {
  import opened Wrappers
  import opened Text
  import UrlParse

  /** A `datetime` of the reply, by its `isoformat()` text. */
  datatype Date = Date(iso: string)

  /** A date attribute of the reply: missing or `None`, one date, or a list
      whose entries may be `None`. */
  datatype DateValue = NoDate | OneDate(date: Date) | DateList(dates: seq<Option<Date>>)

  /** The `name_servers` attribute: missing or `None`, one name, or a list whose
      entries may be `None`. */
  datatype NameServersValue = NoServers | OneServer(server: string) | ServerList(servers: seq<Option<string>>)

  /** The `status` attribute: missing or `None`, one status text, or a list. */
  datatype StatusValue = NoStatus | OneStatus(status: string) | StatusList(statuses: seq<string>)

  /** The attributes of the `whois.whois` reply that the handler reads; a
      missing `registrar` and a `None` one are both `None`. */
  datatype WhoisReply = WhoisReply(
    registrar: Option<string>,
    creationDate: DateValue,
    expirationDate: DateValue,
    nameServers: NameServersValue,
    status: StatusValue)

  datatype DomainInfo = DomainInfo(
    domain: string,
    registrar: Option<string>,
    creationDate: Option<string>,
    expirationDate: Option<string>,
    nameServers: seq<string>,
    status: seq<string>)

  /** Why the lookup was refused: `urlparse` raised on the cleaned domain, or
      the WHOIS query raised. */
  datatype Reason = MalformedDomain(cause: UrlParse.SplitError) | LookupFailed

  /** The HTTP error the handler raises, "WHOIS lookup failed: ...". */
  datatype WhoisError = WhoisError(status: nat, reason: Reason)

  const FAILURE_STATUS := 400

  // ---------------------------------------------------------------------------
  // Domain cleaning

  predicate HasWebScheme(d: string)
  {
    StartsWith(d, "http://") || StartsWith(d, "https://")
  }

  /** `domain.lower().strip()`, then the netloc of `urlparse` when the result
      starts with `http://` or `https://`. The cleaned domain has no upper-case
      letter; without such a prefix it is the lowered and stripped text; with
      one it is the netloc `urlparse` finds, which has no `/`, and cleaning
      fails exactly when `urlparse` raises (see `WebUrlCleansToHost`). */
  function CleanDomain(domain: string): (r: Result<string, UrlParse.SplitError>)
    ensures r.Success? ==> IsLowerCase(r.value)
    ensures !HasWebScheme(Strip(Lower(domain))) ==> r == Success(Strip(Lower(domain)))
    ensures HasWebScheme(Strip(Lower(domain))) ==>
      var parsed := UrlParse.UrlParse(Strip(Lower(domain)));
      && (r.Success? <==> parsed.Success?)
      && (r.Success? ==> r.value == parsed.value.netloc && '/' !in r.value)
      && (r.Failure? ==> r.error == parsed.error)
  {
    var d := Strip(Lower(domain));
    LowerIsLowerCase(domain);
    StripKeepsLowerCase(Lower(domain));
    if HasWebScheme(d) then
      match UrlParse.UrlParse(d)
      case Failure(e) => Failure(e)
      case Success(p) =>
        NetlocKeepsLowerCase(d);
        Success(p.netloc)
    else Success(d)
  }

  /** The netloc of a URL without upper-case letters has none either. */
  lemma NetlocKeepsLowerCase(url: string)
    requires IsLowerCase(url)
    ensures UrlParse.UrlParse(url).Success? ==> IsLowerCase(UrlParse.UrlParse(url).value.netloc)
  {
    if UrlParse.UrlParse(url).Success? {
      var netloc := UrlParse.UrlParse(url).value.netloc;
      assert forall i :: 0 <= i < |netloc| ==> netloc[i] in url;
    }
  }

  /** A domain given as `http://` or `https://`, a host and then nothing or a
      path, query or fragment cleans to that host. */
  lemma WebUrlCleansToHost(domain: string, prefix: string, h: string, rest: string)
    requires prefix == "http://" || prefix == "https://"
    requires Strip(Lower(domain)) == prefix + h + rest
    requires forall i :: 0 <= i < |h| ==> UrlParse.IsPlainHostChar(h[i])
    requires rest == [] || rest[0] == '/' || rest[0] == '?' || rest[0] == '#'
    ensures CleanDomain(domain) == Success(h)
  {
    var d := Strip(Lower(domain));
    StartsWithFront(prefix, h, rest);
    UrlParse.WebUrlNetloc(prefix, h, rest);
    var parsed := UrlParse.UrlParse(d);
    assert parsed.Success? && parsed.value.netloc == h;
  }

  lemma StartsWithFront(prefix: string, h: string, rest: string)
    ensures StartsWith(prefix + h + rest, prefix)
  {
    assert (prefix + h + rest)[..|prefix|] == prefix;
  }

  /** Cleaning a cleaned domain that was not given as a URL changes nothing. */
  lemma CleanDomainIdempotent(domain: string)
    requires !HasWebScheme(Strip(Lower(domain)))
    ensures CleanDomain(CleanDomain(domain).value) == CleanDomain(domain)
  {
    var d := Strip(Lower(domain));
    LowerOfLowerCase(d);
    StripIdempotent(Lower(domain));
  }

  // ---------------------------------------------------------------------------
  // Name servers

  /** `[ns.lower() for ns in servers if ns]`: every entry is lower-case and
      non-empty, and there is at most one per server; `LowerNonEmptyKeeps`
      and `LowerNonEmptyAppend` say that every non-empty server is there, in
      order. */
  function LowerNonEmpty(servers: seq<Option<string>>): (r: seq<string>)
    ensures |r| <= |servers|
    ensures forall i :: 0 <= i < |r| ==> r[i] != "" && IsLowerCase(r[i])
  {
    if servers == [] then []
    else
      var rest := LowerNonEmpty(servers[1..]);
      match servers[0]
      case Some(ns) =>
        if ns != "" then
          LowerIsLowerCase(ns);
          [Lower(ns)] + rest
        else rest
      case None => rest
  }

  /** The servers one `Some` each, as the normalised list is fed back. */
  function Somes(names: seq<string>): (r: seq<Option<string>>)
    ensures |r| == |names|
    ensures forall i :: 0 <= i < |names| ==> r[i] == Some(names[i])
  {
    if names == [] then [] else [Some(names[0])] + Somes(names[1..])
  }

  /** The comprehension works entry by entry: two runs of servers give the
      names of each, in order. */
  lemma {:induction false} LowerNonEmptyAppend(a: seq<Option<string>>, b: seq<Option<string>>)
    ensures LowerNonEmpty(a + b) == LowerNonEmpty(a) + LowerNonEmpty(b)
  {
    if a == [] {
      assert a + b == b;
    } else {
      assert (a + b)[1..] == a[1..] + b;
      LowerNonEmptyAppend(a[1..], b);
    }
  }

  /** Every non-empty name server is kept, lower-cased. */
  lemma LowerNonEmptyKeeps(servers: seq<Option<string>>, k: nat)
    requires k < |servers| && servers[k].Some? && servers[k].value != ""
    ensures Lower(servers[k].value) in LowerNonEmpty(servers)
  {
    assert servers == servers[..k] + [servers[k]] + servers[k + 1..];
    LowerNonEmptyAppend(servers[..k] + [servers[k]], servers[k + 1..]);
    LowerNonEmptyAppend(servers[..k], [servers[k]]);
  }

  /** Normalising an already normalised list gives it back. */
  lemma {:induction false} LowerNonEmptyIdempotent(servers: seq<Option<string>>)
    ensures LowerNonEmpty(Somes(LowerNonEmpty(servers))) == LowerNonEmpty(servers)
  {
    if servers != [] {
      LowerNonEmptyIdempotent(servers[1..]);
      var rest := LowerNonEmpty(servers[1..]);
      match servers[0]
      case Some(ns) =>
        if ns != "" {
          var names := [Lower(ns)] + rest;
          assert Somes(names)[1..] == Somes(rest);
          LowerIsLowerCase(ns);
          LowerOfLowerCase(Lower(ns));
        }
      case None =>
    }
  }

  /** The one-character strings of `s`, as iterating over a `str` yields them. */
  function Characters(s: string): (r: seq<Option<string>>)
    ensures |r| == |s|
    ensures forall i :: 0 <= i < |s| ==> r[i] == Some([s[i]])
  {
    if s == [] then [] else [Some([s[0]])] + Characters(s[1..])
  }

  /** The name-server list exactly as the handler builds it: the comprehension
      also runs over a single name server given as a `str`, and so yields its
      letters. */
  function NameServersAsWritten(v: NameServersValue): seq<string>
  {
    match v
    case NoServers => []
    case OneServer(s) => LowerNonEmpty(Characters(s))
    case ServerList(servers) => LowerNonEmpty(servers)
  }

  /** As written, a single name server reported as a `str` becomes one
      one-letter "server" per character. */
  lemma {:induction false} ScalarNameServerAsLetters(s: string)
    ensures |LowerNonEmpty(Characters(s))| == |s|
    ensures forall i :: 0 <= i < |s| ==> LowerNonEmpty(Characters(s))[i] == [LowerChar(s[i])]
  {
    if s != [] {
      ScalarNameServerAsLetters(s[1..]);
      assert Characters(s)[1..] == Characters(s[1..]);
      assert Lower([s[0]]) == [LowerChar(s[0])];
    }
  }

  /** The name server `NS1.X`, reported alone, comes out as five letters. */
  lemma ScalarNameServerSplitIntoLetters()
    ensures NameServersAsWritten(OneServer("NS1.X")) == ["n", "s", "1", ".", "x"]
  {
    var s := "NS1.X";
    ScalarNameServerAsLetters(s);
    var r := LowerNonEmpty(Characters(s));
    assert r[0] == [LowerChar(s[0])] == "n";
    assert r[1] == [LowerChar(s[1])] == "s";
    assert r[2] == [LowerChar(s[2])] == "1";
    assert r[3] == [LowerChar(s[3])] == ".";
    assert r[4] == [LowerChar(s[4])] == "x";
  }

  /** The name-server list, with a single name server taken as a one-element
      list, as the handler already does for `status`. */
  function NameServers(v: NameServersValue): (r: seq<string>)
    ensures forall i :: 0 <= i < |r| ==> r[i] != "" && IsLowerCase(r[i])
    ensures v.OneServer? ==> r == if v.server == "" then [] else [Lower(v.server)]
    ensures v.ServerList? ==> r == NameServersAsWritten(v)
  {
    match v
    case NoServers => []
    case OneServer(s) => LowerNonEmpty([Some(s)])
    case ServerList(servers) => LowerNonEmpty(servers)
  }

  // ---------------------------------------------------------------------------
  // The handler

  /** `get_domain_whois` (lines 85-130): the cleaned domain is looked up; a
      date gives its own text, or its first entry's when it is a list (none
      when that entry is `None` or the list is empty); a non-empty status text
      becomes a one-element list and a status list is kept as it is; every
      failure is a 400. */
  method GetDomainWhois(domain: string, lookup: string -> Option<WhoisReply>) returns (r: Result<DomainInfo, WhoisError>)
    ensures CleanDomain(domain).Failure? ==>
      r == Failure(WhoisError(FAILURE_STATUS, MalformedDomain(CleanDomain(domain).error)))
    ensures CleanDomain(domain).Success? && lookup(CleanDomain(domain).value).None? ==>
      r == Failure(WhoisError(FAILURE_STATUS, LookupFailed))
    ensures r.Success? <==> CleanDomain(domain).Success? && lookup(CleanDomain(domain).value).Some?
    ensures r.Success? ==>
      var reply := lookup(CleanDomain(domain).value).value;
      && r.value.domain == CleanDomain(domain).value
      && r.value.registrar == reply.registrar
      && DateUnwrapped(reply.creationDate, r.value.creationDate)
      && DateUnwrapped(reply.expirationDate, r.value.expirationDate)
      && r.value.nameServers == NameServers(reply.nameServers)
      && StatusListed(reply.status, r.value.status)
  {
    var cleaned := CleanDomain(domain);
    if cleaned.Failure? {
      return Failure(WhoisError(FAILURE_STATUS, MalformedDomain(cleaned.error)));
    }
    var d := cleaned.value;
    var answer := lookup(d);
    if answer.None? {
      return Failure(WhoisError(FAILURE_STATUS, LookupFailed));
    }
    var w := answer.value;

    var info := NormalizeReply(d, w);
    r := Success(info);
  }

  /** Lines 94-127: the reply's attributes normalised into the response. */
  method NormalizeReply(d: string, w: WhoisReply) returns (info: DomainInfo)
    ensures info.domain == d && info.registrar == w.registrar
    ensures DateUnwrapped(w.creationDate, info.creationDate)
    ensures DateUnwrapped(w.expirationDate, info.expirationDate)
    ensures info.nameServers == NameServers(w.nameServers)
    ensures StatusListed(w.status, info.status)
  {
    var creationDate: Option<string> := None;
    var expirationDate: Option<string> := None;
    if w.creationDate.OneDate? || (w.creationDate.DateList? && w.creationDate.dates != []) {
      if w.creationDate.DateList? {
        var first := w.creationDate.dates[0];
        creationDate := if first.Some? then Some(first.value.iso) else None;
      } else {
        creationDate := Some(w.creationDate.date.iso);
      }
    }
    if w.expirationDate.OneDate? || (w.expirationDate.DateList? && w.expirationDate.dates != []) {
      if w.expirationDate.DateList? {
        var first := w.expirationDate.dates[0];
        expirationDate := if first.Some? then Some(first.value.iso) else None;
      } else {
        expirationDate := Some(w.expirationDate.date.iso);
      }
    }

    var nameServers := NameServers(w.nameServers);

    var status: seq<string> := [];
    if (w.status.OneStatus? && w.status.status != "") || (w.status.StatusList? && w.status.statuses != []) {
      if w.status.StatusList? {
        status := w.status.statuses;
      } else {
        status := [w.status.status];
      }
    }

    info := DomainInfo(d, w.registrar, creationDate, expirationDate, nameServers, status);
  }

  /** What a date attribute normalises to: nothing when it is missing, its own
      text when it is one date, and for a list the text of its first entry,
      none when the list is empty or that entry is `None`. */
  predicate DateUnwrapped(v: DateValue, d: Option<string>)
  {
    match v
    case NoDate => d == None
    case OneDate(date) => d == Some(date.iso)
    case DateList(dates) => d == if dates != [] && dates[0].Some? then Some(dates[0].value.iso) else None
  }

  /** What the status attribute normalises to: a non-empty status text becomes
      a one-element list, a list stays as it is, and nothing gives `[]`. */
  predicate StatusListed(v: StatusValue, status: seq<string>)
  {
    match v
    case NoStatus => status == []
    case OneStatus(s) => status == if s == "" then [] else [s]
    case StatusList(statuses) => status == statuses
  }
}
