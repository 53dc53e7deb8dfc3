/** The split of a URL into its parts that the URL analyzer obtains from
    Python's `urllib.parse.urlparse` (generic syntax of section 3 of RFC 3986,
    as CPython 3.12 implements it): leading control characters and spaces are
    dropped, tab, CR and LF are removed, a scheme is taken up to the first `:`,
    the netloc is present only when `//` follows, and it runs up to the first
    `/`, `?` or `#`; the fragment and then the query are cut off the rest, and
    for the schemes that use them `;params` are cut off the last path segment. */
module UrlParse {
  import opened Wrappers
  import opened Text
  import IpLiteral

  /** The `ValueError`s `urlsplit` raises about brackets in the netloc. */
  datatype SplitError =
    | UnbalancedBrackets    // "Invalid IPv6 URL": one of `[` and `]` without the other
    | InvalidBracketedHost  // the text in brackets is neither IPv6 nor IPvFuture

  datatype ParsedUrl = ParsedUrl(
    scheme: string, netloc: string, path: string, params: string, query: string, fragment: string)

  /** The characters `urlsplit` strips from the front of a URL: the C0 controls
      and the space. */
  predicate IsC0OrSpace(c: char) { c <= ' ' }

  /** The characters `urlsplit` removes wherever they occur. */
  predicate IsUnsafe(c: char) { c == '\t' || c == '\r' || c == '\n' }

  /** `url.lstrip(_WHATWG_C0_CONTROL_OR_SPACE)`: exactly the leading run of
      C0 controls and spaces is removed. */
  function StripC0Left(s: string): (r: string)
    ensures |r| <= |s| && r == s[|s| - |r|..]
    ensures r != [] ==> !IsC0OrSpace(r[0])
    ensures forall i :: 0 <= i < |s| - |r| ==> IsC0OrSpace(s[i])
  {
    if s != [] && IsC0OrSpace(s[0]) then StripC0Left(s[1..]) else s
  }

  /** `url.replace(b, "")` for each of tab, CR and LF: those characters
      go, every other one stays where it was (see `RemoveUnsafeAppend`). */
  function RemoveUnsafe(s: string): (r: string)
    ensures forall i :: 0 <= i < |r| ==> !IsUnsafe(r[i])
    ensures forall c :: c in r <==> c in s && !IsUnsafe(c)
    ensures (forall i :: 0 <= i < |s| ==> !IsUnsafe(s[i])) ==> r == s
  {
    if s == [] then []
    else if IsUnsafe(s[0]) then RemoveUnsafe(s[1..])
    else [s[0]] + RemoveUnsafe(s[1..])
  }

  /** The removal works piece by piece, so the kept characters keep their
      order and their number. */
  lemma {:induction false} RemoveUnsafeAppend(a: string, b: string)
    ensures RemoveUnsafe(a + b) == RemoveUnsafe(a) + RemoveUnsafe(b)
  {
    if a == [] {
      assert a + b == b;
    } else {
      assert (a + b)[1..] == a[1..] + b;
      RemoveUnsafeAppend(a[1..], b);
    }
  }

  /** The URL text that the rest of `urlsplit` works on. */
  function Sanitize(url: string): string
  {
    RemoveUnsafe(StripC0Left(url))
  }

  predicate IsSchemeChar(c: char)
  {
    IsAsciiLetter(c) || IsAsciiDigit(c) || c == '+' || c == '-' || c == '.'
  }

  /** Position of the `:` that ends the scheme, or 0 when the URL has no scheme:
      the first `:` counts when something comes before it, the first character
      is an ASCII letter and every character before it is a scheme character. */
  function SchemeEnd(url: string): (i: nat)
    ensures i > 0 ==> i < |url| && url[i] == ':' && IsAsciiLetter(url[0])
    ensures i > 0 ==> forall j :: 0 <= j < i ==> IsSchemeChar(url[j])
    ensures forall k ::
      (0 < k < |url| && url[k] == ':' && IsAsciiLetter(url[0]) &&
       forall j :: 0 <= j < k ==> IsSchemeChar(url[j])) ==> i == k
  {
    var i := IndexOf(url, ':');
    if 0 < i < |url| && IsAsciiLetter(url[0]) && forall j :: 0 <= j < i ==> IsSchemeChar(url[j])
    then i else 0
  }

  /** Position of the first `/`, `?` or `#` in `s`, or `|s|`. */
  function AuthorityEnd(s: string): (k: nat)
    ensures k <= |s|
    ensures forall j :: 0 <= j < k ==> s[j] != '/' && s[j] != '?' && s[j] != '#'
    ensures k < |s| ==> s[k] == '/' || s[k] == '?' || s[k] == '#'
  {
    if s == [] || s[0] == '/' || s[0] == '?' || s[0] == '#' then 0
    else 1 + AuthorityEnd(s[1..])
  }

  /** Length of the run of hexadecimal digits at the front of `s`. */
  function HexRun(s: string): (n: nat)
    ensures n <= |s|
    ensures forall j :: 0 <= j < n ==> IsHexDigit(s[j])
    ensures n < |s| ==> !IsHexDigit(s[n])
  {
    if s != [] && IsHexDigit(s[0]) then 1 + HexRun(s[1..]) else 0
  }

  /** The IPvFuture form of RFC 3986, as `urlsplit` matches it: `v`, one or more
      hex digits, `.`, then at least one character other than a newline. */
  predicate IsIPvFuture(h: string)
  {
    && |h| >= 1 && h[0] == 'v'
    && var n := HexRun(h[1..]);
       && n >= 1
       && 2 + n < |h|
       && h[1 + n] == '.'
       && '\n' !in h[2 + n..]
  }

  /** What `urlsplit` demands of the text between the first `[` and the next
      `]`: an IPvFuture when it starts with `v`, otherwise an address that
      `ipaddress.ip_address` reads as IPv6 (an IPv4 address is refused). */
  predicate IsValidBracketedHost(h: string)
  {
    if StartsWith(h, "v") then IsIPvFuture(h)
    else IpLiteral.IsIpAddress(h) && !IpLiteral.IsIPv4(h)
  }

  /** `netloc.partition('[')[2].partition(']')[0]`. */
  function BracketedHost(netloc: string): string
  {
    var open := IndexOf(netloc, '[');
    var after := if open < |netloc| then netloc[open + 1..] else "";
    after[..IndexOf(after, ']')]
  }

  /** The bracket checks `urlsplit` makes on the netloc. */
  function CheckNetloc(netloc: string): (r: Option<SplitError>)
    ensures r.None? <==>
      ('[' in netloc <==> ']' in netloc) && ('[' in netloc ==> IsValidBracketedHost(BracketedHost(netloc)))
  {
    if ('[' in netloc && ']' !in netloc) || (']' in netloc && '[' !in netloc) then Some(UnbalancedBrackets)
    else if '[' in netloc && ']' in netloc && !IsValidBracketedHost(BracketedHost(netloc)) then
      Some(InvalidBracketedHost)
    else None
  }

  /** The scheme (lower-cased) and what follows its `:`; no scheme leaves the
      URL whole. */
  function SplitScheme(s: string): (r: (string, string))
    ensures SchemeEnd(s) == 0 ==> r == ("", s)
    ensures SchemeEnd(s) > 0 ==> s == s[..SchemeEnd(s)] + ":" + r.1 && r.0 == Lower(s[..SchemeEnd(s)])
    ensures forall c :: c in r.1 ==> c in s
  {
    var i := SchemeEnd(s);
    if i > 0 then
      assert s == s[..i] + ":" + s[i + 1..];
      (Lower(s[..i]), s[i + 1..])
    else ("", s)
  }

  /** The netloc and what follows it: present only after a leading `//`, and
      running up to the first `/`, `?` or `#`. */
  function SplitAuthority(rest: string): (r: (string, string))
    ensures '/' !in r.0 && '?' !in r.0 && '#' !in r.0
    ensures StartsWith(rest, "//") ==> rest == "//" + r.0 + r.1
    ensures StartsWith(rest, "//") && r.1 != [] ==> r.1[0] == '/' || r.1[0] == '?' || r.1[0] == '#'
    ensures !StartsWith(rest, "//") ==> r == ("", rest)
    ensures forall c :: c in r.0 ==> c in rest
  {
    if StartsWith(rest, "//") then
      var end := 2 + AuthorityEnd(rest[2..]);
      assert rest == "//" + rest[2..end] + rest[end..];
      (rest[2..end], rest[end..])
    else ("", rest)
  }

  /** `s.split(c, 1)` when `c in s`, and `(s, "")` otherwise. */
  function CutAt(s: string, c: char): (r: (string, string))
    ensures c !in r.0
    ensures c in s ==> s == r.0 + [c] + r.1
    ensures c !in s ==> r == (s, "")
    ensures forall d :: d in r.0 ==> d in s
    ensures forall d :: d in r.1 ==> d in s
  {
    var k := IndexOf(s, c);
    if k < |s| then
      assert s == s[..k] + [c] + s[k + 1..];
      (s[..k], s[k + 1..])
    else (s, "")
  }

  /** `tail`, the text after the netloc, is `path`, then `?` and `query`
      when there is a `?` before any `#`, then `#` and `fragment` when there
      is a `#`. */
  predicate JoinsTail(tail: string, path: string, query: string, fragment: string)
  {
    || tail == path + ['?'] + query + ['#'] + fragment
    || (tail == path + ['?'] + query && fragment == "")
    || (tail == path + ['#'] + fragment && query == "")
    || (tail == path && query == "" && fragment == "")
  }

  /** Cutting the fragment and then the query off `tail` gives pieces that join
      back into it. */
  lemma TailCuts(tail: string)
    ensures
      var (beforeHash, fragment) := CutAt(tail, '#');
      var (path, query) := CutAt(beforeHash, '?');
      JoinsTail(tail, path, query, fragment)
  {
    var (beforeHash, fragment) := CutAt(tail, '#');
    var (path, query) := CutAt(beforeHash, '?');
    if '#' in tail {
      assert tail == beforeHash + ['#'] + fragment;
    }
  }

  /** `urlsplit(url)`; the `params` part is always empty here. The parts are
      the pieces of the sanitized URL: the lower-cased scheme, the netloc after
      `//`, and path, query and fragment that join back into what follows the
      netloc. The bracket checks on the netloc decide failure. */
  function UrlSplit(url: string): (r: Result<ParsedUrl, SplitError>)
    ensures
      var schemeAndRest := SplitScheme(Sanitize(url));
      var authority := SplitAuthority(schemeAndRest.1);
      && (r.Failure? <==> CheckNetloc(authority.0).Some?)
      && (r.Failure? ==> r.error == CheckNetloc(authority.0).value)
      && (r.Success? ==>
            && r.value.scheme == schemeAndRest.0
            && r.value.netloc == authority.0
            && JoinsTail(authority.1, r.value.path, r.value.query, r.value.fragment))
    ensures r.Success? ==> r.value.params == ""
    ensures r.Success? ==>
      && '/' !in r.value.netloc && '?' !in r.value.netloc && '#' !in r.value.netloc
      && '?' !in r.value.path && '#' !in r.value.path
      && '#' !in r.value.query
    ensures r.Failure? ==> '[' in url || ']' in url
    ensures r.Success? ==> forall c :: c in r.value.netloc ==> c in url
  {
    var s := Sanitize(url);
    var (scheme, rest) := SplitScheme(s);
    var (netloc, tail) := SplitAuthority(rest);
    match CheckNetloc(netloc)
    case Some(e) =>
      assert '[' in netloc || ']' in netloc;
      assert '[' in StripC0Left(url) || ']' in StripC0Left(url);
      Failure(e)
    case None =>
      var (beforeHash, fragment) := CutAt(tail, '#');
      var (path, query) := CutAt(beforeHash, '?');
      TailCuts(tail);
      Success(ParsedUrl(scheme, netloc, path, "", query, fragment))
  }

  /** The schemes for which `urlparse` separates `;params` from the path. */
  const USES_PARAMS: seq<string> := [
    "", "ftp", "hdl", "prospero", "http", "imap", "https", "shttp", "rtsp",
    "rtsps", "rtspu", "sip", "sips", "mms", "sftp", "tel"]

  /** The scheme is one of `uses_params`. */
  predicate UsesParams(scheme: string)
  {
    scheme in USES_PARAMS
  }

  /** Position of the last `c` in `s`, or `|s|` when there is none. */
  function LastIndexOf(s: string, c: char): (i: nat)
    ensures i <= |s|
    ensures i < |s| ==> s[i] == c && forall j :: i < j < |s| ==> s[j] != c
    ensures i == |s| <==> c !in s
  {
    if s == [] then 0
    else if s[|s| - 1] == c then |s| - 1
    else
      var i := LastIndexOf(s[..|s| - 1], c);
      if i == |s| - 1 then |s| else i
  }

  /** Where `_splitparams` starts looking for `;`: the last `/`, or the start
      of a path without `/`. */
  function LastSegmentStart(path: string): (k: nat)
    ensures k <= |path|
    ensures '/' in path ==> k < |path| && path[k] == '/'
    ensures '/' !in path ==> k == 0
    ensures forall j :: k < j < |path| ==> path[j] != '/'
  {
    var slash := LastIndexOf(path, '/');
    if slash < |path| then slash else 0
  }

  /** Where `_splitparams` cuts the path: the first `;` of the last segment, or
      `|path|` when that segment has none. */
  function ParamsStart(path: string): (i: nat)
    ensures LastSegmentStart(path) <= i <= |path|
    ensures forall j :: LastSegmentStart(path) <= j < i ==> path[j] != ';'
    ensures i < |path| ==> path[i] == ';' && forall j :: i < j < |path| ==> path[j] != '/'
  {
    var from := LastSegmentStart(path);
    from + IndexOf(path[from..], ';')
  }

  /** `_splitparams` applied when the scheme uses params and the path has a
      `;`: the path up to the first `;` of its last segment, and what follows. */
  function SplitParams(scheme: string, path: string): (r: (string, string))
    ensures UsesParams(scheme) && ParamsStart(path) < |path| ==>
      && r.0 + ";" + r.1 == path && '/' !in r.1
      && r == (path[..ParamsStart(path)], path[ParamsStart(path) + 1..])
    ensures !(UsesParams(scheme) && ParamsStart(path) < |path|) ==> r == (path, "")
  {
    if UsesParams(scheme) && ';' in path then
      var i := ParamsStart(path);
      if i < |path| then
        ParamsCut(path);
        (path[..i], path[i + 1..])
      else (path, "")
    else (path, "")
  }

  /** Cutting at `ParamsStart` leaves the path around a `;`, and the params
      have no `/`. */
  lemma ParamsCut(path: string)
    requires ParamsStart(path) < |path|
    ensures var i := ParamsStart(path);
      path[..i] + ";" + path[i + 1..] == path && '/' !in path[i + 1..]
  {
    var i := ParamsStart(path);
    var params := path[i + 1..];
    forall j | 0 <= j < |params| ensures params[j] != '/' {
      assert params[j] == path[i + 1 + j];
    }
    assert path == path[..i] + [path[i]] + params;
  }

  /** `urlparse(url)`: `urlsplit`, then `;params` cut off the last path
      segment when the scheme uses them. */
  function UrlParse(url: string): (r: Result<ParsedUrl, SplitError>)
    ensures UrlSplit(url).Failure? <==> r.Failure?
    ensures r.Failure? ==> r.error == UrlSplit(url).error
    ensures r.Success? ==>
      var p := UrlSplit(url).value;
      && r.value.scheme == p.scheme && r.value.netloc == p.netloc
      && r.value.query == p.query && r.value.fragment == p.fragment
      && (UsesParams(p.scheme) && ParamsStart(p.path) < |p.path| ==>
            && r.value.path == p.path[..ParamsStart(p.path)]
            && r.value.params == p.path[ParamsStart(p.path) + 1..])
      && (!(UsesParams(p.scheme) && ParamsStart(p.path) < |p.path|) ==>
            r.value.path == p.path && r.value.params == "")
  {
    match UrlSplit(url)
    case Failure(e) => Failure(e)
    case Success(p) =>
      var (path, params) := SplitParams(p.scheme, p.path);
      Success(p.(path := path, params := params))
  }

  /** Whatever follows it, a URL whose text after the scheme does not start
      with `//` parses, and with an empty netloc: a netloc needs the `//`. */
  lemma NoDoubleSlashNoNetloc(url: string)
    ensures !StartsWith(SplitScheme(Sanitize(url)).1, "//") ==>
      UrlParse(url).Success? && UrlParse(url).value.netloc == ""
  {
    var rest := SplitScheme(Sanitize(url)).1;
    if !StartsWith(rest, "//") {
      assert SplitAuthority(rest).0 == "";
      assert CheckNetloc("") == None;
    }
  }

  /** A character that may stand in a netloc that `urlsplit` takes whole:
      no delimiter, no bracket, and nothing that sanitizing removes. */
  predicate IsPlainHostChar(c: char)
  {
    c != '/' && c != '?' && c != '#' && c != '[' && c != ']' && !IsUnsafe(c)
  }

  lemma {:induction false} AuthorityEndOfHost(h: string, tail: string)
    requires forall i :: 0 <= i < |h| ==> IsPlainHostChar(h[i])
    requires tail == [] || tail[0] == '/' || tail[0] == '?' || tail[0] == '#'
    ensures AuthorityEnd(h + tail) == |h|
  {
    if h == [] {
      assert h + tail == tail;
    } else {
      assert (h + tail)[1..] == h[1..] + tail;
      AuthorityEndOfHost(h[1..], tail);
    }
  }

  /** The netloc of `//h` followed by an end of the text or a delimiter is `h`. */
  lemma AuthorityOfHost(h: string, tail: string)
    requires forall i :: 0 <= i < |h| ==> IsPlainHostChar(h[i])
    requires tail == [] || tail[0] == '/' || tail[0] == '?' || tail[0] == '#'
    ensures SplitAuthority("//" + h + tail).0 == h
  {
    var rest := "//" + h + tail;
    assert StartsWith(rest, "//");
    assert rest[2..] == h + tail;
    AuthorityEndOfHost(h, tail);
    assert rest[2..2 + |h|] == h;
  }

  /** Sanitizing a URL whose front is free of what sanitizing removes leaves
      that front and sanitizes the rest. */
  lemma SanitizeKeepsFront(front: string, rest: string)
    requires front != [] && !IsC0OrSpace(front[0])
    requires forall i :: 0 <= i < |front| ==> !IsUnsafe(front[i])
    ensures Sanitize(front + rest) == front + RemoveUnsafe(rest)
  {
    assert StripC0Left(front + rest) == front + rest;
    RemoveUnsafeAppend(front, rest);
  }

  /** Removing unsafe characters keeps a safe first character first. */
  lemma RemoveUnsafeKeepsFirst(rest: string)
    requires rest != [] && !IsUnsafe(rest[0])
    ensures RemoveUnsafe(rest) != [] && RemoveUnsafe(rest)[0] == rest[0]
  {
  }

  /** A scheme made of letters, followed by `:`, is split off. */
  lemma LetterSchemeSplit(scheme: string, u: string)
    requires scheme != [] && forall j :: 0 <= j < |scheme| ==> IsAsciiLetter(scheme[j])
    ensures SplitScheme(scheme + ":" + u).1 == u
  {
    var s := scheme + ":" + u;
    var k := |scheme|;
    assert s[k] == ':';
    assert forall j :: 0 <= j < k ==> s[j] == scheme[j];
    assert SchemeEnd(s) == k;
    assert s[k + 1..] == u;
  }

  /** After `http://` or `https://`, the scheme is split off and `//` starts
      what remains. */
  lemma WebSchemeSplit(prefix: string, h: string, tail: string)
    requires prefix == "http://" || prefix == "https://"
    ensures SplitScheme(prefix + h + tail).1 == "//" + h + tail
  {
    var scheme := prefix[..|prefix| - 3];
    assert scheme == "http" || scheme == "https";
    assert forall j :: 0 <= j < |scheme| ==> IsAsciiLetter(scheme[j]);
    assert prefix + h + tail == scheme + ":" + ("//" + h + tail);
    LetterSchemeSplit(scheme, "//" + h + tail);
  }

  /** `urlparse` of `http://` or `https://`, a host free of delimiters,
      brackets and removed characters, then nothing or a path, query or
      fragment, succeeds with that host as its netloc. */
  lemma WebUrlNetloc(prefix: string, h: string, rest: string)
    requires prefix == "http://" || prefix == "https://"
    requires forall i :: 0 <= i < |h| ==> IsPlainHostChar(h[i])
    requires rest == [] || rest[0] == '/' || rest[0] == '?' || rest[0] == '#'
    ensures UrlParse(prefix + h + rest).Success?
    ensures UrlParse(prefix + h + rest).value.netloc == h
  {
    var url := prefix + h + rest;
    var front := prefix + h;
    SafeFront(prefix, h);
    SanitizeKeepsFront(front, rest);
    var tail := RemoveUnsafe(rest);
    if rest != [] {
      RemoveUnsafeKeepsFirst(rest);
    }
    assert url == front + rest;
    assert Sanitize(url) == front + tail;
    WebSchemeSplit(prefix, h, tail);
    AuthorityOfHost(h, tail);
    var authority := SplitAuthority(SplitScheme(Sanitize(url)).1);
    assert authority.0 == h;
    assert '[' !in h && ']' !in h;
    assert CheckNetloc(authority.0) == None;
    assert UrlSplit(url).Success? && UrlSplit(url).value.netloc == h;
  }

  /** `http://` or `https://` and a plain host make a front that sanitizing
      leaves alone. */
  lemma SafeFront(prefix: string, h: string)
    requires prefix == "http://" || prefix == "https://"
    requires forall i :: 0 <= i < |h| ==> IsPlainHostChar(h[i])
    ensures prefix + h != [] && !IsC0OrSpace((prefix + h)[0])
    ensures forall i :: 0 <= i < |prefix + h| ==> !IsUnsafe((prefix + h)[i])
  {
    var front := prefix + h;
    forall i | 0 <= i < |front| ensures !IsUnsafe(front[i]) {
      if i >= |prefix| {
        assert front[i] == h[i - |prefix|];
      }
    }
  }
}
