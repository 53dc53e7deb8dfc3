/** The username presence check behind `/tools/osint/social_media_usernames`:
    the username is put verbatim after each of eight fixed profile-URL
    prefixes, each URL is probed once in registry order, every probe outcome
    becomes one entry, and a summary counts the platforms and the entries that
    look like an existing profile. The HTTP `HEAD` request is the parameter
    `probe`: it either completes with a status code or fails. */
module UsernameProber {
  import opened Wrappers

  datatype ProbeOutcome = Completed(status: int) | Failed

  datatype Platform = Platform(name: string, urlPrefix: string)

  /** The platforms, in the order the handler probes them. */
  const REGISTRY: seq<Platform> := [
    Platform("twitter", "https://twitter.com/"),
    Platform("instagram", "https://instagram.com/"),
    Platform("github", "https://github.com/"),
    Platform("reddit", "https://reddit.com/user/"),
    Platform("linkedin", "https://linkedin.com/in/"),
    Platform("youtube", "https://youtube.com/@"),
    Platform("tiktok", "https://tiktok.com/@"),
    Platform("facebook", "https://facebook.com/")]

  const REQUEST_FAILED := "Request failed"

  /** The status that counts as "the profile likely exists". */
  const FOUND_STATUS := 200

  datatype PlatformResult = PlatformResult(
    url: string, statusCode: Option<int>, likelyExists: bool, error: Option<string>)

  datatype Summary = Summary(totalPlatforms: nat, likelyExistsCount: nat)

  /** The response: the entries keep the registry order, keyed by platform name. */
  datatype UsernameReport = UsernameReport(
    username: string, platforms: seq<(string, PlatformResult)>, summary: Summary)

  function ProfileUrl(platform: Platform, username: string): string
  {
    platform.urlPrefix + username
  }

  /** The probe outcomes of the platforms' URLs, in the platforms' order. */
  function Outcomes(platforms: seq<Platform>, username: string, probe: string -> ProbeOutcome): (outcomes: seq<ProbeOutcome>)
    ensures |outcomes| == |platforms|
    ensures forall i :: 0 <= i < |platforms| ==> outcomes[i] == probe(ProfileUrl(platforms[i], username))
  {
    seq(|platforms|, i requires 0 <= i < |platforms| => probe(ProfileUrl(platforms[i], username)))
  }

  /** `sum(1 for r in results.values() if r.get("likely_exists", False))`:
      never more than the number of entries. */
  function LikelyExistsCount(entries: seq<(string, PlatformResult)>): (n: nat)
    ensures n <= |entries|
  {
    if entries == [] then 0
    else LikelyExistsCount(entries[..|entries| - 1]) + (if entries[|entries| - 1].1.likelyExists then 1 else 0)
  }

  /** Reference count on the outcomes: the probes that completed with status 200. */
  function FoundCount(outcomes: seq<ProbeOutcome>): nat
  {
    if outcomes == [] then 0
    else FoundCount(outcomes[..|outcomes| - 1]) + (if outcomes[|outcomes| - 1] == Completed(FOUND_STATUS) then 1 else 0)
  }

  /** The entry a probe outcome turns into: a completed probe reports its
      status and no error, a failed one no status, "not found" and the error
      text. */
  predicate EntryFor(e: PlatformResult, url: string, outcome: ProbeOutcome)
  {
    && e.url == url
    && match outcome
       case Completed(s) => e.statusCode == Some(s) && e.likelyExists == (s == FOUND_STATUS) && e.error == None
       case Failed => e.statusCode == None && !e.likelyExists && e.error == Some(REQUEST_FAILED)
  }

  /** The `try`/`except` of one platform (lines 378-391): the probe's outcome
      becomes that platform's entry. */
  method ProbePlatform(url: string, probe: string -> ProbeOutcome) returns (entry: PlatformResult)
    ensures EntryFor(entry, url, probe(url))
  {
    var outcome := probe(url);
    match outcome {
      case Completed(status) =>
        entry := PlatformResult(url, Some(status), status == FOUND_STATUS, None);
      case Failed =>
        entry := PlatformResult(url, None, false, Some(REQUEST_FAILED));
    }
  }

  /** The loop of lines 377-391 over the platforms: one entry per platform, in
      order, keyed by its name, whatever the earlier probes did; the entries
      that likely exist are the probes that answered 200. */
  method ProbeAll(platforms: seq<Platform>, username: string, probe: string -> ProbeOutcome)
    returns (results: seq<(string, PlatformResult)>)
    ensures |results| == |platforms|
    ensures forall i :: 0 <= i < |platforms| ==>
      && results[i].0 == platforms[i].name
      && EntryFor(results[i].1, ProfileUrl(platforms[i], username), Outcomes(platforms, username, probe)[i])
    ensures LikelyExistsCount(results) == FoundCount(Outcomes(platforms, username, probe))
  {
    results := [];
    ghost var outcomes := Outcomes(platforms, username, probe);
    for i := 0 to |platforms|
      invariant |results| == i
      invariant forall j :: 0 <= j < i ==>
        && results[j].0 == platforms[j].name
        && EntryFor(results[j].1, ProfileUrl(platforms[j], username), outcomes[j])
      invariant LikelyExistsCount(results) == FoundCount(outcomes[..i])
    {
      var platform := platforms[i];
      var url := ProfileUrl(platform, username);
      var entry := ProbePlatform(url, probe);
      CountStep(results, platform.name, entry, outcomes, i);
      results := results + [(platform.name, entry)];
    }
    assert outcomes[..|platforms|] == outcomes;
  }

  /** `check_social_media_username` (lines 354-400): the registry probed in
      order, then the summary: eight platforms, and as many likely profiles as
      probes that answered 200. */
  method CheckUsername(username: string, probe: string -> ProbeOutcome) returns (report: UsernameReport)
    ensures report.username == username
    ensures |report.platforms| == |REGISTRY|
    ensures forall i :: 0 <= i < |REGISTRY| ==>
      && report.platforms[i].0 == REGISTRY[i].name
      && EntryFor(report.platforms[i].1, ProfileUrl(REGISTRY[i], username), Outcomes(REGISTRY, username, probe)[i])
    ensures report.summary.totalPlatforms == |REGISTRY| == 8
    ensures report.summary.likelyExistsCount == LikelyExistsCount(report.platforms)
    ensures report.summary.likelyExistsCount == FoundCount(Outcomes(REGISTRY, username, probe))
    ensures report.summary.likelyExistsCount <= report.summary.totalPlatforms
  {
    var results := ProbeAll(REGISTRY, username, probe);
    report := UsernameReport(username, results, Summary(|REGISTRY|, LikelyExistsCount(results)));
  }

  /** One more entry made from the next outcome keeps the two counts equal. */
  lemma CountStep(results: seq<(string, PlatformResult)>, name: string, entry: PlatformResult,
                  outcomes: seq<ProbeOutcome>, i: nat)
    requires i < |outcomes| && EntryFor(entry, entry.url, outcomes[i])
    requires LikelyExistsCount(results) == FoundCount(outcomes[..i])
    ensures LikelyExistsCount(results + [(name, entry)]) == FoundCount(outcomes[..i + 1])
  {
    assert (results + [(name, entry)])[..|results|] == results;
    assert outcomes[..i + 1][..i] == outcomes[..i];
  }

  /** Every platform looks like it has the profile exactly when every probe
      answered 200. */
  lemma {:induction false} AllFoundIffAllAnswered200(outcomes: seq<ProbeOutcome>)
    ensures FoundCount(outcomes) <= |outcomes|
    ensures FoundCount(outcomes) == |outcomes| <==>
      forall i :: 0 <= i < |outcomes| ==> outcomes[i] == Completed(FOUND_STATUS)
  {
    if outcomes != [] {
      var front := outcomes[..|outcomes| - 1];
      AllFoundIffAllAnswered200(front);
      if FoundCount(outcomes) == |outcomes| {
        forall i | 0 <= i < |outcomes| ensures outcomes[i] == Completed(FOUND_STATUS) {
          if i < |front| {
            assert front[i] == outcomes[i];
          }
        }
      }
      if forall i :: 0 <= i < |outcomes| ==> outcomes[i] == Completed(FOUND_STATUS) {
        assert forall i :: 0 <= i < |front| ==> front[i] == outcomes[i];
      }
    }
  }

  /** No probe answering 200 gives a count of zero. */
  lemma {:induction false} NoneFoundCountsZero(outcomes: seq<ProbeOutcome>)
    requires forall i :: 0 <= i < |outcomes| ==> outcomes[i] != Completed(FOUND_STATUS)
    ensures FoundCount(outcomes) == 0
  {
    if outcomes != [] {
      var front := outcomes[..|outcomes| - 1];
      assert forall i :: 0 <= i < |front| ==> front[i] == outcomes[i];
      NoneFoundCountsZero(front);
    }
  }

  /** The platform names are distinct, so the `results` dictionary has one key
      per platform. */
  lemma RegistryNamesDistinct()
    ensures forall i, j :: 0 <= i < j < |REGISTRY| ==> REGISTRY[i].name != REGISTRY[j].name
  {
  }
}
