/** The two calls the debrid client makes to the debrid service — the redirector and the
    unlock endpoint — with each HTTP exchange replaced by its outcome. */
module DebridAdapters {
  import opened Common
  import opened HostBreaker
  import opened LinkHelpers
  import opened Strings
  import opened Urls

  /** What the redirector endpoint answered: the `status` flag and `data.links` of the
      reply (an absent list is empty), or a thrown transport error. */
  datatype RedirectorOutcome = RedirectorReply(success: bool, links: seq<string>) | RedirectorThrew

  /** What the unlock endpoint answered: the `status` flag, `data.link` ("" when absent)
      and `error.code` of the reply, or a thrown transport error. */
  datatype UnlockOutcome = UnlockReply(success: bool, link: string, errorCode: Option<string>) | UnlockThrew

  /** Error codes that say the file host itself is unavailable. */
  const HostUnavailableCodes: seq<string> :=
    ["LINK_HOST_NOT_SUPPORTED", "LINK_HOST_UNAVAILABLE", "LINK_HOST_FULL", "LINK_HOST_LIMIT_REACHED"]

  predicate IsHostLevelError(outcome: UnlockOutcome)
  {
    outcome.UnlockReply? && outcome.errorCode.Some? && outcome.errorCode.value in HostUnavailableCodes
  }

  predicate IsUnlockSuccess(outcome: UnlockOutcome)
  {
    outcome.UnlockReply? && outcome.success && outcome.link != ""
  }

  /** `resolveRedirector(link)`: the candidate links of a successful, non-empty reply;
      `[link]` when unconfigured, on an error reply, an empty list, or a thrown error. */
  function ResolveRedirector(apiKey: Option<string>, link: string, outcome: RedirectorOutcome): (r: seq<string>)
    ensures |r| > 0
    ensures apiKey.Some? && outcome.RedirectorReply? && outcome.success && |outcome.links| > 0
            ==> r == outcome.links
    ensures !(apiKey.Some? && outcome.RedirectorReply? && outcome.success && |outcome.links| > 0)
            ==> r == [link]
  {
    if apiKey.None? then [link]
    else match outcome
      case RedirectorReply(success, links) => if success && |links| > 0 then links else [link]
      case RedirectorThrew => [link]
  }

  /** The host the breaker is keyed by, when it is truthy: `host && ...` skips the breaker
      both for an unparseable link and for a hostname that is exactly "www.". */
  function BreakerHost(link: string): (r: Option<string>)
    ensures r.Some? ==> r.value != "" && GetHostFromUrl(link) == Some(r.value)
    ensures r.None? ==> GetHostFromUrl(link).None? || GetHostFromUrl(link) == Some("")
  {
    match GetHostFromUrl(link)
    case Some(h) => if h != "" then Some(h) else None
    case None => None
  }

  /** A URL and the same URL with "www." in front of its host share one breaker entry,
      keyed by the host without the prefix. */
  lemma WwwPrefixSharesBreakerHost(u: Url)
    requires WellFormed(u) && !StartsWith(u.hostname, "www.")
    ensures BreakerHost(Href(u)) == Some(u.hostname)
    ensures BreakerHost(Href(u.(hostname := "www." + u.hostname))) == Some(u.hostname)
  {
    GetHostFromUrlOfHref(u);
  }

  /** The unlocked link (if any), the breaker afterwards, and whether the unlock endpoint was called. */
  datatype DebridResult = DebridResult(link: Option<string>, breaker: Availability, requested: bool)

  /** The unlock endpoint is called: a key is set and the breaker does not hold the host. */
  predicate Requests(apiKey: Option<string>, link: string, m: Availability, now: int)
  {
    apiKey.Some? && !(BreakerHost(link).Some? && Marked(m, BreakerHost(link).value, now))
  }

  /** The reply is a host-level error for a truthy host: the one case that marks the host. */
  predicate MarksHost(link: string, outcome: UnlockOutcome)
  {
    !IsUnlockSuccess(outcome) && IsHostLevelError(outcome) && BreakerHost(link).Some?
  }

  /** How `debridLink` reads one reply of the unlock endpoint, given the breaker after its check. */
  function InterpretUnlock(host: Option<string>, outcome: UnlockOutcome, m: Availability, now: int)
    : (r: (Option<string>, Availability))
    ensures r.0.Some? <==> IsUnlockSuccess(outcome)
    ensures r.0.Some? ==> r.0.value == outcome.link
    ensures !IsUnlockSuccess(outcome) && IsHostLevelError(outcome) && host.Some?
            ==> r.1 == MarkHostUnavailable(m, host.value, now)
    ensures !(!IsUnlockSuccess(outcome) && IsHostLevelError(outcome) && host.Some?) ==> r.1 == m
  {
    match outcome
    case UnlockThrew => (None, m)
    case UnlockReply(success, unlocked, errorCode) =>
      if success && unlocked != "" then (Some(unlocked), m)
      else if errorCode.Some? && host.Some? && errorCode.value in HostUnavailableCodes then
        (None, MarkHostUnavailable(m, host.value, now))
      else (None, m)
  }

  /** `debridLink(link)`: consult the breaker, call the unlock endpoint, and mark the host
      only on a host-level error code. */
  function DebridLink(apiKey: Option<string>, link: string, m: Availability, now: int,
                      unlockApi: string -> UnlockOutcome): (r: DebridResult)
    // no key, or a host the breaker still holds: no request, nothing unlocked, no change
    ensures !Requests(apiKey, link, m, now) ==> r == DebridResult(None, m, false)
    ensures r.requested <==> Requests(apiKey, link, m, now)
    // the result is the reply's link exactly when the request succeeded with a link
    ensures r.link.Some? <==> r.requested && IsUnlockSuccess(unlockApi(link))
    ensures r.link.Some? ==> r.link.value == unlockApi(link).link && r.link.value != ""
    // the map gains a mark only on a host-level error for a truthy host; otherwise it
    // changes at most by the lazy eviction of this host's expired mark
    ensures r.requested && MarksHost(link, unlockApi(link))
            ==> r.breaker == MarkHostUnavailable(m, BreakerHost(link).value, now)
    ensures !(r.requested && MarksHost(link, unlockApi(link)))
            ==> r.breaker == m
                || (BreakerHost(link).Some? && Expired(m, BreakerHost(link).value, now)
                    && r.breaker == m - {BreakerHost(link).value})
  {
    if apiKey.None? then DebridResult(None, m, false)
    else
      var host := BreakerHost(link);
      var check := if host.Some? then IsHostUnavailable(m, host.value, now) else Check(false, m);
      if check.unavailable then DebridResult(None, m, false)
      else
        var outcome := unlockApi(link);
        var (unlocked, m2) := InterpretUnlock(host, outcome, check.breaker, now);
        assert MarksHost(link, outcome) ==> m2 == MarkHostUnavailable(m, host.value, now) by {
          if MarksHost(link, outcome) {
            MarkAfterEviction(m, host.value, now);
          }
        }
        DebridResult(unlocked, m2, true)
  }

  /** Every change `debridLink` makes to the breaker is a step the breaker may take. */
  lemma DebridLinkEvolves(apiKey: Option<string>, link: string, m: Availability, now: int,
                          unlockApi: string -> UnlockOutcome)
    ensures Evolves(m, DebridLink(apiKey, link, m, now, unlockApi).breaker, now)
  {
  }

  /** After a host-level error on one link, every link on the same host skips the unlock
      endpoint for the next fifteen minutes (provided the clock did not read 0). */
  lemma HostErrorOpensBreaker(apiKey: Option<string>, link: string, other: string,
                              m: Availability, now: int, later: int,
                              unlockApi: string -> UnlockOutcome, laterApi: string -> UnlockOutcome)
    requires apiKey.Some?
    requires BreakerHost(link).Some? && BreakerHost(other) == BreakerHost(link)
    requires !Marked(m, BreakerHost(link).value, now)
    requires !IsUnlockSuccess(unlockApi(link)) && IsHostLevelError(unlockApi(link))
    requires now != 0 && later - now <= UnavailableHostTtl
    ensures
      var first := DebridLink(apiKey, link, m, now, unlockApi);
      first.requested && first.link.None?
      && DebridLink(apiKey, other, first.breaker, later, laterApi)
         == DebridResult(None, first.breaker, false)
  {
    var first := DebridLink(apiKey, link, m, now, unlockApi);
    assert first.breaker == MarkHostUnavailable(m, BreakerHost(link).value, now);
    MarkThenCheck(m, BreakerHost(link).value, now, later);
  }

  /** An error that is not host-level (bad link, authentication, rate limit) never marks a
      host: every entry after the call was already there with the same time. */
  lemma OtherErrorsDoNotMark(apiKey: Option<string>, link: string, m: Availability, now: int,
                             unlockApi: string -> UnlockOutcome)
    requires !IsHostLevelError(unlockApi(link))
    ensures
      var r := DebridLink(apiKey, link, m, now, unlockApi);
      forall h :: h in r.breaker ==> h in m && r.breaker[h] == m[h]
  {
  }
}
