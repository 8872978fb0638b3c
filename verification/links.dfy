/** Link helpers of the debrid client: host extraction, the redirector-domain test and
    the cleaning of redirector links. */
module LinkHelpers {
  import opened Common
  import opened Strings
  import opened Urls

  /** Domains whose links need the redirector first. */
  const RedirectorDomains: seq<string> := ["dl-protect.link", "dl-protect.net", "dl-protect.org"]

  /** `domains.some(domain => hostname.includes(domain))`: a substring test, not a suffix test. */
  function SomeDomainIncluded(hostname: string, domains: seq<string>): (r: bool)
    ensures r ==> domains != []
  {
    if domains == [] then false
    else Includes(hostname, domains[0]) || SomeDomainIncluded(hostname, domains[1..])
  }

  /** The scan over the domains is `some`: true exactly when one of them is included. */
  lemma {:induction false} SomeDomainIncludedIsSome(hostname: string, domains: seq<string>)
    ensures SomeDomainIncluded(hostname, domains)
            <==> exists i :: 0 <= i < |domains| && Includes(hostname, domains[i])
    decreases |domains|
  {
    if domains != [] {
      SomeDomainIncludedIsSome(hostname, domains[1..]);
      assert forall i :: 0 < i < |domains| ==> domains[i] == domains[1..][i - 1];
      if SomeDomainIncluded(hostname, domains[1..]) {
        var i :| 0 <= i < |domains[1..]| && Includes(hostname, domains[1..][i]);
        assert Includes(hostname, domains[i + 1]);
      }
    }
  }

  predicate IsRedirectorHost(hostname: string)
  {
    SomeDomainIncluded(hostname, RedirectorDomains)
  }

  /** `getHostFromUrl`: the hostname without a leading "www.", or `None` when the link does not parse. */
  function GetHostFromUrl(link: string): (r: Option<string>)
    ensures r.None? <==> Parse(link).None?
    ensures r.Some? ==> r.value == WithoutWww(Parse(link).value.hostname)
  {
    match Parse(link)
    case None => None
    case Some(u) => Some(WithoutWww(u.hostname))
  }

  /** The host name with one leading "www." removed. */
  function WithoutWww(h: string): (r: string)
    ensures StartsWith(h, "www.") ==> h == "www." + r
    ensures !StartsWith(h, "www.") ==> r == h
  {
    if StartsWith(h, "www.") then
      StartsWithIsPrefix(h, "www.");
      assert h == h[..4] + h[4..];
      h[4..]
    else h
  }

  /** A leading "www." is all that `getHostFromUrl` drops: a well-formed URL without one
      gives its host name back, and the same URL with "www." in front gives the same host. */
  lemma GetHostFromUrlOfHref(u: Url)
    requires WellFormed(u) && !StartsWith(u.hostname, "www.")
    ensures GetHostFromUrl(Href(u)) == Some(u.hostname)
    ensures WellFormed(u.(hostname := "www." + u.hostname))
    ensures GetHostFromUrl(Href(u.(hostname := "www." + u.hostname))) == Some(u.hostname)
  {
    var w := "www." + u.hostname;
    ParseHref(u);
    WwwHostIsValid(u.hostname);
    ParseHref(u.(hostname := w));
    WithoutWwwOfPrefixed(u.hostname);
  }

  lemma WwwHostIsValid(h: string)
    requires IsValidHost(h)
    ensures IsValidHost("www." + h)
  {
    var w := "www." + h;
    forall i | 0 <= i < |w| ensures !IsForbiddenHostChar(w[i]) && !IsAsciiUpper(w[i]) {
      if i >= 4 {
        assert w[i] == h[i - 4];
      }
    }
  }

  lemma WithoutWwwOfPrefixed(h: string)
    ensures WithoutWww("www." + h) == h
  {
    var w := "www." + h;
    assert w[..4] == "www.";
    StartsWithIsPrefix(w, "www.");
  }

  /** `needsRedirector`: the link parses and its hostname contains a redirector domain. */
  function NeedsRedirector(link: string): (r: bool)
    ensures r <==> Parse(link).Some? && IsRedirectorHost(Parse(link).value.hostname)
  {
    match Parse(link)
    case None => false
    case Some(u) => IsRedirectorHost(u.hostname)
  }

  /** `cleanDlProtectLink`: origin and pathname of a redirector link; any other link unchanged. */
  function CleanDlProtectLink(link: string): (r: string)
    ensures !NeedsRedirector(link) ==> r == link
    ensures link != "" ==> r != ""
    ensures NeedsRedirector(link) ==>
      var u := Parse(link).value;
      Parse(r) == Some(u.(query := "", fragment := ""))
  {
    match Parse(link)
    case None => link
    case Some(u) =>
      if IsRedirectorHost(u.hostname) then
        OriginPathRoundTrip(u);
        Origin(u) + u.pathname
      else link
  }

  /** Cleaning twice is cleaning once. */
  lemma CleanIsIdempotent(link: string)
    ensures CleanDlProtectLink(CleanDlProtectLink(link)) == CleanDlProtectLink(link)
  {
    if NeedsRedirector(link) {
      var u := Parse(link).value;
      var c := CleanDlProtectLink(link);
      var v := u.(query := "", fragment := "");
      assert Parse(c) == Some(v);
      assert NeedsRedirector(c);
      assert c == Origin(u) + u.pathname;
      assert Origin(v) + v.pathname == c;
    }
  }

  /** Cleaning keeps the classification: a cleaned redirector link still needs the
      redirector, and any other link is untouched. */
  lemma CleanKeepsClassification(link: string)
    ensures NeedsRedirector(CleanDlProtectLink(link)) == NeedsRedirector(link)
  {
  }

  /** A redirector link written with a query and a fragment is cleaned to its origin and
      pathname, which reads back with no query and no fragment. */
  lemma CleanDropsQueryAndFragment(u: Url)
    requires WellFormed(u) && IsRedirectorHost(u.hostname)
    ensures CleanDlProtectLink(Href(u)) == Origin(u) + u.pathname
    ensures Parse(CleanDlProtectLink(Href(u))) == Some(u.(query := "", fragment := ""))
  {
    ParseHref(u);
  }

  /** The domain test is a substring test: a host that merely contains a redirector domain,
      here followed by another registrable domain, counts as a redirector host. */
  lemma SubstringMatchQuirk()
    ensures IsRedirectorHost("dl-protect.link.example.com")
  {
    var h := "dl-protect.link.example.com";
    assert h[..15] == RedirectorDomains[0];
    StartsWithIsPrefix(h, RedirectorDomains[0]);
  }

  /** Nor is the match anchored at a label boundary: a host that only ends in a redirector
      domain's text counts too. */
  lemma UnanchoredMatchQuirk()
    ensures IsRedirectorHost("mydl-protect.net")
  {
    var h := "mydl-protect.net";
    assert OccursAt(h, RedirectorDomains[1], 2);
    IncludesIffOccurs(h, RedirectorDomains[1]);
  }
}
