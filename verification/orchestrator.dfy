/** The link-unlocking orchestrator: `unlockLink` chooses between the redirector, the
    browser fallback resolver and a direct unlock, and always settles with some link;
    `unlockLinks` applies it to a batch. */
module Orchestrator {
  import opened Common
  import opened HostBreaker
  import opened LinkHelpers
  import opened DebridAdapters

  /** Everything the orchestrator consults besides its arguments: the API key, the answers
      of the two debrid endpoints, and the fallback resolver (`isDlProtectLink`,
      `resolveDlProtectLink`), whose internals are not part of this model. The resolver is
      called a second time for the same link in the `catch` branch, after the first call
      rejected; `retryDlProtectLink` is what that fresh call settles with. */
  datatype Collaborators = Collaborators(
    apiKey: Option<string>,
    redirectorApi: string -> RedirectorOutcome,
    unlockApi: string -> UnlockOutcome,
    isDlProtectLink: string -> bool,
    resolveDlProtectLink: string -> Settled,
    retryDlProtectLink: string -> Settled)

  /** The client's key: the constructor argument, else the configured key; an empty key
      leaves the client unconfigured. */
  function ConfiguredKey(apiKey: string, configKey: string): (r: Option<string>)
    ensures r.Some? <==> apiKey != "" || configKey != ""
    ensures r.Some? ==> r.value != "" && (r.value == apiKey || (apiKey == "" && r.value == configKey))
  {
    var key := OrElse(apiKey, configKey);
    if Truthy(key) then Some(key) else None
  }

  /** How one unlock settled, and the breaker afterwards. */
  datatype Unlock = Unlock(outcome: Settled, breaker: Availability)

  /** The redirector's first candidate, when it differs from the link (the redirector made progress). */
  function RedirectorHop(c: Collaborators, link: string): (r: Option<string>)
    ensures r.Some? ==> r.value != link && c.apiKey.Some?
    ensures r.Some? ==> c.redirectorApi(link).RedirectorReply? && c.redirectorApi(link).success
                        && |c.redirectorApi(link).links| > 0 && c.redirectorApi(link).links[0] == r.value
    // and conversely: a successful reply whose first link differs from the link is a hop
    ensures c.apiKey.Some? && c.redirectorApi(link).RedirectorReply? && c.redirectorApi(link).success
            && |c.redirectorApi(link).links| > 0 && c.redirectorApi(link).links[0] != link
            ==> r == Some(c.redirectorApi(link).links[0])
  {
    var candidates := ResolveRedirector(c.apiKey, link, c.redirectorApi(link));
    if candidates[0] != link then Some(candidates[0]) else None
  }

  /** The `catch` branch: a fresh call of the fallback resolver for a protected link, else
      the cleaned link. */
  function AfterError(c: Collaborators, link: string, cleaned: string, m: Availability): (r: Unlock)
    ensures r.breaker == m
    ensures c.isDlProtectLink(link) ==> r.outcome == c.retryDlProtectLink(link)
    ensures !c.isDlProtectLink(link) ==> r.outcome == Fulfilled(cleaned)
  {
    if c.isDlProtectLink(link) then Unlock(c.retryDlProtectLink(link), m)
    else Unlock(Fulfilled(cleaned), m)
  }

  /** What `unlockLink` does with one link before any recursion: settle, or hop to the
      redirector's candidate. */
  datatype Step = Settle(result: Unlock) | Hop(next: string)

  /** The redirector made progress on a protected link, so `unlockLink` recurses. */
  predicate Hops(c: Collaborators, link: string)
  {
    c.apiKey.Some? && NeedsRedirector(link) && RedirectorHop(c, link).Some?
  }

  /** One round of `unlockLink(link, originalLink)`: the branches that settle without recursion. */
  function Decide(c: Collaborators, link: string, originalLink: string, m: Availability, now: int)
    : (r: Step)
    ensures r.Hop? <==> Hops(c, link)
    ensures r.Hop? ==> r.next == RedirectorHop(c, link).value
    // a round rejects only after the first call of the fallback resolver on this link rejected
    ensures r.Settle? && r.result.outcome.Rejected? ==> c.resolveDlProtectLink(link).Rejected?
  {
    var cleaned := CleanDlProtectLink(OrElse(originalLink, link));
    if c.apiKey.None? then
      if c.isDlProtectLink(link) then Settle(Unlock(c.resolveDlProtectLink(link), m))
      else Settle(Unlock(Fulfilled(cleaned), m))
    else if NeedsRedirector(link) then
      match RedirectorHop(c, link)
      case Some(next) => Hop(next)
      case None => Settle(Fallback(c, link, cleaned, m, now))
    else
      var d := DebridLink(c.apiKey, link, m, now, c.unlockApi);
      Settle(Unlock(Fulfilled(d.link.GetOr(cleaned)), d.breaker))
  }

  /** The redirector made no progress: the fallback resolver's link, unlocked if possible,
      when it escaped the protected domains; `cleaned` when it did not; the `catch` branch
      when the resolver rejected. */
  function Fallback(c: Collaborators, link: string, cleaned: string, m: Availability, now: int)
    : (r: Unlock)
    requires c.apiKey.Some?
    ensures r.outcome.Rejected? ==> c.resolveDlProtectLink(link).Rejected?
    // non-empty in, non-empty out
    ensures cleaned != "" && c.resolveDlProtectLink(link).Fulfilled? && c.resolveDlProtectLink(link).link != ""
            ==> r.outcome.Fulfilled? && r.outcome.link != ""
  {
    match c.resolveDlProtectLink(link)
    case Rejected => AfterError(c, link, cleaned, m)
    case Fulfilled(resolved) =>
      if resolved != "" && !c.isDlProtectLink(resolved) then
        var d := DebridLink(c.apiKey, resolved, m, now, c.unlockApi);
        Unlock(Fulfilled(d.link.GetOr(resolved)), d.breaker)
      else Unlock(Fulfilled(cleaned), m)
  }

  /** The fuel left after one redirector hop. */
  function Spend(fuel: nat): (r: nat)
    requires fuel > 0
    ensures r < fuel
  {
    fuel - 1
  }

  /** `unlockLink(link, originalLink)` at time `now`; `originalLink` "" stands for absent.
      `unlockLink` recurses without bound on redirector progress; `fuel` bounds the hops and,
      when it runs out, the cleaned link is the answer (see `FuelIsIrrelevant`). */
  function UnlockLink(c: Collaborators, link: string, originalLink: string,
                      m: Availability, now: int, fuel: nat): (r: Unlock)
    // the promise rejects only when a first call of the fallback resolver rejected
    ensures r.outcome.Rejected? ==> exists l :: c.resolveDlProtectLink(l).Rejected?
    decreases fuel
  {
    match Decide(c, link, originalLink, m, now)
    case Settle(u) => u
    case Hop(next) =>
      if fuel == 0 then Unlock(Fulfilled(CleanDlProtectLink(OrElse(originalLink, link))), m)
      else UnlockLink(c, next, link, m, now, Spend(fuel))
  }

  /** A round that settles takes the breaker only through steps it may take. */
  lemma DecideEvolves(c: Collaborators, link: string, originalLink: string, m: Availability, now: int)
    ensures
      var s := Decide(c, link, originalLink, m, now);
      s.Settle? ==> Evolves(m, s.result.breaker, now)
  {
    EvolvesReflexive(m, now);
    if c.apiKey.None? {
    } else if NeedsRedirector(link) {
      var p := c.resolveDlProtectLink(link);
      if RedirectorHop(c, link).None? && p.Fulfilled? && p.link != "" && !c.isDlProtectLink(p.link) {
        DebridLinkEvolves(c.apiKey, p.link, m, now, c.unlockApi);
      }
    } else {
      DebridLinkEvolves(c.apiKey, link, m, now, c.unlockApi);
    }
  }

  /** Every change an unlock makes to the breaker is a step the breaker may take: entries
      stamped `now` by a host-level error, and evictions of expired marks. */
  lemma {:induction false} UnlockLinkEvolves(c: Collaborators, link: string, originalLink: string,
                                             m: Availability, now: int, fuel: nat)
    ensures Evolves(m, UnlockLink(c, link, originalLink, m, now, fuel).breaker, now)
    decreases fuel
  {
    match Decide(c, link, originalLink, m, now)
    case Settle(u) =>
      DecideEvolves(c, link, originalLink, m, now);
    case Hop(next) =>
      if fuel == 0 {
        EvolvesReflexive(m, now);
      } else {
        UnlockLinkEvolves(c, next, link, m, now, Spend(fuel));
      }
  }

  /** Without a key: a protected link is handed, unmodified, to the fallback resolver and
      its settlement returned as is; any other link comes back cleaned. */
  lemma UnconfiguredUnlock(c: Collaborators, link: string, originalLink: string,
                           m: Availability, now: int, fuel: nat)
    requires c.apiKey.None?
    ensures c.isDlProtectLink(link) ==>
      UnlockLink(c, link, originalLink, m, now, fuel) == Unlock(c.resolveDlProtectLink(link), m)
    ensures !c.isDlProtectLink(link) ==>
      UnlockLink(c, link, originalLink, m, now, fuel)
        == Unlock(Fulfilled(CleanDlProtectLink(OrElse(originalLink, link))), m)
  {
  }

  /** With a key and a link outside the redirector domains: the unlocked link when the
      unlock succeeds, else the cleaned `originalLink || link`. */
  lemma DirectUnlock(c: Collaborators, link: string, originalLink: string,
                     m: Availability, now: int, fuel: nat)
    requires c.apiKey.Some? && !NeedsRedirector(link)
    ensures
      var d := DebridLink(c.apiKey, link, m, now, c.unlockApi);
      var r := UnlockLink(c, link, originalLink, m, now, fuel);
      && r.breaker == d.breaker
      && (d.link.Some? ==> r.outcome == Fulfilled(c.unlockApi(link).link))
      && (d.link.None? ==> r.outcome == Fulfilled(CleanDlProtectLink(OrElse(originalLink, link))))
  {
  }

  /** With a key and a redirector link on which the redirector made progress: the answer is
      the unlock of the candidate, with the link itself as the candidate's `originalLink`. */
  lemma RedirectorProgress(c: Collaborators, link: string, originalLink: string,
                           m: Availability, now: int, fuel: nat)
    requires c.apiKey.Some? && NeedsRedirector(link) && RedirectorHop(c, link).Some? && fuel > 0
    ensures UnlockLink(c, link, originalLink, m, now, fuel)
            == UnlockLink(c, c.redirectorApi(link).links[0], link, m, now, Spend(fuel))
  {
  }

  /** With a key and a redirector link on which the redirector made no progress: the
      fallback resolver's link, unlocked if possible, when it escaped the protected domains;
      the cleaned link when it did not; the `catch` branch when the resolver rejected. */
  lemma RedirectorFallback(c: Collaborators, link: string, originalLink: string,
                           m: Availability, now: int, fuel: nat)
    requires c.apiKey.Some? && NeedsRedirector(link) && RedirectorHop(c, link).None?
    ensures
      var r := UnlockLink(c, link, originalLink, m, now, fuel);
      var cleaned := CleanDlProtectLink(OrElse(originalLink, link));
      match c.resolveDlProtectLink(link)
      case Rejected =>
        r == AfterError(c, link, cleaned, m)
      case Fulfilled(p) =>
        if p != "" && !c.isDlProtectLink(p) then
          var d := DebridLink(c.apiKey, p, m, now, c.unlockApi);
          r.breaker == d.breaker
          && r.outcome == Fulfilled(if d.link.Some? then c.unlockApi(p).link else p)
        else r == Unlock(Fulfilled(cleaned), m)
  {
    var cleaned := CleanDlProtectLink(OrElse(originalLink, link));
    var r := UnlockLink(c, link, originalLink, m, now, fuel);
    assert Decide(c, link, originalLink, m, now).Settle?;
    assert r == Decide(c, link, originalLink, m, now).result;
    match c.resolveDlProtectLink(link)
    case Rejected =>
    case Fulfilled(p) =>
      if p != "" && !c.isDlProtectLink(p) {
        var d := DebridLink(c.apiKey, p, m, now, c.unlockApi);
        assert r == Unlock(Fulfilled(d.link.GetOr(p)), d.breaker);
      }
  }

  /** A redirector chain followed by a successful unlock: the redirector turns a protected
      link into a plain one, whose unlock gives the final link. */
  lemma RedirectorThenUnlock(c: Collaborators, link: string, m: Availability, now: int, fuel: nat)
    requires c.apiKey.Some? && NeedsRedirector(link) && fuel > 0
    requires RedirectorHop(c, link).Some?
    requires !NeedsRedirector(RedirectorHop(c, link).value)
    requires Requests(c.apiKey, RedirectorHop(c, link).value, m, now)
    requires IsUnlockSuccess(c.unlockApi(RedirectorHop(c, link).value))
    ensures UnlockLink(c, link, "", m, now, fuel).outcome
            == Fulfilled(c.unlockApi(RedirectorHop(c, link).value).link)
  {
  }

  /** A round that settles does not reject unless the fallback resolver did. */
  lemma DecideFulfils(c: Collaborators, link: string, originalLink: string, m: Availability, now: int)
    requires c.resolveDlProtectLink(link).Fulfilled?
    ensures
      var s := Decide(c, link, originalLink, m, now);
      s.Settle? ==> s.result.outcome.Fulfilled?
  {
    if c.apiKey.None? {
    } else if NeedsRedirector(link) {
    } else {
    }
  }

  /** If the fallback resolver never rejects, neither does `unlockLink`. */
  lemma {:induction false} UnlockLinkFulfils(c: Collaborators, link: string, originalLink: string,
                                             m: Availability, now: int, fuel: nat)
    requires forall l :: c.resolveDlProtectLink(l).Fulfilled?
    ensures UnlockLink(c, link, originalLink, m, now, fuel).outcome.Fulfilled?
    decreases fuel
  {
    match Decide(c, link, originalLink, m, now)
    case Settle(u) =>
      DecideFulfils(c, link, originalLink, m, now);
    case Hop(next) =>
      if fuel > 0 {
        UnlockLinkFulfils(c, next, link, m, now, Spend(fuel));
      }
  }

  /** A link the redirector hops from is not empty. */
  lemma HopsFromNonEmpty(c: Collaborators, link: string)
    requires Hops(c, link)
    ensures link != ""
  {
  }

  /** A round that settles, from a non-empty `originalLink || link`, settles with a non-empty
      link unless the fallback resolver settled with an empty one. */
  lemma DecideNonEmpty(c: Collaborators, link: string, originalLink: string, m: Availability, now: int)
    requires c.resolveDlProtectLink(link).Fulfilled? && c.resolveDlProtectLink(link).link != ""
    requires OrElse(originalLink, link) != ""
    ensures
      var s := Decide(c, link, originalLink, m, now);
      s.Settle? ==> s.result.outcome.Fulfilled? && s.result.outcome.link != ""
  {
    if c.apiKey.None? {
      UnconfiguredNonEmpty(c, link, originalLink, m, now);
    } else if NeedsRedirector(link) {
      FallbackNonEmpty(c, link, originalLink, m, now);
    } else {
      DirectNonEmpty(c, link, originalLink, m, now);
    }
  }

  lemma UnconfiguredNonEmpty(c: Collaborators, link: string, originalLink: string, m: Availability, now: int)
    requires c.resolveDlProtectLink(link).Fulfilled? && c.resolveDlProtectLink(link).link != ""
    requires OrElse(originalLink, link) != "" && c.apiKey.None?
    ensures
      var s := Decide(c, link, originalLink, m, now);
      s.Settle? && s.result.outcome.Fulfilled? && s.result.outcome.link != ""
  {
    var cleaned := CleanDlProtectLink(OrElse(originalLink, link));
    assert cleaned != "";
    if c.isDlProtectLink(link) {
      assert Decide(c, link, originalLink, m, now) == Settle(Unlock(c.resolveDlProtectLink(link), m));
    } else {
      assert Decide(c, link, originalLink, m, now) == Settle(Unlock(Fulfilled(cleaned), m));
    }
  }

  lemma FallbackNonEmpty(c: Collaborators, link: string, originalLink: string, m: Availability, now: int)
    requires c.resolveDlProtectLink(link).Fulfilled? && c.resolveDlProtectLink(link).link != ""
    requires OrElse(originalLink, link) != "" && c.apiKey.Some? && NeedsRedirector(link)
    ensures
      var s := Decide(c, link, originalLink, m, now);
      s.Settle? ==> s.result.outcome.Fulfilled? && s.result.outcome.link != ""
  {
    var cleaned := CleanDlProtectLink(OrElse(originalLink, link));
    assert cleaned != "";
    if RedirectorHop(c, link).None? {
      assert Decide(c, link, originalLink, m, now) == Settle(Fallback(c, link, cleaned, m, now));
    } else {
      assert Decide(c, link, originalLink, m, now).Hop?;
    }
  }

  lemma DirectNonEmpty(c: Collaborators, link: string, originalLink: string, m: Availability, now: int)
    requires OrElse(originalLink, link) != "" && c.apiKey.Some? && !NeedsRedirector(link)
    ensures
      var s := Decide(c, link, originalLink, m, now);
      s.Settle? && s.result.outcome.Fulfilled? && s.result.outcome.link != ""
  {
    var cleaned := CleanDlProtectLink(OrElse(originalLink, link));
    assert cleaned != "";
    var d := DebridLink(c.apiKey, link, m, now, c.unlockApi);
    assert d.link.GetOr(cleaned) != "";
    assert Decide(c, link, originalLink, m, now) == Settle(Unlock(Fulfilled(d.link.GetOr(cleaned)), d.breaker));
  }

  /** If the fallback resolver always settles with a non-empty link, `unlockLink` of a
      non-empty `originalLink || link` settles with a non-empty link. */
  lemma {:induction false} UnlockLinkNonEmpty(c: Collaborators, link: string, originalLink: string,
                                              m: Availability, now: int, fuel: nat)
    requires forall l :: c.resolveDlProtectLink(l).Fulfilled? && c.resolveDlProtectLink(l).link != ""
    requires OrElse(originalLink, link) != ""
    ensures
      var r := UnlockLink(c, link, originalLink, m, now, fuel);
      r.outcome.Fulfilled? && r.outcome.link != ""
    decreases fuel
  {
    match Decide(c, link, originalLink, m, now)
    case Settle(u) =>
      DecideNonEmpty(c, link, originalLink, m, now);
    case Hop(next) =>
      HopsFromNonEmpty(c, link);
      if fuel > 0 {
        UnlockLinkNonEmpty(c, next, link, m, now, Spend(fuel));
      }
  }

  /** The redirector chain from `link` reaches, within `hops` hops, a link on which the
      redirector makes no progress. */
  predicate SettlesWithin(c: Collaborators, link: string, hops: nat)
    decreases hops
  {
    !Hops(c, link)
    || (hops > 0 && SettlesWithin(c, RedirectorHop(c, link).value, Spend(hops)))
  }

  /** The fuel is only a modelling device: once the chain settles within the fuel, more
      fuel gives the same answer and the same breaker. */
  lemma {:induction false} FuelIsIrrelevant(c: Collaborators, link: string, originalLink: string,
                                            m: Availability, now: int, fuel: nat, more: nat)
    requires SettlesWithin(c, link, fuel) && fuel <= more
    ensures UnlockLink(c, link, originalLink, m, now, fuel)
            == UnlockLink(c, link, originalLink, m, now, more)
    decreases fuel
  {
    match Decide(c, link, originalLink, m, now)
    case Settle(u) =>
    case Hop(next) =>
      FuelIsIrrelevant(c, next, link, m, now, Spend(fuel), Spend(more));
  }

  /** A rejected unlock leaves the input link in its place, as `Promise.allSettled` does. */
  function SettledOr(s: Settled, fallback: string): (r: string)
    ensures s.Fulfilled? ==> r == s.link
    ensures s.Rejected? ==> r == fallback
  {
    match s
    case Fulfilled(l) => l
    case Rejected => fallback
  }

  /** The links of a batch, and the breaker afterwards. */
  datatype Batch = Batch(links: seq<string>, breaker: Availability)

  /** The host carries a mark stamped `now`. */
  predicate Stamped(b: Availability, h: string, now: int)
  {
    h in b && b[h] == now
  }

  /** The shared map once two calls that each started from the same map at `now` have both
      written to it, their checks first and their marks after: a host stamped by either is
      stamped, and any other host stays only if neither call evicted it. */
  function Join(a: Availability, b: Availability, now: int): (r: Availability)
    ensures forall h :: Stamped(r, h, now) <==> Stamped(a, h, now) || Stamped(b, h, now)
    ensures forall h :: h in r && !Stamped(r, h, now) ==> h in a && h in b && r[h] == a[h]
  {
    map h | h in a.Keys + b.Keys && ((h in a && h in b) || Stamped(a, h, now) || Stamped(b, h, now))
      :: if Stamped(a, h, now) || Stamped(b, h, now) then now else a[h]
  }

  /** Two moves of the breaker from the same map at `now`, joined, are again such a move. */
  lemma JoinEvolves(m: Availability, a: Availability, b: Availability, now: int)
    requires Evolves(m, a, now) && Evolves(m, b, now)
    ensures Evolves(m, Join(a, b, now), now)
  {
    var r := Join(a, b, now);
    forall h | h in m && h !in r ensures Expired(m, h, now) {
      if h !in a {
      } else {
        assert h !in b;
      }
    }
  }

  /** `unlockLinks(links)`: `Promise.allSettled` over `unlockLink(link)` for every link. Each
      call consults the breaker before the first reply of the batch comes back, so every link
      is unlocked on the map as the batch found it; a rejection leaves the link itself in its
      place, and the map afterwards holds every eviction and every mark the calls made. */
  function UnlockLinks(c: Collaborators, links: seq<string>, m: Availability, now: int, fuel: nat)
    : (r: Batch)
    ensures |r.links| == |links|
    decreases |links|
  {
    if links == [] then Batch([], m)
    else
      var u := UnlockLink(c, links[0], "", m, now, fuel);
      var rest := UnlockLinks(c, links[1..], m, now, fuel);
      Batch([SettledOr(u.outcome, links[0])] + rest.links, Join(u.breaker, rest.breaker, now))
  }

  /** Element `i` of the batch is `unlockLink(links[i])` on the map the batch started from,
      or `links[i]` itself when that call rejected. */
  lemma {:induction false} UnlockLinksElementwise(c: Collaborators, links: seq<string>,
                                                  m: Availability, now: int, fuel: nat, i: nat)
    requires i < |links|
    ensures UnlockLinks(c, links, m, now, fuel).links[i]
            == SettledOr(UnlockLink(c, links[i], "", m, now, fuel).outcome, links[i])
    decreases |links|
  {
    if i > 0 {
      UnlockLinksElementwise(c, links[1..], m, now, fuel, i - 1);
    }
  }

  /** No link of a batch is affected by the others: each element is what a batch of that
      one link gives. In particular a host-level error on one link does not make a later
      link on the same host skip its request. */
  lemma UnlockLinksIndependent(c: Collaborators, links: seq<string>, m: Availability,
                               now: int, fuel: nat, i: nat)
    requires i < |links|
    ensures UnlockLinks(c, links, m, now, fuel).links[i]
            == UnlockLinks(c, [links[i]], m, now, fuel).links[0]
  {
    UnlockLinksElementwise(c, links, m, now, fuel, i);
    UnlockLinksElementwise(c, [links[i]], m, now, fuel, 0);
  }

  /** Two direct links on one host, the first answered with a host-level error and the
      second unlocked: the batch returns the first link and the second's unlocked link,
      and the host is marked afterwards. */
  lemma HostErrorDoesNotSuppressBatchmate(c: Collaborators, a: string, b: string,
                                          m: Availability, now: int, fuel: nat)
    requires c.apiKey.Some? && !NeedsRedirector(a) && !NeedsRedirector(b)
    requires BreakerHost(a).Some? && BreakerHost(b) == BreakerHost(a)
    requires !Marked(m, BreakerHost(a).value, now)
    requires !IsUnlockSuccess(c.unlockApi(a)) && IsHostLevelError(c.unlockApi(a))
    requires IsUnlockSuccess(c.unlockApi(b))
    ensures
      var r := UnlockLinks(c, [a, b], m, now, fuel);
      r.links == [a, c.unlockApi(b).link] && Stamped(r.breaker, BreakerHost(a).value, now)
  {
    var ua := UnlockLink(c, a, "", m, now, fuel);
    var ub := UnlockLink(c, b, "", m, now, fuel);
    HostErrorKeepsLink(c, a, m, now, fuel);
    SuccessUnlocks(c, b, m, now, fuel);
    BatchOfTwo(c, a, b, m, now, fuel);
  }

  /** A batch of two links. */
  lemma BatchOfTwo(c: Collaborators, a: string, b: string, m: Availability, now: int, fuel: nat)
    ensures
      var ua := UnlockLink(c, a, "", m, now, fuel);
      var ub := UnlockLink(c, b, "", m, now, fuel);
      UnlockLinks(c, [a, b], m, now, fuel)
      == Batch([SettledOr(ua.outcome, a), SettledOr(ub.outcome, b)],
               Join(ua.breaker, Join(ub.breaker, m, now), now))
  {
    UnlockLinksCons(c, [a, b], m, now, fuel);
    assert [a, b][1..] == [b];
    UnlockLinksCons(c, [b], m, now, fuel);
    assert [b][1..] == [];
  }

  /** A non-empty batch: the first link's call, then the rest of the batch on the same map. */
  lemma UnlockLinksCons(c: Collaborators, links: seq<string>, m: Availability, now: int, fuel: nat)
    requires links != []
    ensures
      var u := UnlockLink(c, links[0], "", m, now, fuel);
      var rest := UnlockLinks(c, links[1..], m, now, fuel);
      UnlockLinks(c, links, m, now, fuel)
      == Batch([SettledOr(u.outcome, links[0])] + rest.links, Join(u.breaker, rest.breaker, now))
  {
  }

  /** A direct link answered with a host-level error on a host the breaker does not hold:
      the link comes back as it is and its host is stamped. */
  lemma HostErrorKeepsLink(c: Collaborators, a: string, m: Availability, now: int, fuel: nat)
    requires c.apiKey.Some? && !NeedsRedirector(a) && BreakerHost(a).Some?
    requires !Marked(m, BreakerHost(a).value, now)
    requires !IsUnlockSuccess(c.unlockApi(a)) && IsHostLevelError(c.unlockApi(a))
    ensures
      var u := UnlockLink(c, a, "", m, now, fuel);
      u.outcome == Fulfilled(a) && Stamped(u.breaker, BreakerHost(a).value, now)
  {
    var da := DebridLink(c.apiKey, a, m, now, c.unlockApi);
    assert Requests(c.apiKey, a, m, now);
    assert MarksHost(a, c.unlockApi(a));
    assert da.link.None?;
    DirectUnlock(c, a, "", m, now, fuel);
  }

  /** A direct link whose unlock succeeds, on a host the breaker does not hold, comes back
      unlocked. */
  lemma SuccessUnlocks(c: Collaborators, b: string, m: Availability, now: int, fuel: nat)
    requires c.apiKey.Some? && !NeedsRedirector(b)
    requires BreakerHost(b).Some? ==> !Marked(m, BreakerHost(b).value, now)
    requires IsUnlockSuccess(c.unlockApi(b))
    ensures UnlockLink(c, b, "", m, now, fuel).outcome == Fulfilled(c.unlockApi(b).link)
  {
    assert Requests(c.apiKey, b, m, now);
    DirectUnlock(c, b, "", m, now, fuel);
  }

  /** The breaker after a batch has only moved as the breaker may: marks stamped `now`
      and evictions of expired marks. */
  lemma {:induction false} UnlockLinksEvolves(c: Collaborators, links: seq<string>, m: Availability,
                                              now: int, fuel: nat)
    ensures Evolves(m, UnlockLinks(c, links, m, now, fuel).breaker, now)
    decreases |links|
  {
    if links == [] {
      EvolvesReflexive(m, now);
    } else {
      UnlockLinkEvolves(c, links[0], "", m, now, fuel);
      UnlockLinksEvolves(c, links[1..], m, now, fuel);
      JoinEvolves(m, UnlockLink(c, links[0], "", m, now, fuel).breaker,
                  UnlockLinks(c, links[1..], m, now, fuel).breaker, now);
    }
  }

  /** After a batch, a host carries a mark stamped `now` exactly when it did before or one
      of the batch's calls, on its own, stamps it. */
  lemma {:induction false} UnlockLinksStamps(c: Collaborators, links: seq<string>, m: Availability,
                                             now: int, fuel: nat, h: string)
    ensures Stamped(UnlockLinks(c, links, m, now, fuel).breaker, h, now)
            <==> Stamped(m, h, now)
                 || exists i :: 0 <= i < |links| && Stamped(UnlockLink(c, links[i], "", m, now, fuel).breaker, h, now)
    decreases |links|
  {
    if links != [] {
      UnlockLinksStamps(c, links[1..], m, now, fuel, h);
      var tail := links[1..];
      if exists i :: 0 <= i < |links| && Stamped(UnlockLink(c, links[i], "", m, now, fuel).breaker, h, now) {
        var i :| 0 <= i < |links| && Stamped(UnlockLink(c, links[i], "", m, now, fuel).breaker, h, now);
        if i > 0 {
          assert tail[i - 1] == links[i];
        }
      }
      if exists j :: 0 <= j < |tail| && Stamped(UnlockLink(c, tail[j], "", m, now, fuel).breaker, h, now) {
        var j :| 0 <= j < |tail| && Stamped(UnlockLink(c, tail[j], "", m, now, fuel).breaker, h, now);
        assert links[j + 1] == tail[j];
      }
    }
  }

  /** When the fallback resolver never rejects, every element of the batch is its own
      unlock result and no input link is passed through for a rejection. */
  lemma UnlockLinksAllFulfilled(c: Collaborators, links: seq<string>, m: Availability,
                                now: int, fuel: nat, i: nat)
    requires forall l :: c.resolveDlProtectLink(l).Fulfilled?
    requires i < |links|
    ensures
      var u := UnlockLink(c, links[i], "", m, now, fuel);
      u.outcome.Fulfilled? && UnlockLinks(c, links, m, now, fuel).links[i] == u.outcome.link
  {
    UnlockLinksElementwise(c, links, m, now, fuel, i);
    UnlockLinkFulfils(c, links[i], "", m, now, fuel);
  }
}
