/** The host circuit breaker: a map from host to the time (milliseconds) it was marked
    unavailable, read with a 15-minute time-to-live and evicted lazily on read. */
module HostBreaker {

  /** Host -> time it was marked unavailable. */
  type Availability = map<string, int>

  /** Fifteen minutes, in milliseconds. */
  const UnavailableHostTtl: int := 15 * 60 * 1000

  /** The host is still marked at `now`: a stored 0 reads as no mark, and at exactly the
      time-to-live the mark still holds (expiry needs strictly more). */
  predicate Marked(m: Availability, host: string, now: int)
  {
    host in m && m[host] != 0 && now - m[host] <= UnavailableHostTtl
  }

  /** A mark that the next read will evict. */
  predicate Expired(m: Availability, host: string, now: int)
  {
    host in m && m[host] != 0 && now - m[host] > UnavailableHostTtl
  }

  /** The answer of a read, and the map after its lazy eviction. */
  datatype Check = Check(unavailable: bool, breaker: Availability)

  /** `isHostUnavailable(host)` at time `now`. */
  function IsHostUnavailable(m: Availability, host: string, now: int): (r: Check)
    ensures r.unavailable <==> Marked(m, host, now)
    ensures Expired(m, host, now) ==> r.breaker == m - {host}
    ensures !Expired(m, host, now) ==> r.breaker == m
  {
    if host !in m || m[host] == 0 then Check(false, m)
    else if now - m[host] > UnavailableHostTtl then Check(false, m - {host})
    else Check(true, m)
  }

  /** `markHostUnavailable(host)` at time `now`: overwrites any earlier mark of this host. */
  function MarkHostUnavailable(m: Availability, host: string, now: int): (r: Availability)
    ensures host in r && r[host] == now
    ensures forall h :: h != host ==> (h in r <==> h in m)
    ensures forall h :: h != host && h in m ==> r[h] == m[h]
  {
    m[host := now]
  }

  /** After a mark at time `t`, the host reads as unavailable at `now` exactly when at most
      the time-to-live has passed (and the mark is not the falsy 0). */
  lemma MarkThenCheck(m: Availability, host: string, t: int, now: int)
    ensures IsHostUnavailable(MarkHostUnavailable(m, host, t), host, now).unavailable
            <==> t != 0 && now - t <= UnavailableHostTtl
  {
  }

  /** Marking one host does not change what a read of another host answers or evicts. */
  lemma MarkLeavesOtherHosts(m: Availability, host: string, other: string, t: int, now: int)
    requires other != host
    ensures IsHostUnavailable(MarkHostUnavailable(m, host, t), other, now).unavailable
            == IsHostUnavailable(m, other, now).unavailable
    ensures IsHostUnavailable(MarkHostUnavailable(m, host, t), other, now).breaker
            == MarkHostUnavailable(IsHostUnavailable(m, other, now).breaker, host, t)
  {
  }

  /** Marking a host right after its expired mark was evicted is the same as marking it. */
  lemma MarkAfterEviction(m: Availability, host: string, t: int)
    ensures MarkHostUnavailable(m - {host}, host, t) == MarkHostUnavailable(m, host, t)
  {
  }

  /** A host that was never marked is never unavailable, and the read changes nothing. */
  lemma NeverMarkedIsAvailable(m: Availability, host: string, now: int)
    requires host !in m
    ensures IsHostUnavailable(m, host, now) == Check(false, m)
  {
  }

  /** Reading twice at the same time answers the same and evicts nothing more. */
  lemma CheckIsIdempotent(m: Availability, host: string, now: int)
    ensures
      var c := IsHostUnavailable(m, host, now);
      IsHostUnavailable(c.breaker, host, now) == c
  {
  }

  /** How the map may evolve at time `now`: every entry is an old one unchanged or a mark
      stamped `now`, and only marks that had expired disappear. */
  ghost predicate Evolves(m: Availability, m': Availability, now: int)
  {
    && (forall h :: h in m' ==> (h in m && m'[h] == m[h]) || m'[h] == now)
    && (forall h :: h in m && h !in m' ==> Expired(m, h, now))
  }

  lemma EvolvesReflexive(m: Availability, now: int)
    ensures Evolves(m, m, now)
  {
  }

  lemma EvolvesTransitive(a: Availability, b: Availability, c: Availability, now: int)
    requires Evolves(a, b, now) && Evolves(b, c, now)
    ensures Evolves(a, c, now)
  {
  }

  /** Reads and marks at time `now` are steps the breaker may take. */
  lemma OperationsEvolve(m: Availability, host: string, now: int)
    ensures Evolves(m, IsHostUnavailable(m, host, now).breaker, now)
    ensures Evolves(m, MarkHostUnavailable(m, host, now), now)
  {
  }
}
