/** The downloader's client registry: which clients are enabled, the fallback chain that
    hands a download to the first client accepting it, and the direct downloads listing. */
module Clients {
  import opened Seqs
  import opened Downloads

  /** The registered download clients. */
  datatype ClientKind = DownloadStation | JDownloader | Aria2 | PyLoad | Curl | Wget

  /** Registration order. */
  const Registry: seq<ClientKind> := [DownloadStation, JDownloader, Aria2, PyLoad, Curl, Wget]

  /** `getEnabledClients()`, given what each client's `isEnabled()` answers. */
  function GetEnabledClients(isEnabled: ClientKind -> bool): (r: seq<ClientKind>)
    ensures |r| <= |Registry|
  {
    Filter(isEnabled, Registry)
  }

  /** Every client is registered exactly once. */
  lemma RegisteredOnce(c: ClientKind)
    ensures multiset(Registry)[c] == 1
  {
  }

  /** Exactly the enabled clients, each once, in registration order. */
  lemma GetEnabledClientsIsExact(isEnabled: ClientKind -> bool)
    ensures forall c :: c in GetEnabledClients(isEnabled) <==> isEnabled(c)
    ensures forall c :: multiset(GetEnabledClients(isEnabled))[c] <= 1
    ensures Subsequence(GetEnabledClients(isEnabled), Registry)
  {
    forall c ensures c in GetEnabledClients(isEnabled) <==> isEnabled(c)
      ensures multiset(GetEnabledClients(isEnabled))[c] <= 1
    {
      RegisteredOnce(c);
      FilterOfSingle(isEnabled, Registry, c);
    }
    FilterIsSubsequence(isEnabled, Registry);
  }

  /** What one `addDownload` call did: returned a boolean, or threw. */
  datatype Attempt = Returned(accepted: bool) | Threw

  /** The client took the download; a throw counts like `false`. */
  predicate Accepts(a: Attempt)
  {
    a.Returned? && a.accepted
  }

  /** `addDownloadToAll(url, filename)`: try the enabled clients in order and stop at the
      first that accepts. `attempt` says what each client's `addDownload(url, filename)`
      does; `tried` lists the clients called, in order. */
  method AddDownloadToAll(isEnabled: ClientKind -> bool, attempt: (ClientKind, string, string) -> Attempt,
                          url: string, filename: string)
    returns (ok: bool, tried: seq<ClientKind>)
    // the clients called are the enabled ones, in order, up to the one that accepted
    ensures |tried| <= |GetEnabledClients(isEnabled)| && tried == GetEnabledClients(isEnabled)[..|tried|]
    // true exactly when some enabled client accepts
    ensures ok <==> exists i :: 0 <= i < |GetEnabledClients(isEnabled)|
                               && Accepts(attempt(GetEnabledClients(isEnabled)[i], url, filename))
    // on success the last client called is the first that accepted
    ensures ok ==> tried != [] && Accepts(attempt(tried[|tried| - 1], url, filename))
                   && forall i :: 0 <= i < |tried| - 1 ==> !Accepts(attempt(tried[i], url, filename))
    // on failure every enabled client was called
    ensures !ok ==> tried == GetEnabledClients(isEnabled)
  {
    var enabled := GetEnabledClients(isEnabled);
    tried := [];
    if |enabled| == 0 {
      return false, tried;
    }
    var i := 0;
    while i < |enabled|
      invariant 0 <= i <= |enabled|
      invariant tried == enabled[..i]
      invariant forall j :: 0 <= j < i ==> !Accepts(attempt(enabled[j], url, filename))
    {
      var client := enabled[i];
      tried := tried + [client];
      var result := attempt(client, url, filename);
      if result.Returned? && result.accepted {
        assert tried == enabled[..i + 1];
        return true, tried;
      }
      i := i + 1;
    }
    assert enabled[..|enabled|] == enabled;
    return false, tried;
  }

  /** `getDirectDownloads()`: the curl client's records, then the wget client's. */
  function GetDirectDownloads(curl: seq<DownloadProgress>, wget: seq<DownloadProgress>)
    : (r: seq<DownloadProgress>)
    ensures |r| == |curl| + |wget|
    ensures forall i :: 0 <= i < |curl| ==> r[i] == curl[i]
    ensures forall i :: 0 <= i < |wget| ==> r[|curl| + i] == wget[i]
  {
    curl + wget
  }
}
