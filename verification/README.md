# ddlarr-suite core, modelled in Dafny

This project models the logic at the centre of the ddlarr suite. It covers four parts:

- **AllDebrid link unlocker.** It holds a per-host circuit breaker that marks hosts unavailable for 15 minutes. It sends `dl-protect` links through the redirector, falls back to the browser resolver, and unlocks one link or a batch. Every unlock settles with some link unless the fallback resolver rejects.
- **Indexer's Torznab "latest" feed.** It maps Torznab categories to content types, turns scraper results into Torznab items, filters them by the requested categories, and sorts them newest first.
- **Downloader's client registry.** It lists the enabled clients and hands a download to the first enabled client that accepts it.
- **Direct curl and wget clients.** It covers how they name a file, how the child process's events decide completed or failed, and how wget's progress percentage is read.

Network calls, the fallback resolver, the scrapers, the clients' `addDownload`, the configuration and the file system are all parameters. Each is a function value standing for what the real call answers. The clock is a parameter `now`, one value per top-level call.

Modules, one per file:

- **Basics:** `Common` (Option, JavaScript truthiness of strings), `Strings`, `Decimal` (decimal text and `parseInt`) and `Seqs` (filter, stable sort).
- **URL parser:** `Urls`, a WHATWG-style parser for special schemes.
- **Unlocker:** `HostBreaker`, `LinkHelpers`, `DebridAdapters` and `Orchestrator`.
- **Indexer:** `Torznab`.
- **Downloader:** `Filenames`, `Downloads` and `Clients`.

## Model

| member | source | states |
|---|---|---|
| HostBreaker.IsHostUnavailable | src/debrid/alldebrid.ts:75-89 | a host is reported unavailable exactly when its mark is non-zero (0 is falsy) and at most 15 minutes old; a mark more than 15 minutes old is evicted, and nothing else changes |
| HostBreaker.MarkHostUnavailable | src/debrid/alldebrid.ts:94-98 | the host is stamped with `now`; every other host's entry is kept as it was |
| HostBreaker.MarkThenCheck | src/debrid/alldebrid.ts:75-98 | a host marked at a non-zero time t reads unavailable exactly while at most the TTL has passed since t |
| HostBreaker.MarkLeavesOtherHosts | src/debrid/alldebrid.ts:75-98 | marking one host changes neither the answer nor the eviction for any other host |
| HostBreaker.MarkAfterEviction | src/debrid/alldebrid.ts:94-98 | re-marking an evicted host gives the same map as re-marking it in place |
| HostBreaker.NeverMarkedIsAvailable | src/debrid/alldebrid.ts:75-79 | a host never marked is available and the map is untouched |
| HostBreaker.CheckIsIdempotent | src/debrid/alldebrid.ts:75-89 | checking twice at the same time gives the same answer and the same map as checking once |
| HostBreaker.EvolvesTransitive | src/debrid/alldebrid.ts:14-16 | the allowed breaker moves (stamp now, evict expired) compose |
| HostBreaker.OperationsEvolve | src/debrid/alldebrid.ts:75-98 | both breaker operations only make allowed moves |
| LinkHelpers.SomeDomainIncludedIsSome | src/debrid/alldebrid.ts:103-110 | the domain test holds iff some redirector domain occurs as a substring of the host name |
| LinkHelpers.GetHostFromUrl | src/debrid/alldebrid.ts:63-70 | `None` exactly when the URL does not parse; otherwise the parsed host name with its `www.` prefix dropped |
| LinkHelpers.WithoutWww | src/debrid/alldebrid.ts:66 | one leading `www.` is dropped: a host starting with it is `www.` followed by the result, and any other host comes back unchanged |
| LinkHelpers.GetHostFromUrlOfHref | src/debrid/alldebrid.ts:63-70 | the href of a well-formed URL whose host has no `www.` gives that host back, and the same URL with `www.` in front of its host gives the same host |
| LinkHelpers.NeedsRedirector | src/debrid/alldebrid.ts:103-110 | true iff the link parses and its host contains one of the three dl-protect domains |
| LinkHelpers.CleanDlProtectLink | src/debrid/alldebrid.ts:116-126 | links outside the redirector domains come back unchanged; a non-empty link stays non-empty |
| LinkHelpers.CleanIsIdempotent | src/debrid/alldebrid.ts:116-126 | cleaning a cleaned link changes nothing |
| LinkHelpers.CleanKeepsClassification | src/debrid/alldebrid.ts:103-126 | cleaning never moves a link into or out of the redirector domains |
| LinkHelpers.CleanDropsQueryAndFragment | src/debrid/alldebrid.ts:116-126 | a redirector URL is cleaned to origin plus path, which parses back to the URL without query and fragment |
| LinkHelpers.SubstringMatchQuirk | src/debrid/alldebrid.ts:103-110 | a host that merely contains `dl-protect.link` inside another domain is classified as a redirector host |
| LinkHelpers.UnanchoredMatchQuirk | src/debrid/alldebrid.ts:103-110 | a host with a prefix glued to `dl-protect.net` is classified as a redirector host |
| DebridAdapters.ResolveRedirector | src/debrid/alldebrid.ts:131-163 | the redirector's links when it succeeded with at least one, otherwise the link itself; never empty |
| DebridAdapters.BreakerHost | src/debrid/alldebrid.ts:174-176 | the breaker is keyed on the host from `getHostFromUrl` when that is non-empty, and is skipped otherwise |
| DebridAdapters.WwwPrefixSharesBreakerHost | src/debrid/alldebrid.ts:63-70 | a URL and the same URL with `www.` in front of its host are held by one breaker entry, keyed by the host without the prefix |
| DebridAdapters.InterpretUnlock | src/debrid/alldebrid.ts:195-212 | a link exactly on success; a host-level error code marks the host; any other failure leaves the breaker alone |
| DebridAdapters.DebridLink | src/debrid/alldebrid.ts:169-213 | no request without a key or for an unavailable host; a link iff the request succeeded; the host is marked iff a host-level error came back |
| DebridAdapters.DebridLinkEvolves | src/debrid/alldebrid.ts:169-213 | one unlock only stamps hosts with `now` or evicts expired marks |
| DebridAdapters.HostErrorOpensBreaker | src/debrid/alldebrid.ts:174-206 | after a host-level error, an unlock for the same host within the TTL sends no request (for any clock reading but 0, which the truthiness test treats as unmarked) |
| DebridAdapters.OtherErrorsDoNotMark | src/debrid/alldebrid.ts:199-208 | an error outside the four host-level codes marks nothing |
| Orchestrator.ConfiguredKey | src/debrid/alldebrid.ts:49-54 | the constructor key wins over the configured one; an empty key leaves the client unconfigured |
| Orchestrator.RedirectorHop | src/debrid/alldebrid.ts:229-234 | with a key, a hop exists exactly when the redirector succeeded with at least one link and its first link differs from the input, and the hop is to that first link |
| Orchestrator.AfterError | src/debrid/alldebrid.ts:263-273 | in the catch branch a protected link goes to a fresh call of the fallback resolver (`retryDlProtectLink`, not the call that may have thrown), and any other link comes back cleaned; the breaker is unchanged |
| Orchestrator.Decide | src/debrid/alldebrid.ts:214-274 | a round hops exactly when the redirector made progress on a protected link, to the redirector's first link; a round rejects only after the first fallback call on that link rejected |
| Orchestrator.Fallback | src/debrid/alldebrid.ts:236-252 | without redirector progress, the round rejects only if the fallback resolver rejected, and a non-empty cleaned link with a non-empty resolver answer settles non-empty |
| Orchestrator.UnlockLink | src/debrid/alldebrid.ts:214-274 | the returned promise rejects only when some first call of the fallback resolver rejected; `unlockLink` itself throws nothing else |
| Orchestrator.UnlockLinkEvolves | src/debrid/alldebrid.ts:215-274 | a whole unlock, through any redirector chain, only moves the breaker as it may |
| Orchestrator.UnconfiguredUnlock | src/debrid/alldebrid.ts:216-225 | without a key: protected links go to the fallback resolver, and every other link comes back cleaned |
| Orchestrator.DirectUnlock | src/debrid/alldebrid.ts:254-262 | for a link outside the redirector domains, the unlocked link if the unlock succeeded, else the cleaned `originalLink \|\| link` |
| Orchestrator.RedirectorProgress | src/debrid/alldebrid.ts:229-234 | on progress, the answer is the unlock of the candidate, with the current link as its `originalLink` |
| Orchestrator.RedirectorFallback | src/debrid/alldebrid.ts:236-252 | without progress: the fallback link, unlocked if possible, when it escaped protection; otherwise the cleaned link, or the catch branch on rejection |
| Orchestrator.RedirectorThenUnlock | src/debrid/alldebrid.ts:229-262 | a protected link redirected to a plain link that unlocks settles with the unlocked link |
| Orchestrator.UnlockLinkFulfils | src/debrid/alldebrid.ts:215-274 | if the fallback resolver never rejects, neither does `unlockLink` |
| Orchestrator.UnlockLinkNonEmpty | src/debrid/alldebrid.ts:215-274 | a non-empty input settles with a non-empty link whenever the fallback resolver only yields non-empty links |
| Orchestrator.FuelIsIrrelevant | src/debrid/alldebrid.ts:229-234 | once the redirector chain settles, the hop bound does not change the answer or the breaker |
| Orchestrator.Join | src/debrid/alldebrid.ts:276-278 | two calls that ran on the same map leave a host stamped at `now` iff either stamped it; any other entry is kept only if both calls kept it, with its old time |
| Orchestrator.JoinEvolves | src/debrid/alldebrid.ts:276-278 | joining two allowed moves of one map is an allowed move of that map |
| Orchestrator.UnlockLinks | src/debrid/alldebrid.ts:276-284 | `unlockLinks` returns exactly as many links as it was given |
| Orchestrator.UnlockLinksElementwise | src/debrid/alldebrid.ts:276-284 | element i is `unlockLink(links[i])` run on the map the batch started from, or `links[i]` when that call rejected |
| Orchestrator.UnlockLinksIndependent | src/debrid/alldebrid.ts:276-284 | a link's result in a batch is the result it gets alone: no call sees another call's breaker marks |
| Orchestrator.HostErrorKeepsLink | src/debrid/alldebrid.ts:253-262 | a direct link whose unlock answers a host-level error, on a host the breaker does not hold, comes back as it is and its host is stamped |
| Orchestrator.SuccessUnlocks | src/debrid/alldebrid.ts:253-262 | a direct link whose unlock succeeds, on a host the breaker does not hold, comes back unlocked |
| Orchestrator.HostErrorDoesNotSuppressBatchmate | src/debrid/alldebrid.ts:276-284 | two links on one host, the first answered with a host-level error and the second unlocked, give the first link and the second's unlocked link, and the host is stamped afterwards |
| Orchestrator.UnlockLinksEvolves | src/debrid/alldebrid.ts:276-284 | a batch moves the breaker only by stamps at `now` and evictions |
| Orchestrator.UnlockLinksStamps | src/debrid/alldebrid.ts:276-284 | after a batch a host is stamped at `now` iff it was before or one of the batch's calls, on its own, stamps it |
| Orchestrator.UnlockLinksAllFulfilled | src/debrid/alldebrid.ts:276-284 | with a non-rejecting resolver, no input link is passed through in place of an unlock result |
| Urls.Parse | src/debrid/alldebrid.ts:63-70 | `new URL(link)`: every URL it returns is well formed (valid lower-case host, port at most 65535 and not the default, path starting with '/', and no '?', '#', '\\', control or space in the path); the differences from the WHATWG parser (host percent-decoding, non-special schemes, IPv4 hosts, other percent-encoding) are listed under Left out |
| Urls.ParseIgnoresSurroundingSpace | src/debrid/alldebrid.ts:63-70 | leading and trailing C0 controls and spaces do not change how a link parses |
| Urls.PreprocessShape | src/debrid/alldebrid.ts:63-70 | the cleaned input neither starts nor ends with a C0 control or space, and holds no tab or newline |
| Urls.PreprocessOfVisible | src/debrid/alldebrid.ts:63-70 | input without controls and spaces reaches the parse unchanged |
| Urls.PercentEncodeControls | src/debrid/alldebrid.ts:63-70 | the path, query and fragment come out free of controls and spaces, and text already free of them is left as it is |
| Urls.HostPortRoundTrip | src/debrid/alldebrid.ts:63-70 | host and port text parse back to the same host and port |
| Urls.AuthorityRoundTrip | src/debrid/alldebrid.ts:63-70 | serialising a well-formed URL and parsing it again gives the same URL |
| Urls.ParseHref | src/debrid/alldebrid.ts:63-70 | `new URL(href)` of a well-formed URL's href gives that URL back |
| Urls.OriginPathRoundTrip | src/debrid/alldebrid.ts:116-126 | origin plus path parses to the URL without its query and fragment |
| Decimal.ParseIntOfDecimal | indexer/src/routes/torznab.ts:91 | `parseInt` reads back any decimal numeral up to 2^53 (numbers are exact integers here; see Left out) |
| Decimal.DigitsValueOfDecimal | indexer/src/routes/torznab.ts:91 | a numeral's digits denote the number it was written from |
| Torznab.GetContentTypesFromCategories | indexer/src/routes/torznab.ts:27-37 | never empty; the default for no filter; types in fixed movie, series, anime, ebook order |
| Torznab.ContentTypesOfFilter | indexer/src/routes/torznab.ts:22-37 | a type is selected iff some requested code is among its category codes; the default when none matches |
| Torznab.ProcessResults | indexer/src/routes/torznab.ts:39-67 | fails iff some link resolution rejects; otherwise one item per result, with the result's fields and the resolved link |
| Torznab.ProcessedIsUnique | indexer/src/routes/torznab.ts:39-67 | the processed items of a list of results are determined by the results: two processings of the same rows are equal |
| Torznab.ParseLimit | indexer/src/routes/torznab.ts:91 | 100 when `limit` is absent or empty, otherwise `parseInt` of it |
| Torznab.ParseLimitOfDecimal | indexer/src/routes/torznab.ts:91 | a decimal limit up to 2^53 is read back as the number it was written from (numbers are exact integers here; see Left out) |
| Torznab.FilterByCategoryKeepsRequested | indexer/src/routes/torznab.ts:113-115 | exactly the items whose category is requested, each with its multiplicity, in their original order |
| Torznab.SortByPubDateIsStableSort | indexer/src/routes/torznab.ts:117-121 | newest first, a permutation, ties kept in input order, and the only list with those properties |
| Torznab.GatherMembers | indexer/src/routes/torznab.ts:103-109 | a result is gathered iff some selected content type's latest list contains it |
| Torznab.ShapeLatestIsOrderedAndFiltered | indexer/src/routes/torznab.ts:111-121 | the feed is sorted newest first and holds only requested categories |
| Torznab.LatestFeed | indexer/src/routes/torznab.ts:99-121 | fails iff a resolution rejects; otherwise the feed is the processed gathered rows, filtered by category and sorted; so it is sorted newest first, holds only categories in the filter, and holds every gathered result when unfiltered |
| Clients.GetEnabledClientsIsExact | downloader/src/clients/index.ts:25-27 | exactly the enabled clients, each once, in registration order |
| Clients.AddDownloadToAll | downloader/src/clients/index.ts:29-54 | true iff some enabled client accepts; clients are tried in order up to the first that accepts, and all of them on failure |
| Clients.GetDirectDownloads | downloader/src/clients/index.ts:19-21 | curl's records, then wget's, each kept in order |
| Filenames.UrlExtension | downloader/src/clients/curl.ts:86-87 | the 2-4 alphanumeric group of a match, and none exactly when the pattern matches nowhere |
| Filenames.UrlExtensionIsLeftmost | downloader/src/clients/curl.ts:86-87 | the extension comes from a match with no match further left |
| Filenames.Basename | downloader/src/clients/curl.ts:208-217 | the last path segment after trailing slashes are dropped: a suffix of the trimmed path containing no '/', which is either the whole path or comes right after a '/' |
| Filenames.ExtractFilename | downloader/src/clients/curl.ts:208-217 | the URL path's last segment when non-empty, else `download_<now>`; never empty and without '/' |
| Filenames.ExtractFilenameOfHref | downloader/src/clients/wget.ts:194-203 | a URL whose path ends in `/name` (and any slashes) is named `name` |
| Filenames.FinalFilename | downloader/src/clients/curl.ts:82-92 | never empty; has an extension unless the URL offers none; starts with the caller's name when one is given |
| Filenames.WithUrlExtensionCases | downloader/src/clients/wget.ts:75-82 | a name with an extension is kept; otherwise the leftmost URL match's group is appended, or the name is kept when nothing matches |
| Filenames.FinalFilenameIsStable | downloader/src/clients/curl.ts:82-92 | for every URL, feeding a chosen name back in as the caller's name keeps it |
| Downloads.OnClose | downloader/src/clients/curl.ts:155-197 | true iff exit code 0 and the move (or copy then unlink) succeeded; then completed at 100, else failed with progress kept |
| Downloads.Resolve | downloader/src/clients/curl.ts:166-196 | the first resolution of the promise wins |
| Downloads.Step | downloader/src/clients/curl.ts:133-204 | a progress chunk never settles the download or changes its status; a settled download stays settled |
| Downloads.SettledStaysSettled | downloader/src/clients/wget.ts:141-190 | later events never change a settled verdict |
| Downloads.FirstTerminalEventDecides | downloader/src/clients/wget.ts:141-190 | the first close or error decides the verdict; without one the download never settles |
| Downloads.CloseCompletesIff | downloader/src/clients/curl.ts:155-197 | a close on a pending download completes it iff the exit code is 0 and the file reached its destination |
| Downloads.CopiedButNotUnlinkedFails | downloader/src/clients/curl.ts:173-189 | a copy that succeeded followed by a failed unlink reports the download failed |
| Downloads.StatusAndVerdictCanDisagree | downloader/src/clients/curl.ts:155-204 | an error, then a clean close, leaves the record completed while the promise said false |
| Downloads.FirstPercentFrom | downloader/src/clients/wget.ts:122-126 | the leftmost digit run followed by '%' at or after a position |
| Downloads.WgetProgress | downloader/src/clients/wget.ts:122-126 | none exactly when the chunk holds no digits followed by '%' |
| Downloads.WgetProgressReadsPercent | downloader/src/clients/wget.ts:122-126 | a chunk `… N% …` with no digits before N reads N |
| Downloads.WgetParse | downloader/src/clients/wget.ts:122-126 | the progress is updated iff a percentage is found, and to that value |
| Downloads.AddDirectDownload | downloader/src/clients/curl.ts:72-114 | a disabled client answers false and keeps no record; otherwise the record holds the chosen name and URL |
| Downloads.AddDirectDownloadSucceedsIff | downloader/src/clients/wget.ts:62-190 | a direct download succeeds iff the client is enabled and the first terminal event is a clean exit whose move succeeded |

## Left out

- HTTP, JSON decoding, `checkStatus` and the response types: each endpoint is a function value standing for the answer it gives, and a network failure is one more answer (`DebridAdapters`).
- The fallback resolver (`isDlProtectLink`, `resolveDlProtectLink`) is a pair of function values. `resolveDlProtectLink` settles as fulfilled or rejected; `isDlProtectLink` is assumed not to throw.
- Orchestrator.AfterError: the second resolver call in the `catch` branch is its own function value, `retryDlProtectLink`, so it may answer differently from the first. Each of the two is assumed to answer the same way for the same link every time it is called.
- `Date.now()`: one `now` per top-level call. A real unlock that takes time stamps the breaker at later instants.
- Orchestrator.UnlockLinks: `unlockLinks` starts every `unlockLink` at once and they share one breaker map. Each call checks the breaker before its first `await`, so the model runs every call on the map the batch started from and joins the marks they leave. For direct links that is the only order there is. For a redirector link, the check comes after the redirector's reply, and a batchmate's mark set in the meantime could be seen; that ordering is not modelled.
- Orchestrator.UnlockLink: `unlockLink` follows redirector progress without bound. The model stops after `fuel` hops and answers with the cleaned link; `FuelIsIrrelevant` shows the answer does not depend on the bound once the chain settles.
- Orchestrator.UnlockLinkNonEmpty: needs a non-empty `originalLink || link`. For the empty link, the code returns "" (unconfigured, not protected), although the overview above says every unlock settles with some link.
- Urls.Parse: percent-escapes in the host are not decoded. `new URL("http://dl%2Dprotect.link/x")` decodes the host to `dl-protect.link`, so `needsRedirector` is true and the link is cleaned to `http://dl-protect.link/x`; here `Parse` rejects the `%`, so `NeedsRedirector` is false, `CleanDlProtectLink` returns the link unchanged and `GetHostFromUrl` is `None`.
- Urls.Parse: only the schemes http, https, ws, wss and ftp are parsed; any other scheme, `file:` included, is a parse failure. `new URL` accepts them: `foo://dl-protect.link/x?y` has host `dl-protect.link` (so `needsRedirector` is true) and origin `"null"`, so `cleanDlProtectLink` returns `null/x`; here `NeedsRedirector` is false and the link comes back unchanged. `file:` URLs likewise have origin `"null"`.
- Urls.Parse: leading and trailing controls and spaces are trimmed, tabs and newlines are dropped, and controls and spaces after the host are percent-encoded, as the WHATWG parser does. Not modelled: percent-encoding of other characters (`"`, `<`, `>`, backtick, `{`, `}`, DEL, non-ASCII), IPv4 hosts and hosts ending in a number (`http://1.2.3/` is read as `1.2.0.3` and `http://foo.123/` is rejected by the WHATWG parser, but both are taken as plain host names here), IDNA, IPv6, userinfo validation and dot-segment normalisation.
- Decimal.ParseIntOfDecimal: numbers are exact integers of any size. JavaScript's `parseInt` returns a double, so a numeral above 2^53 is rounded (`parseInt("9007199254740993")` is 9007199254740992) and one above about 1.8e308 gives `Infinity`; the read-back holds in the program only up to 2^53.
- Torznab.ParseLimitOfDecimal: the same width limit applies to the `limit` parameter; a limit above 2^53 is rounded by the program and read exactly here.
- Downloads.WgetParse: wget's `parseInt` of the percentage (`ParseIntOfDigits`) is exact here too; the same rounding above 2^53 is not modelled.
- Torznab: `cat.split(',').map(Number)` is given as already-parsed numbers. Non-numeric codes are `NaN`, which matches nothing; empty or blank segments (`cat=2000,`) read as 0, which is no category.
- Torznab: `pubDate` is integer milliseconds, or absent (sorted as 0). An unparsable date string (an invalid `Date`) is not modelled.
- Torznab.ProcessResults: the base64 `guid` is not modelled. Neither are the search branch's query handling or the XML response (`buildTorznabResponse`).
- Torznab: `contentTypeToCategory`, the scraper's `getLatest` and each result's link resolution are function values. A `getLatest` that rejects contributes nothing, as with `allSettled`.
- curl's stderr progress (`parseFloat`, `formatBytes`) is left out; the model takes any progress reader as a parameter. wget's speed and size are display only.
- Temporary paths, the download id, `setTimeout` removal of records and the `activeDownloads` map are left out. `GetDirectDownloads` takes each client's records as a list.
- The file system is the `MoveOutcome` each close reports: rename, copy and unlink, each succeeding or throwing.
- Clients: each client's `addDownload` is a function value answering true, false or a throw. The pyLoad, JDownloader, Aria2 and Download Station clients are not part of this model.
- Configuration loading, logging, the XML helpers and the server entry point are not part of this model.
