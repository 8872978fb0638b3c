/** The indexer's Torznab route: category codes to content types, result rows to feed
    items, and the latest-mode feed (gather, map, filter by category, newest first). */
module Torznab {
  import opened Common
  import opened Decimal
  import opened Seqs

  datatype ContentType = Movie | Series | Anime | Ebook

  /** The Torznab category codes of each content type. */
  const MovieCategories: seq<int> := [2000, 2030, 2040, 2045, 2060]
  const TvCategories: seq<int> := [5000, 5030, 5040, 5045]
  const AnimeCategories: seq<int> := [5070]
  const EbookCategories: seq<int> := [7000, 7010, 7020, 7030]

  /** The types served when the request names none (or none that is known). */
  const DefaultContentTypes: seq<ContentType> := [Movie, Series, Anime]

  function CategoriesOf(t: ContentType): seq<int>
  {
    match t
    case Movie => MovieCategories
    case Series => TvCategories
    case Anime => AnimeCategories
    case Ebook => EbookCategories
  }

  /** The fixed order in which the route tests the types. */
  function Rank(t: ContentType): nat
  {
    match t
    case Movie => 0
    case Series => 1
    case Anime => 2
    case Ebook => 3
  }

  /** `filter.some(c => categories.includes(c))`; a code that is not a number (NaN) matches nothing. */
  function SomeCodeIn(filter: seq<JsNumber>, categories: seq<int>): (r: bool)
    ensures r ==> filter != []
  {
    if filter == [] then false
    else (filter[0].Num? && filter[0].n in categories) || SomeCodeIn(filter[1..], categories)
  }

  /** Some code of the filter is one of `t`'s categories. */
  ghost predicate Requests(filter: seq<JsNumber>, t: ContentType)
  {
    exists i :: 0 <= i < |filter| && filter[i].Num? && filter[i].n in CategoriesOf(t)
  }

  lemma {:induction false} SomeCodeInIsRequests(filter: seq<JsNumber>, t: ContentType)
    ensures SomeCodeIn(filter, CategoriesOf(t)) <==> Requests(filter, t)
    decreases |filter|
  {
    if filter != [] {
      SomeCodeInIsRequests(filter[1..], t);
      assert forall i :: 0 < i < |filter| ==> filter[i] == filter[1..][i - 1];
      if SomeCodeIn(filter[1..], CategoriesOf(t)) {
        var i :| 0 <= i < |filter[1..]| && filter[1..][i].Num? && filter[1..][i].n in CategoriesOf(t);
        assert filter[i + 1] == filter[1..][i];
      }
    }
  }

  /** `getContentTypesFromCategories(categoryFilter)`. */
  function GetContentTypesFromCategories(filter: Option<seq<JsNumber>>): (r: seq<ContentType>)
    ensures r != []
    ensures filter.None? || filter.value == [] ==> r == DefaultContentTypes
    // the types come out in the fixed order, so each at most once
    ensures forall i, j :: 0 <= i < j < |r| ==> Rank(r[i]) < Rank(r[j])
  {
    if filter.None? || filter.value == [] then DefaultContentTypes
    else
      var f := filter.value;
      var types :=
        (if SomeCodeIn(f, MovieCategories) then [Movie] else [])
        + (if SomeCodeIn(f, TvCategories) then [Series] else [])
        + (if SomeCodeIn(f, AnimeCategories) then [Anime] else [])
        + (if SomeCodeIn(f, EbookCategories) then [Ebook] else []);
      if types != [] then types else DefaultContentTypes
  }

  /** For a non-empty filter, a type is served exactly when some code of the filter is one
      of its categories; when no code is, the default types are served. */
  lemma ContentTypesOfFilter(f: seq<JsNumber>)
    requires f != []
    ensures (exists t :: Requests(f, t)) ==>
              forall t :: t in GetContentTypesFromCategories(Some(f)) <==> Requests(f, t)
    ensures (forall t :: !Requests(f, t)) ==> GetContentTypesFromCategories(Some(f)) == DefaultContentTypes
  {
    SomeCodeInIsRequests(f, Movie);
    SomeCodeInIsRequests(f, Series);
    SomeCodeInIsRequests(f, Anime);
    SomeCodeInIsRequests(f, Ebook);
    var r := GetContentTypesFromCategories(Some(f));
    if exists t :: Requests(f, t) {
      var t0 :| Requests(f, t0);
      assert t0 == Movie || t0 == Series || t0 == Anime || t0 == Ebook;
      forall t ensures t in r <==> Requests(f, t) {
        assert t == Movie || t == Series || t == Anime || t == Ebook;
      }
    }
  }

  /** The identifiers and labels a scraper reports, copied to the item unchanged. */
  datatype Details = Details(
    imdbId: Option<string>, tmdbId: Option<string>,
    season: Option<string>, episode: Option<string>, language: Option<string>)

  /** One row a scraper returned; `pubDate` is a time in milliseconds, when known. */
  datatype ScraperResult = ScraperResult(
    title: string, link: string, pubDate: Option<int>, size: Option<int>,
    contentType: ContentType, quality: Option<string>, details: Details)

  /** One item of the Torznab feed. */
  datatype TorznabItem = TorznabItem(
    title: string, link: string, pubDate: Option<int>, size: Option<int>,
    category: int, quality: Option<string>, details: Details)

  /** What the mapping consults: where protected links are resolved, the fallback resolver,
      and the scrapers' category table. */
  datatype IndexerEnv = IndexerEnv(
    resolveInIndexer: bool,
    isDlProtectLink: string -> bool,
    resolveDlProtectLink: string -> Settled,
    contentTypeToCategory: (ContentType, Option<string>) -> int)

  /** The link is handed to the resolver: resolution happens here and the link is protected. */
  predicate Resolves(env: IndexerEnv, link: string)
  {
    env.resolveInIndexer && env.isDlProtectLink(link)
  }

  /** Minutes before `now` assigned, one per row, to rows without a date. */
  const RowSpacing: int := 60000

  /** `item` is what row `i` of a batch mapped at time `now` becomes. */
  ghost predicate MapsTo(env: IndexerEnv, res: ScraperResult, i: nat, now: int, item: TorznabItem)
  {
    && item.title == res.title
    && (if Resolves(env, res.link) then env.resolveDlProtectLink(res.link) == Fulfilled(item.link)
        else item.link == res.link)
    && item.pubDate == Some(if res.pubDate.Some? then res.pubDate.value else now - i * RowSpacing)
    && item.size == res.size
    && item.category == env.contentTypeToCategory(res.contentType, res.quality)
    && item.quality == res.quality
    && item.details == res.details
  }

  /** `items` is the whole batch `results` mapped at time `now`, row by row. */
  ghost predicate Processed(env: IndexerEnv, results: seq<ScraperResult>, now: int, items: seq<TorznabItem>)
  {
    |items| == |results| && forall i :: 0 <= i < |results| ==> MapsTo(env, results[i], i, now, items[i])
  }

  /** A row maps to one item only, so a mapped batch is determined by its rows. */
  lemma ProcessedIsUnique(env: IndexerEnv, results: seq<ScraperResult>, now: int,
                          a: seq<TorznabItem>, b: seq<TorznabItem>)
    requires Processed(env, results, now, a) && Processed(env, results, now, b)
    ensures a == b
  {
    forall i | 0 <= i < |a| ensures a[i] == b[i] {
      assert MapsTo(env, results[i], i, now, a[i]) && MapsTo(env, results[i], i, now, b[i]);
    }
  }

  /** Some row's link is resolved and the resolver rejects: the whole mapping rejects. */
  ghost predicate SomeResolutionRejects(env: IndexerEnv, results: seq<ScraperResult>)
  {
    exists i :: 0 <= i < |results| && Resolves(env, results[i].link)
                && env.resolveDlProtectLink(results[i].link).Rejected?
  }

  /** `processResults(results)` at time `now`: one item per row, in order, or a rejection
      when the resolver rejects one of the links it is given. */
  method ProcessResults(env: IndexerEnv, results: seq<ScraperResult>, now: int)
    returns (items: Option<seq<TorznabItem>>)
    ensures items.None? <==> SomeResolutionRejects(env, results)
    ensures items.Some? ==> Processed(env, results, now, items.value)
  {
    var out: seq<TorznabItem> := [];
    var i := 0;
    while i < |results|
      invariant 0 <= i <= |results| && |out| == i
      invariant forall j :: 0 <= j < i ==> MapsTo(env, results[j], j, now, out[j])
      invariant forall j :: 0 <= j < i ==> !(Resolves(env, results[j].link)
                                              && env.resolveDlProtectLink(results[j].link).Rejected?)
    {
      var res := results[i];
      var link := res.link;
      if env.resolveInIndexer && env.isDlProtectLink(link) {
        var settled := env.resolveDlProtectLink(link);
        if settled.Rejected? {
          return None;
        }
        link := settled.link;
      }
      var pubDate := if res.pubDate.Some? then res.pubDate.value else now - i * RowSpacing;
      out := out + [TorznabItem(res.title, link, Some(pubDate), res.size,
                                env.contentTypeToCategory(res.contentType, res.quality),
                                res.quality, res.details)];
      i := i + 1;
    }
    return Some(out);
  }

  /** `limit ? parseInt(limit, 10) : 100`. */
  function ParseLimit(limit: Option<string>): (r: JsNumber)
    ensures limit.None? || limit.value == "" ==> r == Num(100)
    ensures limit.Some? && limit.value != "" ==> r == ParseInt(limit.value)
  {
    if limit.None? || limit.value == "" then Num(100) else ParseInt(limit.value)
  }

  /** A limit written as a decimal numeral reads back as that number. */
  lemma ParseLimitOfDecimal(n: nat)
    ensures ParseLimit(Some(ToDecimal(n))) == Num(n)
  {
    ParseIntOfDecimal(n);
  }

  /** The item's category is one of the requested codes (`categoryFilter.includes`). */
  function InFilter(filter: seq<JsNumber>): TorznabItem -> bool
  {
    (item: TorznabItem) => Num(item.category) in filter
  }

  /** The latest-mode category filter. */
  function FilterByCategory(items: seq<TorznabItem>, filter: seq<JsNumber>): (r: seq<TorznabItem>)
    ensures |r| <= |items|
  {
    Filter(InFilter(filter), items)
  }

  /** The filter keeps exactly the items whose category was requested, every occurrence of
      each, in their original relative order. */
  lemma FilterByCategoryKeepsRequested(items: seq<TorznabItem>, filter: seq<JsNumber>)
    ensures forall i :: 0 <= i < |FilterByCategory(items, filter)| ==>
              Num(FilterByCategory(items, filter)[i].category) in filter
    ensures forall x :: multiset(FilterByCategory(items, filter))[x]
                        == if Num(x.category) in filter then multiset(items)[x] else 0
    ensures Subsequence(FilterByCategory(items, filter), items)
  {
    FilterAllSatisfy(InFilter(filter), items);
    forall x ensures multiset(FilterByCategory(items, filter))[x]
                     == if Num(x.category) in filter then multiset(items)[x] else 0 {
      FilterCount(InFilter(filter), items, x);
    }
    FilterIsSubsequence(InFilter(filter), items);
  }

  /** The sort key: the item's time, 0 when it has none. */
  function DateKey(item: TorznabItem): int
  {
    item.pubDate.GetOr(0)
  }

  /** `items.sort((a, b) => dateB - dateA)`: newest first; the sort is stable. */
  function SortByPubDate(items: seq<TorznabItem>): (r: seq<TorznabItem>)
    ensures |r| == |items|
  {
    SortDesc(DateKey, items)
  }

  /** The sorted feed is a newest-first permutation of the items in which items with the
      same time keep their order; and it is the only such arrangement. */
  lemma SortByPubDateIsStableSort(items: seq<TorznabItem>)
    ensures SortedDesc(DateKey, SortByPubDate(items))
    ensures multiset(SortByPubDate(items)) == multiset(items)
    ensures forall t :: Filter(KeyIs(DateKey, t), SortByPubDate(items)) == Filter(KeyIs(DateKey, t), items)
    ensures forall r :: SortedDesc(DateKey, r)
                        && (forall t :: Filter(KeyIs(DateKey, t), r) == Filter(KeyIs(DateKey, t), items))
                        ==> r == SortByPubDate(items)
  {
    SortDescIsSorted(DateKey, items);
    SortDescIsPermutation(DateKey, items);
    forall t ensures Filter(KeyIs(DateKey, t), SortByPubDate(items)) == Filter(KeyIs(DateKey, t), items) {
      SortDescIsStable(DateKey, items, t);
    }
    forall r | SortedDesc(DateKey, r)
               && (forall t :: Filter(KeyIs(DateKey, t), r) == Filter(KeyIs(DateKey, t), items))
      ensures r == SortByPubDate(items)
    {
      StableSortIsUnique(DateKey, items, r);
    }
  }

  /** The scraper's `getLatest(type, limit)` for each type: its rows, or `None` when the
      call rejected; `None` as a whole when the scraper has no latest mode. */
  type LatestSource = Option<(ContentType, JsNumber) -> Option<seq<ScraperResult>>>

  /** The rows of every call that fulfilled, in the order of the types (`Promise.allSettled`). */
  function Gather(source: LatestSource, types: seq<ContentType>, limit: JsNumber): (r: seq<ScraperResult>)
    ensures source.None? ==> r == []
    decreases |types|
  {
    if source.None? || types == [] then []
    else
      var last := source.value(types[|types| - 1], limit);
      Gather(source, types[..|types| - 1], limit) + (if last.Some? then last.value else [])
  }

  /** Each gathered row came from a call that fulfilled, and every row of every such call
      is gathered. */
  lemma {:induction false} GatherMembers(source: LatestSource, types: seq<ContentType>, limit: JsNumber,
                                         x: ScraperResult)
    requires source.Some?
    ensures x in Gather(source, types, limit) <==>
      exists i :: 0 <= i < |types| && source.value(types[i], limit).Some?
                  && x in source.value(types[i], limit).value
    decreases |types|
  {
    if types != [] {
      var init := types[..|types| - 1];
      GatherMembers(source, init, limit, x);
      assert forall i :: 0 <= i < |init| ==> init[i] == types[i];
      if exists i :: 0 <= i < |types| && source.value(types[i], limit).Some?
                     && x in source.value(types[i], limit).value {
        var i :| 0 <= i < |types| && source.value(types[i], limit).Some?
                 && x in source.value(types[i], limit).value;
        if i < |init| {
          assert init[i] == types[i];
        }
      }
    }
  }

  /** Every item carries a time. */
  predicate Dated(items: seq<TorznabItem>)
  {
    forall i :: 0 <= i < |items| ==> items[i].pubDate.Some?
  }

  lemma DatedSubset(a: seq<TorznabItem>, b: seq<TorznabItem>)
    requires Dated(a) && forall x :: x in b ==> x in a
    ensures Dated(b)
  {
    forall i | 0 <= i < |b| ensures b[i].pubDate.Some? {
      assert b[i] in a;
    }
  }

  /** What the route does to the mapped items in latest mode: keep the requested categories
      when a filter was given, then order newest first. */
  function ShapeLatest(items: seq<TorznabItem>, filter: Option<seq<JsNumber>>): (r: seq<TorznabItem>)
    ensures filter.None? ==> |r| == |items|
  {
    SortByPubDate(if filter.Some? then FilterByCategory(items, filter.value) else items)
  }

  /** The shaped feed is newest first, holds only requested categories, and loses no date. */
  lemma ShapeLatestIsOrderedAndFiltered(items: seq<TorznabItem>, filter: Option<seq<JsNumber>>)
    ensures SortedDesc(DateKey, ShapeLatest(items, filter))
    ensures filter.Some? ==>
              forall i :: 0 <= i < |ShapeLatest(items, filter)| ==> Num(ShapeLatest(items, filter)[i].category) in filter.value
    ensures Dated(items) ==> Dated(ShapeLatest(items, filter))
  {
    var kept := if filter.Some? then FilterByCategory(items, filter.value) else items;
    if filter.Some? {
      FilterByCategoryKeepsRequested(items, filter.value);
      FilterElementsFrom(InFilter(filter.value), items);
    }
    SortDescIsSorted(DateKey, kept);
    SortDescIsPermutation(DateKey, kept);
    PermutationKeepsElements(kept, SortByPubDate(kept));
    if Dated(items) {
      DatedSubset(items, kept);
      DatedSubset(kept, SortByPubDate(kept));
    }
  }

  /** The latest-mode feed: gather the latest rows of the requested types, map them, keep
      the requested categories when a filter was given, and order them newest first. */
  method LatestFeed(env: IndexerEnv, source: LatestSource, filter: Option<seq<JsNumber>>,
                    limit: Option<string>, now: int)
    returns (items: Option<seq<TorznabItem>>)
    ensures
      var rows := Gather(source, GetContentTypesFromCategories(filter), ParseLimit(limit));
      items.None? <==> SomeResolutionRejects(env, rows)
    ensures items.Some? ==> SortedDesc(DateKey, items.value)
    ensures items.Some? && filter.Some? ==>
              forall i :: 0 <= i < |items.value| ==> Num(items.value[i].category) in filter.value
    ensures items.Some? && filter.None? ==>
              |items.value| == |Gather(source, GetContentTypesFromCategories(filter), ParseLimit(limit))|
    // the feed is the gathered rows, mapped as `processResults` maps them, then shaped
    ensures
      var rows := Gather(source, GetContentTypesFromCategories(filter), ParseLimit(limit));
      items.Some? ==> exists mapped :: Processed(env, rows, now, mapped) && items.value == ShapeLatest(mapped, filter)
    // no row without a date: every item carries a time
    ensures items.Some? ==> Dated(items.value)
  {
    var types := GetContentTypesFromCategories(filter);
    var rows := Gather(source, types, ParseLimit(limit));
    var mapped := ProcessResults(env, rows, now);
    if mapped.None? {
      return None;
    }
    var all := mapped.value;
    assert Dated(all) by {
      forall i | 0 <= i < |all| ensures all[i].pubDate.Some? {
        assert MapsTo(env, rows[i], i, now, all[i]);
      }
    }
    ShapeLatestIsOrderedAndFiltered(all, filter);
    return Some(ShapeLatest(all, filter));
  }

  /** Every element of a filtered list is an element of the list. */
  lemma FilterElementsFrom(p: TorznabItem -> bool, s: seq<TorznabItem>)
    ensures forall x :: x in Filter(p, s) ==> x in s
  {
    forall x | x in Filter(p, s) ensures x in s {
      FilterCount(p, s, x);
    }
  }

  /** Two permutations of each other share their elements. */
  lemma PermutationKeepsElements(a: seq<TorznabItem>, b: seq<TorznabItem>)
    requires multiset(a) == multiset(b)
    ensures forall x :: x in b ==> x in a
  {
    forall x | x in b ensures x in a {
      assert x in multiset(b);
    }
  }
}
