/** How the curl and wget clients name a download: the caller's name or the last path
    segment of the URL, with an extension taken from the URL when the name has none. */
module Filenames {
  import opened Common
  import opened Strings
  import opened Decimal
  import opened Urls

  /** `name` ends in '.' and `k` characters of `[a-zA-Z0-9]`. */
  predicate EndsWithExtension(name: string, k: nat)
  {
    k + 1 <= |name| && name[|name| - k - 1] == '.' && AllAlnum(name[|name| - k..])
  }

  /** `/\.[a-zA-Z0-9]{2,4}$/.test(name)`. */
  predicate HasExtension(name: string)
  {
    EndsWithExtension(name, 2) || EndsWithExtension(name, 3) || EndsWithExtension(name, 4)
  }

  /** `/\.([a-zA-Z0-9]{2,4})(?:\?|$)/` matches at `p` with a group of `k` characters:
      a dot, `k` alphanumerics, then '?' or the end of the URL. */
  predicate MatchAt(url: string, p: nat, k: nat)
  {
    && 2 <= k <= 4
    && p + 1 + k <= |url|
    && url[p] == '.'
    && AllAlnum(url[p + 1..p + 1 + k])
    && (p + 1 + k == |url| || url[p + 1 + k] == '?')
  }

  /** At one position at most one group length matches, so the greedy order in which the
      regular expression tries 4, 3 and 2 characters does not change the group. */
  lemma OneLengthPerPosition(url: string, p: nat, k1: nat, k2: nat)
    requires MatchAt(url, p, k1) && MatchAt(url, p, k2)
    ensures k1 == k2
  {
  }

  /** Where a match starts and how long its group is. */
  datatype ExtensionMatch = ExtensionMatch(start: nat, length: nat)

  /** The leftmost match at or after `p`. */
  function FirstMatchFrom(url: string, p: nat): (r: Option<ExtensionMatch>)
    ensures r.Some? ==> p <= r.value.start && MatchAt(url, r.value.start, r.value.length)
    ensures r.Some? ==> forall q, k :: p <= q < r.value.start ==> !MatchAt(url, q, k)
    ensures r.None? ==> forall q, k :: p <= q ==> !MatchAt(url, q, k)
    decreases |url| - p
  {
    if p >= |url| then None
    else if MatchAt(url, p, 4) then Some(ExtensionMatch(p, 4))
    else if MatchAt(url, p, 3) then Some(ExtensionMatch(p, 3))
    else if MatchAt(url, p, 2) then Some(ExtensionMatch(p, 2))
    else FirstMatchFrom(url, p + 1)
  }

  /** `url.match(...)?.[1]`: the group of the leftmost match. */
  function UrlExtension(url: string): (r: Option<string>)
    ensures r.Some? ==> 2 <= |r.value| <= 4 && AllAlnum(r.value)
    ensures r.None? <==> forall q, k :: !MatchAt(url, q, k)
  {
    match FirstMatchFrom(url, 0)
    case None => None
    case Some(m) => Some(url[m.start + 1..m.start + 1 + m.length])
  }

  /** The extension is the group of a match, and no match starts further left. */
  lemma UrlExtensionIsLeftmost(url: string)
    requires UrlExtension(url).Some?
    ensures exists p, k :: MatchAt(url, p, k) && UrlExtension(url).value == url[p + 1..p + 1 + k]
                           && forall q, k' :: q < p ==> !MatchAt(url, q, k')
  {
    var m := FirstMatchFrom(url, 0).value;
    assert MatchAt(url, m.start, m.length);
  }

  /** Node's `path.posix.basename`: trailing slashes dropped, then the last segment. */
  function Basename(path: string): (r: string)
    ensures '/' !in r
    ensures |r| <= |path|
    // the last segment: a suffix of the trimmed path that is all of it or follows a '/'
    ensures var t := TrimTrailingSlashes(path);
            |r| <= |t| && r == t[|t| - |r|..] && (|r| == |t| || t[|t| - |r| - 1] == '/')
  {
    var trimmed := TrimTrailingSlashes(path);
    AfterLastIsLastSegment(trimmed, '/');
    AfterLast(trimmed, '/')
  }

  /** `path` without its trailing run of '/'. */
  function TrimTrailingSlashes(path: string): (r: string)
    ensures |r| <= |path| && r == path[..|r|]
    ensures r == [] || r[|r| - 1] != '/'
    ensures forall i :: |r| <= i < |path| ==> path[i] == '/'
    decreases |path|
  {
    if path != [] && path[|path| - 1] == '/' then TrimTrailingSlashes(path[..|path| - 1]) else path
  }

  /** The name used when the URL yields none: `download_<now>`. */
  function FallbackName(now: nat): (r: string)
    ensures r != "" && '/' !in r
  {
    "download_" + ToDecimal(now)
  }

  /** `extractFilename(url)` at time `now`: the last segment of the URL's path, else the fallback. */
  function ExtractFilename(url: string, now: nat): (r: string)
    ensures r != "" && '/' !in r
    ensures Parse(url).Some? && Basename(Parse(url).value.pathname) != "" ==>
              r == Basename(Parse(url).value.pathname)
    ensures Parse(url).None? || Basename(Parse(url).value.pathname) == "" ==> r == FallbackName(now)
  {
    match Parse(url)
    case None => FallbackName(now)
    case Some(u) =>
      var name := Basename(u.pathname);
      if name != "" then name else FallbackName(now)
  }

  /** Segments after the last one do not exist: for a URL whose path ends in `/<name>`
      (plus any trailing slashes), the file name is `name`. */
  lemma ExtractFilenameOfHref(u: Url, dir: string, name: string, slashes: nat, now: nat)
    requires WellFormed(u)
    requires u.pathname == dir + "/" + name + Repeat('/', slashes)
    requires name != "" && '/' !in name
    ensures ExtractFilename(Href(u), now) == name
  {
    ParseHref(u);
    var path := u.pathname;
    TrimRepeat(dir + "/" + name, slashes);
    AfterLastOfSegment(dir, name);
  }

  /** `n` copies of `c`. */
  function Repeat(c: char, n: nat): (r: string)
    ensures |r| == n && forall i :: 0 <= i < n ==> r[i] == c
  {
    if n == 0 then [] else Repeat(c, n - 1) + [c]
  }

  /** Trailing slashes added to a path that does not end in one are trimmed again. */
  lemma {:induction false} TrimRepeat(path: string, n: nat)
    requires path != [] && path[|path| - 1] != '/'
    ensures TrimTrailingSlashes(path + Repeat('/', n)) == path
  {
    if n == 0 {
      assert path + Repeat('/', 0) == path;
    } else {
      var s := path + Repeat('/', n);
      assert s[..|s| - 1] == path + Repeat('/', n - 1);
      TrimRepeat(path, n - 1);
    }
  }

  /** The last '/'-separated segment of `dir/name` is `name`. */
  lemma {:induction false} AfterLastOfSegment(dir: string, name: string)
    requires '/' !in name
    ensures AfterLast(dir + "/" + name, '/') == name
    decreases |name|
  {
    var s := dir + "/" + name;
    if name == [] {
      assert s[|s| - 1] == '/';
    } else {
      assert s[..|s| - 1] == dir + "/" + name[..|name| - 1];
      assert name[|name| - 1] in name;
      AfterLastOfSegment(dir, name[..|name| - 1]);
      assert name == name[..|name| - 1] + [name[|name| - 1]];
    }
  }

  /** `base`, with '.' and the URL's extension appended when it has no extension. */
  function WithUrlExtension(base: string, url: string): (r: string)
    ensures HasExtension(r) || UrlExtension(url).None?
    ensures |base| <= |r| && r[..|base|] == base
  {
    if HasExtension(base) then base
    else match UrlExtension(url)
      case Some(ext) =>
        AppendedExtension(base, ext);
        base + "." + ext
      case None => base
  }

  /** The name a curl or wget download is saved under (`filename` is "" when not given):
      `filename || extractFilename(url)`, with the URL's extension appended when it has none. */
  function FinalFilename(filename: string, url: string, now: nat): (r: string)
    ensures r != ""
    ensures HasExtension(r) || UrlExtension(url).None?
    ensures Truthy(filename) ==> |filename| <= |r| && r[..|filename|] == filename
  {
    WithUrlExtension(OrElse(filename, ExtractFilename(url, now)), url)
  }

  /** Appending '.' and a 2-4 character alphanumeric group always gives an extension. */
  lemma AppendedExtension(base: string, ext: string)
    requires 2 <= |ext| <= 4 && AllAlnum(ext)
    ensures HasExtension(base + "." + ext)
  {
    var s := base + "." + ext;
    assert s[|s| - |ext|..] == ext;
    assert s[|s| - |ext| - 1] == '.';
    assert EndsWithExtension(s, |ext|);
  }

  /** The extension is the group of the leftmost match. */
  lemma UrlExtensionOfLeftmost(url: string, p: nat, k: nat)
    requires MatchAt(url, p, k) && forall q: nat, k': nat :: q < p ==> !MatchAt(url, q, k')
    ensures UrlExtension(url) == Some(url[p + 1..p + 1 + k])
  {
    var m := FirstMatchFrom(url, 0).value;
    assert !(m.start < p);
    assert !(p < m.start);
    OneLengthPerPosition(url, p, k, m.length);
  }

  /** The three outcomes of naming, stated on the regular expressions: a name that already
      has an extension is kept; one that has none gets the group of the URL's leftmost
      match; with no match anywhere it is kept. */
  lemma WithUrlExtensionCases(base: string, url: string, p: nat, k: nat)
    ensures HasExtension(base) ==> WithUrlExtension(base, url) == base
    ensures !HasExtension(base) && (forall q: nat, k': nat :: !MatchAt(url, q, k'))
            ==> WithUrlExtension(base, url) == base
    ensures !HasExtension(base) && MatchAt(url, p, k) && (forall q: nat, k': nat :: q < p ==> !MatchAt(url, q, k'))
            ==> WithUrlExtension(base, url) == base + "." + url[p + 1..p + 1 + k]
  {
    if MatchAt(url, p, k) && (forall q: nat, k': nat :: q < p ==> !MatchAt(url, q, k')) {
      UrlExtensionOfLeftmost(url, p, k);
    }
  }

  /** Naming is stable: a name produced once is kept when passed back in as the caller's name. */
  lemma FinalFilenameIsStable(filename: string, url: string, now: nat)
    ensures FinalFilename(FinalFilename(filename, url, now), url, now) == FinalFilename(filename, url, now)
  {
  }
}
