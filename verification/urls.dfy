/** The part of the WHATWG URL parser (`new URL(s)`) the link helpers rely on, for the
    special schemes http, https, ws, wss and ftp: scheme, credentials, host, port, path,
    query and fragment, with `origin` and `pathname` as the URL object exposes them. */
module Urls {
  import opened Common
  import opened Strings
  import opened Decimal

  /** A parsed URL. `hostname` is lower-cased, `port` is absent when it is the scheme's
      default, `pathname` starts with '/', `query` and `fragment` exclude '?' and '#'. */
  datatype Url = Url(
    scheme: Scheme,
    hostname: string,
    port: Option<nat>,
    pathname: string,
    query: string,
    fragment: string)

  /** The special schemes; any other scheme is outside this model. */
  datatype Scheme = Http | Https | Ws | Wss | Ftp

  /** How a scheme is written: lower-case letters only. */
  function SchemeName(scheme: Scheme): (r: string)
    ensures r != [] && forall i :: 0 <= i < |r| ==> IsAsciiLower(r[i])
  {
    match scheme
    case Http => "http"
    case Https => "https"
    case Ws => "ws"
    case Wss => "wss"
    case Ftp => "ftp"
  }

  /** The special scheme named by an already lower-cased scheme text, if any. */
  function SchemeOf(name: string): (r: Option<Scheme>)
    ensures r.Some? ==> SchemeName(r.value) == name
  {
    if name == "http" then Some(Http)
    else if name == "https" then Some(Https)
    else if name == "ws" then Some(Ws)
    else if name == "wss" then Some(Wss)
    else if name == "ftp" then Some(Ftp)
    else None
  }

  /** The default port of a special scheme. */
  function DefaultPort(scheme: Scheme): nat
  {
    match scheme
    case Http | Ws => 80
    case Https | Wss => 443
    case Ftp => 21
  }

  /** Code points a domain may not contain (C0 controls, space, delimiters, '%', DEL). */
  predicate IsForbiddenHostChar(c: char)
  {
    c < ' ' || c == '\U{7F}' ||
    c in {' ', '#', '%', '/', ':', '<', '>', '?', '@', '[', '\\', ']', '^', '|'}
  }

  predicate IsValidHost(h: string)
  {
    h != [] && HasNoUpper(h) && forall i :: 0 <= i < |h| ==> !IsForbiddenHostChar(h[i])
  }

  /** Characters that end the authority of a special URL. */
  const AuthorityEnd: set<char> := {'/', '\\', '?', '#'}

  /** The invariants every parsed URL satisfies. */
  predicate WellFormed(u: Url)
  {
    && IsValidHost(u.hostname)
    && (u.port.Some? ==> u.port.value <= 65535 && u.port.value != DefaultPort(u.scheme))
    && u.pathname != [] && u.pathname[0] == '/'
    && NoneOf(u.pathname, {'?', '#', '\\'})
    && NoneOf(u.query, {'#'})
    && Visible(u.pathname) && Visible(u.query) && Visible(u.fragment)
  }

  /** `url.origin`: scheme, host and non-default port. */
  function Origin(u: Url): string
  {
    SchemeName(u.scheme) + "://" + u.hostname + PortSuffix(u.port)
  }

  function PortSuffix(port: Option<nat>): string
  {
    match port
    case None => ""
    case Some(p) => ":" + ToDecimal(p)
  }

  /** `url.href`, with an empty query or fragment omitted. */
  function Href(u: Url): string
  {
    Origin(u) + u.pathname
    + (if u.query != "" then "?" + u.query else "")
    + (if u.fragment != "" then "#" + u.fragment else "")
  }

  /** Special URLs skip any run of slashes and backslashes after the scheme. */
  function SkipSlashes(s: string): (r: string)
    ensures |r| <= |s|
    ensures r == [] || (r[0] != '/' && r[0] != '\\')
  {
    if s != [] && (s[0] == '/' || s[0] == '\\') then SkipSlashes(s[1..]) else s
  }

  /** What is skipped is a prefix of slashes and backslashes: the rest is a suffix. */
  lemma {:induction false} SkipSlashesIsSuffix(s: string)
    ensures var r := SkipSlashes(s);
      && r == s[|s| - |r|..]
      && forall i :: 0 <= i < |s| - |r| ==> s[i] == '/' || s[i] == '\\'
    decreases |s|
  {
    if s != [] && (s[0] == '/' || s[0] == '\\') {
      SkipSlashesIsSuffix(s[1..]);
      var r := SkipSlashes(s);
      assert s[1..][|s| - 1 - |r|..] == s[|s| - |r|..];
      forall i | 0 < i < |s| - |r| ensures s[i] == '/' || s[i] == '\\' {
        assert s[i] == s[1..][i - 1];
      }
    }
  }

  /** In a special URL's path a backslash is a segment separator like '/'. */
  function BackslashToSlash(s: string): (r: string)
    ensures |r| == |s|
    ensures forall i :: 0 <= i < |s| ==> r[i] == (if s[i] == '\\' then '/' else s[i])
  {
    if s == [] then [] else [if s[0] == '\\' then '/' else s[0]] + BackslashToSlash(s[1..])
  }

  datatype HostPort = HostPort(hostname: string, port: Option<nat>)

  /** Host and port of the authority (credentials already removed). */
  function ParseHostPort(scheme: Scheme, hp: string): (r: Option<HostPort>)
    ensures r.Some? ==> IsValidHost(r.value.hostname)
    ensures r.Some? && r.value.port.Some? ==>
      r.value.port.value <= 65535 && r.value.port.value != DefaultPort(scheme)
  {
    var c := FirstIndex(hp, {':'});
    var host := Lower(hp[..c]);
    var portText := if c < |hp| then hp[c + 1..] else "";
    LowerHasNoUpper(hp[..c]);
    if !(host != [] && forall i :: 0 <= i < |host| ==> !IsForbiddenHostChar(host[i])) then None
    else if !AllDigits(portText) then None
    else if portText == "" then Some(HostPort(host, None))
    else
      var p := DigitsValue(portText);
      if p > 65535 then None
      else Some(HostPort(host, if p == DefaultPort(scheme) then None else Some(p)))
  }

  /** A C0 control or a space: what `new URL` trims from both ends of its input, and what
      it percent-encodes in a path, query or fragment. */
  predicate IsC0OrSpace(c: char)
  {
    c <= ' '
  }

  /** No C0 control and no space. */
  predicate Visible(s: string)
  {
    forall i :: 0 <= i < |s| ==> !IsC0OrSpace(s[i])
  }

  lemma VisibleConcat(a: string, b: string)
    requires Visible(a) && Visible(b)
    ensures Visible(a + b)
  {
    forall i | 0 <= i < |a + b| ensures !IsC0OrSpace((a + b)[i]) {
      if i >= |a| {
        assert (a + b)[i] == b[i - |a|];
      }
    }
  }

  /** `s` without its leading C0 controls and spaces. */
  function TrimLeading(s: string): (r: string)
    ensures |r| <= |s| && r == s[|s| - |r|..]
    ensures r == [] || !IsC0OrSpace(r[0])
    decreases |s|
  {
    if s != [] && IsC0OrSpace(s[0]) then TrimLeading(s[1..]) else s
  }

  /** `s` without its trailing C0 controls and spaces. */
  function TrimTrailing(s: string): (r: string)
    ensures |r| <= |s| && r == s[..|r|]
    ensures r == [] || !IsC0OrSpace(r[|r| - 1])
    decreases |s|
  {
    if s != [] && IsC0OrSpace(s[|s| - 1]) then TrimTrailing(s[..|s| - 1]) else s
  }

  predicate IsTabOrNewline(c: char)
  {
    c == '\t' || c == '\n' || c == '\r'
  }

  /** No ASCII tab and no newline. */
  predicate NoTabOrNewline(s: string)
  {
    forall i :: 0 <= i < |s| ==> !IsTabOrNewline(s[i])
  }

  /** `s` with every ASCII tab and newline removed. */
  function RemoveTabsAndNewlines(s: string): (r: string)
    ensures |r| <= |s|
  {
    if s == [] then []
    else (if IsTabOrNewline(s[0]) then [] else [s[0]]) + RemoveTabsAndNewlines(s[1..])
  }

  /** What `new URL` does to its input before parsing: trim C0 controls and spaces from
      both ends, then drop every tab and newline. */
  function Preprocess(s: string): string
  {
    RemoveTabsAndNewlines(TrimTrailing(TrimLeading(s)))
  }

  /** The cleaned input starts and ends with neither a C0 control nor a space, and holds
      no tab and no newline. */
  lemma PreprocessShape(s: string)
    ensures var r := Preprocess(s);
      && (r == [] || (!IsC0OrSpace(r[0]) && !IsC0OrSpace(r[|r| - 1])))
      && NoTabOrNewline(r)
  {
    var t := TrimTrailing(TrimLeading(s));
    PreprocessKeepsEnds(t);
    RemovesTabsAndNewlines(t);
  }

  lemma {:induction false} RemovesTabsAndNewlines(s: string)
    ensures NoTabOrNewline(RemoveTabsAndNewlines(s))
  {
    if s != [] {
      var rest := RemoveTabsAndNewlines(s[1..]);
      RemovesTabsAndNewlines(s[1..]);
      if !IsTabOrNewline(s[0]) {
        var r := [s[0]] + rest;
        assert RemoveTabsAndNewlines(s) == r;
        forall i | 0 <= i < |r| ensures !IsTabOrNewline(r[i]) {
          if i > 0 {
            assert r[i] == rest[i - 1];
          }
        }
      } else {
        assert RemoveTabsAndNewlines(s) == rest;
      }
    }
  }

  lemma {:induction false} KeepsWithoutTabsAndNewlines(s: string)
    requires NoTabOrNewline(s)
    ensures RemoveTabsAndNewlines(s) == s
  {
    if s != [] {
      KeepsWithoutTabsAndNewlines(s[1..]);
    }
  }

  /** Removing tabs and newlines, which are C0 controls, keeps a first and last character
      that are neither. */
  lemma {:induction false} PreprocessKeepsEnds(t: string)
    requires t == [] || (!IsC0OrSpace(t[0]) && !IsC0OrSpace(t[|t| - 1]))
    ensures var r := RemoveTabsAndNewlines(t);
      r == [] || (!IsC0OrSpace(r[0]) && !IsC0OrSpace(r[|r| - 1]))
  {
    if t != [] {
      var rest := RemoveTabsAndNewlines(t[1..]);
      assert RemoveTabsAndNewlines(t) == [t[0]] + rest;
      if rest != [] {
        LastKept(t[1..]);
      }
    }
  }

  /** The last character kept is a character of the input at or after... the input's last
      character when that is not removed. */
  lemma {:induction false} LastKept(s: string)
    requires s != [] && !IsC0OrSpace(s[|s| - 1])
    ensures var r := RemoveTabsAndNewlines(s); r != [] && r[|r| - 1] == s[|s| - 1]
    decreases |s|
  {
    if |s| > 1 {
      LastKept(s[1..]);
    }
  }

  /** A visible input is left as it is. */
  lemma PreprocessOfVisible(s: string)
    requires Visible(s)
    ensures Preprocess(s) == s
  {
    assert TrimLeading(s) == s;
    assert TrimTrailing(s) == s;
    KeepsWithoutTabsAndNewlines(s);
  }

  /** Leading and trailing C0 controls and spaces around a URL do not change how it parses. */
  lemma ParseIgnoresSurroundingSpace(pre: string, s: string, post: string)
    requires forall i :: 0 <= i < |pre| ==> IsC0OrSpace(pre[i])
    requires forall i :: 0 <= i < |post| ==> IsC0OrSpace(post[i])
    ensures Parse(pre + s + post) == Parse(s)
  {
    PreprocessIgnoresSurroundingSpace(pre, s, post);
  }

  lemma PreprocessIgnoresSurroundingSpace(pre: string, s: string, post: string)
    requires forall i :: 0 <= i < |pre| ==> IsC0OrSpace(pre[i])
    requires forall i :: 0 <= i < |post| ==> IsC0OrSpace(post[i])
    ensures TrimTrailing(TrimLeading(pre + s + post)) == TrimTrailing(TrimLeading(s))
  {
    assert pre + s + post == pre + (s + post);
    TrimLeadingOfPrefix(pre, s + post);
    TrimLeadingOfSuffix(s, post);
    var l := TrimLeading(s);
    if l != [] {
      TrimTrailingOfSuffix(l, post);
    }
  }

  lemma {:induction false} TrimLeadingOfPrefix(pre: string, s: string)
    requires forall i :: 0 <= i < |pre| ==> IsC0OrSpace(pre[i])
    ensures TrimLeading(pre + s) == TrimLeading(s)
    decreases |pre|
  {
    if pre == [] {
      assert pre + s == s;
    } else {
      assert (pre + s)[0] == pre[0];
      assert TrimLeading(pre + s) == TrimLeading((pre + s)[1..]);
      assert (pre + s)[1..] == pre[1..] + s;
      TrimLeadingOfPrefix(pre[1..], s);
    }
  }

  lemma {:induction false} TrimLeadingOfSuffix(s: string, post: string)
    requires forall i :: 0 <= i < |post| ==> IsC0OrSpace(post[i])
    ensures TrimLeading(s) != [] ==> TrimLeading(s + post) == TrimLeading(s) + post
    ensures TrimLeading(s) == [] ==> TrimLeading(s + post) == []
    decreases |s|
  {
    if s == [] {
      assert s + post == post;
      TrimLeadingOfPrefix(post, []);
      assert post + [] == post;
    } else if IsC0OrSpace(s[0]) {
      assert (s + post)[1..] == s[1..] + post;
      TrimLeadingOfSuffix(s[1..], post);
    }
  }

  lemma {:induction false} TrimTrailingOfSuffix(s: string, post: string)
    requires forall i :: 0 <= i < |post| ==> IsC0OrSpace(post[i])
    ensures TrimTrailing(s + post) == TrimTrailing(s)
    decreases |post|
  {
    if post == [] {
      assert s + post == s;
    } else {
      var t := s + post;
      assert t[..|t| - 1] == s + post[..|post| - 1];
      TrimTrailingOfSuffix(s, post[..|post| - 1]);
    }
  }

  /** The upper-case hexadecimal digit of `d`. */
  function HexDigit(d: nat): (c: char)
    requires d < 16
    ensures !IsC0OrSpace(c)
  {
    "0123456789ABCDEF"[d]
  }

  /** A path, query or fragment with each C0 control and space written as `%XX`. */
  function PercentEncodeControls(s: string): (r: string)
    ensures Visible(r)
    ensures Visible(s) ==> r == s
    ensures s == [] <==> r == []
    ensures s != [] && !IsC0OrSpace(s[0]) ==> r[0] == s[0]
  {
    if s == [] then []
    else
      var head := if IsC0OrSpace(s[0]) then ['%', HexDigit(s[0] as int / 16), HexDigit(s[0] as int % 16)]
                  else [s[0]];
      var rest := PercentEncodeControls(s[1..]);
      VisibleConcat(head, rest);
      head + rest
  }

  datatype Tail = Tail(pathname: string, query: string, fragment: string)

  /** Path, query and fragment of what follows the authority. */
  function SplitTail(tail: string): (r: Tail)
    requires tail == [] || tail[0] in AuthorityEnd
    ensures r.pathname != [] && r.pathname[0] == '/'
    ensures NoneOf(r.pathname, {'?', '#', '\\'})
    ensures NoneOf(r.query, {'#'})
  {
    var pEnd := FirstIndex(tail, {'?', '#'});
    var rawPath := BackslashToSlash(tail[..pEnd]);
    var path := if rawPath == [] then "/" else rawPath;
    var rest := tail[pEnd..];
    if rest == [] then Tail(path, "", "")
    else if rest[0] == '#' then Tail(path, "", rest[1..])
    else
      var afterMark := rest[1..];
      var qEnd := FirstIndex(afterMark, {'#'});
      Tail(path, afterMark[..qEnd], if qEnd < |afterMark| then afterMark[qEnd + 1..] else "")
  }

  /** A visible tail splits into a visible path, query and fragment. */
  lemma SplitTailVisible(tail: string)
    requires tail == [] || tail[0] in AuthorityEnd
    requires Visible(tail)
    ensures var r := SplitTail(tail);
      Visible(r.pathname) && Visible(r.query) && Visible(r.fragment)
  {
    var pEnd := FirstIndex(tail, {'?', '#'});
    VisibleSlice(tail, 0, pEnd);
    assert tail[0..pEnd] == tail[..pEnd];
    var rest := tail[pEnd..];
    VisibleSlice(tail, pEnd, |tail|);
    assert tail[pEnd..|tail|] == rest;
    if rest != [] {
      var afterMark := rest[1..];
      VisibleSlice(rest, 1, |rest|);
      assert rest[1..|rest|] == afterMark;
      var qEnd := FirstIndex(afterMark, {'#'});
      VisibleSlice(afterMark, 0, qEnd);
      assert afterMark[0..qEnd] == afterMark[..qEnd];
      if qEnd < |afterMark| {
        VisibleSlice(afterMark, qEnd + 1, |afterMark|);
        assert afterMark[qEnd + 1..|afterMark|] == afterMark[qEnd + 1..];
      }
    }
  }

  lemma VisibleSlice(s: string, i: nat, j: nat)
    requires Visible(s) && i <= j <= |s|
    ensures Visible(s[i..j])
  {
    forall k | 0 <= k < j - i ensures !IsC0OrSpace(s[i..j][k]) {
      assert s[i..j][k] == s[i + k];
    }
  }

  /** Path, query and fragment of what follows the authority, C0 controls and spaces
      percent-encoded. */
  function ParseTail(s: string): (r: Tail)
    requires s == [] || s[0] in AuthorityEnd
    ensures r.pathname != [] && r.pathname[0] == '/'
    ensures NoneOf(r.pathname, {'?', '#', '\\'})
    ensures NoneOf(r.query, {'#'})
    ensures Visible(r.pathname) && Visible(r.query) && Visible(r.fragment)
    ensures Visible(s) ==> r == SplitTail(s)
  {
    var tail := PercentEncodeControls(s);
    SplitTailVisible(tail);
    SplitTail(tail)
  }

  /** `new URL(s)`, with a thrown `TypeError` as `None`. */
  function Parse(s: string): (r: Option<Url>)
    ensures r.Some? ==> WellFormed(r.value)
  {
    ParseCleaned(Preprocess(s))
  }

  /** The parse proper, of an input already trimmed and free of tabs and newlines. */
  function ParseCleaned(s: string): (r: Option<Url>)
    ensures r.Some? ==> WellFormed(r.value)
  {
    var colon := FirstIndex(s, {':'});
    if colon == |s| then None
    else match SchemeOf(Lower(s[..colon]))
      case None => None
      case Some(scheme) => ParseAuthority(scheme, SkipSlashes(s[colon + 1..]))
  }

  /** The rest of the parse once the scheme and the slashes after it are consumed:
      credentials up to the last '@' are dropped, then host, port, path, query, fragment,
      with C0 controls and spaces after the host percent-encoded. */
  function ParseAuthority(scheme: Scheme, s: string): (r: Option<Url>)
    ensures r.Some? ==> WellFormed(r.value) && r.value.scheme == scheme
  {
    var authEnd := FirstIndex(s, AuthorityEnd);
    var hostPort := AfterLast(s[..authEnd], '@');
    match ParseHostPort(scheme, hostPort)
    case None => None
    case Some(hp) =>
      assert authEnd < |s| ==> s[authEnd..][0] == s[authEnd];
      var t := ParseTail(s[authEnd..]);
      Some(Url(scheme, hp.hostname, hp.port, t.pathname, t.query, t.fragment))
  }

  /** Each special scheme's name is recognised as that scheme. */
  lemma SchemeOfName(scheme: Scheme)
    ensures SchemeOf(SchemeName(scheme)) == Some(scheme)
  {
  }

  /** The port text after the host: the decimal digits of a non-default port, else nothing. */
  function PortText(port: Option<nat>): string
  {
    match port
    case None => ""
    case Some(p) => ToDecimal(p)
  }

  /** A valid host contains no ':'. */
  lemma HostHasNoColon(h: string)
    requires IsValidHost(h)
    ensures NoneOf(h, {':'})
  {
    forall i | 0 <= i < |h| ensures h[i] != ':' {
      assert !IsForbiddenHostChar(h[i]);
    }
  }

  /** A host followed by ':' and a port's digits splits at that ':' into the two. */
  lemma HostColonDigits(host: string, digits: string)
    requires NoneOf(host, {':'})
    ensures
      var hp := host + (":" + digits);
      var c := FirstIndex(hp, {':'});
      c < |hp| && hp[..c] == host && hp[c + 1..] == digits
  {
    var hp := host + (":" + digits);
    FirstIndexOfConcat(host, ":" + digits, {':'});
    assert hp[..|host|] == host;
    assert hp[|host| + 1..] == digits;
  }

  /** The host-and-port text that `Origin` writes splits at its first ':' into the host and
      the port's digits. */
  lemma HostPortSplit(u: Url)
    requires WellFormed(u)
    ensures
      var hp := u.hostname + PortSuffix(u.port);
      var c := FirstIndex(hp, {':'});
      hp[..c] == u.hostname && (if c < |hp| then hp[c + 1..] else "") == PortText(u.port)
  {
    HostHasNoColon(u.hostname);
    if u.port.None? {
      assert u.hostname + PortSuffix(u.port) == u.hostname;
      FirstIndexOfNone(u.hostname, {':'});
    } else {
      HostColonDigits(u.hostname, ToDecimal(u.port.value));
    }
  }

  /** The host-and-port text that `Origin` writes reads back as the same host and port. */
  lemma HostPortRoundTrip(u: Url)
    requires WellFormed(u)
    ensures ParseHostPort(u.scheme, u.hostname + PortSuffix(u.port)) == Some(HostPort(u.hostname, u.port))
  {
    HostPortSplit(u);
    LowerOfLowerIsIdentity(u.hostname);
    if u.port.Some? {
      DigitsValueOfDecimal(u.port.value);
    }
  }

  /** A path without a backslash is left as it is. */
  lemma NoBackslashUnchanged(path: string)
    requires NoneOf(path, {'?', '#', '\\'})
    ensures BackslashToSlash(path) == path
  {
  }

  /** A path without '?', '#' or '\\' ends where the query or fragment mark after it begins. */
  lemma PathEndsAtMark(path: string, after: string)
    requires NoneOf(path, {'?', '#', '\\'})
    requires after == [] || after[0] in {'?', '#'}
    ensures FirstIndex(path + after, {'?', '#'}) == |path|
    ensures (path + after)[..|path|] == path && (path + after)[|path|..] == after
  {
    if after == [] {
      assert path + after == path;
      FirstIndexOfNone(path, {'?', '#'});
    } else {
      FirstIndexOfConcat(path, after, {'?', '#'});
    }
  }

  /** A query without '#', then an optional '#' and fragment, splits back into the two. */
  lemma QueryEndsAtHash(query: string, fragment: string)
    requires NoneOf(query, {'#'})
    ensures
      var a := query + (if fragment != "" then "#" + fragment else "");
      var qEnd := FirstIndex(a, {'#'});
      a[..qEnd] == query && (if qEnd < |a| then a[qEnd + 1..] else "") == fragment
  {
    var a := query + (if fragment != "" then "#" + fragment else "");
    if fragment == "" {
      assert a == query;
      FirstIndexOfNone(query, {'#'});
    } else {
      FirstIndexOfConcat(query, "#" + fragment, {'#'});
      assert a[|query| + 1..] == fragment;
    }
  }

  /** The text after the authority reads back as the same path, query and fragment. */
  lemma SplitTailRoundTrip(u: Url)
    requires u.pathname != [] && u.pathname[0] == '/'
    requires NoneOf(u.pathname, {'?', '#', '\\'}) && NoneOf(u.query, {'#'})
    ensures
      var q := if u.query != "" then "?" + u.query else "";
      var f := if u.fragment != "" then "#" + u.fragment else "";
      SplitTail(u.pathname + q + f) == Tail(u.pathname, u.query, u.fragment)
  {
    var q := if u.query != "" then "?" + u.query else "";
    var f := if u.fragment != "" then "#" + u.fragment else "";
    if q != [] {
      assert u.pathname + q + f == u.pathname + (q + f);
      SplitWithQuery(u.pathname, u.query, u.fragment);
    } else if f != [] {
      assert u.pathname + q + f == u.pathname + f;
      SplitWithFragment(u.pathname, u.fragment);
    } else {
      assert u.pathname + q + f == u.pathname + [];
      SplitPathOnly(u.pathname);
    }
  }

  /** The path in front of a query or fragment mark is read back unchanged, and the split
      continues at the mark. */
  lemma SplitAtMark(path: string, after: string)
    requires path != [] && path[0] == '/' && NoneOf(path, {'?', '#', '\\'})
    requires after == [] || after[0] in {'?', '#'}
    ensures var t := path + after; var pEnd := FirstIndex(t, {'?', '#'});
      BackslashToSlash(t[..pEnd]) == path && t[pEnd..] == after
  {
    PathEndsAtMark(path, after);
    NoBackslashUnchanged(path);
  }

  lemma SplitPathOnly(path: string)
    requires path != [] && path[0] == '/' && NoneOf(path, {'?', '#', '\\'})
    ensures SplitTail(path + []) == Tail(path, "", "")
  {
    SplitAtMark(path, []);
  }

  lemma SplitWithFragment(path: string, fragment: string)
    requires path != [] && path[0] == '/' && NoneOf(path, {'?', '#', '\\'})
    requires fragment != ""
    ensures SplitTail(path + ("#" + fragment)) == Tail(path, "", fragment)
  {
    var after := "#" + fragment;
    SplitAtMark(path, after);
    assert after[0] == '#' && after[1..] == fragment;
  }

  lemma SplitWithQuery(path: string, query: string, fragment: string)
    requires path != [] && path[0] == '/' && NoneOf(path, {'?', '#', '\\'})
    requires query != "" && NoneOf(query, {'#'})
    ensures
      var f := if fragment != "" then "#" + fragment else "";
      SplitTail(path + ("?" + query + f)) == Tail(path, query, fragment)
  {
    var f := if fragment != "" then "#" + fragment else "";
    var after := "?" + query + f;
    SplitAtMark(path, after);
    QueryEndsAtHash(query, fragment);
    assert after[0] == '?' && after[1..] == query + f;
  }

  /** The scheme of a well-formed URL is found again before the first ':'. */
  lemma {:induction false} SchemeRoundTrip(name: string, x: string)
    requires forall i :: 0 <= i < |name| ==> IsAsciiLower(name[i])
    ensures FirstIndex(name + ":" + x, {':'}) == |name|
    ensures (name + ":" + x)[..|name|] == name
    ensures (name + ":" + x)[|name| + 1..] == x
    ensures Lower(name) == name
  {
    assert NoneOf(name, {':'});
    assert name + ":" + x == name + (":" + x);
    FirstIndexOfConcat(name, ":" + x, {':'});
    LowerOfLowerIsIdentity(name);
  }

  /** The authority that `Origin` writes holds no delimiter and no '@'. */
  lemma AuthorityHasNoDelimiter(u: Url)
    requires WellFormed(u)
    ensures NoneOf(u.hostname + PortSuffix(u.port), AuthorityEnd)
    ensures '@' !in u.hostname + PortSuffix(u.port)
  {
    var authority := u.hostname + PortSuffix(u.port);
    forall i | 0 <= i < |authority| ensures authority[i] !in AuthorityEnd && authority[i] != '@' {
      if i < |u.hostname| {
        assert authority[i] == u.hostname[i];
        assert !IsForbiddenHostChar(u.hostname[i]);
      } else {
        assert authority[i] == PortSuffix(u.port)[i - |u.hostname|];
      }
    }
  }

  /** Authority and tail of a well-formed URL read back as its host, port, path, query, fragment. */
  lemma {:induction false} AuthorityRoundTrip(u: Url)
    requires WellFormed(u)
    ensures
      var q := if u.query != "" then "?" + u.query else "";
      var f := if u.fragment != "" then "#" + u.fragment else "";
      ParseAuthority(u.scheme, u.hostname + PortSuffix(u.port) + (u.pathname + q + f)) == Some(u)
  {
    var q := if u.query != "" then "?" + u.query else "";
    var f := if u.fragment != "" then "#" + u.fragment else "";
    var tail := u.pathname + q + f;
    var authority := u.hostname + PortSuffix(u.port);
    var s := authority + tail;
    AuthorityHasNoDelimiter(u);
    assert tail[0] == '/';
    FirstIndexOfConcat(authority, tail, AuthorityEnd);
    var authEnd := FirstIndex(s, AuthorityEnd);
    assert s[..authEnd] == authority;
    assert s[authEnd..] == tail;
    TailIsVisible(u);
    assert AfterLast(authority, '@') == authority;
    HostPortRoundTrip(u);
    SplitTailRoundTrip(u);
  }

  /** The path, query and fragment `Href` writes hold no C0 control and no space. */
  lemma TailIsVisible(u: Url)
    requires WellFormed(u)
    ensures
      var q := if u.query != "" then "?" + u.query else "";
      var f := if u.fragment != "" then "#" + u.fragment else "";
      Visible(u.pathname + q + f)
  {
    var q := if u.query != "" then "?" + u.query else "";
    var f := if u.fragment != "" then "#" + u.fragment else "";
    VisibleConcat("?", u.query);
    VisibleConcat("#", u.fragment);
    VisibleConcat(u.pathname, q);
    VisibleConcat(u.pathname + q, f);
  }

  /** The serialisation of a well-formed URL holds no C0 control and no space. */
  lemma HrefIsVisible(u: Url)
    requires WellFormed(u)
    ensures Visible(Href(u))
  {
    var q := if u.query != "" then "?" + u.query else "";
    var f := if u.fragment != "" then "#" + u.fragment else "";
    var name := SchemeName(u.scheme);
    var port := PortSuffix(u.port);
    assert Visible(u.hostname) by {
      forall i | 0 <= i < |u.hostname| ensures !IsC0OrSpace(u.hostname[i]) {
        assert !IsForbiddenHostChar(u.hostname[i]);
      }
    }
    assert Visible(port) by {
      if u.port.Some? {
        var d := ToDecimal(u.port.value);
        assert forall i :: 0 <= i < |d| ==> IsAsciiDigit(d[i]);
        VisibleConcat(":", d);
      }
    }
    VisibleConcat(name, "://");
    VisibleConcat(name + "://", u.hostname);
    VisibleConcat(name + "://" + u.hostname, port);
    TailIsVisible(u);
    VisibleConcat(Origin(u), u.pathname + q + f);
    assert Href(u) == Origin(u) + (u.pathname + q + f);
  }

  /** After a special scheme and its colon, parsing continues with the authority. */
  lemma ParseAfterScheme(scheme: Scheme, x: string)
    ensures ParseCleaned(SchemeName(scheme) + ":" + x) == ParseAuthority(scheme, SkipSlashes(x))
  {
    SchemeRoundTrip(SchemeName(scheme), x);
    SchemeOfName(scheme);
  }

  /** The two slashes `Origin` writes after the scheme are skipped, and nothing more. */
  lemma SkipTwoSlashes(rest: string)
    requires rest == [] || (rest[0] != '/' && rest[0] != '\\')
    ensures SkipSlashes("//" + rest) == rest
  {
    assert ("//" + rest)[0] == '/' && ("//" + rest)[1..] == "/" + rest;
    assert ("/" + rest)[0] == '/' && ("/" + rest)[1..] == rest;
    assert SkipSlashes(rest) == rest;
  }

  /** `Href` is the scheme, a colon, two slashes, then the authority and the tail. */
  lemma HrefShape(u: Url)
    ensures
      var q := if u.query != "" then "?" + u.query else "";
      var f := if u.fragment != "" then "#" + u.fragment else "";
      Href(u) == SchemeName(u.scheme) + ":" + ("//" + (u.hostname + PortSuffix(u.port) + (u.pathname + q + f)))
  {
    assert "://" == ":" + "//";
  }

  /** Parsing the serialisation of a well-formed URL gives that URL back. */
  lemma {:induction false} ParseHref(u: Url)
    requires WellFormed(u)
    ensures Parse(Href(u)) == Some(u)
  {
    HrefIsVisible(u);
    ParseOfVisible(Href(u));
    ParseCleanedHref(u);
  }

  /** A visible input reaches the parse proper unchanged. */
  lemma ParseOfVisible(s: string)
    requires Visible(s)
    ensures Parse(s) == ParseCleaned(s)
  {
    PreprocessOfVisible(s);
  }

  /** The parse proper reads the serialisation of a well-formed URL back as that URL. */
  lemma {:induction false} ParseCleanedHref(u: Url)
    requires WellFormed(u)
    ensures ParseCleaned(Href(u)) == Some(u)
  {
    var q := if u.query != "" then "?" + u.query else "";
    var f := if u.fragment != "" then "#" + u.fragment else "";
    var rest := u.hostname + PortSuffix(u.port) + (u.pathname + q + f);
    var x := "//" + rest;
    HrefShape(u);
    ParseAfterScheme(u.scheme, x);
    assert rest[0] == u.hostname[0];
    assert !IsForbiddenHostChar(u.hostname[0]);
    SkipTwoSlashes(rest);
    AuthorityRoundTrip(u);
  }

  /** Origin followed by pathname is a URL whose query and fragment are empty. */
  lemma OriginPathRoundTrip(u: Url)
    requires WellFormed(u)
    ensures Parse(Origin(u) + u.pathname) == Some(u.(query := "", fragment := ""))
  {
    var v := u.(query := "", fragment := "");
    assert Href(v) == Origin(u) + u.pathname;
    ParseHref(v);
  }
}
