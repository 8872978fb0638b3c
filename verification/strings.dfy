/** Character classes and searching on strings (`seq<char>`). */
module Strings {

  predicate IsAsciiDigit(c: char)
  {
    '0' <= c <= '9'
  }

  predicate IsAsciiUpper(c: char)
  {
    'A' <= c <= 'Z'
  }

  predicate IsAsciiLower(c: char)
  {
    'a' <= c <= 'z'
  }

  /** The regular-expression class `[a-zA-Z0-9]`. */
  predicate IsAsciiAlnum(c: char)
  {
    IsAsciiDigit(c) || IsAsciiUpper(c) || IsAsciiLower(c)
  }

  predicate AllDigits(s: string)
  {
    forall i :: 0 <= i < |s| ==> IsAsciiDigit(s[i])
  }

  predicate AllAlnum(s: string)
  {
    forall i :: 0 <= i < |s| ==> IsAsciiAlnum(s[i])
  }

  /** True iff no character of `s` belongs to `cs`. */
  predicate NoneOf(s: string, cs: set<char>)
  {
    forall i :: 0 <= i < |s| ==> s[i] !in cs
  }

  /** ASCII lower-casing of one character; every other character is kept. */
  function LowerChar(c: char): (r: char)
    ensures IsAsciiUpper(c) ==> IsAsciiLower(r) && r as int == c as int + 32
    ensures !IsAsciiUpper(c) ==> r == c
    ensures !IsAsciiUpper(r)
  {
    if IsAsciiUpper(c) then (c as int + 32) as char else c
  }

  /** ASCII lower-casing of a string, character by character. */
  function Lower(s: string): (r: string)
    ensures |r| == |s|
  {
    if s == [] then [] else [LowerChar(s[0])] + Lower(s[1..])
  }

  /** Lower-casing maps each character on its own. */
  lemma {:induction false} LowerIsCharwise(s: string)
    ensures forall i :: 0 <= i < |s| ==> Lower(s)[i] == LowerChar(s[i])
    decreases |s|
  {
    if s != [] {
      LowerIsCharwise(s[1..]);
      assert forall i :: 0 < i < |s| ==> Lower(s)[i] == Lower(s[1..])[i - 1];
    }
  }

  predicate HasNoUpper(s: string)
  {
    forall i :: 0 <= i < |s| ==> !IsAsciiUpper(s[i])
  }

  /** Lower-casing leaves a string without upper-case letters unchanged. */
  lemma LowerOfLowerIsIdentity(s: string)
    requires HasNoUpper(s)
    ensures Lower(s) == s
  {
    LowerIsCharwise(s);
  }

  /** Lower-casing produces no upper-case letter. */
  lemma LowerHasNoUpper(s: string)
    ensures HasNoUpper(Lower(s))
  {
    LowerIsCharwise(s);
  }

  /** Index of the first character of `s` in `cs`, or `|s|` when there is none. */
  function FirstIndex(s: string, cs: set<char>): (r: nat)
    ensures r <= |s|
    ensures NoneOf(s[..r], cs)
    ensures r < |s| ==> s[r] in cs
  {
    if s == [] then 0
    else if s[0] in cs then 0
    else
      var k := FirstIndex(s[1..], cs);
      1 + k
  }

  /** The first-index search stops exactly at the first character of the set. */
  lemma {:induction false} FirstIndexOfConcat(a: string, b: string, cs: set<char>)
    requires NoneOf(a, cs)
    requires b != [] && b[0] in cs
    ensures FirstIndex(a + b, cs) == |a|
  {
    if a != [] {
      assert (a + b)[0] == a[0];
      assert (a + b)[1..] == a[1..] + b;
      FirstIndexOfConcat(a[1..], b, cs);
    }
  }

  /** A string without characters of the set is searched to its end. */
  lemma FirstIndexOfNone(s: string, cs: set<char>)
    requires NoneOf(s, cs)
    ensures FirstIndex(s, cs) == |s|
  {
  }

  /** The part of `s` after the last occurrence of `c`, or all of `s` when `c` does not occur. */
  function AfterLast(s: string, c: char): (r: string)
    ensures |r| <= |s|
    ensures c !in s ==> r == s
  {
    if s == [] then []
    else if s[|s| - 1] == c then []
    else AfterLast(s[..|s| - 1], c) + [s[|s| - 1]]
  }

  /** `AfterLast` is the longest suffix without `c`: it holds no `c`, and the character
      before it, if any, is a `c`. */
  lemma {:induction false} AfterLastIsLastSegment(s: string, c: char)
    ensures var r := AfterLast(s, c);
      && r == s[|s| - |r|..]
      && c !in r
      && (|r| < |s| ==> s[|s| - |r| - 1] == c)
    decreases |s|
  {
    if s != [] && s[|s| - 1] != c {
      var init := s[..|s| - 1];
      AfterLastIsLastSegment(init, c);
      var t := AfterLast(init, c);
      assert s[|s| - |t| - 1..] == init[|init| - |t|..] + [s[|s| - 1]];
    }
  }

  /** `s.startsWith(p)`, compared character by character. */
  function StartsWith(s: string, p: string): (r: bool)
    ensures r ==> |p| <= |s|
  {
    p == [] || (s != [] && s[0] == p[0] && StartsWith(s[1..], p[1..]))
  }

  /** The comparison succeeds exactly when `p` is a prefix of `s`. */
  lemma {:induction false} StartsWithIsPrefix(s: string, p: string)
    ensures StartsWith(s, p) <==> |p| <= |s| && s[..|p|] == p
    decreases |p|
  {
    if p != [] && s != [] {
      StartsWithIsPrefix(s[1..], p[1..]);
      if |p| <= |s| && s[..|p|] == p {
        assert s[1..][..|p| - 1] == p[1..];
      }
      if StartsWith(s, p) {
        assert s[..|p|] == [s[0]] + s[1..][..|p| - 1];
        assert p == [p[0]] + p[1..];
      }
    }
  }

  /** `s` contains `sub` at position `i`. */
  predicate OccursAt(s: string, sub: string, i: int)
  {
    0 <= i && i + |sub| <= |s| && s[i..i + |sub|] == sub
  }

  /** The JavaScript `s.includes(sub)`: a substring test, computed by scanning. */
  function Includes(s: string, sub: string): (r: bool)
    ensures r ==> |sub| <= |s|
  {
    if StartsWith(s, sub) then true
    else if s == [] then false
    else Includes(s[1..], sub)
  }

  /** The scan finds `sub` exactly when `sub` occurs somewhere in `s`. */
  lemma {:induction false} IncludesIffOccurs(s: string, sub: string)
    ensures Includes(s, sub) <==> exists i :: OccursAt(s, sub, i)
    decreases |s|
  {
    StartsWithIsPrefix(s, sub);
    if StartsWith(s, sub) {
      assert OccursAt(s, sub, 0);
    } else if s == [] {
      assert forall i :: !OccursAt(s, sub, i);
    } else {
      IncludesIffOccurs(s[1..], sub);
      assert forall i :: OccursAt(s[1..], sub, i) <==> OccursAt(s, sub, i + 1) by {
        forall i ensures OccursAt(s[1..], sub, i) <==> OccursAt(s, sub, i + 1) {
          if 0 <= i && i + |sub| <= |s[1..]| {
            assert s[1..][i..i + |sub|] == s[i + 1..i + 1 + |sub|];
          }
        }
      }
      assert !OccursAt(s, sub, 0);
      if Includes(s[1..], sub) {
        var i :| OccursAt(s[1..], sub, i);
        assert OccursAt(s, sub, i + 1);
      }
      if exists i :: OccursAt(s, sub, i) {
        var i :| OccursAt(s, sub, i);
        assert i != 0;
        assert OccursAt(s[1..], sub, i - 1);
      }
    }
  }
}
