/** Generic list operations the indexer's route uses: `Array.prototype.filter` and a
    stable sort on an integer key, newest (largest key) first. */
module Seqs {

  /** `s.filter(p)`: the elements satisfying `p`, in their original order. */
  function Filter<T>(p: T -> bool, s: seq<T>): (r: seq<T>)
    ensures |r| <= |s|
    decreases |s|
  {
    if s == [] then []
    else Filter(p, s[..|s| - 1]) + (if p(s[|s| - 1]) then [s[|s| - 1]] else [])
  }

  /** Filtering distributes over concatenation. */
  lemma {:induction false} FilterConcat<T>(p: T -> bool, a: seq<T>, b: seq<T>)
    ensures Filter(p, a + b) == Filter(p, a) + Filter(p, b)
    decreases |b|
  {
    if b == [] {
      assert a + b == a;
    } else {
      var b' := b[..|b| - 1];
      assert (a + b)[..|a + b| - 1] == a + b';
      FilterConcat(p, a, b');
    }
  }

  /** Every kept element satisfies `p`. */
  lemma {:induction false} FilterAllSatisfy<T>(p: T -> bool, s: seq<T>)
    ensures forall i :: 0 <= i < |Filter(p, s)| ==> p(Filter(p, s)[i])
    decreases |s|
  {
    if s != [] {
      FilterAllSatisfy(p, s[..|s| - 1]);
    }
  }

  /** Filtering keeps every occurrence of an element satisfying `p` and drops every
      occurrence of one that does not. */
  lemma {:induction false} FilterCount<T>(p: T -> bool, s: seq<T>, x: T)
    ensures multiset(Filter(p, s))[x] == if p(x) then multiset(s)[x] else 0
    decreases |s|
  {
    if s != [] {
      var s' := s[..|s| - 1];
      assert s == s' + [s[|s| - 1]];
      FilterCount(p, s', x);
    }
  }

  /** An element occurring once is kept, once, exactly when it satisfies `p`. */
  lemma FilterOfSingle<T>(p: T -> bool, s: seq<T>, x: T)
    requires multiset(s)[x] == 1
    ensures x in Filter(p, s) <==> p(x)
    ensures multiset(Filter(p, s))[x] <= 1
  {
    FilterCount(p, s, x);
  }

  /** `r` can be obtained from `s` by deleting elements (greedy matching from the end). */
  predicate Subsequence<T(==)>(r: seq<T>, s: seq<T>)
    decreases |s|
  {
    if r == [] then true
    else if s == [] then false
    else if r[|r| - 1] == s[|s| - 1] then Subsequence(r[..|r| - 1], s[..|s| - 1])
    else Subsequence(r, s[..|s| - 1])
  }

  /** The kept elements keep their relative order. */
  lemma {:induction false} FilterIsSubsequence<T>(p: T -> bool, s: seq<T>)
    ensures Subsequence(Filter(p, s), s)
    decreases |s|
  {
    if s != [] {
      var s' := s[..|s| - 1];
      FilterIsSubsequence(p, s');
      if !p(s[|s| - 1]) {
        assert Filter(p, s) == Filter(p, s');
        SubsequenceOfPrefix(Filter(p, s'), s);
      } else {
        var r := Filter(p, s);
        assert r[..|r| - 1] == Filter(p, s');
      }
    }
  }

  /** A subsequence of a prefix is a subsequence of the whole. */
  lemma {:induction false} SubsequenceOfPrefix<T>(r: seq<T>, s: seq<T>)
    requires s != [] && Subsequence(r, s[..|s| - 1])
    ensures Subsequence(r, s)
    decreases |s|, |r|
  {
    var s' := s[..|s| - 1];
    if r != [] && r[|r| - 1] == s[|s| - 1] {
      // matching the last element early keeps the rest matchable in the prefix
      SubsequenceDropLast(r, s');
    }
  }

  /** Dropping the last element of a subsequence leaves a subsequence. */
  lemma {:induction false} SubsequenceDropLast<T>(r: seq<T>, s: seq<T>)
    requires r != [] && Subsequence(r, s)
    ensures Subsequence(r[..|r| - 1], s)
    decreases |s|, |r|
  {
    var s' := s[..|s| - 1];
    if r[|r| - 1] == s[|s| - 1] {
      if r[..|r| - 1] != [] {
        SubsequenceOfPrefix(r[..|r| - 1], s);
      }
    } else {
      SubsequenceDropLast(r, s');
      SubsequenceOfPrefix(r[..|r| - 1], s);
    }
  }

  /** Non-increasing in `key`: the newest-first order of the latest feed. */
  predicate SortedDesc<T>(key: T -> int, s: seq<T>)
  {
    forall i, j :: 0 <= i < j < |s| ==> key(s[i]) >= key(s[j])
  }

  /** The elements whose key is exactly `k`. */
  function KeyIs<T>(key: T -> int, k: int): T -> bool
  {
    x => key(x) == k
  }

  /** Insert `x` into a newest-first list after every element whose key is at least `x`'s. */
  function InsertDesc<T>(key: T -> int, x: T, s: seq<T>): (r: seq<T>)
    ensures |r| == |s| + 1
    decreases |s|
  {
    if s == [] then [x]
    else if key(s[|s| - 1]) >= key(x) then s + [x]
    else InsertDesc(key, x, s[..|s| - 1]) + [s[|s| - 1]]
  }

  /** Insertion sort, newest first: each element is inserted after the ones before it. */
  function SortDesc<T>(key: T -> int, s: seq<T>): (r: seq<T>)
    ensures |r| == |s|
    decreases |s|
  {
    if s == [] then []
    else InsertDesc(key, s[|s| - 1], SortDesc(key, s[..|s| - 1]))
  }

  lemma {:induction false} InsertKeepsOrder<T>(key: T -> int, x: T, s: seq<T>)
    requires SortedDesc(key, s)
    ensures SortedDesc(key, InsertDesc(key, x, s))
    ensures InsertDesc(key, x, s) != [] && key(InsertDesc(key, x, s)[|s|]) <= (if s == [] then key(x) else key(s[|s| - 1]))
    decreases |s|
  {
    if s != [] && key(s[|s| - 1]) < key(x) {
      var s' := s[..|s| - 1];
      InsertKeepsOrder(key, x, s');
      var t := InsertDesc(key, x, s');
      assert forall i :: 0 <= i < |t| ==> key(t[i]) >= key(s[|s| - 1]) by {
        forall i | 0 <= i < |t| ensures key(t[i]) >= key(s[|s| - 1]) {
          InsertElements(key, x, s', i);
        }
      }
    }
  }

  /** Every element of an insertion is `x` or an element of `s`. */
  lemma {:induction false} InsertElements<T>(key: T -> int, x: T, s: seq<T>, i: nat)
    requires i < |InsertDesc(key, x, s)|
    ensures InsertDesc(key, x, s)[i] == x || exists j :: 0 <= j < |s| && InsertDesc(key, x, s)[i] == s[j]
    decreases |s|
  {
    var r := InsertDesc(key, x, s);
    if s != [] && key(s[|s| - 1]) < key(x) {
      var s' := s[..|s| - 1];
      if i < |s| {
        InsertElements(key, x, s', i);
        if r[i] != x {
          var j :| 0 <= j < |s'| && r[i] == s'[j];
          assert r[i] == s[j];
        }
      } else {
        assert r[i] == s[|s| - 1];
      }
    } else if s != [] && i < |s| {
      assert r[i] == s[i];
    }
  }

  /** The sort's output is newest first. */
  lemma {:induction false} SortDescIsSorted<T>(key: T -> int, s: seq<T>)
    ensures SortedDesc(key, SortDesc(key, s))
    decreases |s|
  {
    if s != [] {
      SortDescIsSorted(key, s[..|s| - 1]);
      InsertKeepsOrder(key, s[|s| - 1], SortDesc(key, s[..|s| - 1]));
    }
  }

  lemma {:induction false} InsertIsPermutation<T>(key: T -> int, x: T, s: seq<T>)
    ensures multiset(InsertDesc(key, x, s)) == multiset(s) + multiset{x}
    decreases |s|
  {
    if s != [] && key(s[|s| - 1]) < key(x) {
      var s' := s[..|s| - 1];
      InsertIsPermutation(key, x, s');
      assert s == s' + [s[|s| - 1]];
    }
  }

  /** The sort's output is a permutation of its input. */
  lemma {:induction false} SortDescIsPermutation<T>(key: T -> int, s: seq<T>)
    ensures multiset(SortDesc(key, s)) == multiset(s)
    decreases |s|
  {
    if s != [] {
      var s' := s[..|s| - 1];
      SortDescIsPermutation(key, s');
      InsertIsPermutation(key, s[|s| - 1], SortDesc(key, s'));
      assert s == s' + [s[|s| - 1]];
    }
  }

  /** Inserting `x` puts it after every element of its own key. */
  lemma {:induction false} InsertIsStable<T>(key: T -> int, x: T, s: seq<T>, k: int)
    ensures Filter(KeyIs(key, k), InsertDesc(key, x, s))
            == Filter(KeyIs(key, k), s) + (if key(x) == k then [x] else [])
    decreases |s|
  {
    var p := KeyIs(key, k);
    var r := InsertDesc(key, x, s);
    if s == [] {
      assert r[..0] == [];
    } else if key(s[|s| - 1]) >= key(x) {
      assert r[..|r| - 1] == s;
    } else {
      var s' := s[..|s| - 1];
      InsertIsStable(key, x, s', k);
      assert r[..|r| - 1] == InsertDesc(key, x, s');
    }
  }

  /** The sort is stable: the elements of any one key keep their original order. */
  lemma {:induction false} SortDescIsStable<T>(key: T -> int, s: seq<T>, k: int)
    ensures Filter(KeyIs(key, k), SortDesc(key, s)) == Filter(KeyIs(key, k), s)
    decreases |s|
  {
    if s != [] {
      var s' := s[..|s| - 1];
      SortDescIsStable(key, s', k);
      InsertIsStable(key, s[|s| - 1], SortDesc(key, s'), k);
    }
  }

  /** In a newest-first list, a key that occurs is at least the key of the last element. */
  lemma {:induction false} OccurringKeyBoundsLast<T>(key: T -> int, s: seq<T>, k: int)
    requires SortedDesc(key, s) && Filter(KeyIs(key, k), s) != []
    ensures s != [] && k >= key(s[|s| - 1])
    decreases |s|
  {
    var s' := s[..|s| - 1];
    if key(s[|s| - 1]) != k {
      assert Filter(KeyIs(key, k), s) == Filter(KeyIs(key, k), s');
      assert SortedDesc(key, s');
      OccurringKeyBoundsLast(key, s', k);
    }
  }

  /** A non-empty list and an empty one differ on the group of the last element's key. */
  lemma NonEmptyHasGroup<T>(key: T -> int, a: seq<T>, b: seq<T>)
    ensures a == [] && b != [] ==>
      Filter(KeyIs(key, key(b[|b| - 1])), a) != Filter(KeyIs(key, key(b[|b| - 1])), b)
  {
  }

  /** Two newest-first lists with the same elements, in the same order, for every key are equal. */
  lemma {:induction false} SameGroupsSameList<T>(key: T -> int, a: seq<T>, b: seq<T>)
    requires SortedDesc(key, a) && SortedDesc(key, b)
    requires forall k :: Filter(KeyIs(key, k), a) == Filter(KeyIs(key, k), b)
    ensures a == b
    decreases |a|
  {
    NonEmptyHasGroup(key, a, b);
    NonEmptyHasGroup(key, b, a);
    if a != [] && b != [] {
      var a', b' := a[..|a| - 1], b[..|b| - 1];
      SameLastOfSameGroups(key, a, b);
      forall k ensures Filter(KeyIs(key, k), a') == Filter(KeyIs(key, k), b') {
        SameGroupsOfPrefixes(key, a, b, k);
      }
      assert SortedDesc(key, a') && SortedDesc(key, b');
      SameGroupsSameList(key, a', b');
      assert a == a' + [a[|a| - 1]] && b == b' + [b[|b| - 1]];
    }
  }

  /** Two non-empty newest-first lists with the same groups end in the same element. */
  lemma SameLastOfSameGroups<T>(key: T -> int, a: seq<T>, b: seq<T>)
    requires SortedDesc(key, a) && SortedDesc(key, b) && a != [] && b != []
    requires Filter(KeyIs(key, key(a[|a| - 1])), a) == Filter(KeyIs(key, key(a[|a| - 1])), b)
    requires Filter(KeyIs(key, key(b[|b| - 1])), a) == Filter(KeyIs(key, key(b[|b| - 1])), b)
    ensures a[|a| - 1] == b[|b| - 1]
  {
    var x, y := a[|a| - 1], b[|b| - 1];
    LastInOwnGroup(key, a);
    LastInOwnGroup(key, b);
    assert key(x) == key(y) by {
      OccurringKeyBoundsLast(key, b, key(x));
      OccurringKeyBoundsLast(key, a, key(y));
    }
    var f := Filter(KeyIs(key, key(x)), a);
    assert f == Filter(KeyIs(key, key(x)), b);
    assert x == f[|f| - 1] == y;
  }

  /** The last element closes the group of its own key. */
  lemma LastInOwnGroup<T>(key: T -> int, s: seq<T>)
    requires s != []
    ensures Filter(KeyIs(key, key(s[|s| - 1])), s) != []
    ensures Filter(KeyIs(key, key(s[|s| - 1])), s)[|Filter(KeyIs(key, key(s[|s| - 1])), s)| - 1] == s[|s| - 1]
  {
  }

  /** With the same last element, equal groups stay equal once that element is dropped. */
  lemma SameGroupsOfPrefixes<T>(key: T -> int, a: seq<T>, b: seq<T>, k: int)
    requires a != [] && b != [] && a[|a| - 1] == b[|b| - 1]
    requires Filter(KeyIs(key, k), a) == Filter(KeyIs(key, k), b)
    ensures Filter(KeyIs(key, k), a[..|a| - 1]) == Filter(KeyIs(key, k), b[..|b| - 1])
  {
    var x := a[|a| - 1];
    var fa', fb' := Filter(KeyIs(key, k), a[..|a| - 1]), Filter(KeyIs(key, k), b[..|b| - 1]);
    var tail := if key(x) == k then [x] else [];
    assert fa' + tail == fb' + tail;
    assert fa' == (fa' + tail)[..|fa'|];
    assert fb' == (fb' + tail)[..|fb'|];
  }

  /** A stable sort has exactly one result: any newest-first arrangement of `s` that keeps
      the elements of each key in their original order is this insertion sort's output. */
  lemma StableSortIsUnique<T>(key: T -> int, s: seq<T>, r: seq<T>)
    requires SortedDesc(key, r)
    requires forall k :: Filter(KeyIs(key, k), r) == Filter(KeyIs(key, k), s)
    ensures r == SortDesc(key, s)
  {
    SortDescIsSorted(key, s);
    forall k ensures Filter(KeyIs(key, k), SortDesc(key, s)) == Filter(KeyIs(key, k), s) {
      SortDescIsStable(key, s, k);
    }
    SameGroupsSameList(key, r, SortDesc(key, s));
  }
}
