/**
 * Sequence operations the migration applies to fetched lists:
 * `Array.prototype.filter` and the stable `Array.prototype.sort` with a
 * numeric comparator `(a, b) => key(a) - key(b)`.
 */
module Seqs {

  /** `s.filter(p)` */
  function Filter<T>(s: seq<T>, p: T -> bool): (r: seq<T>)
    ensures |r| <= |s|
  {
    if s == [] then [] else (if p(s[0]) then [s[0]] else []) + Filter(s[1..], p)
  }

  /** The filtered list holds exactly the elements that satisfy `p`. */
  lemma {:induction false} FilterSpec<T>(s: seq<T>, p: T -> bool)
    ensures forall x | x in Filter(s, p) :: x in s && p(x)
    ensures forall x | x in s && p(x) :: x in Filter(s, p)
  {
    if s != [] {
      FilterSpec(s[1..], p);
      assert s == [s[0]] + s[1..];
    }
  }

  /** Filtering a list with one more element at the front. */
  lemma FilterCons<T>(x: T, s: seq<T>, p: T -> bool)
    ensures Filter([x] + s, p) == (if p(x) then [x] else []) + Filter(s, p)
  {
    assert ([x] + s)[0] == x;
    assert ([x] + s)[1..] == s;
  }

  /** Filtering a list with one more element at the end. */
  lemma {:induction false} FilterAppend<T>(s: seq<T>, x: T, p: T -> bool)
    ensures Filter(s + [x], p) == Filter(s, p) + (if p(x) then [x] else [])
  {
    if s == [] {
      assert s + [x] == [x] + s;
      FilterCons(x, s, p);
    } else {
      assert s + [x] == [s[0]] + (s[1..] + [x]);
      assert s == [s[0]] + s[1..];
      FilterCons(s[0], s[1..] + [x], p);
      FilterCons(s[0], s[1..], p);
      FilterAppend(s[1..], x, p);
    }
  }

  predicate SortedBy<T>(s: seq<T>, key: T -> int) {
    forall i, j | 0 <= i < j < |s| :: key(s[i]) <= key(s[j])
  }

  predicate StrictlyIncreasingBy<T>(s: seq<T>, key: T -> int) {
    forall i, j | 0 <= i < j < |s| :: key(s[i]) < key(s[j])
  }

  predicate DistinctBy<T>(s: seq<T>, key: T -> int) {
    forall i, j | 0 <= i < j < |s| :: key(s[i]) != key(s[j])
  }

  /** Inserts `x` after every element whose key is not greater than its own (stable insertion). */
  function InsertBy<T>(s: seq<T>, x: T, key: T -> int): seq<T> {
    if s == [] then [x]
    else if key(x) < key(s[0]) then [x] + s
    else [s[0]] + InsertBy(s[1..], x, key)
  }

  /** Inserting adds `x` and nothing else. */
  lemma {:induction false} InsertByAdds<T>(s: seq<T>, x: T, key: T -> int)
    ensures |InsertBy(s, x, key)| == |s| + 1
    ensures multiset(InsertBy(s, x, key)) == multiset(s) + multiset{x}
  {
    if s != [] && key(x) >= key(s[0]) {
      InsertByAdds(s[1..], x, key);
      assert s == [s[0]] + s[1..];
      assert InsertBy(s, x, key) == [s[0]] + InsertBy(s[1..], x, key);
    }
  }

  /** Inserting into a sorted list keeps it sorted. */
  lemma {:induction false} InsertBySorted<T>(s: seq<T>, x: T, key: T -> int)
    requires SortedBy(s, key)
    ensures SortedBy(InsertBy(s, x, key), key)
  {
    if s == [] {
    } else if key(x) < key(s[0]) {
      SortedCons(x, s, key);
    } else {
      var rest := InsertBy(s[1..], x, key);
      InsertBySorted(s[1..], x, key);
      InsertByAdds(s[1..], x, key);
      forall k | 0 <= k < |rest| ensures key(s[0]) <= key(rest[k]) {
        var y := rest[k];
        assert y in multiset(rest);
        if y != x {
          assert y in multiset(s[1..]);
          var j :| 0 <= j < |s[1..]| && s[1..][j] == y;
          assert s[j + 1] == y;
        }
      }
      SortedCons(s[0], rest, key);
    }
  }

  /** An element no greater than any of a sorted list can go in front of it. */
  lemma SortedCons<T>(a: T, s: seq<T>, key: T -> int)
    requires SortedBy(s, key)
    requires forall k | 0 <= k < |s| :: key(a) <= key(s[k])
    ensures SortedBy([a] + s, key)
  {
    var r := [a] + s;
    forall i, j | 0 <= i < j < |r| ensures key(r[i]) <= key(r[j]) {
      assert r[j] == s[j - 1];
      if i > 0 {
        assert r[i] == s[i - 1];
      }
    }
  }

  /** `s.sort((a, b) => key(a) - key(b))`: ascending by key, stable. */
  function SortBy<T>(s: seq<T>, key: T -> int): (r: seq<T>)
    ensures |r| == |s|
    ensures SortedBy(r, key)
    ensures multiset(r) == multiset(s)
  {
    if s == [] then []
    else
      var init, last := s[..|s| - 1], s[|s| - 1];
      assert s == init + [last];
      var sorted := SortBy(init, key);
      InsertByAdds(sorted, last, key);
      InsertBySorted(sorted, last, key);
      InsertBy(sorted, last, key)
  }

  /** An element below every element of a strictly increasing list can go in front of it. */
  lemma StrictCons<T>(a: T, s: seq<T>, key: T -> int)
    requires StrictlyIncreasingBy(s, key)
    requires forall k | 0 <= k < |s| :: key(a) < key(s[k])
    ensures StrictlyIncreasingBy([a] + s, key)
  {
    var r := [a] + s;
    forall i, j | 0 <= i < j < |r| ensures key(r[i]) < key(r[j]) {
      assert r[j] == s[j - 1];
      if i > 0 {
        assert r[i] == s[i - 1];
      }
    }
  }

  lemma {:induction false} InsertByStrict<T>(s: seq<T>, x: T, key: T -> int)
    requires StrictlyIncreasingBy(s, key)
    requires forall y | y in s :: key(y) != key(x)
    ensures StrictlyIncreasingBy(InsertBy(s, x, key), key)
  {
    if s == [] {
    } else if key(x) < key(s[0]) {
      forall k | 0 <= k < |s| ensures key(x) < key(s[k]) {
        if k > 0 {
          assert key(s[0]) < key(s[k]);
        }
      }
      StrictCons(x, s, key);
    } else {
      var tail := s[1..];
      assert forall i, j | 0 <= i < j < |tail| :: tail[i] == s[i + 1] && tail[j] == s[j + 1];
      forall y | y in tail ensures key(y) != key(x) {
        assert y in s;
      }
      InsertByStrict(tail, x, key);
      var rest := InsertBy(tail, x, key);
      InsertByAdds(tail, x, key);
      forall k | 0 <= k < |rest| ensures key(s[0]) < key(rest[k]) {
        var y := rest[k];
        assert y in multiset(rest);
        if y != x {
          assert y in multiset(tail);
          var j :| 0 <= j < |tail| && tail[j] == y;
          assert s[j + 1] == y;
        } else {
          assert s[0] in s;
        }
      }
      StrictCons(s[0], rest, key);
    }
  }

  /** Sorting a list whose keys are pairwise distinct yields strictly increasing keys. */
  lemma {:induction false} SortByStrict<T>(s: seq<T>, key: T -> int)
    requires DistinctBy(s, key)
    ensures StrictlyIncreasingBy(SortBy(s, key), key)
  {
    if s != [] {
      var init := s[..|s| - 1];
      var last := s[|s| - 1];
      SortByStrict(init, key);
      var sorted := SortBy(init, key);
      forall y | y in sorted
        ensures key(y) != key(last)
      {
        assert y in multiset(init);
        var k :| 0 <= k < |init| && init[k] == y;
      }
      InsertByStrict(sorted, last, key);
    }
  }

  /** `a` is `b` with some elements removed, order kept. */
  ghost predicate IsSubsequence<T>(a: seq<T>, b: seq<T>)
    decreases |b|
  {
    a == [] || (b != [] && ((a[0] == b[0] && IsSubsequence(a[1..], b[1..])) || IsSubsequence(a, b[1..])))
  }

  lemma {:induction false} FilterIsSubsequence<T>(s: seq<T>, p: T -> bool)
    ensures IsSubsequence(Filter(s, p), s)
  {
    if s != [] {
      FilterIsSubsequence(s[1..], p);
      var a := Filter(s, p);
      if p(s[0]) {
        assert a == [s[0]] + Filter(s[1..], p);
        assert a[0] == s[0] && a[1..] == Filter(s[1..], p);
      } else {
        assert a == Filter(s[1..], p);
      }
    }
  }

  /** `a` sits inside `b` at strictly increasing positions `pos`, so it is a subsequence of `b`. */
  lemma {:induction false} SubsequenceByPositions<T>(a: seq<T>, b: seq<T>, pos: seq<int>)
    requires |pos| == |a|
    requires forall j | 0 <= j < |a| :: 0 <= pos[j] < |b| && b[pos[j]] == a[j]
    requires forall j, l | 0 <= j < l < |a| :: pos[j] < pos[l]
    ensures IsSubsequence(a, b)
    decreases |b|
  {
    if a != [] {
      var shifted := seq(|pos|, j requires 0 <= j < |pos| => pos[j] - 1);
      if pos[0] == 0 {
        SubsequenceByPositions(a[1..], b[1..], shifted[1..]);
      } else {
        SubsequenceByPositions(a, b[1..], shifted);
      }
    }
  }

  /** A filtered list keeps the relative order of the kept elements. */
  lemma {:induction false} FilterKeepsSorted<T>(s: seq<T>, p: T -> bool, key: T -> int)
    requires SortedBy(s, key)
    ensures SortedBy(Filter(s, p), key)
  {
    if s != [] {
      var rest := Filter(s[1..], p);
      FilterSpec(s[1..], p);
      FilterKeepsSorted(s[1..], p, key);
      assert SortedBy(s[1..], key);
      if p(s[0]) {
        forall k | 0 <= k < |rest| ensures key(s[0]) <= key(rest[k]) {
          assert rest[k] in s[1..];
        }
        SortedCons(s[0], rest, key);
      }
    }
  }

  lemma {:induction false} FilterKeepsDistinct<T>(s: seq<T>, p: T -> bool, key: T -> int)
    requires DistinctBy(s, key)
    ensures DistinctBy(Filter(s, p), key)
  {
    if s != [] {
      FilterKeepsDistinct(s[1..], p, key);
      FilterSpec(s[1..], p);
      var rest := Filter(s[1..], p);
      assert forall y | y in rest :: y in s[1..];
      assert forall y | y in s[1..] :: key(s[0]) != key(y);
    }
  }

  /** No element occurs twice. */
  predicate Distinct<T(==)>(s: seq<T>) {
    forall i, j | 0 <= i < j < |s| :: s[i] != s[j]
  }

  /** A list of distinct elements holds each at most once. */
  lemma {:induction false} DistinctCountsAtMostOne<T>(s: seq<T>)
    requires Distinct(s)
    ensures forall x :: multiset(s)[x] <= 1
  {
    if s != [] {
      assert s == [s[0]] + s[1..];
      assert Distinct(s[1..]) by {
        forall i, j | 0 <= i < j < |s[1..]| ensures s[1..][i] != s[1..][j] {
          assert s[1..][i] == s[i + 1] && s[1..][j] == s[j + 1];
        }
      }
      DistinctCountsAtMostOne(s[1..]);
      assert s[0] !in s[1..] by {
        forall k | 0 <= k < |s[1..]| ensures s[1..][k] != s[0] {
          assert s[1..][k] == s[k + 1];
        }
      }
      assert multiset(s) == multiset{s[0]} + multiset(s[1..]);
    }
  }

  /** A list that holds each element at most once is distinct. */
  lemma CountsAtMostOneDistinct<T>(s: seq<T>)
    requires forall x :: multiset(s)[x] <= 1
    ensures Distinct(s)
  {
    forall i, j | 0 <= i < j < |s| ensures s[i] != s[j] {
      RepeatCountsTwice(s, i, j);
    }
  }

  /** An element found at two positions is held at least twice. */
  lemma RepeatCountsTwice<T>(s: seq<T>, i: nat, j: nat)
    requires i < j < |s|
    ensures s[i] == s[j] ==> multiset(s)[s[i]] >= 2
  {
    assert s == s[..j] + s[j..];
    assert s[i] in s[..j];
    assert s[j] in s[j..];
    assert multiset(s) == multiset(s[..j]) + multiset(s[j..]);
  }

  /** Whatever is drawn from a distinct list, as a sub-multiset, is distinct. */
  lemma SubMultisetDistinct<T>(a: seq<T>, b: seq<T>)
    requires Distinct(b) && multiset(a) <= multiset(b)
    ensures Distinct(a)
  {
    DistinctCountsAtMostOne(b);
    CountsAtMostOneDistinct(a);
  }

  /** `s.map(f)` */
  function Map<A, B>(s: seq<A>, f: A -> B): seq<B> {
    if s == [] then [] else Map(s[..|s| - 1], f) + [f(s[|s| - 1])]
  }

  /** Mapping keeps the length and applies `f` at every position. */
  lemma {:induction false} MapAt<A, B>(s: seq<A>, f: A -> B)
    ensures |Map(s, f)| == |s|
    ensures forall k | 0 <= k < |s| :: Map(s, f)[k] == f(s[k])
  {
    if s != [] {
      var init := s[..|s| - 1];
      MapAt(init, f);
      forall k | 0 <= k < |s| ensures Map(s, f)[k] == f(s[k]) {
        if k < |init| {
          assert s[k] == init[k];
        }
      }
    }
  }

  lemma MapAppend<A, B>(s: seq<A>, x: A, f: A -> B)
    ensures Map(s + [x], f) == Map(s, f) + [f(x)]
  {
    assert (s + [x])[..|s|] == s;
  }

  /** One more element of a prefix. */
  lemma PrefixStep<T>(s: seq<T>, k: nat)
    requires k < |s|
    ensures s[..k + 1] == s[..k] + [s[k]]
  {
  }

  /** Mapping one more element of `s`, as a loop over `s` does. */
  lemma MapPrefixStep<A, B>(s: seq<A>, k: nat, f: A -> B)
    requires k < |s|
    ensures Map(s[..k + 1], f) == Map(s[..k], f) + [f(s[k])]
  {
    assert s[..k + 1] == s[..k] + [s[k]];
    MapAppend(s[..k], s[k], f);
  }

  /** A loop that skips the elements failing `p` and pushes `f` of the others. */
  function FilterMap<A, B>(s: seq<A>, p: A -> bool, f: A -> B): seq<B> {
    if s == [] then []
    else FilterMap(s[..|s| - 1], p, f) + (if p(s[|s| - 1]) then [f(s[|s| - 1])] else [])
  }

  lemma FilterMapAppend<A, B>(s: seq<A>, x: A, p: A -> bool, f: A -> B)
    ensures FilterMap(s + [x], p, f) == FilterMap(s, p, f) + (if p(x) then [f(x)] else [])
  {
    assert (s + [x])[..|s|] == s;
  }

  /** Skipping and pushing is filtering, then mapping. */
  lemma {:induction false} FilterMapIsMapOfFilter<A, B>(s: seq<A>, p: A -> bool, f: A -> B)
    ensures FilterMap(s, p, f) == Map(Filter(s, p), f)
  {
    if s != [] {
      var init, last := s[..|s| - 1], s[|s| - 1];
      FilterMapIsMapOfFilter(init, p, f);
      assert s == init + [last];
      FilterAppend(init, last, p);
      assert FilterMap(s, p, f) == FilterMap(init, p, f) + (if p(last) then [f(last)] else []);
      if p(last) {
        MapAppend(Filter(init, p), last, f);
      } else {
        assert Filter(s, p) == Filter(init, p);
      }
    }
  }

  /** `s.findIndex(p)`, with `|s|` in place of -1: the first index whose element satisfies `p`. */
  function FindIndex<T>(s: seq<T>, p: T -> bool): (i: nat)
    ensures i <= |s|
    ensures i < |s| ==> p(s[i])
    ensures forall k | 0 <= k < i :: !p(s[k])
  {
    if s == [] then 0
    else if p(s[0]) then 0
    else
      var j := FindIndex(s[1..], p);
      assert forall k | 0 < k < j + 1 :: s[k] == s[1..][k - 1];
      j + 1
  }

  /** Number of elements satisfying `p`. */
  function Count<T>(s: seq<T>, p: T -> bool): (n: nat)
    ensures n <= |s|
  {
    if s == [] then 0 else (if p(s[0]) then 1 else 0) + Count(s[1..], p)
  }

  lemma {:induction false} CountAppend<T>(a: seq<T>, b: seq<T>, p: T -> bool)
    ensures Count(a + b, p) == Count(a, p) + Count(b, p)
  {
    if a != [] {
      assert (a + b)[0] == a[0];
      assert (a + b)[1..] == a[1..] + b;
      CountAppend(a[1..], b, p);
    } else {
      assert a + b == b;
    }
  }
}
