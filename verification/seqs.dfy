/** Generic facts about sequences: the row filters of the aggregation code are
    instances of `Filter`, and `FilterUnique` says a filter is pinned down by
    three independent facts (every kept element passes, the kept elements
    appear in input order, and none that passes is dropped). */
module Seqs {

  /** The elements of `s` that satisfy `p`, in their original order. */
  function Filter<T>(s: seq<T>, p: T -> bool): (r: seq<T>)
    ensures |r| <= |s|
    ensures forall i :: 0 <= i < |r| ==> p(r[i])
    decreases |s|
  {
    if |s| == 0 then []
    else if p(s[0]) then [s[0]] + Filter(s[1..], p)
    else Filter(s[1..], p)
  }

  /** The number of elements of `s` that satisfy `p`. */
  function Count<T>(s: seq<T>, p: T -> bool): nat
    decreases |s|
  {
    if |s| == 0 then 0 else (if p(s[0]) then 1 else 0) + Count(s[1..], p)
  }

  /** `a` can be obtained from `b` by deleting elements. */
  ghost predicate IsSubsequence<T>(a: seq<T>, b: seq<T>)
    decreases |b|
  {
    if |a| == 0 then true
    else if |b| == 0 then false
    else if a[0] == b[0] then IsSubsequence(a[1..], b[1..])
    else IsSubsequence(a, b[1..])
  }

  /** `s` is ordered by the strict relation `lt` (every earlier element is below every later one). */
  ghost predicate SortedBy<T>(s: seq<T>, lt: (T, T) -> bool)
  {
    forall i, j :: 0 <= i < j < |s| ==> lt(s[i], s[j])
  }

  lemma {:induction false} FilterMembership<T>(s: seq<T>, p: T -> bool, x: T)
    ensures x in Filter(s, p) <==> x in s && p(x)
    decreases |s|
  {
    if |s| > 0 {
      FilterMembership(s[1..], p, x);
      assert s == [s[0]] + s[1..];
    }
  }

  lemma {:induction false} FilterLength<T>(s: seq<T>, p: T -> bool)
    ensures |Filter(s, p)| == Count(s, p)
    decreases |s|
  {
    if |s| > 0 {
      FilterLength(s[1..], p);
    }
  }

  lemma {:induction false} FilterIsSubsequence<T>(s: seq<T>, p: T -> bool)
    ensures IsSubsequence(Filter(s, p), s)
    decreases |s|
  {
    if |s| > 0 {
      FilterIsSubsequence(s[1..], p);
      if p(s[0]) {
        var r := Filter(s, p);
        assert r[0] == s[0] && r[1..] == Filter(s[1..], p);
      } else {
        SubsequenceDropFront(Filter(s[1..], p), s);
      }
    }
  }

  /** Skipping the first element of `b` is always allowed. */
  lemma {:induction false} SubsequenceDropFront<T>(a: seq<T>, b: seq<T>)
    requires |b| > 0
    requires IsSubsequence(a, b[1..])
    ensures IsSubsequence(a, b)
    decreases |b|, 0
  {
    if |a| > 0 && a[0] == b[0] {
      // the greedy match takes b[0]; the rest of `a` is still a subsequence of b[1..]
      SubsequenceTail(a, b[1..]);
    }
  }

  /** Dropping the first element of a non-empty subsequence keeps it a subsequence. */
  lemma {:induction false} SubsequenceTail<T>(a: seq<T>, b: seq<T>)
    requires |a| > 0
    requires IsSubsequence(a, b)
    ensures IsSubsequence(a[1..], b)
    decreases |b|, 1
  {
    assert |b| > 0;
    if a[0] == b[0] {
      if |a[1..]| > 0 {
        SubsequenceDropFront(a[1..], b);
      }
    } else {
      SubsequenceTail(a, b[1..]);
      if |a[1..]| > 0 {
        SubsequenceDropFront(a[1..], b);
      }
    }
  }

  /** A subsequence of passing elements cannot be longer than the count of passing elements. */
  lemma {:induction false} SubsequenceCountBound<T>(a: seq<T>, s: seq<T>, p: T -> bool)
    requires IsSubsequence(a, s)
    requires forall i :: 0 <= i < |a| ==> p(a[i])
    ensures |a| <= Count(s, p)
    decreases |s|
  {
    if |a| > 0 {
      assert |s| > 0;
      if a[0] == s[0] {
        SubsequenceCountBound(a[1..], s[1..], p);
      } else {
        SubsequenceCountBound(a, s[1..], p);
      }
    }
  }

  /** A filter is the only subsequence of passing elements that keeps all of them. */
  lemma {:induction false} FilterUnique<T>(a: seq<T>, s: seq<T>, p: T -> bool)
    requires forall i :: 0 <= i < |a| ==> p(a[i])
    requires IsSubsequence(a, s)
    requires |a| == Count(s, p)
    ensures a == Filter(s, p)
    decreases |s|
  {
    if |s| > 0 {
      if p(s[0]) {
        assert |a| > 0;
        if a[0] == s[0] {
          FilterUnique(a[1..], s[1..], p);
          assert a == [a[0]] + a[1..];
        } else {
          SubsequenceCountBound(a, s[1..], p);
          assert false;
        }
      } else {
        if |a| > 0 {
          assert a[0] != s[0];
        }
        FilterUnique(a, s[1..], p);
      }
    }
  }

  /** Filtering keeps a strict order. */
  lemma {:induction false} FilterSorted<T>(s: seq<T>, p: T -> bool, lt: (T, T) -> bool)
    requires SortedBy(s, lt)
    ensures SortedBy(Filter(s, p), lt)
    decreases |s|
  {
    if |s| > 0 {
      FilterSorted(s[1..], p, lt);
      if p(s[0]) {
        var rest := Filter(s[1..], p);
        forall j | 0 <= j < |rest|
          ensures lt(s[0], rest[j])
        {
          FilterMembership(s[1..], p, rest[j]);
          var k :| 0 <= k < |s[1..]| && s[1..][k] == rest[j];
          assert s[k + 1] == rest[j];
        }
      }
    }
  }
}
