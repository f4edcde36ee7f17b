/** The array methods the components use — filter, findIndex/find/some,
    splice of one element — as functions on sequences. */
module Seqs {

  /** `s.filter(p)` */
  function Filter<T>(s: seq<T>, p: T -> bool): (r: seq<T>)
    ensures |r| <= |s|
    ensures forall i :: 0 <= i < |r| ==> r[i] in s && p(r[i])
    ensures forall i :: 0 <= i < |s| && p(s[i]) ==> s[i] in r
  {
    if s == [] then []
    else (if p(s[0]) then [s[0]] else []) + Filter(s[1..], p)
  }

  /** `r` is obtained from `s` by deleting elements, keeping the order of the
      rest. */
  ghost predicate IsSubsequence<T>(r: seq<T>, s: seq<T>)
    decreases |s|
  {
    if r == [] then true
    else if s == [] then false
    else (r[0] == s[0] && IsSubsequence(r[1..], s[1..])) || IsSubsequence(r, s[1..])
  }

  /** What `filter` keeps, it keeps in order. */
  lemma {:induction false} FilterIsSubsequence<T>(s: seq<T>, p: T -> bool)
    ensures IsSubsequence(Filter(s, p), s)
  {
    if s != [] {
      FilterIsSubsequence(s[1..], p);
      var r := Filter(s, p);
      if p(s[0]) {
        assert r[0] == s[0] && r[1..] == Filter(s[1..], p);
      } else {
        assert r == Filter(s[1..], p);
      }
    }
  }

  /** Filtering by a predicate and by its negation splits the sequence: the
      two results together hold every element exactly as often as `s` does. */
  lemma {:induction false} FilterPartition<T>(s: seq<T>, p: T -> bool, q: T -> bool)
    requires forall x :: q(x) == !p(x)
    ensures multiset(Filter(s, p)) + multiset(Filter(s, q)) == multiset(s)
    ensures |Filter(s, p)| + |Filter(s, q)| == |s|
  {
    if s != [] {
      FilterPartition(s[1..], p, q);
      assert s == [s[0]] + s[1..];
    }
  }

  /** A filter keeps everything exactly when every element passes. */
  lemma {:induction false} FilterKeepsAll<T>(s: seq<T>, p: T -> bool)
    ensures Filter(s, p) == s <==> forall i :: 0 <= i < |s| ==> p(s[i])
  {
    if s != [] {
      FilterKeepsAll(s[1..], p);
      if !p(s[0]) {
        assert |Filter(s, p)| < |s|;
      } else {
        assert forall i :: 1 <= i < |s| ==> s[i] == s[1..][i - 1];
      }
    }
  }

  /** A filter keeps nothing when no element passes. */
  lemma {:induction false} FilterNone<T>(s: seq<T>, p: T -> bool)
    requires forall i :: 0 <= i < |s| ==> !p(s[i])
    ensures Filter(s, p) == []
  {
    if s != [] {
      assert forall i :: 0 <= i < |s[1..]| ==> s[1..][i] == s[i + 1];
      FilterNone(s[1..], p);
    }
  }

  /** `s.findIndex(p)`: the first index whose element passes, or -1. */
  function IndexOfFirst<T>(s: seq<T>, p: T -> bool): (r: int)
    ensures -1 <= r < |s|
    ensures r == -1 <==> forall i :: 0 <= i < |s| ==> !p(s[i])
    ensures r >= 0 ==> p(s[r]) && forall j :: 0 <= j < r ==> !p(s[j])
  {
    if s == [] then -1
    else if p(s[0]) then 0
    else
      var k := IndexOfFirst(s[1..], p);
      if k == -1 then -1 else k + 1
  }

  /** `s.splice(i, 1)`: the sequence without its element at index i. */
  function RemoveAt<T>(s: seq<T>, i: nat): (r: seq<T>)
    requires i < |s|
    ensures |r| == |s| - 1
    ensures forall j :: 0 <= j < i ==> r[j] == s[j]
    ensures forall j :: i <= j < |r| ==> r[j] == s[j + 1]
    ensures multiset(r) + multiset{s[i]} == multiset(s)
  {
    assert s == s[..i] + [s[i]] + s[i + 1..];
    s[..i] + s[i + 1..]
  }

  // ---------------------------------------------------------------------
  // Array.prototype.sort with a comparator, as a stable insertion sort
  // ---------------------------------------------------------------------

  /** Inserts x after the last elements of s that are not greater than it. */
  function InsertBy<T>(s: seq<T>, x: T, leq: (T, T) -> bool): (r: seq<T>)
    ensures |r| == |s| + 1
    ensures multiset(r) == multiset(s) + multiset{x}
  {
    if s == [] then [x]
    else if leq(s[|s| - 1], x) then s + [x]
    else
      assert s == s[..|s| - 1] + [s[|s| - 1]];
      InsertBy(s[..|s| - 1], x, leq) + [s[|s| - 1]]
  }

  /** `s.sort(compare)` where `leq(a, b)` is `compare(a, b) <= 0`. */
  function SortBy<T>(s: seq<T>, leq: (T, T) -> bool): (r: seq<T>)
    ensures multiset(r) == multiset(s)
  {
    if s == [] then []
    else
      assert s == s[..|s| - 1] + [s[|s| - 1]];
      InsertBy(SortBy(s[..|s| - 1], leq), s[|s| - 1], leq)
  }

  ghost predicate SortedBy<T>(s: seq<T>, leq: (T, T) -> bool) {
    forall i, j :: 0 <= i < j < |s| ==> leq(s[i], s[j])
  }

  /** `leq` orders the elements of xs totally and transitively. */
  ghost predicate TotalPreorderOn<T>(xs: multiset<T>, leq: (T, T) -> bool) {
    (forall a, b :: a in xs && b in xs ==> leq(a, b) || leq(b, a))
    && (forall a, b, c :: a in xs && b in xs && c in xs && leq(a, b) && leq(b, c) ==> leq(a, c))
  }

  lemma TotalPreorderOnSmaller<T>(xs: multiset<T>, ys: multiset<T>, leq: (T, T) -> bool)
    requires TotalPreorderOn(ys, leq) && xs <= ys
    ensures TotalPreorderOn(xs, leq)
  {
  }

  /** An element no smaller than all of a sorted list can go at its end. */
  lemma AppendSorted<T>(s: seq<T>, x: T, leq: (T, T) -> bool)
    requires SortedBy(s, leq)
    requires forall i :: 0 <= i < |s| ==> leq(s[i], x)
    ensures SortedBy(s + [x], leq)
  {
    var r := s + [x];
    forall i, j | 0 <= i < j < |r|
      ensures leq(r[i], r[j])
    {
      assert r[i] == s[i];
    }
  }

  /** Every element of a sorted list is below an element its last one is below. */
  lemma BelowLast<T>(s: seq<T>, x: T, leq: (T, T) -> bool)
    requires s != [] && SortedBy(s, leq) && leq(s[|s| - 1], x)
    requires TotalPreorderOn(multiset(s) + multiset{x}, leq)
    ensures forall i :: 0 <= i < |s| ==> leq(s[i], x)
  {
    forall i | 0 <= i < |s|
      ensures leq(s[i], x)
    {
      assert s[i] in multiset(s) && s[|s| - 1] in multiset(s);
    }
  }

  /** Inserting into a sorted list keeps it sorted. */
  lemma {:induction false} InsertBySorted<T>(s: seq<T>, x: T, leq: (T, T) -> bool)
    requires SortedBy(s, leq)
    requires TotalPreorderOn(multiset(s) + multiset{x}, leq)
    ensures SortedBy(InsertBy(s, x, leq), leq)
  {
    if s != [] {
      var last := s[|s| - 1];
      if leq(last, x) {
        BelowLast(s, x, leq);
        AppendSorted(s, x, leq);
      } else {
        var init := s[..|s| - 1];
        assert s == init + [last];
        assert leq(x, last) by {
          assert last in multiset(s);
        }
        TotalPreorderOnSmaller(multiset(init) + multiset{x}, multiset(s) + multiset{x}, leq);
        InsertBySorted(init, x, leq);
        var r' := InsertBy(init, x, leq);
        forall i | 0 <= i < |r'|
          ensures leq(r'[i], last)
        {
          assert r'[i] in multiset(init) + multiset{x};
          if r'[i] != x {
            var k :| 0 <= k < |init| && init[k] == r'[i];
            assert s[k] == init[k];
          }
        }
        AppendSorted(r', last, leq);
      }
    }
  }

  /** The sort's result is sorted when the comparator is a consistent
      total order on the elements. */
  lemma {:induction false} SortBySorted<T>(s: seq<T>, leq: (T, T) -> bool)
    requires TotalPreorderOn(multiset(s), leq)
    ensures SortedBy(SortBy(s, leq), leq)
  {
    if s != [] {
      var init := s[..|s| - 1];
      assert s == init + [s[|s| - 1]];
      TotalPreorderOnSmaller(multiset(init), multiset(s), leq);
      SortBySorted(init, leq);
      InsertBySorted(SortBy(init, leq), s[|s| - 1], leq);
    }
  }
}
