/** Order predicates shared by the three in-place sorts, the swap they all perform,
    and the fact that a sorted rearrangement of a sequence is unique. */
module Ordering {

  /** s is non-decreasing. */
  predicate Sorted(s: seq<int>) {
    forall i, j :: 0 <= i < j < |s| ==> s[i] <= s[j]
  }

  /** s is non-decreasing on the index window [lo, hi). */
  predicate SortedRange(s: seq<int>, lo: int, hi: int)
    requires 0 <= lo <= hi <= |s|
  {
    forall i, j :: lo <= i < j < hi ==> s[i] <= s[j]
  }

  /** Every element before index p is at most every element from p on. */
  predicate Partitioned(s: seq<int>, p: int)
    requires 0 <= p <= |s|
  {
    forall i, j :: 0 <= i < p <= j < |s| ==> s[i] <= s[j]
  }

  /** A sequence that is sorted on both sides of a window, sorted inside it, and
      partitioned at both window edges is sorted as a whole. */
  lemma SortedFromParts(s: seq<int>, lo: int, hi: int)
    requires 0 <= lo <= hi <= |s|
    requires SortedRange(s, 0, lo) && SortedRange(s, lo, hi) && SortedRange(s, hi, |s|)
    requires Partitioned(s, lo) && Partitioned(s, hi)
    ensures Sorted(s)
  {
  }

  /** A sorted window followed by an element no smaller than its last element is sorted
      one further to the right. */
  lemma SortedRangeExtends(s: seq<int>, lo: int, k: int)
    requires 0 <= lo <= k < |s| - 1
    requires SortedRange(s, lo, k + 1) && s[k] <= s[k + 1]
    ensures SortedRange(s, lo, k + 2)
  {
  }

  /** One compare-and-swap step of the source, `if lista[i] > lista[j]: lista[i],
      lista[j] = lista[j], lista[i]`: it reports whether it swapped, and afterwards the
      pair is in order. */
  method CompareExchange(a: array<int>, i: int, j: int) returns (swapped: bool)
    requires 0 <= i < j < a.Length
    modifies a
    ensures swapped <==> old(a[i]) > old(a[j])
    ensures a[i] <= a[j]
    ensures swapped ==> a[..] == old(a[..])[i := old(a[j])][j := old(a[i])]
    ensures !swapped ==> a[..] == old(a[..])
    ensures multiset(a[..]) == multiset(old(a[..]))
  {
    swapped := a[i] > a[j];
    if swapped {
      a[i], a[j] := a[j], a[i];
    }
  }

  lemma SortedTail(s: seq<int>)
    requires |s| > 0 && Sorted(s)
    ensures Sorted(s[1..])
  {
    forall i, j | 0 <= i < j < |s| - 1 ensures s[1..][i] <= s[1..][j] {
      assert s[1..][i] == s[i + 1] && s[1..][j] == s[j + 1];
    }
  }

  lemma MultisetTail(s: seq<int>)
    requires |s| > 0
    ensures multiset(s[1..]) == multiset(s) - multiset{s[0]}
  {
    assert s == [s[0]] + s[1..];
  }

  /** The first element of a sorted sequence is at most every element it holds. */
  lemma SortedHeadIsLeast(s: seq<int>, x: int)
    requires |s| > 0 && Sorted(s) && x in multiset(s)
    ensures s[0] <= x
  {
    var k :| 0 <= k < |s| && s[k] == x;
  }

  /** Two non-empty sorted sequences with the same elements start with the same value,
      and what follows holds the same elements. */
  lemma SortedHeadsAgree(s: seq<int>, t: seq<int>)
    requires Sorted(s) && Sorted(t) && |s| > 0
    requires multiset(s) == multiset(t)
    ensures |t| > 0 && s[0] == t[0]
    ensures multiset(s[1..]) == multiset(t[1..])
  {
    assert s[0] in multiset(t) by { assert s[0] in s; }
    assert t[0] in multiset(s) by { assert t[0] in t; }
    SortedHeadIsLeast(s, t[0]);
    SortedHeadIsLeast(t, s[0]);
    MultisetTail(s);
    MultisetTail(t);
  }

  /** Two sorted sequences with the same elements are equal: whichever of the sorts
      runs, the result is determined by the input's multiset. */
  lemma {:induction false} SortedUnique(s: seq<int>, t: seq<int>)
    requires Sorted(s) && Sorted(t)
    requires multiset(s) == multiset(t)
    ensures s == t
    decreases |s|
  {
    if |s| == 0 {
      assert |t| == |multiset(t)| == 0;
    } else {
      SortedHeadsAgree(s, t);
      SortedTail(s);
      SortedTail(t);
      SortedUnique(s[1..], t[1..]);
      assert s == [s[0]] + s[1..] && t == [t[0]] + t[1..];
    }
  }
}
