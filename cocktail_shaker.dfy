/** Cocktail-shaker sort (`ordenacao_cocktail_shaker`): a bubble sort that alternates a
    forward pass over the window [start, end] with a backward pass, shrinking the
    window at the end the last pass settled. */
module CocktailShaker {
  import opened Ordering

  /** Every position outside the window [lo, hi) already holds its final value: both
      sides are sorted and no element outside is on the wrong side of the window. */
  ghost predicate OutsideSettled(s: seq<int>, lo: int, hi: int)
    requires 0 <= lo <= hi <= |s|
  {
    SortedRange(s, 0, lo) && Partitioned(s, lo) && SortedRange(s, hi, |s|) && Partitioned(s, hi)
  }

  /** If only the window [lo, hi) differs, the window holds the same elements. */
  lemma WindowMultiset(s: seq<int>, t: seq<int>, lo: int, hi: int)
    requires 0 <= lo <= hi <= |s| == |t|
    requires multiset(t) == multiset(s)
    requires forall k :: 0 <= k < lo || hi <= k < |s| ==> t[k] == s[k]
    ensures multiset(t[lo..hi]) == multiset(s[lo..hi])
  {
    assert s == s[..lo] + s[lo..hi] + s[hi..];
    assert t == t[..lo] + t[lo..hi] + t[hi..];
    assert t[..lo] == s[..lo] && t[hi..] == s[hi..];
    assert multiset(s) == multiset(s[..lo]) + multiset(s[lo..hi]) + multiset(s[hi..]);
    assert multiset(t) == multiset(s[..lo]) + multiset(t[lo..hi]) + multiset(s[hi..]);
    assert multiset(t[lo..hi]) == multiset(s) - multiset(s[..lo]) - multiset(s[hi..]);
  }

  /** Rearranging only the inside of the window keeps the outside settled. */
  lemma PermutingWindowKeepsSettled(s: seq<int>, t: seq<int>, lo: int, hi: int)
    requires 0 <= lo <= hi <= |s| == |t|
    requires OutsideSettled(s, lo, hi)
    requires multiset(t) == multiset(s)
    requires forall k :: 0 <= k < lo || hi <= k < |s| ==> t[k] == s[k]
    ensures OutsideSettled(t, lo, hi)
  {
    WindowMultiset(s, t, lo, hi);
    forall j | lo <= j < hi ensures exists m :: lo <= m < hi && s[m] == t[j] {
      assert t[j] == t[lo..hi][j - lo];
      assert t[j] in multiset(s[lo..hi]);
      var m :| 0 <= m < hi - lo && s[lo..hi][m] == t[j];
      assert s[lo + m] == t[j];
    }
  }

  /** Once the last slot of the window holds the window maximum, it is settled too. */
  lemma MaxSettles(s: seq<int>, lo: int, hi: int)
    requires 0 <= lo < hi <= |s|
    requires OutsideSettled(s, lo, hi)
    requires forall k :: lo <= k < hi ==> s[k] <= s[hi - 1]
    ensures OutsideSettled(s, lo, hi - 1)
  {
  }

  /** Once the first slot of the window holds the window minimum, it is settled too. */
  lemma MinSettles(s: seq<int>, lo: int, hi: int)
    requires 0 <= lo < hi <= |s|
    requires OutsideSettled(s, lo, hi)
    requires forall k :: lo <= k < hi ==> s[lo] <= s[k]
    ensures OutsideSettled(s, lo + 1, hi)
  {
  }

  /** What a pass over the window [lo, hi) leaves behind, when it moved only elements
      inside the window: the outside is still settled. */
  ghost predicate PassFrame(s: seq<int>, t: seq<int>, lo: int, hi: int)
    requires 0 <= lo <= hi <= |s| == |t|
  {
    multiset(t) == multiset(s) && forall k :: 0 <= k < lo || hi <= k < |s| ==> t[k] == s[k]
  }

  /** After a forward pass that carried the maximum of the window [lo, last] to `last`,
      the window shrinks by one at that end. */
  lemma ForwardPassSettles(s: seq<int>, t: seq<int>, lo: int, last: int)
    requires 0 <= lo <= last < |s| == |t|
    requires OutsideSettled(s, lo, last + 1) && PassFrame(s, t, lo, last + 1)
    requires forall k :: lo <= k <= last ==> t[k] <= t[last]
    ensures OutsideSettled(t, lo, last)
  {
    PermutingWindowKeepsSettled(s, t, lo, last + 1);
    MaxSettles(t, lo, last + 1);
  }

  /** After a backward pass that carried the minimum of the window [lo, last] to `lo`,
      the window shrinks by one at that end. */
  lemma BackwardPassSettles(s: seq<int>, t: seq<int>, lo: int, last: int)
    requires 0 <= lo <= last < |s| == |t|
    requires OutsideSettled(s, lo, last + 1) && PassFrame(s, t, lo, last + 1)
    requires forall k :: lo <= k <= last ==> t[lo] <= t[k]
    ensures OutsideSettled(t, lo + 1, last + 1)
  {
    PermutingWindowKeepsSettled(s, t, lo, last + 1);
    MinSettles(t, lo, last + 1);
  }

  /** A pass that found the window in order leaves the whole array sorted. */
  lemma QuietPassSorts(s: seq<int>, t: seq<int>, lo: int, hi: int)
    requires 0 <= lo <= hi <= |s| == |t|
    requires OutsideSettled(s, lo, hi) && PassFrame(s, t, lo, hi)
    requires SortedRange(t, lo, hi)
    ensures Sorted(t)
  {
    PermutingWindowKeepsSettled(s, t, lo, hi);
    SortedFromParts(t, lo, hi);
  }

  /** The forward pass `for i in range(start, end)` (lines 18-21): adjacent
      out-of-order pairs are swapped, which carries the window maximum to `end`. A pass
      that swaps nothing found the window in order and leaves the array as it was. */
  method ForwardPass(a: array<int>, start: int, end: int) returns (swapped: bool)
    requires 0 <= start <= end + 1 <= a.Length
    modifies a
    ensures PassFrame(old(a[..]), a[..], start, end + 1)
    ensures swapped ==> start < end && forall k :: start <= k <= end ==> a[k] <= a[end]
    ensures !swapped <==> SortedRange(old(a[..]), start, end + 1)
    ensures !swapped ==> a[..] == old(a[..])
  {
    swapped := false;
    var i := start;
    while i < end
      invariant start <= i && (i <= end || i == start)
      invariant multiset(a[..]) == multiset(old(a[..]))
      invariant forall k :: 0 <= k < start || end < k < a.Length ==> a[k] == old(a[k])
      invariant forall k :: start <= k < i ==> a[k] <= a[i]
      invariant !swapped ==> a[..] == old(a[..])
      invariant !swapped ==> forall p, q :: start <= p < q <= i && q < a.Length ==> a[p] <= a[q]
      invariant swapped ==> start < end && !SortedRange(old(a[..]), start, end + 1)
      decreases end - i
    {
      var exchanged := CompareExchange(a, i, i + 1);
      swapped := swapped || exchanged;
      i := i + 1;
    }
  }

  /** The backward pass `for i in range(end - 1, start - 1, -1)` (lines 26-29): carries
      the window minimum to `start`; a pass that swaps nothing found the window in order. */
  method BackwardPass(a: array<int>, start: int, end: int) returns (swapped: bool)
    requires 0 <= start <= end < a.Length
    modifies a
    ensures PassFrame(old(a[..]), a[..], start, end + 1)
    ensures forall k :: start <= k <= end ==> a[start] <= a[k]
    ensures !swapped ==> SortedRange(a[..], start, end + 1)
  {
    swapped := false;
    var i := end - 1;
    while i >= start
      invariant start - 1 <= i <= end - 1
      invariant multiset(a[..]) == multiset(old(a[..]))
      invariant forall k :: 0 <= k < start || end < k < a.Length ==> a[k] == old(a[k])
      invariant forall k :: i + 1 < k <= end ==> a[i + 1] <= a[k]
      invariant !swapped ==> forall p, q :: i + 1 <= p < q <= end ==> a[p] <= a[q]
      decreases i - start + 1
    {
      var exchanged := CompareExchange(a, i, i + 1);
      swapped := swapped || exchanged;
      i := i - 1;
    }
  }

  /** Sorts `a` in place. The ghost result counts forward passes: on an input that is
      already sorted the first forward pass swaps nothing and the sort stops there. */
  method CocktailShakerSort(a: array<int>) returns (ghost forwardPasses: nat)
    modifies a
    ensures Sorted(a[..])
    ensures multiset(a[..]) == multiset(old(a[..]))
    ensures Sorted(old(a[..])) ==> a[..] == old(a[..]) && forwardPasses == 1
  {
    var n := a.Length;
    var swapped := true;
    var start := 0;
    var end := n - 1;
    forwardPasses := 0;
    while swapped
      invariant 0 <= start <= end + 1 <= n
      invariant multiset(a[..]) == multiset(old(a[..]))
      invariant OutsideSettled(a[..], start, end + 1)
      invariant !swapped ==> Sorted(a[..])
      invariant Sorted(old(a[..])) ==> a[..] == old(a[..]) && forwardPasses == 0 && swapped
      decreases end - start + 1
    {
      ghost var before := a[..];
      swapped := ForwardPass(a, start, end);
      forwardPasses := forwardPasses + 1;
      if !swapped {
        assert Sorted(a[..]) by { QuietPassSorts(before, a[..], start, end + 1); }
        break;
      }
      ghost var last := end;
      assert OutsideSettled(a[..], start, last) by {
        ForwardPassSettles(before, a[..], start, last);
      }
      swapped := false;
      end := end - 1;
      assert end + 1 == last;
      before := a[..];
      swapped := BackwardPass(a, start, end);
      if !swapped {
        assert Sorted(a[..]) by { QuietPassSorts(before, a[..], start, end + 1); }
      }
      assert OutsideSettled(a[..], start + 1, end + 1) by {
        BackwardPassSettles(before, a[..], start, end);
      }
      start := start + 1;
    }
  }
}
