/** Comb sort (`ordenacao_comb_sort`): compare-and-swap passes at a gap that starts at
    the length and shrinks by the factor 1.3 down to 1; the sort stops after a full
    gap-1 pass that swaps nothing. */
module CombSort {
  import opened Ordering
  import opened Counting

  /** `int(g / 1.3)`, computed exactly on integers as floor(10 g / 13). */
  function ShrinkGap(g: nat): (r: nat)
    ensures r <= g
    ensures g > 0 ==> r < g
  {
    g * 10 / 13
  }

  /** The gap of the next pass (lines 40-42): the shrunk gap, clamped to at least 1. */
  function NextGap(g: nat): (r: nat)
    ensures r >= 1
    ensures g > 1 ==> r < g
    ensures g <= 1 ==> r == 1
    ensures r == 1 <==> ShrinkGap(g) <= 1
  {
    if ShrinkGap(g) <= 1 then 1 else ShrinkGap(g)
  }

  /** Once the gap reaches 1 it stays 1 through every later pass. */
  lemma {:induction false} GapStaysOne(g: nat, k: nat)
    requires g == 1
    ensures GapAfter(g, k) == 1
    decreases k
  {
    if k > 0 {
      GapStaysOne(NextGap(g), k - 1);
    }
  }

  /** The gap after k further passes. */
  function GapAfter(g: nat, k: nat): nat
    decreases k
  {
    if k == 0 then g else GapAfter(NextGap(g), k - 1)
  }

  /** From any starting gap, the gaps are at least 1 after the first pass and reach 1
      within g passes. */
  lemma {:induction false} GapReachesOne(g: nat, k: nat)
    requires k >= 1 && k >= g
    ensures GapAfter(g, k) == 1
    decreases k
  {
    if g <= 1 {
      GapStaysOne(NextGap(g), k - 1);
    } else {
      GapReachesOne(NextGap(g), k - 1);
    }
  }

  /** Termination measure for the gap: it only matters while the gap is above 1. */
  function GapRank(g: nat): nat {
    if g <= 1 then 0 else g
  }

  /** One pass at distance `gap` (lines 44-49): every pair (i, i + gap) is put in order,
      left to right. A gap-1 pass that swaps nothing finds the array sorted; one that
      swaps removes at least one inversion. */
  method GapPass(a: array<int>, gap: nat) returns (swapped: bool)
    requires gap >= 1
    modifies a
    ensures multiset(a[..]) == multiset(old(a[..]))
    ensures !swapped ==> a[..] == old(a[..])
    ensures gap == 1 && !swapped ==> Sorted(a[..])
    ensures gap == 1 ==> Inversions(a[..]) + (if swapped then 1 else 0) <= Inversions(old(a[..]))
    ensures Sorted(old(a[..])) ==> !swapped
  {
    var n := a.Length;
    swapped := false;
    var i := 0;
    while i + gap < n
      invariant 0 <= i <= n
      invariant multiset(a[..]) == multiset(old(a[..]))
      invariant !swapped ==> a[..] == old(a[..])
      invariant gap == 1 && !swapped ==> SortedRange(a[..], 0, if i < n then i + 1 else n)
      invariant gap == 1 ==> Inversions(a[..]) + (if swapped then 1 else 0) <= Inversions(old(a[..]))
      invariant Sorted(old(a[..])) ==> !swapped
      decreases n - i
    {
      ghost var before := a[..];
      var exchanged := CompareExchange(a, i, i + gap);
      if exchanged {
        if gap == 1 {
          SwapRemovesInversion(before, i);
        }
        swapped := true;
      } else if gap == 1 && !swapped {
        SortedRangeExtends(a[..], 0, i);
      }
      i := i + 1;
    }
  }

  /** Sorts `a` in place; an input that is already sorted is left as it is. */
  method CombSort(a: array<int>)
    modifies a
    ensures Sorted(a[..])
    ensures multiset(a[..]) == multiset(old(a[..]))
    ensures Sorted(old(a[..])) ==> a[..] == old(a[..])
  {
    var n := a.Length;
    var gap: nat := n;
    var sorted := false;
    while !sorted
      invariant multiset(a[..]) == multiset(old(a[..]))
      invariant sorted ==> Sorted(a[..])
      invariant Sorted(old(a[..])) ==> a[..] == old(a[..])
      decreases GapRank(gap), Inversions(a[..]) + (if sorted then 0 else 1)
    {
      ghost var previous := gap;
      gap := ShrinkGap(gap);
      if gap <= 1 {
        gap := 1;
        sorted := true;
      }
      assert gap == NextGap(previous);
      var swapped := GapPass(a, gap);
      if swapped {
        sorted := false;
      }
    }
  }
}
