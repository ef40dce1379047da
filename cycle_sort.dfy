/** Cycle sort (`ordenacao_cycle_sort`): for each start index, the value taken from it is
    written straight into the place its rank gives it, the value found there is placed
    next, and so on until the cycle comes back to the start. Duplicates are handled by
    skipping over copies already in place.

    The proof fixes, for each start index, the suffix w that the cycle rearranges. A
    value x of w belongs to the block of positions
    [start + #(elements of w below x), that + #(copies of x in w)),
    which is where x sits once the suffix is sorted. Each write puts a value into its
    own block at a position that held a value from another block, so the number of
    misplaced positions measures how much work is left and bounds the writes. */
module CycleSort {
  import opened Ordering
  import opened Counting

  /** First position of value x once the suffix w, laid out from index base, is sorted. */
  function BlockStart(w: seq<int>, base: int, x: int): int {
    base + CountLess(w, x)
  }

  /** Position p belongs to the block of value x. */
  predicate InBlock(w: seq<int>, base: int, x: int, p: int) {
    BlockStart(w, base, x) <= p < BlockStart(w, base, x) + multiset(w)[x]
  }

  /** The number of positions in [lo, hi) of t whose value is outside its block. */
  ghost function MisplacedCount(t: seq<int>, w: seq<int>, base: int, lo: int, hi: int): (c: nat)
    requires 0 <= lo <= hi <= |t|
    ensures c <= hi - lo
    decreases hi - lo
  {
    if lo == hi then 0
    else (if InBlock(w, base, t[lo], lo) then 0 else 1) + MisplacedCount(t, w, base, lo + 1, hi)
  }

  // ---------------------------------------------------------------------------------
  // Facts about counts and blocks

  /** Fewer positions are misplaced in u than in t when every position placed in t is
      placed in u. */
  lemma {:induction false} MisplacedCountMono(t: seq<int>, w: seq<int>, b: int,
                                              u: seq<int>, v: seq<int>, c: int, lo: int, hi: int)
    requires 0 <= lo <= hi <= |t| == |u|
    requires forall p :: lo <= p < hi && InBlock(w, b, t[p], p) ==> InBlock(v, c, u[p], p)
    ensures MisplacedCount(u, v, c, lo, hi) <= MisplacedCount(t, w, b, lo, hi)
    decreases hi - lo
  {
    if lo < hi {
      MisplacedCountMono(t, w, b, u, v, c, lo + 1, hi);
    }
  }

  /** Writing into a misplaced position a value that belongs there fixes exactly one. */
  lemma {:induction false} MisplacedCountFix(t: seq<int>, w: seq<int>, b: int, pos: int, x: int,
                                             lo: int, hi: int)
    requires 0 <= lo <= pos < hi <= |t|
    requires !InBlock(w, b, t[pos], pos) && InBlock(w, b, x, pos)
    ensures MisplacedCount(t[pos := x], w, b, lo, hi) + 1 == MisplacedCount(t, w, b, lo, hi)
    decreases hi - lo
  {
    if lo < pos {
      MisplacedCountFix(t, w, b, pos, x, lo + 1, hi);
    } else {
      MisplacedCountMono(t, w, b, t[pos := x], w, b, lo + 1, hi);
      MisplacedCountMono(t[pos := x], w, b, t, w, b, lo + 1, hi);
    }
  }

  /** A range holding fewer copies of x than its length has a position without x. */
  lemma {:induction false} OtherInRange(t: seq<int>, lo: int, hi: int, x: int)
    requires 0 <= lo <= hi <= |t|
    requires multiset(t[lo..hi])[x] < hi - lo
    ensures exists q :: lo <= q < hi && t[q] != x
    decreases hi - lo
  {
    assert t[lo..hi] == [t[lo]] + t[lo + 1..hi];
    if t[lo] == x {
      OtherInRange(t, lo + 1, hi, x);
    }
  }

  /** Blocks of different values are disjoint. */
  lemma BlocksDisjoint(w: seq<int>, base: int, x: int, y: int, p: int)
    requires x != y && InBlock(w, base, x, p)
    ensures !InBlock(w, base, y, p)
  {
    if y < x {
      CountLessMonotone(w, y, x);
    } else {
      CountLessMonotone(w, x, y);
    }
  }

  /** The rank the source computes, start + #(a[start+1..] below item), is the start of
      the block of item, as long as the suffix with item put back at start holds the
      elements of w. */
  lemma DestinationIsBlockStart(t: seq<int>, start: int, item: int, w: seq<int>)
    requires 0 <= start < |t|
    requires multiset(t[start := item][start..]) == multiset(w)
    ensures start + CountLess(t[start + 1..], item) == BlockStart(w, start, item)
  {
    var v := t[start := item][start..];
    assert v == [item] + t[start + 1..];
    CountLessAppend([item], t[start + 1..], item);
    assert CountLess([item], item) == 0;
    CountLessPerm(v, w, item);
  }

  /** With item put back at start, the suffix holds item once more than [lo, hi) does. */
  lemma CopiesAfterStart(t: seq<int>, start: int, item: int, w: seq<int>, lo: int, hi: int)
    requires 0 <= start < lo <= hi <= |t|
    requires multiset(t[start := item][start..]) == multiset(w)
    ensures multiset(t[lo..hi])[item] < multiset(w)[item]
  {
    var v := t[start := item][start..];
    assert v == [item] + t[start + 1..lo] + t[lo..hi] + t[hi..] by {
      assert t[start := item][start + 1..] == t[start + 1..];
      assert t[start + 1..] == t[start + 1..lo] + t[lo..hi] + t[hi..];
    }
  }

  /** The held item is one of the elements of w. */
  lemma HeldItemInSuffix(t: seq<int>, start: int, item: int, w: seq<int>)
    requires 0 <= start < |t|
    requires multiset(t[start := item][start..]) == multiset(w)
    ensures multiset(w)[item] >= 1
  {
    var v := t[start := item][start..];
    assert v[0] == item;
    assert item in multiset(v);
  }

  /** The block of item lies inside the array and holds a position whose value is not
      item: this is what keeps the equal-value skip loop in bounds. It needs the value
      still sitting at start to belong elsewhere. */
  lemma BlockHasRoom(t: seq<int>, start: int, item: int, w: seq<int>)
    requires 0 <= start < |t| && |w| == |t| - start
    requires multiset(t[start := item][start..]) == multiset(w)
    requires CountLess(w, t[start]) > 0
    ensures BlockStart(w, start, item) + multiset(w)[item] <= |t|
    ensures exists q :: InBlock(w, start, item, q) && 0 <= q < |t| && t[q] != item
  {
    var lo := BlockStart(w, start, item);
    var hi := lo + multiset(w)[item];
    CountLessPlusCopies(w, item);
    HeldItemInSuffix(t, start, item, w);
    if lo == start {
      assert InBlock(w, start, item, start);
    } else {
      CopiesAfterStart(t, start, item, w, lo, hi);
      OtherInRange(t, lo, hi, item);
      var q :| lo <= q < hi && t[q] != item;
      assert InBlock(w, start, item, q);
    }
  }

  /** Exchanging the held item with the value at pos keeps the multiset of the suffix,
      counted with the item put back at start. */
  lemma ExchangeKeepsSuffix(t: seq<int>, start: int, pos: int, item: int)
    requires 0 <= start < pos < |t|
    ensures multiset(t[pos := item][start := t[pos]][start..])
         == multiset(t[start := item][start..])
  {
    var v := t[start := item][start..];
    var u := t[pos := item][start := t[pos]][start..];
    assert u == v[0 := v[pos - start]][pos - start := v[0]];
  }

  /** Each value of the new suffix comes from the old one. */
  lemma FromSuffix(t: seq<int>, u: seq<int>, start: int, j: int)
    requires 0 <= start <= j < |u| == |t|
    requires multiset(u[start..]) == multiset(t[start..])
    ensures exists k :: start <= k < |t| && t[k] == u[j]
  {
    assert u[j] == u[start..][j - start];
    assert u[j] in multiset(t[start..]);
    var k :| 0 <= k < |t| - start && t[start..][k] == u[j];
    assert t[start + k] == u[j];
  }

  /** A value placed correctly against w stays correctly placed against the suffix one
      shorter, once the least value of w sits at start. */
  lemma BlockShift(u: seq<int>, w: seq<int>, start: int, p: int)
    requires 0 <= start < p < |u|
    requires multiset(u[start..]) == multiset(w)
    requires CountLess(w, u[start]) == 0
    requires InBlock(w, start, u[p], p)
    ensures InBlock(u[start + 1..], start + 1, u[p], p)
  {
    var m, x, w' := u[start], u[p], u[start + 1..];
    assert u[start..] == [m] + w';
    CountLessPerm(w, [m] + w', x);
    CountLessAppend([m], w', x);
    assert [m][..0] == [];
    assert multiset(w)[x] == multiset([m])[x] + multiset(w')[x];
    assert x in multiset(w) by { assert u[start..][p - start] == x; }
    var k :| 0 <= k < |w| && w[k] == x;
  }

  /** A cycle that only rearranged the suffix keeps the multiset of the whole. */
  lemma SuffixRearranged(t: seq<int>, u: seq<int>, start: int)
    requires 0 <= start <= |t| == |u|
    requires u[..start] == t[..start]
    requires multiset(u[start..]) == multiset(t[start..])
    ensures multiset(u) == multiset(t)
  {
    assert t == t[..start] + t[start..] && u == u[..start] + u[start..];
  }

  /** The sorted prefix grows by one once the least value of the suffix sits at start. */
  lemma PrefixGrows(t: seq<int>, u: seq<int>, start: int)
    requires 0 <= start < |t| == |u|
    requires u[..start] == t[..start]
    requires multiset(u[start..]) == multiset(t[start..])
    requires CountLess(t[start..], u[start]) == 0
    requires SortedRange(t, 0, start) && Partitioned(t, start)
    ensures SortedRange(u, 0, start + 1) && Partitioned(u, start + 1)
  {
    forall j | start <= j < |u| ensures exists k :: start <= k < |t| && t[k] == u[j] {
      FromSuffix(t, u, start, j);
    }
    forall i | 0 <= i < start ensures u[i] == t[i] {
      assert u[i] == u[..start][i];
    }
  }

  /** Every position placed against the old suffix is placed against the new, one
      shorter, so no position becomes misplaced by moving start on. */
  lemma MisplacedShrinks(t: seq<int>, u: seq<int>, start: int)
    requires 0 <= start < |t| == |u|
    requires multiset(u[start..]) == multiset(t[start..])
    requires CountLess(t[start..], u[start]) == 0
    ensures MisplacedCount(u, u[start + 1..], start + 1, start + 1, |u|)
         <= MisplacedCount(u, t[start..], start, start + 1, |u|)
  {
    forall p | start + 1 <= p < |u| && InBlock(t[start..], start, u[p], p)
      ensures InBlock(u[start + 1..], start + 1, u[p], p)
    {
      BlockShift(u, t[start..], start, p);
    }
    MisplacedCountMono(u, t[start..], start, u, u[start + 1..], start + 1, start + 1, |u|);
  }

  /** In a sorted sequence nothing after index k is less than s[k]. */
  lemma SortedNothingLessAfter(s: seq<int>, k: int)
    requires Sorted(s) && 0 <= k < |s|
    ensures CountLess(s[k + 1..], s[k]) == 0
  {
    var rest := s[k + 1..];
    assert forall i :: 0 <= i < |rest| ==> s[k] <= rest[i];
  }

  /** The invariant of the outer loop of CycleSort: s is a rearrangement of orig whose
      first start positions hold the start least values in order, the writes so far
      leave room for one per still misplaced position, and a sorted orig is untouched. */
  ghost predicate PrefixDone(orig: seq<int>, s: seq<int>, start: int, writes: nat) {
    0 <= start <= |s| && multiset(s) == multiset(orig)
    && SortedRange(s, 0, start) && Partitioned(s, start)
    && writes + MisplacedCount(s, s[start..], start, start, |s|) <= |s|
    && (Sorted(orig) ==> s == orig && writes == 0)
  }

  /** Before the first cycle nothing is done and nothing is written. */
  lemma PrefixDoneInitially(s: seq<int>)
    ensures PrefixDone(s, s, 0, 0)
  {
  }

  /** Once at most one position is left, the whole sequence is sorted. */
  lemma PrefixDoneFinally(orig: seq<int>, s: seq<int>, start: int, writes: nat)
    requires PrefixDone(orig, s, start, writes) && start >= |s| - 1
    ensures Sorted(s) && multiset(s) == multiset(orig) && writes <= |s|
    ensures Sorted(orig) ==> s == orig && writes == 0
  {
  }

  /** The step of the outer loop from t to u, where u is what the cycle rooted at start
      left (the postcondition of CycleFrom): the invariant carries over to start + 1. */
  lemma NextStart(orig: seq<int>, t: seq<int>, u: seq<int>, start: int, writes: nat, cycleWrites: nat)
    requires PrefixDone(orig, t, start, writes) && start < |t| == |u|
    requires u[..start] == t[..start]
    requires multiset(u[start..]) == multiset(t[start..])
    requires CountLess(t[start..], u[start]) == 0
    requires cycleWrites + MisplacedCount(u, t[start..], start, start + 1, |u|)
             <= MisplacedCount(t, t[start..], start, start, |t|)
    requires cycleWrites == 0 <==> CountLess(t[start + 1..], t[start]) == 0
    requires cycleWrites == 0 ==> u == t
    ensures PrefixDone(orig, u, start + 1, writes + cycleWrites)
  {
    SuffixRearranged(t, u, start);
    PrefixGrows(t, u, start);
    MisplacedShrinks(t, u, start);
    if Sorted(orig) {
      SortedNothingLessAfter(t, start);
    }
  }

  // ---------------------------------------------------------------------------------
  // The loops of the source

  /** The rank loop (lines 56-59 and 66-69): start plus the number of elements after
      start that are strictly less than item. */
  method Destination(a: array<int>, start: int, item: int) returns (pos: int)
    requires 0 <= start < a.Length
    ensures pos == start + CountLess(a[start + 1..], item)
  {
    pos := start;
    var i := start + 1;
    while i < a.Length
      invariant start + 1 <= i <= a.Length
      invariant pos == start + CountLess(a[start + 1..i], item)
    {
      assert a[start + 1..i + 1] == a[start + 1..i] + [a[i]];
      if a[i] < item {
        pos := pos + 1;
      }
      i := i + 1;
    }
    assert a[start + 1..a.Length] == a[start + 1..];
  }

  /** The equal-value skip loop (lines 62-63 and 70-71): it stops at the first position
      from pos on that does not hold item, and stays in bounds whenever such a position
      exists. */
  method SkipEqual(a: array<int>, pos: int, item: int) returns (p: int)
    requires 0 <= pos <= a.Length
    requires exists q :: pos <= q < a.Length && a[q] != item
    ensures pos <= p < a.Length && a[p] != item
    ensures forall q :: pos <= q < p ==> a[q] == item
  {
    p := pos;
    while a[p] == item
      invariant pos <= p < a.Length
      invariant forall q :: pos <= q < p ==> a[q] == item
      invariant exists q :: p <= q < a.Length && a[q] != item
      decreases a.Length - p
    {
      p := p + 1;
    }
  }

  /** One placement of the held item (lines 62-64 and 70-72), given its rank pos: skip
      the copies already in its block and exchange it with the value found there. That
      position lies in the item's block and held a value from another block. If it is
      not start, one more position is placed and the value taken from it is held next;
      if it is start, the cycle is closed and start holds the least value of w. */
  method PlaceItem(a: array<int>, start: int, pos: int, item: int, ghost w: seq<int>)
    returns (p: int, displaced: int)
    requires 0 <= start < a.Length && |w| == a.Length - start
    requires multiset(a[..][start := item][start..]) == multiset(w)
    requires CountLess(w, a[start]) > 0
    requires pos == start + CountLess(a[start + 1..], item)
    modifies a
    ensures start <= p < a.Length && InBlock(w, start, item, p)
    ensures displaced == old(a[p]) && displaced != item
    ensures a[..] == old(a[..])[p := item]
    ensures p != start ==> multiset(a[..][start := displaced][start..]) == multiset(w)
    ensures p != start ==> MisplacedCount(a[..], w, start, start + 1, a.Length) + 1
                           == MisplacedCount(old(a[..]), w, start, start + 1, a.Length)
    ensures p == start ==> multiset(a[start..]) == multiset(w) && CountLess(w, a[start]) == 0
    ensures p == start ==> MisplacedCount(a[..], w, start, start + 1, a.Length)
                           == MisplacedCount(old(a[..]), w, start, start + 1, a.Length)
  {
    ghost var t := a[..];
    DestinationIsBlockStart(t, start, item, w);
    BlockHasRoom(t, start, item, w);
    p := SkipEqual(a, pos, item);
    if p != start {
      BlocksDisjoint(w, start, item, t[p], p);
      MisplacedCountFix(t, w, start, p, item, start + 1, a.Length);
      ExchangeKeepsSuffix(t, start, p, item);
    } else {
      MisplacedCountMono(t, w, start, t[start := item], w, start, start + 1, a.Length);
      MisplacedCountMono(t[start := item], w, start, t, w, start, start + 1, a.Length);
    }
    a[p], displaced := item, a[p];
  }

  /** The cycle rooted at start (lines 54-72). Afterwards the prefix is untouched, the
      suffix is a rearrangement of what it was with its least value at start, and every
      write fixed one misplaced position. When nothing after start is smaller than the
      value there, nothing is written at all. */
  method CycleFrom(a: array<int>, start: int) returns (ghost writes: nat)
    requires 0 <= start < a.Length
    modifies a
    ensures a[..start] == old(a[..start])
    ensures multiset(a[start..]) == multiset(old(a[start..]))
    ensures CountLess(old(a[start..]), a[start]) == 0
    ensures writes + MisplacedCount(a[..], old(a[start..]), start, start + 1, a.Length)
            <= MisplacedCount(old(a[..]), old(a[start..]), start, start, a.Length)
    ensures writes == 0 <==> CountLess(old(a[start + 1..]), old(a[start])) == 0
    ensures writes == 0 ==> a[..] == old(a[..])
  {
    var n := a.Length;
    ghost var t := a[..];
    ghost var w := a[start..];
    var item := a[start];
    var pos := Destination(a, start, item);
    assert t[start := item] == t;
    DestinationIsBlockStart(t, start, item, w);
    if pos == start {
      return 0;
    }
    pos, item := PlaceItem(a, start, pos, item, w);
    writes := 1;
    while pos != start
      invariant start <= pos < n
      invariant a[..start] == t[..start]
      invariant pos != start ==> a[start] == t[start]
      invariant pos != start ==> multiset(a[..][start := item][start..]) == multiset(w)
      invariant pos == start ==> multiset(a[start..]) == multiset(w) && CountLess(w, a[start]) == 0
      invariant writes + MisplacedCount(a[..], w, start, start + 1, n)
                  + (if pos == start then 0 else 1) <= MisplacedCount(t, w, start, start, n)
      invariant writes > 0
      decreases MisplacedCount(a[..], w, start, start + 1, n) + (if pos == start then 0 else 1)
    {
      pos := Destination(a, start, item);
      pos, item := PlaceItem(a, start, pos, item, w);
      writes := writes + 1;
    }
  }

  /** Sorts `a` in place. The ghost result counts element writes: at most one per
      element, and none at all when the input is already sorted. */
  method CycleSort(a: array<int>) returns (ghost writes: nat)
    modifies a
    ensures Sorted(a[..])
    ensures multiset(a[..]) == multiset(old(a[..]))
    ensures writes <= a.Length
    ensures Sorted(old(a[..])) ==> a[..] == old(a[..]) && writes == 0
  {
    var n := a.Length;
    writes := 0;
    PrefixDoneInitially(a[..]);
    var start := 0;
    while start < n - 1
      invariant 0 <= start <= n
      invariant PrefixDone(old(a[..]), a[..], start, writes)
    {
      ghost var t := a[..];
      ghost var cycleWrites := CycleFrom(a, start);
      NextStart(old(a[..]), t, a[..], start, writes, cycleWrites);
      writes := writes + cycleWrites;
      start := start + 1;
    }
    PrefixDoneFinally(old(a[..]), a[..], start, writes);
  }
}
