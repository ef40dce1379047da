/** Counting elements smaller than a value, and counting inversions: the rank that
    cycle sort computes and the measure that makes the swap-driven loops finish. */
module Counting {

  /** Number of elements of s strictly less than x (counted from the end, the way the
      rank loop of cycle sort accumulates it). */
  function CountLess(s: seq<int>, x: int): (c: nat)
    ensures c <= |s|
    ensures c == 0 <==> forall i :: 0 <= i < |s| ==> x <= s[i]
  {
    if s == [] then 0
    else CountLess(s[..|s| - 1], x) + (if s[|s| - 1] < x then 1 else 0)
  }

  lemma {:induction false} CountLessAppend(s: seq<int>, t: seq<int>, x: int)
    ensures CountLess(s + t, x) == CountLess(s, x) + CountLess(t, x)
    decreases |t|
  {
    if t == [] {
      assert s + t == s;
    } else {
      assert (s + t)[..|s + t| - 1] == s + t[..|t| - 1];
      CountLessAppend(s, t[..|t| - 1], x);
    }
  }

  /** The count depends only on the multiset of the sequence. */
  lemma {:induction false} CountLessPerm(s: seq<int>, t: seq<int>, x: int)
    requires multiset(s) == multiset(t)
    ensures CountLess(s, x) == CountLess(t, x)
    decreases |s|
  {
    if s == [] {
      assert |t| == |multiset(t)| == 0;
    } else {
      var last := s[|s| - 1];
      assert s == s[..|s| - 1] + [last];
      assert last in multiset(t);
      var k :| 0 <= k < |t| && t[k] == last;
      assert t == t[..k] + [last] + t[k + 1..];
      var rest := t[..k] + t[k + 1..];
      assert multiset(s) == multiset(s[..|s| - 1]) + multiset{last};
      assert multiset(t) == multiset(t[..k]) + multiset{last} + multiset(t[k + 1..]);
      assert multiset(rest) == multiset(t[..k]) + multiset(t[k + 1..]);
      assert multiset(s[..|s| - 1]) == multiset(s) - multiset{last};
      assert multiset(rest) == multiset(t) - multiset{last};
      CountLessPerm(s[..|s| - 1], rest, x);
      CountLessAppend(t[..k] + [last], t[k + 1..], x);
      CountLessAppend(t[..k], [last], x);
      CountLessAppend(t[..k], t[k + 1..], x);
      assert [last][..0] == [];
    }
  }

  /** The copies of x, placed after every smaller element, still fit in s. */
  lemma {:induction false} CountLessPlusCopies(s: seq<int>, x: int)
    ensures CountLess(s, x) + multiset(s)[x] <= |s|
    decreases |s|
  {
    if s != [] {
      assert s == s[..|s| - 1] + [s[|s| - 1]];
      CountLessPlusCopies(s[..|s| - 1], x);
    }
  }

  /** Blocks of distinct values do not overlap: all copies of y < x come before the
      first position x would take. */
  lemma {:induction false} CountLessMonotone(s: seq<int>, y: int, x: int)
    requires y < x
    ensures CountLess(s, y) + multiset(s)[y] <= CountLess(s, x)
    decreases |s|
  {
    if s != [] {
      assert s == s[..|s| - 1] + [s[|s| - 1]];
      CountLessMonotone(s[..|s| - 1], y, x);
    }
  }

  /** Number of pairs i < j with s[i] > s[j]. */
  ghost function Inversions(s: seq<int>): nat
    decreases |s|
  {
    if s == [] then 0 else CountLess(s[1..], s[0]) + Inversions(s[1..])
  }

  /** Swapping an adjacent out-of-order pair removes exactly one inversion. */
  lemma {:induction false} SwapRemovesInversion(s: seq<int>, k: int)
    requires 0 <= k < |s| - 1 && s[k] > s[k + 1]
    ensures Inversions(s[k := s[k + 1]][k + 1 := s[k]]) == Inversions(s) - 1
    decreases k
  {
    var u := s[k := s[k + 1]][k + 1 := s[k]];
    if k == 0 {
      var x, y, t := s[0], s[1], s[2..];
      assert s[1..] == [y] + t;
      assert u[1..] == [x] + t;
      assert s[1..][1..] == t && u[1..][1..] == t;
      CountLessAppend([y], t, x);
      CountLessAppend([x], t, y);
      assert CountLess([y], x) == 1 by { assert [y][..0] == []; }
      assert CountLess([x], y) == 0 by { assert [x][..0] == []; }
    } else {
      var r := s[1..];
      assert u[1..] == r[k - 1 := r[k]][k := r[k - 1]];
      assert u[0] == s[0];
      SwapRemovesInversion(r, k - 1);
      assert multiset(u[1..]) == multiset(r);
      CountLessPerm(u[1..], r, s[0]);
    }
  }
}
