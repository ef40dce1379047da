/** The deterministic input generators of the benchmark: `np.arange(n)` for the best
    case and `np.arange(n - 1, -1, -1)` for the worst case. Both give the empty array
    when n <= 0. */
module Generators {
  import opened Ordering

  /** Best case: 0, 1, ..., n-1. */
  function BestCase(n: int): (r: seq<int>)
    ensures |r| == if n <= 0 then 0 else n
  {
    if n <= 0 then [] else seq(n, i => i)
  }

  /** Worst case: n-1, ..., 1, 0. */
  function WorstCase(n: int): (r: seq<int>)
    ensures |r| == if n <= 0 then 0 else n
  {
    if n <= 0 then [] else seq(n, i => n - 1 - i)
  }

  /** Reference definition of reversal, independent of the generators. */
  function Reverse(s: seq<int>): (r: seq<int>)
    ensures |r| == |s|
  {
    if s == [] then [] else Reverse(s[1..]) + [s[0]]
  }

  lemma {:induction false} ReverseAt(s: seq<int>, k: int)
    requires 0 <= k < |s|
    ensures Reverse(s)[k] == s[|s| - 1 - k]
    decreases |s|
  {
    if k < |s| - 1 {
      ReverseAt(s[1..], k);
    }
  }

  lemma {:induction false} ReverseMultiset(s: seq<int>)
    ensures multiset(Reverse(s)) == multiset(s)
    decreases |s|
  {
    if s != [] {
      ReverseMultiset(s[1..]);
      assert s == [s[0]] + s[1..];
    }
  }

  /** The best case is ascending: sorted, and each element is bigger than the one before. */
  lemma BestCaseAscending(n: int)
    ensures Sorted(BestCase(n))
    ensures forall i :: 0 < i < |BestCase(n)| ==> BestCase(n)[i - 1] < BestCase(n)[i]
  {
  }

  /** The worst case is the best case read backwards. */
  lemma WorstCaseIsReversedBestCase(n: int)
    ensures WorstCase(n) == Reverse(BestCase(n))
  {
    var b := BestCase(n);
    forall k | 0 <= k < |b| ensures Reverse(b)[k] == WorstCase(n)[k] {
      ReverseAt(b, k);
    }
  }

  /** The worst case is strictly descending, hence as far from sorted as possible. */
  lemma WorstCaseDescending(n: int)
    ensures forall i :: 0 < i < |WorstCase(n)| ==> WorstCase(n)[i - 1] > WorstCase(n)[i]
    ensures n >= 2 ==> !Sorted(WorstCase(n))
  {
    if n >= 2 {
      assert WorstCase(n)[0] > WorstCase(n)[1];
    }
  }

  /** Both generators hold the same elements. */
  lemma GeneratorsSameMultiset(n: int)
    ensures multiset(WorstCase(n)) == multiset(BestCase(n))
  {
    WorstCaseIsReversedBestCase(n);
    ReverseMultiset(BestCase(n));
  }

  /** The best case holds each of 0..n-1 exactly once and nothing else. */
  lemma {:induction false} BestCaseIsPermutationOfRange(n: int)
    ensures forall v :: multiset(BestCase(n))[v] == if 0 <= v < n then 1 else 0
    decreases if n <= 0 then 0 else n
  {
    if n > 0 {
      BestCaseIsPermutationOfRange(n - 1);
      assert BestCase(n) == BestCase(n - 1) + [n - 1];
    }
  }

  /** Hence the worst case is a permutation of 0..n-1 as well. */
  lemma WorstCaseIsPermutationOfRange(n: int)
    ensures forall v :: multiset(WorstCase(n))[v] == if 0 <= v < n then 1 else 0
  {
    GeneratorsSameMultiset(n);
    BestCaseIsPermutationOfRange(n);
  }
}
