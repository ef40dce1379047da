/** What the benchmark driver relies on when it hands a generated case to a sort: the
    sort runs on a copy (`caso.copy()`), so the generated case is left as it was, and
    whichever sort runs, the copy comes back as the one sorted arrangement of its
    elements. Timing, memory figures and the CSV output are not modelled. */
module Benchmark {
  import opened Ordering
  import opened Generators
  import CocktailShaker
  import CombSort
  import CycleSort

  /** The three algorithms the driver can choose from. */
  datatype Algorithm = Shaker | Comb | Cycle

  /** `funcao_ordenacao(caso.copy())` without the clock: the chosen sort runs on a fresh
      array holding the case, and the sorted copy is returned. */
  method SortCopy(alg: Algorithm, input: seq<int>) returns (output: seq<int>)
    ensures Sorted(output) && multiset(output) == multiset(input)
    ensures Sorted(input) ==> output == input
  {
    var buffer := new int[|input|](i requires 0 <= i < |input| => input[i]);
    assert buffer[..] == input;
    match alg {
      case Shaker =>
        ghost var passes := CocktailShaker.CocktailShakerSort(buffer);
      case Comb =>
        CombSort.CombSort(buffer);
      case Cycle =>
        ghost var writes := CycleSort.CycleSort(buffer);
    }
    output := buffer[..];
  }

  /** Sorting the best or the worst case of size n gives the best case of size n. */
  lemma GeneratedCaseSortsToBestCase(n: int, output: seq<int>)
    requires Sorted(output)
    requires multiset(output) == multiset(BestCase(n)) || multiset(output) == multiset(WorstCase(n))
    ensures output == BestCase(n)
  {
    GeneratorsSameMultiset(n);
    BestCaseAscending(n);
    SortedUnique(output, BestCase(n));
  }
}
