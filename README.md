# eda-complexidade in Dafny

eda-complexidade benchmarks three in-place comparison sorts on integer arrays:
cocktail-shaker sort, comb sort and cycle sort. Each runs on a best case (`0..n-1`
ascending) and a worst case (`n-1..0` descending) for a range of sizes. This project
models the three sorts as imperative Dafny methods over an `array<int>`, in the same
loops and branches as the source, together with the two deterministic generators. It
proves what the benchmark relies on:

- every sort leaves the array sorted and holding the same elements (a permutation);
- an input that is already sorted comes back unchanged;
- every loop terminates, including comb sort's outer loop and cycle sort's inner cycle;
- the index reads of cycle sort's equal-value skip loops stay in bounds, for any input,
  duplicates included;
- cycle sort writes at most n times and writes nothing on a sorted input;
- cocktail-shaker sort stops after one forward pass on a sorted input;
- the best and worst cases are permutations of `0..n-1`, one the reverse of the other,
  and sorting either gives the best case.

Modules follow the source's functions:

- `Ordering` holds the order predicates, the compare-and-swap step and uniqueness of
  sorted arrangements.
- `Counting` holds the rank count used by cycle sort and the inversion count.
- `Generators` holds `gerar_melhor_caso` and `gerar_pior_caso`.
- `CocktailShaker`, `CombSort` and `CycleSort` hold the three sorts.
- `Benchmark` holds the "sort a copy of the case" step of the driver.

Element values are compared but never combined arithmetically, so unbounded `int`s
model the int64 elements of the numpy arrays exactly. Comb sort's `int(gap / 1.3)` is
computed on integers as `gap * 10 / 13`. The double nearest to 1.3 is off by less
than half a unit in the last place, and a gap that is not a multiple of 13 leaves a
fractional part of at least 1/13. So the floor of the floating-point quotient equals
the integer one for every gap below 2^53 / 10, which covers every array that fits in
memory.

The cycle sort is proved for arbitrary inputs. The proof fixes, at each start
index, the suffix the cycle rearranges. Each value x gets a block of positions: it
starts after all smaller values of the suffix and is as long as the number of copies
of x. Each write places the held value in its own block, on a position that held a
value from another block. So the number of misplaced positions falls by one per write.
This both ends the cycle and bounds the total writes by the length.

## Model

| member | source | states |
|---|---|---|
| Ordering.CompareExchange | eda-complexidade.py:19-20 | the exchange happens exactly when the left value is greater; afterwards the pair is in order, the array is that pair exchanged or unchanged, and the multiset is kept |
| Ordering.SortedUnique | eda-complexidade.py:112-116 | two sorted sequences with the same elements are equal, so the interchangeable algorithms of the menu all produce the same output for the same input |
| Counting.CountLess | eda-complexidade.py:57-59 | the count of elements below x is at most the length, and zero exactly when no element is below x |
| Counting.CountLessAppend | eda-complexidade.py:57-59 | the count over a concatenation is the sum of the counts over the parts |
| Counting.CountLessPerm | eda-complexidade.py:57-59 | the rank count depends only on the multiset of the elements counted |
| Counting.CountLessPlusCopies | eda-complexidade.py:62-63 | the elements below x plus the copies of x fit in the sequence |
| Counting.CountLessMonotone | eda-complexidade.py:62-63 | all copies of a smaller value y come before the rank of a larger value x |
| Counting.SwapRemovesInversion | eda-complexidade.py:19-20 | swapping an adjacent out-of-order pair lowers the inversion count by exactly one |
| Generators.BestCase | eda-complexidade.py:86-87 | `np.arange(n)` has length n, or 0 when n <= 0 |
| Generators.WorstCase | eda-complexidade.py:89-90 | `np.arange(n - 1, -1, -1)` has length n, or 0 when n <= 0 |
| Generators.ReverseAt | eda-complexidade.py:89-90 | the k-th element of the reversal of s is the k-th from the end of s |
| Generators.ReverseMultiset | eda-complexidade.py:89-90 | reversal keeps the multiset |
| Generators.BestCaseAscending | eda-complexidade.py:86-87 | the best case is sorted and strictly ascending |
| Generators.WorstCaseIsReversedBestCase | eda-complexidade.py:89-90 | the worst case is the best case reversed |
| Generators.WorstCaseDescending | eda-complexidade.py:89-90 | the worst case is strictly descending and, for n >= 2, unsorted |
| Generators.GeneratorsSameMultiset | Testes/CycleSort.py:43-47 | the best and worst cases hold the same elements |
| Generators.BestCaseIsPermutationOfRange | Testes/CycleSort.py:43-44 | the best case holds each of 0..n-1 exactly once and nothing else |
| Generators.WorstCaseIsPermutationOfRange | Testes/CycleSort.py:46-47 | the worst case holds each of 0..n-1 exactly once and nothing else |
| CocktailShaker.PermutingWindowKeepsSettled | eda-complexidade.py:18-29 | a pass that rearranges only the inside of the window leaves the settled outside settled |
| CocktailShaker.ForwardPassSettles | eda-complexidade.py:18-25 | after the forward pass carries the window maximum to `fim`, the window may shrink at its right end |
| CocktailShaker.BackwardPassSettles | eda-complexidade.py:25-30 | after the backward pass carries the window minimum to `inicio`, the window may shrink at its left end |
| CocktailShaker.QuietPassSorts | eda-complexidade.py:22-23 | a pass over the window that found it in order means the whole array is sorted |
| CocktailShaker.ForwardPass | eda-complexidade.py:18-21 | only the window is rearranged; a swap means the window maximum ends at `fim`; no swap exactly when the window was already in order, and then the array is unchanged |
| CocktailShaker.BackwardPass | eda-complexidade.py:26-29 | only the window is rearranged; the window minimum ends at `inicio`; no swap means the window is in order |
| CocktailShaker.CocktailShakerSort | eda-complexidade.py:11-30 | the array ends sorted and holds the same elements; a sorted input is left unchanged after exactly one forward pass |
| CombSort.ShrinkGap | eda-complexidade.py:40 | `int(g / 1.3)` never grows the gap and strictly shrinks any positive gap |
| CombSort.NextGap | eda-complexidade.py:40-43 | the next gap is at least 1, strictly smaller than a gap above 1, and is 1 exactly when the shrunk gap is at most 1 |
| CombSort.GapStaysOne | eda-complexidade.py:41-43 | once the gap is 1 it stays 1 |
| CombSort.GapReachesOne | eda-complexidade.py:39-43 | from any starting gap g, the gap is 1 after max(g, 1) passes |
| CombSort.GapPass | eda-complexidade.py:44-49 | the multiset is kept; no swap leaves the array unchanged; a gap-1 pass without a swap finds it sorted, and one with a swap removes at least one inversion; a sorted array causes no swap |
| CombSort.CombSort | eda-complexidade.py:34-49 | the array ends sorted and holds the same elements; a sorted input is left unchanged |
| CycleSort.MisplacedCountMono | eda-complexidade.py:64 | if every placed position stays placed, the misplaced count does not grow |
| CycleSort.MisplacedCountFix | eda-complexidade.py:64 | writing into a misplaced position a value whose block contains it fixes exactly one position |
| CycleSort.OtherInRange | eda-complexidade.py:62-63 | a range with fewer copies of x than positions has a position without x |
| CycleSort.BlocksDisjoint | eda-complexidade.py:62-63 | the blocks of two different values do not overlap |
| CycleSort.DestinationIsBlockStart | eda-complexidade.py:56-59 | the destination the source counts is the first position of the held value's block |
| CycleSort.CopiesAfterStart | eda-complexidade.py:62-63 | past the start index there is at least one copy of the held value fewer than in the suffix |
| CycleSort.HeldItemInSuffix | eda-complexidade.py:55 | the held value occurs in the suffix being rearranged |
| CycleSort.BlockHasRoom | eda-complexidade.py:62-63 | the held value's block lies inside the array and has a position not holding the value, so `while item == lista[pos]` stops in bounds |
| CycleSort.ExchangeKeepsSuffix | eda-complexidade.py:64 | the exchange `lista[pos], item = item, lista[pos]` keeps the suffix multiset, counting the held value at the start index |
| CycleSort.FromSuffix | eda-complexidade.py:54-72 | every value of the rearranged suffix came from the old suffix |
| CycleSort.BlockShift | eda-complexidade.py:54 | once the start index holds the suffix minimum, a placed position is also placed relative to the next, shorter suffix |
| CycleSort.SuffixRearranged | eda-complexidade.py:54-72 | rearranging the suffix with the prefix kept rearranges the whole array |
| CycleSort.PrefixGrows | eda-complexidade.py:54-72 | a sorted, partitioned prefix grows by one once the start index holds the suffix minimum |
| CycleSort.MisplacedShrinks | eda-complexidade.py:54 | moving to the next start index makes no position misplaced |
| CycleSort.SortedNothingLessAfter | eda-complexidade.py:60-61 | on a sorted array no later element is below the value at the start index, so the destination is the start and the cycle is skipped |
| CycleSort.PrefixDoneInitially | eda-complexidade.py:53-54 | before the first cycle the outer invariant holds with no writes |
| CycleSort.PrefixDoneFinally | eda-complexidade.py:54 | when the outer loop ends the array is sorted, a permutation of the input, written at most n times, and unchanged if the input was sorted |
| CycleSort.NextStart | eda-complexidade.py:54-72 | one cycle carries the outer invariant from start index s to s + 1 |
| CycleSort.Destination | Testes/CycleSort.py:14-17 | `pos` is the start index plus the count of later elements below `item` (also eda-complexidade.py:56-59 and 66-69, Testes/CycleSort.py:24-27) |
| CycleSort.SkipEqual | eda-complexidade.py:62-63 | the skip stops at the first later position not holding `item`, in bounds, and everything skipped holds `item` (also lines 70-71, Testes/CycleSort.py:20-21 and 28-29) |
| CycleSort.PlaceItem | eda-complexidade.py:62-64 | the item is written into its own block at a position that held another value; the displaced value becomes the item, the suffix multiset is kept and the misplaced count drops by one |
| CycleSort.CycleFrom | eda-complexidade.py:55-72 | the prefix is untouched and the suffix rearranged; the start index ends holding the suffix minimum; the writes fit the misplaced count; no write happens exactly when the destination equals the start, and then nothing changes |
| CycleSort.CycleSort | Testes/CycleSort.py:10-30 | the array ends sorted and holds the same elements, with at most n writes; a sorted input is unchanged with zero writes (also eda-complexidade.py:52-72) |
| Benchmark.SortCopy | eda-complexidade.py:144 | each sort runs on a fresh copy of the case, so the case is kept, and the result is sorted and a permutation of the case, and equal to it when the case is sorted (also lines 149 and 157, Testes/CycleSort.py:76 and 81) |
| Benchmark.GeneratedCaseSortsToBestCase | eda-complexidade.py:143-149 | sorting the best or the worst case of size n gives the best case of size n |

## Left out

- Timing (`medir_tempo_memoria`, eda-complexidade.py:75-80): the clock is I/O. The
  sorts are modelled without it.
- Memory figure (eda-complexidade.py:81-84): `lista.nbytes` is n times the 8-byte
  element width, divided by 2^20. It is a floating-point value that does not depend on
  the algorithm, and it is not modelled.
- Random case (`gerar_caso_aleatorio`, eda-complexidade.py:92-95, Testes/CycleSort.py:49-52):
  randomness is not modelled. `SortCopy` covers any input, shuffled ones included.
- CSV sink (`salvar_resultados_csv`, eda-complexidade.py:97-109, Testes/CycleSort.py:54-65):
  file I/O.
- The driver `main` (eda-complexidade.py:112-160, Testes/CycleSort.py:67-96) is not
  modelled: it reads the user's choice, prints, looks up the algorithm by name, loops
  over the sizes and averages five random runs. The only fact about it in the model is
  that each sort runs on a copy (`SortCopy`).
- `@njit` compilation by numba: it changes speed, not behaviour.
- CycleSort.CycleSort: the write count is a ghost result, counting the
  `lista[pos], item = item, lista[pos]` exchanges. It is not a value the source returns.
- CocktailShaker.CocktailShakerSort: the forward-pass count is a ghost result. It is stated
  only for sorted inputs, where it is exactly one.
