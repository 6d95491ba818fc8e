# inf8775 cores in Dafny

This project models the algorithmic cores of three course assignments of the
`inf8775` repository and proves properties of the models. Each core is
written as pure functions over immutable values. Where the source mutates an
object (`Candidate.push`, `QNode::exchange`, the tabu search state), the
model maps the old state to the new one.

- **Box stacking** (`assignment2/sources/utils.py`, `assignment2/sources/algos.py`).
  A box `[height, width, depth]` may rest on another box only when it is
  strictly narrower and strictly shallower.
  - `Boxes`: dominance, chains and `compute_height`.
  - `Candidates`: `bisect` and the incremental stack `Candidate.push`. It
    finds the insertion index with two bisections and evicts the boxes the
    new box cannot carry. A trial push reports the resulting height; a
    committed push splices the box in.
  - `DynProg`: `DynProgAlgo.solve`. It sorts by footprint area, fills the
    longest-weighted-chain table with its dependency links, and follows the
    links back from the first maximum. `Candidate.height` of `algos.py`
    reports that stack's height.
- **Skyline** (`assignment1/sources/algos.py`), in module `Skyline`.
  `IDCAlgo.merge` merges two lists of critical points `[x, h]`. `IDCAlgo.solve`
  splits the buildings at `(n + 1) // 2`, and `DCAlgo.conquer` turns one
  building into two points. The outline a point list describes (`SkyAt`) is
  compared with a reference outline: the tallest building over each abscissa
  (`Highest`).
- **Quadratic assignment** (`assignment3/src/ILS.cc`,
  `assignment3/src/tabuSearch.cpp` and its earlier revision
  `assignment3/src/tabuSearch.cc`).
  - `Ils`: the `QNode` objective, its O(n) swap delta, `exchange`, one
    2-opt step, `contains`, and the population sort.
  - `TabuQap`: the cost over adjacency lists and the incremental move cost,
    plus the tabu test, the bounded tabu deque and the choice of neighbour.
    It also models one step of the tabu phase and one step of the descent
    phase, for both revisions (`Revision = Cpp | Cc`).

Support modules:
- `Wrappers`: `Result` and `Option`.
- `Sums`: vector and matrix sums, `Swap`, permutations.
- `Sorting`: a stable insertion sort by an integer key.

A Python exception or a C++ `exit(1)` becomes an `Err` value. Random draws
(pairs `i, j`, pairs `r, s`, the neighbourhood) become parameters.

Points where the model follows the code's own behaviour:
- In `push`, the insertion index is called `end` and the stop of the
  eviction scan `start`. The model calls them `InsertIndex` and `EvictStop`.
- `GreedyAlgo.solve` and `TabuAlgo.solve` of the box-stacking assignment are
  stubs that return `[]`.
- `compute_height` raises on an empty list, because `zip(*[])` has nothing
  to unpack. The model returns `Err(EmptyBlocks)`.

## Model

| member | source | states |
|---|---|---|
| Boxes.ComputeHeight | assignment2/sources/utils.py:4-6 | An empty list is an error (nothing for `zip` to unpack). Otherwise the result is the sum of the boxes' heights. |
| Candidates.Bisect | assignment2/sources/utils.py:8-17 | On a list whose keys never increase, the result splits the list: every key before it is greater than the value's key and every key from it on is not. |
| Candidates.BisectRange | assignment2/sources/utils.py:11-16 | The `lo`/`hi` loop keeps its invariant: what was known below `lo` and from `hi` on still holds around the returned index. |
| Candidates.InsertIndex | assignment2/sources/utils.py:39-40 | The smaller of the width and depth bisections. On a chain, every box below it can carry the new box and no box from it on can. |
| Candidates.Scan | assignment2/sources/utils.py:43-47 | The eviction scan skips only boxes the new box cannot carry. It stops at the first box it can carry, or at the top. The running height drops by exactly the skipped heights. |
| Candidates.Push | assignment2/sources/utils.py:37-54 | The reported height is the cached height plus the new box minus the evicted boxes, and no evicted box could rest on the new box. A trial leaves the candidate unchanged. A commit caches the reported height and records the evicted boxes. |
| Candidates.PushKeepsHeightSum | assignment2/sources/utils.py:42-52 | If the cached height was the sum of the stacked heights, it still is after a commit. |
| Candidates.PushKeepsChain | assignment2/sources/utils.py:49-52 | A commit on a dominance chain yields a dominance chain. |
| Candidates.PushSplitsByDominance | assignment2/sources/utils.py:37-52 | On a chain, a commit keeps the boxes that carry the new box, then the new box, then the boxes it carries, in their order. The evicted boxes are exactly those incomparable with the new box. |
| Candidates.PushKeepsOrder | assignment2/sources/utils.py:50-51 | The old stack is the new stack with the new box replaced by the evicted boxes. |
| DynProg.SortByArea | assignment2/sources/algos.py:21 | The result is a permutation of the boxes, ordered by non-increasing width × depth. |
| DynProg.BuildTable | assignment2/sources/algos.py:24-38 | Each `table[j]` is box `j`'s height plus the best table entry among earlier boxes that carry it. `dependency[j]` is the first earlier carrier reaching that best, and it is -1 exactly when no carrier has a positive entry. |
| DynProg.TableBoundsChains | assignment2/sources/algos.py:28-38 | No chain of the sorted boxes that ends at `j` is taller than `table[j]`. |
| DynProg.TraceAttainsTable | assignment2/sources/algos.py:40-42 | Following the dependency links back from `j` gives a chain whose height is exactly `table[j]`. |
| DynProg.Trace | assignment2/sources/algos.py:40-42 | The traced indices end at the starting box and stay within the boxes before it. |
| DynProg.FirstArgMax | assignment2/sources/algos.py:40 | The index holds a maximum of the table, and every earlier entry is strictly smaller (the first maximum, as Python's `max` returns). |
| DynProg.PickedChain | assignment2/sources/algos.py:44 | The boxes picked along a chain of indices form a strict dominance stack of the same height. |
| DynProg.CarrierHasLargerArea | assignment2/sources/algos.py:21 | With positive footprints, a box that carries another has the larger area, so sorting by area puts carriers first. |
| DynProg.StackInSortedOrder | assignment2/sources/algos.py:21-38 | With positive footprints, every stack of the input boxes appears in the area-sorted list as a chain of increasing indices. |
| DynProg.Solve | assignment2/sources/algos.py:19-44 | An empty list is an error (`zip` unpacking). Otherwise the sorted list is a permutation ordered by area. The returned stack is a non-empty strict dominance chain of input boxes, as tall as any chain of the sorted list. With positive footprints it is as tall as any stack of the input boxes. |
| DynProg.DpCandidateHeight | assignment2/sources/algos.py:46-55 | An empty list is an error. Otherwise the height is that of some stack of input boxes. With positive footprints, no stack of input boxes is taller. |
| Skyline.Append | assignment1/sources/algos.py:53-57 | Adding a raised point leaves a non-empty list. The list holds only earlier points and the new one. |
| Skyline.AppendShape | assignment1/sources/algos.py:53-57 | Adding a point never creates two consecutive equal heights. If no earlier point lies to its right, abscissas stay strictly increasing. |
| Skyline.AppendOutline | assignment1/sources/algos.py:53-57 | If no earlier point lies to its right, the outline is unchanged before the new point and takes its height from it on. |
| Skyline.TakeSecondStep | assignment1/sources/algos.py:42-57 | Taking the second half's point when the first half is used up or lies strictly further right preserves the merge invariant. |
| Skyline.TakeFirstStep | assignment1/sources/algos.py:42-57 | Taking the first half's point (ties go to the first half) preserves the merge invariant. |
| Skyline.Merge | assignment1/sources/algos.py:33-59 | The result is empty only when both halves are, and no two consecutive points share a height. For halves sorted by abscissa, abscissas strictly increase and the outline at every `x` is the higher of the two halves' outlines. |
| Skyline.Conquer | assignment1/sources/algos.py:75-76 | An empty list is an error (`buildings[0]`). For a well-formed first building, the two points are sorted and trace exactly that building's outline. |
| Skyline.Solve | assignment1/sources/algos.py:61-67 | With a threshold of at least 1, an empty list is the only error. With a threshold below 1 every call fails: on an empty list with threshold 0 `conquer` fails, and otherwise the split recurses on a list equal to its own first half until Python's recursion limit. With well-formed buildings the result is sorted by abscissa. A merged result has no repeated consecutive heights. With threshold 1 the outline equals the tallest building over every abscissa. |
| Skyline.DivideAndConquer | assignment1/sources/algos.py:71-76 | `DCAlgo`: an empty list is an error. For well-formed buildings the result is sorted and its outline is the tallest building over every abscissa. |
| Ils.CalculateValue | assignment3/src/ILS.cc:148-163 | The nested loops compute the QAP objective: the sum over all facility pairs of flow times distance between their locations. |
| Ils.SwapDelta | assignment3/src/ILS.cc:166-191 | Swapping a facility with itself changes the objective by 0. What the delta means for other pairs is stated by Ils.SwapDeltaExact. |
| Ils.SwapDeltaExact | assignment3/src/ILS.cc:166-191 | For any two facilities, the objective after the swap is the objective before plus the O(n) delta. |
| Ils.SwapDeltaAntisymmetric | assignment3/src/ILS.cc:166-191 | The delta computed on the swapped assignment is the negation of the original delta. |
| Ils.Exchange | assignment3/src/ILS.cc:139-145 | The locations of `i` and `j` trade places and nothing else moves. The assignment stays a rearrangement of the same locations. A node whose cached value was its objective still has that property. |
| Ils.ExchangeSelf | assignment3/src/ILS.cc:139-145 | Exchanging a facility with itself changes nothing, value included. |
| Ils.ExchangeTwiceRestores | assignment3/src/ILS.cc:313-325 | Exchanging the same pair twice restores the node, value included, which the 2-opt revert relies on. |
| Ils.TwoOptStep | assignment3/src/ILS.cc:313-325 | One drawn pair never raises the value. An exchange that does not raise the value is kept; one that raises it is undone, leaving the node unchanged. The result keeps the same locations and keeps the cached value exact. |
| Ils.CopyGuardAdmitsNegative | assignment3/src/ILS.cc:97-104 | The constructor's entry check as written accepts `[-1]` with one facility, although `-1` does not index the matrices. |
| Ils.NewQNode | assignment3/src/ILS.cc:91-104 | With the evidently intended check, construction succeeds exactly when every entry indexes the matrices. On success the node holds the entries and their exact objective. |
| Ils.Contains | assignment3/src/ILS.cc:228-239 | True exactly when the value is among the first `n` entries. |
| Ils.SortPopulation | assignment3/src/ILS.cc:375-376 | The population is permuted into ascending value order (the `DescendingSort` comparison), so its head has the least value of all. |
| TabuQap.CalculateCost | assignment3/src/tabuSearch.cpp:182-190 | Twice the cost brackets the sum over all adjacencies. The later revision (`>> 1`) rounds down. The earlier one (`/ 2`, tabuSearch.cc lines 214-222) rounds toward zero, so a negative odd sum rounds up. |
| TabuQap.MoveCost | assignment3/src/tabuSearch.cpp:168-180 | Swapping a facility with itself costs nothing. What the move cost means for other pairs is stated by TabuQap.CostAfterSwap. |
| TabuQap.MoveCostSymmetric | assignment3/src/tabuSearch.cpp:168-180 | The move cost of a pair does not depend on the order in which the pair is given. |
| TabuQap.RawCostEven | assignment3/src/tabuSearch.cpp:182-190 | On a symmetric problem every adjacency is counted from both ends, so the sum before halving is even, whatever the sign of the flows. |
| TabuQap.HalvingsAgree | assignment3/src/tabuSearch.cpp:182-190 | On a symmetric problem the later revision's `>> 1` and the earlier revision's `/ 2` (tabuSearch.cc lines 214-222) give the same cost, exactly half the sum. |
| TabuQap.CostAfterSwap | assignment3/src/tabuSearch.cpp:168-190 | On a symmetric problem, the cost after swapping `r` and `s` is the cost before plus `moveCost`. Symmetric means symmetric flow, no self-loops, and each neighbour listed as often from one end as from the other, which covers repeated edge lines stored from both ends. This holds for both revisions and for flows of either sign. |
| TabuQap.CheckMove | assignment3/src/tabuSearch.cpp:193-219 | A move is allowed exactly when no tabu entry names `r` or `s` at the location that facility holds now. |
| TabuQap.TabuLength | assignment3/src/tabuSearch.cpp:29 | The later revision uses a tenth of the dimension above 750 and a twentieth otherwise. The earlier revision always uses a tenth (tabuSearch.cc line 36). |
| TabuQap.AddTabu | assignment3/src/tabuSearch.cpp:121-128 | The deque grows by at most one, ends with the new move, and is a suffix of the old deque plus the move. While the deque is shorter than the tabu length nothing is dropped; otherwise exactly one entry is dropped from the front, so it never exceeds the tabu length once within it. |
| TabuQap.SelectMove | assignment3/src/tabuSearch.cpp:74-96 | The selected neighbour is the first acceptable one in queue order. The head is accepted when it is not tabu or beats the best cost. Later neighbours are accepted when not tabu and their cost differs from the current cost. `None` means that no neighbour is acceptable. |
| TabuQap.SelectFrom | assignment3/src/tabuSearch.cpp:86-92 | The popping loop returns the first acceptable neighbour from position `k` on, or `None` if none is. |
| TabuQap.TabuStep | assignment3/src/tabuSearch.cpp:98-145 | The best cost either strictly drops, and then the best solution is the swapped current one and failures reset, or it stays with the same solution. A neighbour cheaper than the best becomes the best with its own cost; any other neighbour leaves the best solution and its cost as they were. The deque records the move with the two facilities and the locations they hold after the swap. Unless the phase hands over, the current solution is the swapped one at the neighbour's cost; on a handover it is the best one. Without improvement the phase hands over exactly at the failure limit; otherwise it counts one more failure. A handover resets the count in the later revision and keeps the incremented count in the earlier one. The deque stays bounded and both solutions stay permutations. |
| TabuQap.TabuStepKeepsCosts | assignment3/src/tabuSearch.cpp:98-109 | On a symmetric problem (as for TabuQap.CostAfterSwap), when the neighbour was priced as current cost plus move cost, both cached costs remain the costs of their solutions after the step. |
| TabuQap.Next | assignment3/src/tabuSearch.cpp:130-145 | An improvement resets failures and stays in the tabu phase. Without improvement the phase hands over to the descent exactly when the incremented failure count reaches the limit (2500 in the earlier revision, `maxFails_` in the later one). Staying in the tabu phase keeps the current solution and counts one more failure. Handing over replaces the current solution by the best one, and the later revision resets the count to 0. |
| TabuQap.DescentStep | assignment3/src/tabuSearch.cpp:147-164 | The swap of `r` and `s` is taken exactly when its move cost is at most 0 in the later revision (`<=`), or below 0 in the earlier one (`<`). A taken swap becomes the best and current solution at the best cost plus the move cost. Otherwise the best solution, its cost and the current solution stay. The best cost never rises. The tabu state is untouched, the solutions stay permutations, and the current solution stays the best one. |
| TabuQap.DescentStepKeepsCost | assignment3/src/tabuSearch.cpp:152-163 | On a symmetric problem (as for TabuQap.CostAfterSwap), a descent swap priced from the best cost keeps the best cost equal to the cost of the best solution, whether the swap is taken or not. |

## Left out

- I/O and drivers are not modelled: file parsing, command-line handling, timing, printing, `printSolution`, the `main` files and `input.cc`/`input.cpp`.
- `GreedyAlgo.solve` and `TabuAlgo.solve` (assignment2) are stubs returning `[]`. `NaiveAlgo.solve` (assignment1) is a stub too, so `DCThresAlgo` adds nothing beyond `IDCAlgo.solve`.
- `Candidate.update` of `assignment2/sources/algos.py` is not modelled. It is unused, and its `while upper` loop never ends once it meets a box it does not evict.
- `Candidate.__init__` of `utils.py` is the `Candidate` constructor with an empty `tabu`; it has no member of its own.
- The outer loops are not modelled: ILS `execute` with its population generation and shuffling, `twoOptImprovement`'s 50000 iterations, and the endless `while (true)` of the tabu search. Their random draws are parameters of the single steps that are modelled.
- Floating point is not modelled: the annealing temperature `T` and `WORSE_ACCEPTANCE_PROB` (whose use is commented out).
- C++ `int` overflow is not modelled. Sums and products are unbounded integers, so the objective, delta and cost identities hold as long as the source's 32-bit arithmetic does not overflow.
- Memory management (`new`/`delete`, `clone`, the copy constructor and assignment operator) is not modelled.
- In-place aliasing is not modelled. `merge` raises the points of its halves in place, but the halves are fresh lists that nothing else reads.
- DynProg.SortByArea: `list.sort(reverse=True)` is stable, so it is modelled as the stable ascending sort on the negated area.
- Ils.SortPopulation: `std::sort` is not stable; the model fixes one outcome (the stable one) and states only what every outcome shares.
- Skyline.Solve: with a threshold below 1 the model returns `Err(RecursionLimit)` for the `RecursionError` the source's unbounded recursion raises. It does not model the recursion depth at which Python stops.
- Skyline.Solve: the outline theorem is stated for threshold 1 only (`DCAlgo`). With a larger threshold `conquer` keeps only the first building of each slice.
- TabuQap.CostAfterSwap: requires a symmetric problem: symmetric flow, no self-loops, and each neighbour listed as often from one end as from the other. `input.cpp` stores every edge line from both ends, so repeated lines are covered. Problems outside that shape are not covered: asymmetric flow, a one-sided adjacency, a neighbour listed more often from one end, or a self-loop.
- TabuQap.TabuStepKeepsCosts: requires the same symmetric problem as TabuQap.CostAfterSwap, for the same reason.
- TabuQap.DescentStepKeepsCost: requires the same symmetric problem as TabuQap.CostAfterSwap, for the same reason.
- TabuQap.TabuStep: the neighbourhood itself (random pairs priced as current cost plus move cost, popped in cost order) is a parameter. Ties in the priority queue are broken in an unspecified order, so the queue's order is an input.

## Findings

| source | as written | input that shows it | evidently intended | confidence | as-written member | corrected member |
|---|---|---|---|---|---|---|
| assignment3/src/ILS.cc:97-104 | The copy constructor rejects an entry only when it is at least `NUMBER_OBJECTS`, so a negative entry passes and later indexes `DISTANCE` out of bounds in `calculateValue`. | one facility, entries `[-1]` | every entry lies in `0 .. NUMBER_OBJECTS - 1` | medium, not executed | Ils.CopyGuardAdmitsNegative | Ils.NewQNode |
