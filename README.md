# Parallel reduction with a halving tree combine

This project models `main.cpp`, a small C++/OpenMP program with two ways of
folding an array of numbers with a binary operator `op`:

- `sum_reduction_serial` folds `input[0..n)` left to right, starting from 0.
- `reduccion_paralela` works in parallel. A master thread reads the thread
  count `w` and sets `block_size = n / w`. Thread `t` folds
  `input[t*block_size, (t+1)*block_size)` from 0. The last thread's block
  ends at `n` instead. Each thread stores its result in slot `t` of a shared
  buffer. Then, for `i = w/2, w/4, ..., 1`, every thread `t < i` sets
  `slot[t] := op(slot[t], slot[t+i])`, with a barrier before each round.
  Finally the master sets `slot[0] := op(slot[0], 0)`, and the function
  returns slot 0.

The model is in Dafny:

- `folds.dfy` (module `Folds`): the left fold `FoldLeft` that both reducers
  compute. Also the ghost predicates for an associative or commutative
  operator with identity 0, and the fold facts the other proofs use.
- `serial.dfy` (module `Serial`): the serial reducer, written as a loop over
  an array.
- `partition.dfy` (module `Partition`): the block arithmetic, as pure
  functions. It proves which positions each worker covers.
- `combine.dfy` (module `Combine`): the combine rounds on the sequence of
  partial results. `CombineFrom` is the program's stride-halving schedule.
  `CombineActive` is the corrected schedule.
- `parallel.dfy` (module `Parallel`): the parallel reducer, specified by
  the functions `LocalPartials` and `ParallelResult` and run as in-place
  array methods. The theorems about it are proved here.
- `scenarios.dfy` (module `Scenarios`): the data `main` builds
  (`datos[i] = i + 1`, 1024 values, added up). Also the smallest
  counterexamples.

The threads run one after another: worker by worker in the local phase, and
round by round in the combine. This gives the same result as the program.
Each worker writes only its own slot (main.cpp:50, main.cpp:56). Within a
round, no slot a worker reads (`t` and `t + i`) is written by another
worker. `CombineRoundInPlace` proves this: its loop invariant says every
slot at or above `t` still holds its value from the start of the round.

Values are `int` and `op` is any total function `(int, int) -> int`. Some
theorems add a precondition on `op`: a monoid (associative, with identity 0)
or a commutative monoid. The program itself only ever passes addition.

The equality of the parallel and serial results needs a stronger operator
than one might expect. Folding the partial results in worker order gives the
serial fold for any monoid (`Parallel.LocalPartialsFold`). The tree combine
does not fold them in worker order, though. With `w = 4` it computes
`op(op(p0, p2), op(p1, p3))`. So the equality also needs `op` to be
commutative: `Scenarios.TreeNeedsCommutativity` gives an associative,
non-commutative operator with identity 0 for which the two results differ.
Addition is commutative, so this does not affect the program as called.

The model's thread count is a parameter `w >= 1`. In the program it comes
from `omp_get_num_threads()`, which is never 0, so the program has no error
path for zero threads, and neither does the model.

## Model

| member | source | states |
|---|---|---|
| `Combine.CombineRound` | main.cpp:55-56 | one combine round: each worker `t < i` computes `op(slot[t], slot[t + i])` from the values the round starts with; the buffer keeps one slot per worker |
| `Combine.CombineFrom` | main.cpp:53-58 | the rounds the program runs from stride `i` on, halving by integer division until the stride is 0; the buffer keeps its length |
| `Combine.TreeResult` | main.cpp:53-58 | slot 0 after the program's combine; with one worker no round runs (`i` starts at 0), so the result is that worker's partial result |
| `Combine.CombineActive` | main.cpp:53-58 | the corrected schedule, which keeps track of how many slots are still active; the buffer keeps its length |
| `Combine.FixedTreeResult` | main.cpp:53-58 | slot 0 after the corrected combine; with one worker it is that worker's partial result |
| `Parallel.LocalPartials` | main.cpp:37-50 | one partial result per worker; with one worker it is the fold of the whole input |
| `Parallel.ParallelResult` | main.cpp:45-66 | what the program returns; with one worker it is the serial fold, finalized with `op(_, 0)` |
| `Parallel.FixedParallelResult` | main.cpp:45-66 | what the corrected program returns; with one worker it is the serial fold, finalized with `op(_, 0)` |
| `Scenarios.Datos` | main.cpp:72-76 | `main`'s data: `n` values with `datos[i] = i + 1` |
| `Serial.SumReductionSerial` | main.cpp:14-19 | the loop returns the left fold of `input[0..n)` from 0, so the empty input gives 0 |
| `Folds.FoldAddIsSum` | main.cpp:14-19 | for addition, the fold from 0 equals the sum of the sequence, defined independently by first-element recursion |
| `Folds.FoldConcat` | main.cpp:14-19 | for a monoid, folding a concatenation from 0 is `op` of the two parts' folds |
| `Partition.BlockSize` | main.cpp:31 | `block_size = n / w` is the integer quotient: `b * w <= n < (b + 1) * w` |
| `Partition.Start` | main.cpp:38 | worker `t`'s block starts at `t * block_size`, with room for a whole block before `n` |
| `Partition.End` | main.cpp:39-43 | worker `t`'s block ends at `(t + 1) * block_size`, or at `n` for the last worker; it never ends before it starts or after `n`, so no index is out of bounds |
| `Partition.Chained` | main.cpp:38-43 | worker 0 starts at 0, the last worker ends at `n`, and each block ends where the next one starts |
| `Partition.Disjoint` | main.cpp:38-43 | a lower worker's block ends at or before a higher worker's block starts |
| `Partition.Owner` | main.cpp:38-43 | every position `k < n` lies in some worker's block (the blocks cover `[0, n)`) |
| `Partition.OwnerUnique` | main.cpp:38-43 | no position lies in two workers' blocks |
| `Partition.TotalLengthIsN` | main.cpp:38-43 | the block lengths add up to `n` |
| `Partition.FewerPositionsThanWorkers` | main.cpp:31-43 | if `n < w`, the block size is 0, every worker but the last gets the empty block at 0, and the last gets `[0, n)` |
| `Parallel.WorkerFold` | main.cpp:45-48 | a worker's local loop returns the fold from 0 of its block |
| `Parallel.LocalPhase` | main.cpp:37-50 | after the local phase, `partials[t]` is the fold from 0 of worker `t`'s block, for every worker |
| `Parallel.LocalPartialsFold` | main.cpp:45-50 | for a monoid, folding the partial results in worker order gives the serial fold of the whole input |
| `Combine.RoundFold` | main.cpp:55-57 | for a commutative monoid, a round with stride `i` loses nothing: the fold of the first `i` slots afterwards equals the fold of the first `2i` slots before |
| `Parallel.CombineRoundInPlace` | main.cpp:55-57 | running a round's workers one after another gives the round's simultaneous result; slots at or above `i` are unchanged, and no slot a worker reads is written in that round |
| `Parallel.TreeCombine` | main.cpp:53-58 | the combine loop leaves the buffer holding the rounds of strides `w/2, w/4, ..., 1` applied to the partial results |
| `Combine.CombineFromPowerOfTwo` | main.cpp:53-58 | starting from a power-of-two stride `i`, slot 0 ends up holding the fold of the first `2i` slots |
| `Combine.TreeResultPowerOfTwo` | main.cpp:53-58 | for a power-of-two `w`, slot 0 after the combine is the in-order fold of all `w` partial results, for a commutative monoid |
| `Combine.CombineFromReadsPrefix` | main.cpp:53-57 | slot 0 after the rounds from stride `i` on depends only on the first `max(1, 2i)` slots |
| `Combine.LastSlotIgnored` | main.cpp:53-57 | for odd `w >= 3`, the last partial result never reaches slot 0 |
| `Combine.ThreeSlots` | main.cpp:53-57 | for `w = 3`, the combine yields `op(p0, p1)` and omits `p2` |
| `Combine.SixSlots` | main.cpp:53-57 | for `w = 6`, the combine yields `op(op(p0, p3), op(p1, p4))`: the pair `op(p2, p5)` formed in the first round is never read in the second |
| `Combine.IgnoredSlot` | main.cpp:53 | for `w` not a power of two, a slot `1 <= j < w`: the last slot of the first odd count reached by halving `w` |
| `Combine.IgnoredSlotUnread` | main.cpp:53-57 | from stride `m / 2` on, what slot `IgnoredSlot(m)` holds never reaches slot 0 |
| `Combine.UnreachedSlotIgnored` | main.cpp:53-57 | for every `w` that is not a power of two, the combine result is the same whatever slot `IgnoredSlot(w)` holds |
| `Combine.SomeSumLost` | main.cpp:53-57 | for every `w` that is not a power of two, there are `w` partial results whose sum the combine gets wrong |
| `Combine.TreeSumsAllIffPowerOfTwo` | main.cpp:53-58 | with addition, the combine sums every `w` partial results if and only if `w` is a power of two |
| `Parallel.ParallelMatchesSerial` | main.cpp:45-66 | for a commutative monoid and a power-of-two `w`, the parallel result, including the finalize step `op(_, 0)`, equals the serial fold |
| `Parallel.EmptyInput` | main.cpp:45-66 | for the empty input, the parallel result is 0 for every `w`, including non-powers of two |
| `Parallel.LastBlockIgnored` | main.cpp:41-57 | for odd `w >= 3`, nothing in the last worker's block affects the result; that block includes the remainder of `n / w` |
| `Parallel.UnreachedBlockIgnored` | main.cpp:37-57 | for every `w` that is not a power of two, nothing in the block of worker `IgnoredSlot(w)` affects the result |
| `Parallel.OneElementBlocks` | main.cpp:31-50 | when `n == w`, every block holds one element, so the partial results are the input itself |
| `Parallel.ParallelSumsAllIffPowerOfTwo` | main.cpp:21-69 | with addition, the program returns the serial sum of every input if and only if `w` is a power of two |
| `Parallel.ParallelReduction` | main.cpp:21-69 | the method returns `ParallelResult` of `input[0..n)`, and for a commutative monoid and a power-of-two `w` that is the serial fold |
| `Combine.CombineActiveFolds` | main.cpp:53-58 | the corrected schedule keeps the fold of the active slots, so slot 0 ends with the fold of all of them |
| `Combine.FixedTreeResultFolds` | main.cpp:53-58 | the corrected combine folds every partial result, for every `w >= 1` |
| `Combine.CombineActiveOnPowerOfTwo` | main.cpp:53-58 | for a power-of-two `w`, the corrected schedule runs exactly the program's rounds |
| `Parallel.FixedTreeCombine` | main.cpp:53-58 | the corrected combine loop leaves the buffer holding the corrected schedule applied to the partial results |
| `Parallel.FixedMatchesSerial` | main.cpp:45-66 | with the corrected combine, the parallel result equals the serial fold for every `w >= 1` |
| `Parallel.FixedAgreesOnPowerOfTwo` | main.cpp:53-66 | for a power-of-two `w`, the corrected reducer returns what the program returns |
| `Parallel.FixedParallelReduction` | main.cpp:21-69 | the corrected method returns the serial fold for every `w >= 1` and every commutative monoid |
| `Scenarios.SerialOnMainData` | main.cpp:72-86 | the serial reduction of `1, 2, ..., 1024` with addition is 524800 |
| `Scenarios.ParallelOnMainDataPowerOfTwo` | main.cpp:72-93 | the parallel reduction of the same data is 524800 for every power-of-two thread count |
| `Scenarios.ParallelOnMainDataThreeThreads` | main.cpp:72-93 | with 3 threads the program returns 232903 for the same data, not 524800 |
| `Scenarios.FixedOnMainData` | main.cpp:72-93 | the corrected reduction of the same data is 524800 for every thread count |
| `Scenarios.ThreeOnesThreeThreads` | main.cpp:53-57 | on input `[1, 1, 1]` with 3 threads, the program returns 2, while the serial fold and the corrected reducer return 3 |
| `Scenarios.SixOnesSixThreads` | main.cpp:53-57 | on six ones with 6 threads, the program returns 4, while the serial fold and the corrected reducer return 6 |
| `Scenarios.TreeNeedsCommutativity` | main.cpp:53-57 | for the associative, non-commutative "last non-zero" operator, 4 threads give 2 on `[1, 2, 3, 0]`, where the serial fold gives 3 |

## Findings

| source | as written | input that shows it | evidently intended | confidence | as-written member | corrected member |
|---|---|---|---|---|---|---|
| main.cpp:53 | `for (i = num_threads / 2; i > 0; i /= 2)` halves the stride by floor division. When the thread count is not a power of two, some partial results never reach slot 0. For an odd count at least 3, the last slot is never read in any round; it holds the last thread's partial result, which also covers the remainder of `n / w`. For an even count such as 6, every slot is read in the first round, but the merged slot `op(p2, p5)` is never read in the second. | 3 threads on `[1, 1, 1]` return 2 instead of 3. 6 threads on six ones return 4 instead of 6. 3 threads on `main`'s data `1..1024` return 232903 instead of 524800. | every thread's partial result is merged into slot 0, for every thread count | high (proved in the model; not executed) | `Scenarios.ThreeOnesThreeThreads` | `Parallel.FixedMatchesSerial` |

This finding is proved in more than one place:

- Beside the examples, `Combine.LastSlotIgnored` and
  `Parallel.LastBlockIgnored` state the as-written behaviour for every odd
  thread count. `Combine.UnreachedSlotIgnored` and
  `Parallel.UnreachedBlockIgnored` state it for every thread count that is
  not a power of two: `Combine.IgnoredSlot` names a slot whose value never
  reaches slot 0. `Combine.SixSlots` and `Scenarios.SixOnesSixThreads` show
  an even count.
- With addition, the program returns the serial sum of every input exactly
  when the thread count is a power of two
  (`Parallel.ParallelSumsAllIffPowerOfTwo`).
- The corrected schedule keeps `m` active slots. It folds the upper
  `m - (m + 1) / 2` slots into the lower ones at distance `(m + 1) / 2`.
  For a power of two it runs exactly the program's rounds
  (`Combine.CombineActiveOnPowerOfTwo`, `Parallel.FixedAgreesOnPowerOfTwo`).
- `Parallel.FixedParallelReduction` is the corrected method, run in place
  on the buffer.

## Left out

- OpenMP threads, `#pragma omp master` and the barriers (main.cpp:26-28,
  35, 52, 54, 60) are not modelled as concurrency. The phases and rounds
  run sequentially. That the order does not matter rests on the
  disjoint-slot property of `Parallel.CombineRoundInPlace` and
  `Parallel.LocalPhase`.
- `float` values and rounding are left out. Values are mathematical
  integers, and `op` is an abstract operator. Floating-point addition is
  not associative, so even the power-of-two theorem holds only
  approximately for the program's floats.
- The `std::function` wrapper (main.cpp:12) is left out. `op` is a plain
  function value.
- `new float[num_threads]` and `delete[]` (main.cpp:32, 67) become a fresh
  array of length `w`.
- The `fmt::println` output (main.cpp:33, 82-97) and the unused `<chrono>`
  include (main.cpp:3) are left out.
- The `main` driver is left out. Only its data and operator appear, in
  `Scenarios`.
- The thread count is a parameter, not `omp_get_num_threads()`.
- A negative `n` is not modelled. `n` is a `nat`, no larger than the input
  array, as in the only call site, which passes a vector's size.
- Fixed-width integers are not modelled: `int n`, `long block_size`,
  `int i = start`. Block bounds never exceed `n`, so these types cannot
  overflow for a valid `int n`.
