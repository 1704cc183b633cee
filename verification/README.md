# BOTS kernels in Dafny

A model of the sequential core of four benchmarks from the Barcelona OpenMP
Tasks Suite (BOTS), as ported to TBB task groups and OpenMP tasks, and of the
TBB arena set-up they share. Knapsack, connected components and Fibonacci
compute a result both sequentially and with tasks; N-Queens computes it with
tasks only. Each benchmark ends with a check: knapsack, connected components
and (with the sequential flag) Fibonacci compare the task-parallel result with
the sequential one; N-Queens compares its total with a table of known answers,
and Fibonacci without the sequential flag compares with its own table and
recurrence. Spawned tasks are read as plain calls in program order.

- `Knapsack` (`knapsack.dfy`) models the 0/1 knapsack branch-and-bound solver
  of `serial/knapsack/knapsack.c`. The ratio comparator `compare` is modelled by
  exact cross-multiplication. The global `best_so_far` is a field of the class
  `Solver`. `knapsack_seq` and the MANUAL_CUTOFF `knapsack_par` are methods on
  that class, proved against one pure function `Search`. Lemmas about `Search`
  prove:
  - soundness: the bound never exceeds the optimum;
  - attainment: every reported value belongs to a feasible selection;
  - optimality: for items sorted by decreasing value/weight ratio, starting
    from the reset bound INT_MIN gives the 0/1 optimum `BestValue`.

  `BestValue` is itself proved to be the largest value of any feasible
  selection.
- `NQueens` (`nqueens.dfy`) models the N-Queens counter of
  `tbb-tasks/nqueens/nqueens.c` and `nqueens.cpp`. The two files hold the same
  algorithm. The model has:
  - `ok` over a board array;
  - the in-place backtracking counter `nqueens_ser`;
  - both `nqueens` drivers, which copy the board for each child and sum the
    per-column slots;
  - `find_queens` and `verify_queens` with the table of known answers.

  The counts equal the number of complete non-attacking placements extending
  the board prefix (`Solutions`), whatever the depth and cutoff. The caller's
  prefix is left as it was.
- `ConCom` (`concom.dfy`) models the connected-components kernel of
  `omp-tasks/concom/concom.c`. The class `Graph` holds neighbour lists and the
  `visited` and `components` arrays. It models:
  - `linkable` and the link step of `initialize`, which keep the graph
    symmetric, free of duplicates and within the degree bound;
  - `cc_init`;
  - the recursive marker `CC_seq`, which marks exactly the nodes reachable
    through unvisited nodes and counts them into one `components` slot;
  - the driver `cc_seq`, which returns the number of connected components.
    Each component is counted once, at its smallest node.
- `Fib` (`fib.dfy`) models `tbb-tasks/fib/fib.cpp`:
  - `fib_seq`, both `fib` variants and the precomputed table;
  - `fib_verify_value` and `fib_verify`.

  All of them are proved equal to the mathematical Fibonacci function on the
  inputs where C's `int` (for `fib_seq`, up to 46) or `long long` (up to 92)
  holds every intermediate value.
- `Arena` (`arena.dfy`) models two parts of the shared set-up in
  `tbb-tasks/common/arena.cpp`, which is not a benchmark and has no check of
  its own:
  - the arena decision of `init_arenaptr`, copied as `init_queens` in
    `nqueens.c`: concurrency from OMP_NUM_THREADS, OMP_PLACES and the CPU
    count, and pinning from OMP_PROC_BIND;
  - the `pinning_observer` counter, also copied in `nqueens.c`, which pins the
    k-th entering worker to CPU `(k << shift) % nprocs` in 32-bit unsigned
    arithmetic.
- `Bots` (`bots.dfy`) holds the result codes, the shared result check, an
  `Option` type and C's integer limits.

Environment values, `get_nprocs()`, the random link ends and the result slots
written by `fib0`, `fib0_seq` and `find_queens` are parameters or return values.

Where the written code and the benchmark's description differ, the model
follows the code:
- Without OMP_NUM_THREADS, with cores-only placement and one CPU, `init_arenaptr`
  gives a concurrency of `1 >> 1 == 0`; no clamp applies (`ConcurrencyPositive`).
- `verify_queens` compares `size` with an unsigned table size, so a negative
  size is reported as not applicable.
- `cc_seq` calls `CC_par` rather than `CC_seq` (concom.c line 149). Read
  sequentially, the two do the same thing, and the model calls `CCSeq`.

## Model

| member | source | states |
|---|---|---|
| Knapsack.Compare | serial/knapsack/knapsack.c:36-44 | -1 exactly when a's value/weight ratio exceeds b's, 1 exactly when it is smaller, 0 exactly when equal |
| Knapsack.CompareIsPreorder | serial/knapsack/knapsack.c:36-44 | the comparator is antisymmetric and transitive, so it is a valid sort order for `qsort` |
| Knapsack.CDiv | serial/knapsack/knapsack.c:259 | C's truncating integer division: it agrees with mathematical division on the non-negative operands of the bound, and rounds a negative dividend toward zero |
| Knapsack.BestValueIsUpperBound | serial/knapsack/knapsack.c:240-286 | no feasible selection is worth more than the optimum `BestValue` |
| Knapsack.BestValueIsAttained | serial/knapsack/knapsack.c:240-286 | for a capacity of at least 0, some feasible selection is worth exactly `BestValue` |
| Knapsack.ZeroCapacity | serial/knapsack/knapsack.c:253-257 | with zero capacity the optimum is the value in hand, which justifies the `c == 0` base case |
| Knapsack.RatioBound | serial/knapsack/knapsack.c:259-261 | when no remaining item has a better ratio than `top`, the gain from the remaining items is at most `c * top.value / top.weight` |
| Knapsack.UpperBound | serial/knapsack/knapsack.c:259-261 | for ratio-sorted items the bound `v + (c*value)/weight` of the first item, with C truncating division, is at least the optimum |
| Knapsack.SearchSound | serial/knapsack/knapsack.c:259-285 | `best_so_far` never decreases and is raised at most to the optimum; no call reports more than the optimum |
| Knapsack.SearchAttains | serial/knapsack/knapsack.c:269-285 | every reported result is INT_MIN or the value of a feasible selection; `best_so_far` is unchanged or raised to the value of a feasible selection |
| Knapsack.SearchOptimal | serial/knapsack/knapsack.c:240-286 | with ratio-sorted items and `best_so_far` at most the optimum, the pruned search returns exactly the optimum |
| Knapsack.SearchFromResetIsOptimal | serial/knapsack/knapsack.c:298-303 | starting from the reset bound INT_MIN at value 0, the search returns the optimum |
| Knapsack.NoOverflowTail | serial/knapsack/knapsack.c:259-274 | if `v + values` and `c * value` fit in `int` for a call, they fit for both recursive calls |
| Knapsack.Solver.constructor | serial/knapsack/knapsack.c:34 | `best_so_far` starts at 0 |
| Knapsack.Solver.KnapsackSeq | serial/knapsack/knapsack.c:240-286 | `knapsack_seq` takes the branches of `Search`: INT_MIN when over capacity, `v` with no items or no capacity, INT_MIN when pruned, otherwise the larger of without-item and with-item; the new `best_so_far` is `Search`'s |
| Knapsack.Solver.KnapsackPar | serial/knapsack/knapsack.c:128-187 | the MANUAL_CUTOFF `knapsack_par`, read sequentially, returns the same result and leaves the same `best_so_far` as `knapsack_seq`, for every level and cutoff |
| Knapsack.Solver.KnapsackMainSeq | serial/knapsack/knapsack.c:298-303 | after resetting `best_so_far` and ignoring `v`, the result is the 0/1 optimum: INT_MIN for negative capacity, 0 for no items and a capacity of at least 0, at least every feasible selection's value and equal to one of them; `best_so_far` ends between INT_MIN and the result, and is INT_MIN or a feasible selection's value |
| Knapsack.Solver.KnapsackMainPar | serial/knapsack/knapsack.c:287-297 | `knapsack_main_par`, read sequentially, returns the same optimum for every cutoff; like the sequential driver it leaves `best_so_far` between INT_MIN and the result, and INT_MIN or a feasible selection's value |
| Knapsack.Optimum | serial/knapsack/knapsack.c:298-303 | `BestValue` from value 0 is INT_MIN for negative capacity, and otherwise the largest value of a feasible selection |
| Bots.Check | serial/knapsack/knapsack.c:305-309 | `knapsack_check`, and equally `cc_check` (concom.c lines 154-158): success exactly when the sequential and parallel results are equal, never not-applicable |
| NQueens.BoardsMembers | tbb-tasks/nqueens/nqueens.c:84-108 | the boards enumerated column by column are exactly the length-k sequences of columns in `[0, n)` |
| NQueens.CountIsSolutions | tbb-tasks/nqueens/nqueens.c:84-108 | the backtracking count from a conflict-free prefix equals the number of complete non-attacking placements that extend it |
| NQueens.CountColumnsIsSolutionsLeftOf | tbb-tasks/nqueens/nqueens.c:98-107 | the count summed over columns `0..i` of row `j` equals the number of solutions whose row-`j` queen is left of `i` |
| NQueens.ColumnIsBranch | tbb-tasks/nqueens/nqueens.c:101-105 | the solutions with queen `j` in column `c` are the solutions of the prefix extended by `c` when that extension is conflict-free, and none otherwise |
| NQueens.PrefixSafe | tbb-tasks/nqueens/nqueens.c:67-82 | every prefix of a conflict-free board is conflict-free |
| NQueens.Ok | tbb-tasks/nqueens/nqueens.c:67-82 | `ok(n, a)` holds exactly when no two of the first n queens share a column or a diagonal; the array is not written |
| NQueens.Serial | tbb-tasks/nqueens/nqueens.c:84-108 | `nqueens_ser` returns the number of solutions extending the board prefix `a[0..j)` (1 at `j == n`); it writes only `a[j..n)`, so the prefix is unchanged |
| NQueens.SumColumns | tbb-tasks/nqueens/nqueens.c:149-150 | summing the per-column slots gives the count for the prefix |
| NQueens.NQueensCutoff | tbb-tasks/nqueens/nqueens.c:112-151 | the MANUAL_CUTOFF `nqueens` returns the serial count for every depth and cutoff; the prefix is unchanged, and the whole board is unchanged when children work on copies |
| NQueens.CutoffTask | tbb-tasks/nqueens/nqueens.c:134-141 | a spawned child copies the prefix into a fresh board, places queen `j` in column `i`, and yields that column's count, or 0 when the column conflicts |
| NQueens.NQueensDefault | tbb-tasks/nqueens/nqueens.c:156-194 | the default `nqueens` returns the serial count even though it passes `depth` unchanged, and leaves the board untouched |
| NQueens.DefaultTask | tbb-tasks/nqueens/nqueens.c:180-187 | a child of the default variant yields its column's count from a copy of the board |
| NQueens.FindQueens | tbb-tasks/nqueens/nqueens.c:281-295 | `find_queens` stores the number of n-queens solutions on an empty board, under either variant |
| NQueens.VerifyQueens | tbb-tasks/nqueens/nqueens.c:298-303 | not-applicable exactly when `size` is outside the 14-entry table (negative sizes included, through the unsigned comparison); success exactly when the count equals the table entry |
| NQueens.SafeSnoc | tbb-tasks/nqueens/nqueens.c:72-80 | extending a conflict-free board by column `c` keeps it conflict-free exactly when `c` attacks none of the earlier queens |
| NQueens.TwoQueens | tbb-tasks/nqueens/nqueens.c:44 | the 2-queens board has no solution |
| NQueens.ThreeQueens | tbb-tasks/nqueens/nqueens.c:45 | the 3-queens board has no solution |
| NQueens.FourQueens | tbb-tasks/nqueens/nqueens.c:46 | the 4-queens board has 2 solutions |
| NQueens.SmallBoardsVerify | tbb-tasks/nqueens/nqueens.cpp:40-55 | the table's first four entries (1, 0, 0, 2) are the true solution counts, and `verify_queens` succeeds on them |
| ConCom.Graph.constructor | omp-tasks/concom/concom.c:34-41 | the graph starts with `size` nodes and no links |
| ConCom.Graph.Linkable | omp-tasks/concom/concom.c:16-27 | `linkable` is 1 exactly when the ends differ, both degrees are below the maximum, and N2 is not yet a neighbour of N1 |
| ConCom.Graph.Link | omp-tasks/concom/concom.c:49-56 | when linkable, each end is appended to the other's neighbour list; otherwise nothing changes; the graph stays well formed |
| ConCom.LinkKeepsWellFormed | omp-tasks/concom/concom.c:49-56 | a link step keeps links in range and symmetric, without duplicates or self-loops, and within the degree bound |
| ConCom.Graph.Init | omp-tasks/concom/concom.c:111-120 | `cc_init` zeroes every `visited` and `components` entry |
| ConCom.Graph.CCSeq | omp-tasks/concom/concom.c:92-110 | `CC_seq(i, cc)` marks exactly the nodes reachable from `i` through unvisited nodes, nothing if `i` is visited; entries go only from 0 to 1; `components[cc]` grows by the number newly marked; no other slot changes |
| ConCom.Graph.MarkNeighbours | omp-tasks/concom/concom.c:104-108 | the loop over `i`'s neighbours leaves every neighbour marked, marks only nodes reachable from `i`, and counts each newly marked node into `components[cc]` |
| ConCom.Graph.SeqComponents | omp-tasks/concom/concom.c:140-153 | `cc_seq` after `cc_init` visits every node, returns the number of connected components (one per smallest node of a component), and the first `*cc` slots sum to the node count, the rest being 0 |
| ConCom.Graph.ScanNode | omp-tasks/concom/concom.c:147-151 | one step of `cc_seq`'s loop: an unvisited node starts a new component and marks all of it; a visited one changes nothing |
| ConCom.ScanStep | omp-tasks/concom/concom.c:145-152 | node `i` is unvisited after scanning `0..i-1` exactly when it is the smallest node of its component; then its component is what `CC_seq` adds |
| ConCom.EveryNodeHasOneRoot | omp-tasks/concom/concom.c:140-153 | every node is connected to exactly one smallest node of its component, so counting those counts the components |
| ConCom.NoLinksAllRoots | omp-tasks/concom/concom.c:140-153 | with no links, every node is its own component, so `*cc` equals the node count |
| ConCom.ReachOutsideClosed | omp-tasks/concom/concom.c:96-108 | when the visited nodes are closed under links, reaching through unvisited nodes is the same as being connected |
| ConCom.ConnectedSymm | omp-tasks/concom/concom.c:52-53 | because links are inserted in both directions, connectivity is symmetric |
| Fib.FibResultsRecurrence | tbb-tasks/fib/fib.cpp:27-28 | the table has 41 entries, starts 0, 1 and follows the Fibonacci recurrence |
| Fib.FibResultsCorrect | tbb-tasks/fib/fib.cpp:27-28 | entry k of the table is the k-th Fibonacci number |
| Fib.FibIntBoundary | tbb-tasks/fib/fib.cpp:30-39 | Fib(46) fits in `int` and Fib(47) does not, so the `int` intermediates of `fib_seq` are exact up to 46 |
| Fib.FibLongLongBoundary | tbb-tasks/fib/fib.cpp:70-85 | Fib(92) fits in `long long` and Fib(93) does not, so the `long long` intermediates of `fib` are exact up to 92 |
| Fib.FibSeq | tbb-tasks/fib/fib.cpp:30-39 | `fib_seq(n)` is `n` below 2 and the n-th Fibonacci number for `0 <= n <= 46`, and stays within `int` |
| Fib.FibCutoff | tbb-tasks/fib/fib.cpp:43-66 | the MANUAL_CUTOFF `fib(n, d)` is the n-th Fibonacci number, within `long long`, for every depth and cutoff on every input whose intermediates fit: n <= 92, and n - 1 <= 46 at the level where `fib_seq` takes over |
| Fib.FibDefault | tbb-tasks/fib/fib.cpp:70-85 | the default `fib(n)` is the n-th Fibonacci number, within `long long`, for n <= 92 |
| Fib.CutoffInvariance | tbb-tasks/fib/fib.cpp:43-85 | both `fib` variants agree with `fib_seq` for every depth and cutoff |
| Fib.FibVerifyValue | tbb-tasks/fib/fib.cpp:109-113 | `fib_verify_value(n)` is the n-th Fibonacci number, from the table or the recurrence above it |
| Fib.FibVerify | tbb-tasks/fib/fib.cpp:115-132 | success exactly when the parallel result equals the sequential one (flag set) or `fib_verify_value(n)` (flag unset), which it stores as the sequential result |
| Fib.RunVerifies | tbb-tasks/fib/fib.cpp:91-132 | a run of `fib0` then `fib0_seq` verifies under either variant and either flag; fib(10) = 55 |
| Arena.InitArena | tbb-tasks/common/arena.cpp:40-77 | cores-only exactly when OMP_PLACES is set and does not start with 't'; an override is raised to at least 1; otherwise the CPU count, halved when cores-only; a pinning observer exactly when OMP_PROC_BIND starts with 'c' |
| Arena.SettingsIndependent | tbb-tasks/common/arena.cpp:45-60 | placement does not depend on the thread override, and the override does not depend on placement or CPU count |
| Arena.ConcurrencyPositive | tbb-tasks/common/arena.cpp:54-63 | concurrency is at least 1 except with no override, cores-only placement and a single CPU, where it is 0 |
| Arena.PinnedCpu | tbb-tasks/common/arena.cpp:23 | the chosen CPU is always in `[0, nprocs)` |
| Arena.CoresOnlyPinsEvenCpus | tbb-tasks/common/arena.cpp:16-23 | with cores-only placement and an even CPU count, every chosen CPU is even |
| Arena.DistinctCpus | tbb-tasks/common/arena.cpp:16-23 | workers entering one after another get distinct CPUs while CPUs remain (nprocs workers, or nprocs/2 when cores-only) |
| Arena.PinningObserverState.constructor | tbb-tasks/common/arena.cpp:9-19 | the shift is 1 exactly when cores-only, and the counter starts at 0 |
| Arena.PinningObserverState.OnSchedulerEntry | tbb-tasks/common/arena.cpp:20-31 | the entering worker gets CPU `(k << shift) % nprocs` for the current counter `k`, and the counter moves to `k + 1` modulo 2^32; it is never reset |

## Left out

- Concurrency: TBB task groups and arenas, and OpenMP `parallel`, `single`, `task`, `taskwait` and `critical`, are not modelled. Spawned work runs as in-order calls. So the races on `best_so_far` in `knapsack_par` and the parallel marking of `CC_par` are not modelled.
- `CC_par` and `cc_par`: read sequentially, they are `CCSeq` and `SeqComponents`, and they are not modelled separately. The `CC_par` call inside `cc_seq` (concom.c line 149) is modelled as `CCSeq`.
- The IF_CUTOFF and default `knapsack_par` (knapsack.c lines 77-127 and 188-238) are not modelled separately. Read sequentially, they take the same steps as `KnapsackPar` with a cutoff above the number of items.
- The random choice of link ends in `initialize` (`rand()/RAND_MAX` and float scaling) is not modelled. `Link` takes the two ends as parameters.
- `read_input` (file reading) and `qsort` are not modelled. Ratio-sorted items with positive weights and non-negative values are a precondition (`SortedByRatio`).
- `Knapsack.Compare`: the source compares `double` quotients. The model compares the exact ratios by cross-multiplication, so rounding of very close ratios is not captured.
- Output (`printf`, `write_outputs`, `bots_message`, `bots_debug`) is not modelled.
- `getenv`, `atoi`, `get_nprocs`, `CPU_ALLOC`, `CPU_SET_S` and `sched_setaffinity` are not modelled. Their results are parameters, or the chosen CPU is returned. The construction and deletion of the arena and observer objects are also left out.
- Machine-integer overflow is excluded by preconditions rather than modelled:
  - `NoOverflow` covers `v + value` and `c * value` in knapsack;
  - `Fib.FibSeq` is limited to n <= 46, `Fib.FibDefault` and `Fib.FibVerifyValue` to n <= 92, and `Fib.FibCutoff` to n <= 92 with n - 1 <= 46 where `fib_seq` takes over;
  - the board size is limited to 127, because positions are stored in `char`.
- `ConCom.Graph`: the fixed-size neighbour buffers of `nbs_arg_size_1` ints with a degree field are modelled as sequences whose length is the degree.
- `alloca`, `memset` and `memcpy` are modelled by fresh arrays. `NQueens.CutoffTask` and `NQueens.DefaultTask` return the column's count instead of writing `csols[i]` through a pointer, and the driver stores it in the slot.
- `NQueens.VerifyQueens` requires `size != 0`. With size 0 the source reads `solutions[-1]`.
- `NQueens.SmallBoardsVerify` checks the table of known answers only for sizes 1 to 4. The larger entries are not proved.
- The copies of `pinning_observer` and of the arena decision (`init_queens`) in `tbb-tasks/nqueens/nqueens.c` (lines 202-271) are the same code as in `arena.cpp`. They are served by `Arena.PinningObserverState` and `Arena.InitArena`.
- NQueens.Serial, NQueens.NQueensCutoff, NQueens.NQueensDefault and NQueens.FindQueens count in unbounded integers. The source's `int` and `std::atomic<int>` totals overflow from n = 19 on, and that overflow is not modelled.
