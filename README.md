# Block-decomposed trapezoidal rule (pthreads), modelled in Dafny

`mpi_trap.c` estimates the integral of `f` over `[a, b]` with `n` trapezoids.
It splits the work over `thread_count` threads. Each thread rank takes a
contiguous block of sample indices, chosen by the block-decomposition macros
`BLOCK_LOW` / `BLOCK_HIGH`. It sums `f(a + i*h)` over its block, and rank 1
also adds the endpoint term `(f(a) + f(b)) / 2`. The rank then multiplies its
local sum by `h` and adds the result, once and under a mutex, to the shared
total `GLOBAL_MUTEX_SUM`, which starts at 0.

The project models this in four modules:

- `Block` (`block.dfy`): the two macros over unbounded integers. It proves
  that the blocks are contiguous and stay inside `[0, n-1]`, that `BLOCK_LOW`
  is monotone, and that the blocks are balanced (`n/p` or `n/p + 1`
  indices). It also proves the partition theorem: every index in
  `[0, n-1]` belongs to exactly one rank, and an index outside it belongs to
  none. The concatenated blocks are exactly `0, 1, ..., n-1`, and some block
  is empty exactly when `n < p`. For `int` inputs, on an LP64 platform
  (64-bit `long`), the `long` product `id*n` cannot overflow.
- `Sums` (`sums.dfy`): sums over a sequence of ranks, and the fact that any
  reordering of the ranks gives the same sum.
- `Trap` (`trap.dfy`): the worker `mutex_Trap` as a method.
  - `LocalIntegral` has the `for` loop and its invariant.
  - `Accumulator` is a class holding `GLOBAL_MUTEX_SUM`.
  - `MutexTrap` does the single locked add.
  - The driver `Integrate` folds the ranks in any finishing order.

  The per-rank functions and the theorems about them take a `Worker` value.
  It says which rank adds the endpoint term and the smallest index a rank's
  loop may start at. `AsWritten = Worker(1, 0)` is the code. The main theorem
  `TotalOverRanks` says that, as written, the final total is `h` times every
  sample `0 .. n-1` taken once, plus the endpoint term taken once when
  `thread_count >= 2` and not at all when `thread_count == 1`.
- `TrapRule` (`trap_rule.dfy`): the trapezoidal rule as a sum of trapezoid
  areas. It holds the proof that the code computes something different (see
  Findings), and the corrected worker `Corrected = Worker(0, 1)`, proved to
  compute the rule exactly.

The integrand `f` is a parameter of type `real -> real`. Arithmetic is exact
over `real`, so every statement is about index bookkeeping, not rounding.

## Model

| member | source | states |
|---|---|---|
| `Block.BlockLow` | mpi_trap.c:53 | `BLOCK_LOW(id,p,n)` lies in `[0, n]`; it is 0 for rank 0 and `n` for `id = p`, so the first block starts at index 0 |
| `Block.BlockHigh` | mpi_trap.c:54 | `BLOCK_HIGH(id,p,n)` lies between `BLOCK_LOW(id,p,n) - 1` and `n - 1`, so every non-empty block lies inside `[0, n-1]`; the last rank's block ends at `n - 1` |
| `Block.BlockLowMonotone` | mpi_trap.c:53 | `BLOCK_LOW` never decreases as the rank grows |
| `Block.BlockLowNoOverflow` | mpi_trap.c:109-110 | for `1 <= thread_count`, `n <= INT_MAX` and `0 <= id <= thread_count`, the product `id*n` that the macro computes in `long` fits in a 64-bit `long` (LP64) |
| `Block.BlockSize` | mpi_trap.c:53-54 | each block has `n/p` or `n/p + 1` indices, and exactly `n/p` when `p` divides `n` |
| `Block.BlocksDisjoint` | mpi_trap.c:53-54 | no index lies in the blocks of two different ranks |
| `Block.CoveredBelow` | mpi_trap.c:53-54 | every index below `BLOCK_LOW(r)` lies in the block of some rank below `r` (no gaps) |
| `Block.ExactlyOneOwner` | mpi_trap.c:53-54 | the set of ranks whose block holds index `k` has exactly one element when `0 <= k < n`, and none otherwise |
| `Block.VisitsAll` | mpi_trap.c:109-122 | the indices the ranks' loops visit, taken rank by rank, are exactly `0, 1, ..., n-1`: every index once, with no gap |
| `Block.EmptyBlockIff` | mpi_trap.c:109-110 | some rank gets an empty block (`local_a > local_b`) if and only if `n < thread_count` |
| `Block.NonEmptyPrefix` | mpi_trap.c:53-54 | if the first `r` blocks are non-empty, `BLOCK_LOW(r) >= r` |
| `Sums.SumConcat` | mpi_trap.c:126-128 | adding up a concatenation of rank sequences is adding up each part |
| `Sums.SumPermutation` | mpi_trap.c:126-128 | two orders of the same ranks produce the same total |
| `Trap.SampleSumSplit` | mpi_trap.c:119-122 | the sum of the samples over `[lo, hi)` splits at any point in between |
| `Trap.EndpointRanks` | mpi_trap.c:106-116 | the ranks that add `(f(a)+f(b))/2` are the worker's endpoint rank if it is below `thread_count`, else none; as written, `{1}` when `thread_count >= 2` and none when `thread_count == 1` |
| `Trap.EmptyBlockContribution` | mpi_trap.c:109-122 | a rank with an empty block adds only its scaled endpoint term; every such rank other than the endpoint rank (1 as written) adds 0 |
| `Trap.PrefixSum` | mpi_trap.c:109-122 | the local sums of ranks `0 .. r-1` together are their endpoint share plus each sample from the worker's smallest index (0 as written) up to `BLOCK_LOW(r) - 1`, once |
| `Trap.PrefixScaled` | mpi_trap.c:123-127 | scaling each local sum by `h` and then adding gives `h` times the sum of the local sums |
| `Trap.TotalOverRanks` | mpi_trap.c:101-132 | for every `thread_count >= 1`, the final total is `h` times the endpoint share plus every sample from the worker's smallest index to `n-1`; as written, it is `h * (E + f(x_0) + ... + f(x_{n-1}))`, where `E` is `(f(a)+f(b))/2` when `thread_count >= 2` and 0 when `thread_count == 1` |
| `Trap.ThreadCountInvariance` | mpi_trap.c:101-132 | any two thread counts of at least 2 give the same estimate |
| `Trap.NoSubdivisions` | mpi_trap.c:109-122 | with `n = 0` every block is empty and the total is just the scaled endpoint share (exact reals, with `h` a free input) |
| `Trap.AnyFinishOrder` | mpi_trap.c:126-128 | adding the contributions in any permutation of the ranks gives the same total |
| `Trap.LocalIntegral` | mpi_trap.c:103-123 | the worker's `local_int` after line 123 is `h * (its endpoint term + the samples of [local_a, local_b])`; with an empty block it is `h` times the endpoint term |
| `Trap.Accumulator.constructor` | mpi_trap.c:71 | the shared total starts at 0 |
| `Trap.Accumulator.Add` | mpi_trap.c:126-128 | the critical section adds its argument to the total and changes nothing else |
| `Trap.MutexTrap` | mpi_trap.c:101-132 | one worker run adds exactly its own contribution to the shared total, once |
| `Trap.PermutationRanks` | mpi_trap.c:79-85 | an order in which the threads finish lists only ranks `0 .. thread_count-1` |
| `Trap.Integrate` | mpi_trap.c:71-85 | starting from 0 and running every rank once, in any finishing order, leaves the total of `TotalOverRanks` |
| `TrapRule.StepMatchesIff` | mpi_trap.c:65 | the step condition `n * h == b - a` with `n >= 1`, used by the lemmas below, holds exactly when `h = (b-a)/n` as computed at line 65 |
| `TrapRule.SampleEnds` | mpi_trap.c:65 | with `h = (b-a)/n`, sample 0 is `f(a)` and sample `n` is `f(b)` |
| `TrapRule.HeightsClosedForm` | mpi_trap.c:1-8 | the trapezoid areas count the two end samples with weight 1/2 and the interior samples `1 .. k-1` with weight 1 |
| `TrapRule.FirstSample` | mpi_trap.c:119-122 | samples `0 .. n-1` are `f(a)` plus the interior samples |
| `TrapRule.AsWrittenAddsLeftSample` | mpi_trap.c:109-122 | as written, with `thread_count >= 2`, the estimate is the trapezoidal rule plus an extra `h * f(a)` |
| `TrapRule.AsWrittenSingleThread` | mpi_trap.c:106-116 | as written, with one thread, the estimate is the rule plus `h * (f(a) - f(b)) / 2`: the endpoint term is never added |
| `TrapRule.AsWrittenExample` | mpi_trap.c:113-122 | for `f(x) = x^2 - 4x + 8`, `a = 1`, `b = 5`, `n = 1` and two threads, the code gives 56 where the rule gives 36 |
| `TrapRule.CorrectedIsTrapezoidRule` | mpi_trap.c:101-132 | the corrected workers (`Worker(0, 1)`: rank 0 adds the endpoint term, loops start at index 1 at the earliest) give exactly the trapezoidal rule, for every thread count and in any finishing order |
| `TrapRule.CorrectedLocalIntegral` | mpi_trap.c:103-123 | the corrected worker loop starts at index `max(local_a, 1)`, rank 0 adds the endpoint term, and the result is the corrected contribution |

## Left out

- Thread creation and joining, the mutex, and the `malloc`/`free` of the
  thread handles (mpi_trap.c:74-89) are not modelled as concurrency. The
  only shared write is the single locked add. Any interleaving therefore
  behaves like some sequential order of the ranks' adds, and `Integrate`
  takes that order as a parameter `finishOrder`, which may be any
  permutation.
- IEEE `double` arithmetic is left out: rounding, the order-dependence of
  floating-point sums, and convergence to the exact integral. Sums are exact
  `real` sums. The step `h` (computed in `double` at mpi_trap.c:65) is an
  input of the model, tied to `(b-a)/n` only where a lemma needs it.
- The polynomial integrand `f` (mpi_trap.c:139-142) is a parameter
  `f: real -> real`. It appears concretely only as `TrapRule.Integrand`, which
  `TrapRule.AsWrittenExample` uses.
- The `printf` report and the hardwired constants of `main`
  (mpi_trap.c:61-69, 92-95) are not modelled, and neither are the MPI include
  and header comment.
- Integers are unbounded. The only place where C widths matter is the `long`
  product in `BLOCK_LOW`, and `Block.BlockLowNoOverflow` shows that it never
  overflows for `int` inputs on an LP64 platform (64-bit `long`). Where
  `long` has 32 bits (ILP32, LLP64) the product can overflow, for example
  `BLOCK_HIGH(1, 2, 2^30)` computes `2 * 2^30 = 2^31`; that case is not
  modelled.
- The `long long` loop counter converted to `double` in `i*h` is modelled as
  `i as real`.
- Zero subdivisions. One might expect an estimate of 0 with `n = 0`. In the
  code, rank 1 still adds its endpoint term when `thread_count >= 2`. In
  `double`, `h = (b-a)/0` at mpi_trap.c:65 is infinite, so `0.0 * h` at
  mpi_trap.c:123 is NaN and the printed total is NaN. `Trap.NoSubdivisions`
  states only the exact-real bookkeeping with `h` as a free real: every
  block is empty, and the total is `h` times the endpoint share. The
  infinities and NaN are not modelled.
- The methods `Trap.LocalIntegral`, `Trap.MutexTrap` and `Trap.Integrate`
  follow the code as written (`AsWritten`), including both findings below.
  The corrected loop `TrapRule.CorrectedLocalIntegral` shares the per-rank
  functions and theorems with them through the `Worker` parameter. It is not
  wired into a second locking driver.

## Findings

| source | as written | input that shows it | evidently intended | confidence | as-written member | corrected member |
|---|---|---|---|---|---|---|
| mpi_trap.c:119-122 | the loop runs from `local_a = BLOCK_LOW(rank, ...)`, which is 0 for rank 0. So `f(a)` is summed at full weight on top of the endpoint term, and the estimate is the rule plus `h * f(a)` | `f(x) = x^2 - 4x + 8`, `a = 1`, `b = 5`, `n = 1`, two threads: 56 instead of 36 | sum only the interior samples `1 .. n-1` beside `(f(a)+f(b))/2` | high; not executed | `TrapRule.AsWrittenAddsLeftSample`, `TrapRule.AsWrittenExample` | `TrapRule.CorrectedIsTrapezoidRule`, `TrapRule.CorrectedLocalIntegral` |
| mpi_trap.c:113-116 | only rank 1 adds the endpoint term, and no rank 1 exists when `thread_count == 1` | `thread_count = 1`, `n >= 1`: the estimate misses `h * (f(a)+f(b))/2` relative to the code's own two-thread result | add the endpoint term from a rank that always exists (rank 0) | medium; not executed | `TrapRule.AsWrittenSingleThread` | `TrapRule.CorrectedIsTrapezoidRule` |
