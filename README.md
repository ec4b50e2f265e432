# Data-parallel primitives over flat sequences, modelled in Dafny

The repository's `main.cpp` holds six primitives built on TBB: `fill` (write
`func(i)` into every slot), `saxpy` (`x[i] = a*x[i] + y[i]`), `sqrtdot` (square
root of the inner product), `minvalue` (minimum element), `magicfilter` (a
three-way per-index emission rule whose outputs are collected into one vector)
and `scanner` (in-place inclusive prefix sum returning the grand total). Every
one of them cuts its index range with a `blocked_range` into partitions and
works on the partitions independently, then combines what they produced.

This project models each primitive as a sequential program that runs the
partitions one after the other, and proves that the result is the primitive's
sequential meaning for every partitioning and, where the TBB algorithm does not
fix it, for every order in which the partitions run (`fill`, `saxpy`, both phases of
`scanner`, and the slot-merging `MagicFilterOrdered`; the reductions fold in
ascending order, see "Left out"). The as-written `magicfilter` gives, in every
order, a rearrangement of that meaning, and the meaning itself in ascending
order (see Findings):

- `partition.dfy` (module `Partition`): a partitioning of `[lo, hi)` is a sorted
  boundary sequence `lo = b[0] <= ... <= b[k] = hi`, partition `j` being
  `[b[j], b[j+1])`; a schedule is a sequence that runs each partition exactly
  once. `PartOf` finds the one partition holding an index.
- `map.dfy` (module `ParallelMap`): `fill` and `saxpy` as `parallel_for` bodies
  over an arbitrary schedule, on an `array<real>` changed in place; `saxpy`
  keeps its local buffer and the copy back over its own range.
- `reduce.dfy` (module `ParallelReduce`): `sqrtdot` (up to the square root) and
  `minvalue` as `parallel_reduce`: every partition folds its indices from the
  identity, and the partial values are combined with `+` or `Min`. `Sum`,
  `PartitionTotals` and their lemmas state that partition totals combined with
  `+` give the whole sum.
- `filter.dfy` (module `ParallelFilter`): the emission rule (`Emit`), the rule
  run sequentially (`Filtered`), the per-partition body (`LocalFilter`), and
  `magicfilter` appending the partitions' lists in completion order
  (`MagicFilter`), beside a version that merges them in partition order
  (`MagicFilterOrdered`).
- `scan.dfy` (module `ParallelScan`): the one scan body with its `is_final`
  flag (`ScanBody`), the pre-scan phase that only computes partition totals,
  the combine step that adds up the totals before each partition (`Offsets`),
  the final phase that starts every partition from that sum, and `scanner`
  running both; each phase runs its partitions in any schedule.

The template type `T` is `real`, so arithmetic is exact. Read-only inputs
(`const std::vector<T>&`) are `seq<real>`; vectors the source changes in place
are `array<real>`. Partitions are parameters of every primitive; the order
partitions run in is a parameter of `fill`, `saxpy`, `magicfilter` and both
phases of `scanner`. The contracts are proved for all of them, which stands in
for whatever the TBB scheduler chooses.

Unchecked reads in the code become preconditions: `minvalue` reads `x[0]`
(main.cpp:73) and `saxpy` reads `y[i]` for every index of `x` (main.cpp:42),
so an empty `x` in `minvalue` or a `y` shorter than `x` in `saxpy` is undefined
behaviour in the source and excluded by a `requires` here. The meaning every
primitive is proved against is that of the sequential loops the file sets out
to parallelise (main.cpp:15); `magicfilter` appends its partitions' lists in
completion order (main.cpp:110-111), which departs from that meaning in order
only (see Findings).

## Model

| member | source | states |
|---|---|---|
| `Partition.PartOf` | main.cpp:22-24 | every index of a partitioned range lies in some partition `j`, with `b[j] <= i < b[j+1]` |
| `Partition.PartOfUnique` | main.cpp:22-24 | partitions are disjoint: an index in partition `j` belongs to no other |
| `ParallelMap.Fill` | main.cpp:17-30 | for every partitioning and every schedule, afterwards `arr[i] == func(i)` at every index, and the returned vector equals `arr` |
| `ParallelMap.Saxpy` | main.cpp:32-48 | given `|y| >= |x|`, for every partitioning and every schedule, afterwards `x[i] == a * old(x[i]) + y[i]` at every index (the proof shows each partition reads only unchanged values and copies its buffer back over exactly its own range) |
| `ParallelReduce.SumSplit` | main.cpp:54-63 | splitting a range at any point and adding the two sums gives the sum of the whole range |
| `ParallelReduce.TotalsSum` | main.cpp:54-63 | the partition totals of partitions `0..j-1` combined with `+` equal the sum over `[b[0], b[j])` |
| `ParallelReduce.LocalDot` | main.cpp:55-60 | one partition's local sum, started from 0, is the sum of `x[i] * y[i]` over its range |
| `ParallelReduce.SqrtDot` | main.cpp:50-68 | for every partitioning of `[0, min(|x|, |y|))`, the value taken the square root of equals the sum of `x[i] * y[i]` over that range, 0 when it is empty |
| `ParallelReduce.Min` | main.cpp:81-83 | the combine of `minvalue` returns one of its arguments and is no greater than either |
| `ParallelReduce.LocalMin` | main.cpp:74-80 | one partition's running minimum from the seed is the seed or an element of the partition, and neither the seed nor any element of the partition is smaller |
| `ParallelReduce.MinValue` | main.cpp:70-86 | given `|x| >= 1`, for every partitioning of `[1, |x|)`, the result is an element of `x` and no element of `x` is smaller |
| `ParallelFilter.Filtered` | main.cpp:101-108 | the rule run sequentially emits at most two values per index, so the output never exceeds the reserved `2 * min(|x|, |y|)` |
| `ParallelFilter.FilteredSplit` | main.cpp:101-108 | the rule over a range is the rule over its two halves concatenated |
| `ParallelFilter.LocalFilter` | main.cpp:97-108 | one partition's local list is the rule applied to its indices in ascending order |
| `ParallelFilter.FlattenLocal` | main.cpp:96-108 | the local lists of partitions `0..j-1`, in partition order, are the rule run sequentially over `[0, b[j])` |
| `ParallelFilter.AppendedAscending` | main.cpp:110-111 | lists appended in ascending partition order are the lists concatenated in index order |
| `ParallelFilter.AppendedAnyOrder` | main.cpp:110-111 | lists appended in any completion order hold the same values, with the same multiplicities, as the lists concatenated in index order |
| `ParallelFilter.FilteredOutput` | main.cpp:96-111 | the shared output after every partition has appended is a rearrangement of the sequential rule's output, and is that output when the partitions finish in ascending order |
| `ParallelFilter.MagicFilter` | main.cpp:88-116 | the output is the lists in completion order; a rearrangement of the sequential rule's output, at most `2 * min(|x|, |y|)` long, and equal to it when the partitions finish in ascending order |
| `ParallelFilter.CompletionOrderReorders` | main.cpp:110-111 | for `x = [0.9, 0.2]`, `y = [0.1, 0.9]`, partitions `[0, 1)` and `[1, 2)` finishing in the order 1, 0, the appended output is `[0.9, 0.18, 0.9]` while the sequential rule gives `[0.9, 0.9, 0.18]` |
| `ParallelFilter.MagicFilterOrdered` | main.cpp:88-116 | with a slot per partition concatenated in partition order, the output equals the sequential rule's output for every partitioning and schedule |
| `ParallelScan.ScanBody` | main.cpp:123-130 | the body returns its starting value plus the sum of its range; when final it writes the starting value plus the running sum at each index of its range, otherwise it leaves `x` unchanged |
| `ParallelScan.OffsetPlusRunning` | main.cpp:124-133 | a partition's offset, the sum of everything before it, plus the running sum within the partition is the global inclusive prefix sum |
| `ParallelScan.FinalReady` | main.cpp:122-130 | in any schedule of the final phase, a partition about to run still sees the original values over its range |
| `ParallelScan.FinalStep` | main.cpp:122-133 | one final body started from the sum of everything before its partition leaves that partition holding the global inclusive prefix sums and changes nothing else |
| `ParallelScan.PreScan` | main.cpp:122-130 | in every schedule, the pre-scan phase leaves `x` unchanged and yields the total of every partition, in partition order |
| `ParallelScan.Offsets` | main.cpp:131-133 | combining the totals with `+` gives each partition the sum of the totals before it, and the sum of all totals |
| `ParallelScan.FinalScan` | main.cpp:122-133 | in every schedule, starting every partition from the `+` of the totals before it gives the global inclusive prefix sum at every index, and the result is the sum of the whole array |
| `ParallelScan.Scanner` | main.cpp:118-137 | for every partitioning and every schedule of either phase, afterwards `x[i]` is the sum of the original `x[0..i]`, and the result is the sum of the original `x`, 0 when `x` is empty |

## Left out

- TBB scheduling and concurrency (`parallel_for`, `parallel_reduce`, `parallel_scan`, `simple_partitioner`, `std::mutex`, `lock_guard`): partitions run one after another. The partitioning is a universally quantified parameter of every primitive; the order in which partitions run is one for `fill`, `saxpy`, `magicfilter` and the two phases of `scanner`.
- ParallelScan.Scanner: runs the pre-scan on every partition before any final body, whereas TBB may run a partition's final body straight away once the sum before it is known and skip its pre-scan; the pre-scan writes nothing, so the final state is the same.
- ParallelScan.Offsets: adds the totals up in ascending partition order, whereas TBB joins them in a tree; `+` is associative on `real`, so every tree gives the same offsets.
- Interleaving inside a partition: the bodies of `fill`, `saxpy` and both phases of `scanner` read and write only their own range of indices, and the bodies of `magicfilter` only read `x` and `y` and touch the shared output only under the lock, so running each to completion in turn gives the same final state as any interleaving (for `magicfilter`, the one for the order in which the bodies take the lock).
- ParallelReduce.LocalDot: starts its local sum from 0, whereas the `parallel_reduce` and `parallel_scan` bodies take their starting value as a parameter (main.cpp:55, 74, 123), and TBB may run one body over several adjacent subranges in a row so that this value is the body's running result rather than the identity; the run over those adjacent subranges is one partition of the model, and partitionings are universally quantified, so nothing is lost (`LocalMin` and `ScanBody` take the starting value as a parameter already).
- The join tree of `parallel_reduce`: joins combine adjacent ranges, so with the associative `+` and `Min` every tree gives the left-to-right fold over the partitions that the model computes.
- The partitions TBB actually produces: the model admits empty partitions and any boundaries, which include those of the scheduler.
- The grain size `n / 32` of `magicfilter` and the bound it puts on partition sizes. For domains under 32 elements the grain is 0, on which `blocked_range` does not make progress; the model admits any partitioning there instead.
- ParallelReduce.SqrtDot: stops at the sum before `std::sqrt`; square roots over floating point are not modelled.
- Floating-point arithmetic: rounding, reassociation, the `0.0f` seed and `float` return type of the `sqrtdot` body, and the `0.5f` constant compared at `float` precision; `T` is exact `real`.
- `int` narrowing of sizes and indices (`int n`, `int begin`) for vectors longer than `INT_MAX`; sizes are unbounded `nat`.
- `reserve` calls: capacity hints only; the output bound they suggest is proved about `magicfilter`.
- Exceptions raised by `func` in `fill` and allocation failures: `func` is a total function and allocation always succeeds.
- The `TICK`/`TOCK` timing macros and the `ticktock.h` and `pod.h` headers, which are not part of this model.
- The `main` driver: the `sin`/`cos` generators, the `1 << 26` size, the printing and the final `std::reduce`.

## Findings

| source | as written | input that shows it | evidently intended | confidence | as-written member | corrected member |
|---|---|---|---|---|---|---|
| main.cpp:110-111 | each partition appends its local list to `res` under a mutex, in the order in which partitions finish | `x = [0.9, 0.2]`, `y = [0.1, 0.9]`, partitions `[0, 1)` and `[1, 2)`, the second finishing first (a small stand-in: with `n = 2` the grain `n / 32` is 0, which the model reads as any partitioning; the same reordering can arise in the source on any domain of 64 or more elements, where the grain is at least 2, whenever a later partition with a non-empty list finishes first): output `[0.9, 0.18, 0.9]` instead of `[0.9, 0.9, 0.18]` | the output equals that of the sequential loop the file sets out to parallelise (main.cpp:15), i.e. the partitions' lists in ascending partition order | medium, not executed | `ParallelFilter.MagicFilter`, `ParallelFilter.CompletionOrderReorders` | `ParallelFilter.MagicFilterOrdered` |
