# torchgpipe block-partition solver, in Dafny

torchgpipe pipelines a sequential network by cutting its layers into
consecutive stages. The balancers `balance_by_time` and `balance_by_size`
measure one cost per layer. They hand those costs to the block-partition
solver `blockpartition.solve(weights, partitions)`, which returns the
weights cut into `partitions` non-empty contiguous blocks, in order. The
balancers report only each block's length: the group sizes.

This project models the solver and the sizes view, and proves:

- **Structure.** A successful result has exactly `partitions` non-empty
  blocks, and their concatenation is the input.
- **Errors.** A non-positive count, or fewer weights than blocks, is an
  invalid argument.
- **Optimality.** No other split into `partitions` contiguous non-empty
  blocks has a smaller largest block sum.
- **Tie-break.** Among the optimal splits, the solver's split is the only
  one that keeps the filled-from-the-right policy. Under that policy, later
  blocks are as full as the limit allows, and the leading blocks take the
  spare cuts. For example, `[1, 2, 1]` in two blocks gives `[[1], [2, 1]]`,
  not `[[1, 2], [1]]`.
- **Sizes view.** The sizes are positive and add up to the number of
  layers. Cutting the layers by the sizes gives back the solver's blocks.
- **Expected outputs.** Each input and output asserted by the repository's
  tests is proved as a concrete lemma.

Modules:

- `SeqSums` (seqsums.dfy) holds the vocabulary: `Sum`, `Max`, `Flatten`
  (concatenation of blocks) and `MaxBlockSum`, with their lemmas.
- `BlockPartition` (blockpartition.dfy) holds the solver:
  - `BlockStart` scans right to left for where the last block under a
    limit can start. It never cuts below a floor, so every earlier block
    still gets a weight.
  - `GreedyCount` counts the blocks of the greedy right-to-left pass.
    `Feasible` says every weight fits under the limit and that count is at
    most `partitions`.
  - `MinFeasible` is the binary search over `[max(w), sum(w)]`, and
    `OptimalLimit` is its result.
  - `Build` cuts blocks from the right at that limit.
  - `Solve` is the whole solver. The result type is
    `Result = Ok(value) | InvalidArgument`.
- `Balance` (balance.dfy) holds `BalanceCost`, the sizes view of the
  solver for given per-layer costs. It also holds `Split`, which cuts layers
  by sizes.
- `Cases` (cases.dfy) holds the expected outputs of the tests.

Weights are natural numbers. `partitions` is an `int`, so the negative
count can be expressed. The blocks are built from the right and placed in
front of the blocks already built, so no reversal step is needed. The
implementation file `torchgpipe/balance/blockpartition.py` is not part of
this model: the algorithm is binary search over the answer with a greedy
feasibility test and a right-to-left build. It reproduces every output the
tests assert.

## Model

| member | source | states |
|---|---|---|
| BlockPartition.Solve | tests/test_balance.py:16-35 | `InvalidArgument` exactly when `partitions <= 0` or there are fewer weights than partitions; otherwise exactly `partitions` non-empty blocks whose concatenation is the input |
| BlockPartition.BlockStart | tests/test_balance.py:17 | the last block's start is at or after the floor; the block fits the limit when the last weight does; every earlier start that is not below the floor overflows the limit |
| BlockPartition.BlockStartFloor | tests/test_balance.py:21 | cutting early at a floor gives the unconstrained greedy start, raised to the floor when it lies below it |
| BlockPartition.GreedyCount | tests/test_balance.py:17 | the greedy right-to-left pass uses at most one block per weight, and no blocks exactly when there are no weights; `GreedyCountIsFewest` shows no split within the limit uses fewer |
| BlockPartition.GreedyCountIsFewest | tests/test_balance.py:17 | the greedy right-to-left pass uses no more blocks than any grouping of a prefix of the weights that stays within the limit |
| BlockPartition.FeasibleIffSplitExists | tests/test_balance.py:17 | the greedy feasibility test `Feasible` holds exactly when some split into `k` non-empty contiguous blocks stays within the limit |
| BlockPartition.SplitWithinGivesFeasible | tests/test_balance.py:17 | a split into `k` blocks within the limit makes the limit feasible |
| BlockPartition.FeasibleMonotone | tests/test_balance.py:17 | a feasible limit stays feasible when raised, which is what makes the binary search sound |
| BlockPartition.MinFeasible | tests/test_balance.py:17 | the binary search returns a feasible limit in `[lo, hi]` below which every limit in range is infeasible |
| BlockPartition.OptimalLimit | tests/test_balance.py:17 | the smallest feasible limit lies in `[max(w), sum(w)]`, and every limit from `max(w)` up to it is infeasible |
| BlockPartition.OptimalLimitCharacterised | tests/test_balance.py:17 | a limit at or above `max(w)` is the optimal one if and only if it is feasible and its predecessor is infeasible (or it equals `max(w)`) |
| BlockPartition.LeastFeasibleIsUnique | tests/test_balance.py:17 | given any bound on the weights, the least feasible limit above that bound is the unique feasible limit whose predecessor is infeasible |
| BlockPartition.Build | tests/test_balance.py:17-21 | the right-to-left builder with the early cut gives exactly `k` blocks; `BuildIsPartition`, `BuildWithin` and `BuildFilledFromRight` show they are a valid split, within the limit, and filled from the right |
| BlockPartition.BuildIsPartition | tests/test_balance.py:17-21 | the right-to-left build yields exactly `k` non-empty blocks that concatenate to the weights |
| BlockPartition.BuildWithin | tests/test_balance.py:17 | at a feasible limit, every built block sums to at most the limit |
| BlockPartition.SolveWithinOptimalLimit | tests/test_balance.py:17 | every block of the solver's split fits the optimal limit |
| BlockPartition.PartitionGivesFeasible | tests/test_balance.py:17 | for any valid `k`-way split, `max(w)` is at most its largest block sum, and that sum is a feasible limit |
| BlockPartition.SolveIsOptimal | tests/test_balance.py:17 | no valid split into `partitions` blocks has a smaller largest block sum than the solver's |
| BlockPartition.SolveAttainsOptimalLimit | tests/test_balance.py:17 | the solver's largest block sum is exactly the optimal limit |
| BlockPartition.BuildFilledFromRight | tests/test_balance.py:17 | the built split keeps the filled-from-the-right policy: at each boundary, the later block cannot take the earlier block's last weight within the limit, unless everything before the boundary is one weight per block |
| BlockPartition.LastBoundaryTight | tests/test_balance.py:17 | the boundary before the last block of the build is tight in that sense |
| BlockPartition.FilledFromRightIsUnique | tests/test_balance.py:17 | any valid split within the limit that keeps the filled-from-the-right policy is the built split |
| BlockPartition.SolveIsFilledFromRight | tests/test_balance.py:17 | the solver's split is filled-from-the-right at its own largest block sum |
| BlockPartition.SolveIsTheFilledFromRightOptimum | tests/test_balance.py:17 | every optimal filled-from-the-right split equals the solver's: ties are broken deterministically |
| BlockPartition.BuildZeros | tests/test_balance.py:20-21 | on all-zero weights, the first `k - 1` blocks are single zeros and the last block takes the rest |
| BlockPartition.SolveZeros | tests/test_balance.py:20-21 | on all-zero weights, the solver gives one zero to each leading block and the rest to the last block |
| BlockPartition.SolveSingleStage | tests/test_balance.py:128 | with one partition the only block is the whole sequence |
| Balance.Lengths | tests/test_balance.py:50-51 | the sizes view has one entry per block, each the length of its block; `LengthsSum` and `SplitByLengths` show the sizes add up to the layer count and give back the blocks |
| Balance.BalanceCost | tests/test_balance.py:50-51 | the same error cases as the solver; on success, `partitions` sizes, each positive, summing to the number of layers |
| Balance.LengthsSum | tests/test_balance.py:50-51 | the sizes of a grouping add up to the length of its concatenation |
| Balance.SplitByLengths | tests/test_balance.py:69-74 | cutting the concatenated blocks by their sizes gives back the blocks |
| Balance.BalanceCarriesSolve | tests/test_balance.py:69-74 | cutting the layers by the reported sizes gives exactly the solver's blocks |
| Balance.BalanceSingleStage | tests/test_balance.py:170 | one stage gets every layer: the sizes are `[len(costs)]` |
| Cases.IncreasingFeasibleAt11 | tests/test_balance.py:17 | weights 1..6 fit two blocks at limit 11 |
| Cases.IncreasingInfeasibleAt10 | tests/test_balance.py:17 | weights 1..6 do not fit two blocks at limit 10 |
| Cases.IncreasingOptimalLimit | tests/test_balance.py:17 | the optimal limit for weights 1..6 in two blocks is 11 |
| Cases.IncreasingBlocks | tests/test_balance.py:17 | at limit 11, the build for weights 1..6 is `[[1, 2, 3, 4], [5, 6]]` |
| Cases.SolveIncreasing | tests/test_balance.py:17 | `solve([1, 2, 3, 4, 5, 6], 2) == [[1, 2, 3, 4], [5, 6]]` |
| Cases.SolveTwoZeros | tests/test_balance.py:21 | `solve([0, 0], 2) == [[0], [0]]` |
| Cases.TieInfeasibleAt2 | tests/test_balance.py:16-17 | weights `[1, 2, 1]` do not fit two blocks at limit 2 |
| Cases.TieFeasibleAt3 | tests/test_balance.py:16-17 | weights `[1, 2, 1]` fit two blocks at limit 3 |
| Cases.TieOptimalLimit | tests/test_balance.py:16-17 | the optimal limit for `[1, 2, 1]` in two blocks is 3 |
| Cases.TieBlocks | tests/test_balance.py:16-17 | at limit 3, the build for `[1, 2, 1]` is `[[1], [2, 1]]` |
| Cases.SolveTieBreak | tests/test_balance.py:16-17 | the model's tie-break on an input with two optimal splits: `solve([1, 2, 1], 2) == [[1], [2, 1]]`; no test asserts this input |
| Cases.SolveRejectsNonPositive | tests/test_balance.py:24-28 | `solve([42], 0)` and `solve([42], -1)` are invalid arguments |
| Cases.SolveRejectsShort | tests/test_balance.py:31-35 | `solve([], 1)` and `solve([42], 2)` are invalid arguments |
| Cases.DecreasingFeasibleAt11 | tests/test_balance.py:72-74 | weights 6..1 fit two blocks at limit 11 |
| Cases.DecreasingInfeasibleAt10 | tests/test_balance.py:72-74 | weights 6..1 do not fit two blocks at limit 10 |
| Cases.DecreasingOptimalLimit | tests/test_balance.py:72-74 | the optimal limit for weights 6..1 in two blocks is 11 |
| Cases.DecreasingBlocks | tests/test_balance.py:72-74 | at limit 11, the build for weights 6..1 is `[[6, 5], [4, 3, 2, 1]]` |
| Cases.SolveDecreasing | tests/test_balance.py:72-74 | `solve([6, 5, 4, 3, 2, 1], 2) == [[6, 5], [4, 3, 2, 1]]` |
| Cases.BalanceIncreasing | tests/test_balance.py:50-51 | increasing costs 1..6 in two stages give sizes `[4, 2]` |
| Cases.BalanceDecreasing | tests/test_balance.py:114-115 | decreasing costs 6..1 in two stages give sizes `[2, 4]` |
| Cases.BalanceOneLayer | tests/test_balance.py:147-148 | one layer in one stage gives sizes `[1]` |

## Left out

- Cost measurement is not modelled. `balance_by_time` times each layer on the wall clock, and `balance_by_size` reads CUDA memory statistics. Both are I/O on the torch runtime; the costs enter the model as the `costs` parameter of `BalanceCost`.
- The `param_scale` blend of parameter size into `balance_by_size`'s costs is not modelled. Its normalisation belongs to the measurement code, which is not part of this model, so the test at tests/test_balance.py:117-118 is not stated.
- The tests at tests/test_balance.py:79-87 are not stated either. Their costs come from measured memory of `nn.Linear` layers.
- The sandbox is not modelled: restoring parameters and buffers, and keeping the `training` flag, after profiling. These are torch `nn.Module` state.
- Passing tuple outputs between layers while profiling is torch tensor plumbing and is not modelled.
- The deprecated `torchgpipe_balancing` import error concerns the module system and is not modelled.
- Weights are natural numbers, not floating-point costs. The orders and ties that the tests assert do not depend on fractional values.
- The implementation of `solve` (`torchgpipe/balance/blockpartition.py`) is not part of this model. The model's algorithm agrees with it only at the inputs the tests assert, and each asserted split is the only optimal split for its input.
- Which way the real solver breaks ties between optimal splits is not visible in the tests, and neither is whether it always reaches the optimum. The Optimality and Tie-break properties above describe the model's algorithm.
