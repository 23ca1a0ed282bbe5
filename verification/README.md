# Held-out node-pair split, modelled in Dafny

This project models `remove_node_pairs` from the TGML repository, a latent-space
model of dynamic networks. The function builds a training set from a dataset
of interaction events, where each row is `[node_i, node_j, time]`. It drops
every event of a few held-out node pairs and returns the reduced events with
the pairs it used. The pairs are either supplied by the caller or drawn at
random from the strict upper triangle of the node-pair matrix.

Modules, leaf to root:

- `Wrappers`: `Option` for the `node_pairs=None` default and `Result` for the
  error raised while drawing pairs.
- `Events`: the row and node-pair datatypes. The dataset is a floating-point
  tensor, so the node columns are `real`. They are compared through Python's
  `int()`, which truncates toward zero (`TruncToInt`). As a result, a row whose
  node column holds 1.7 matches a pair with node 1. Whole-number columns, the
  only kind the repository produces, convert back exactly.
- `NodePairFilter`: the keep/drop loop. `Filter` is the pure definition. The
  methods `KeepRow` and `FilterRows` follow the source's nested loops and its
  `keep` flag, and are proved equal to `Filter`. The lemmas state the
  subsequence, soundness, completeness, length, idempotence and pair-set
  properties.
- `CandidatePairs`: `np.triu_indices(num_nodes, k=1)` as a row-major list
  (`UpperTriangle`). Also the count `max(int(num_pairs * percentage), 1)`
  (`PickCount`) and `random.choices` (`Choices`). For each draw `u` of
  `random()`, `random.choices` takes the candidate at index `floor(u * n)`
  (`DrawIndex`), with replacement.
- `HeldOutSplit`: `RemoveNodePairs`, the whole function.

The random generator is a parameter, `random: nat -> real`. It is the stream of
values that `random()` returns, each in `[0, 1)`. Any stream gives a valid run.
`AnyDrawIsPossible` shows that every list of candidates of the drawn length,
repetitions allowed, is held out for some stream, so the choice is arbitrary. When fewer than two nodes are given, the candidate list
is empty. `random.choices` then raises `IndexError`, which the model returns as
`Failure(NoCandidatePairs)`. A caller-supplied empty list is not `None`, so it
removes nothing (`FilterNoPairs`).

## Model

| member | source | states |
|---|---|---|
| Events.TruncToInt | src/utils/results_evaluation/remove_nodepairs.py:21 | `int()` on a node column truncates toward zero: the result lies within one unit of the value, on the side of zero |
| Events.TruncOfWhole | src/utils/results_evaluation/remove_nodepairs.py:21 | a node column that holds a whole number converts back to that number |
| NodePairFilter.Filter | src/utils/results_evaluation/remove_nodepairs.py:16-26 | the reduced dataset is no longer than the input; every row in it comes from the input and matches none of the removed pairs (soundness) |
| NodePairFilter.KeepRow | src/utils/results_evaluation/remove_nodepairs.py:19-24 | the `keep` flag stays true exactly when no removed pair equals the row's truncated `(node_i, node_j)` |
| NodePairFilter.FilterRows | src/utils/results_evaluation/remove_nodepairs.py:16-26 | the loop that appends each kept row computes exactly the reduced dataset `Filter` defines |
| NodePairFilter.FilterKeepsUnmatched | src/utils/results_evaluation/remove_nodepairs.py:16-26 | when no input row matches a removed pair, the output equals the input |
| NodePairFilter.FilterNoPairs | src/utils/results_evaluation/remove_nodepairs.py:16-26 | filtering by an empty pair list returns the rows unchanged |
| NodePairFilter.FilterCounts | src/utils/results_evaluation/remove_nodepairs.py:16-26 | a row that matches a removed pair has no copies in the output; any other row has as many copies as in the input |
| NodePairFilter.FilterComplete | src/utils/results_evaluation/remove_nodepairs.py:19-26 | completeness: every input row that matches no removed pair appears in the output |
| NodePairFilter.FilterLengthExact | src/utils/results_evaluation/remove_nodepairs.py:16-26 | output length equals input length if and only if no input row matches a removed pair |
| NodePairFilter.KeptIndicesExact | src/utils/results_evaluation/remove_nodepairs.py:19-26 | a position is among the kept indices exactly when its row matches no removed pair |
| NodePairFilter.FilterAtKeptIndices | src/utils/results_evaluation/remove_nodepairs.py:16-26 | the output is the input read at the kept indices, which strictly increase |
| NodePairFilter.FilterIsSubsequence | src/utils/results_evaluation/remove_nodepairs.py:16-26 | the output is the input read at strictly increasing positions, and a position is taken exactly when its row matches no removed pair; kept rows are whole, time column included |
| NodePairFilter.FilterIdempotent | src/utils/results_evaluation/remove_nodepairs.py:18-26 | filtering the reduced dataset again with the same pairs returns it unchanged |
| NodePairFilter.FilterDependsOnPairSet | src/utils/results_evaluation/remove_nodepairs.py:20-22 | two pair lists with the same elements give the same output, whatever their order or repetitions |
| NodePairFilter.FilterDuplicatePair | src/utils/results_evaluation/remove_nodepairs.py:20-22 | listing an already removed pair a second time changes nothing |
| NodePairFilter.OrderedMatchOnly | src/utils/results_evaluation/remove_nodepairs.py:21 | for `i != j`, a row from `j` to `i` does not match the pair `(i, j)` and a row from `i` to `j` does, whatever the time |
| NodePairFilter.OrderedPairOnly | src/utils/results_evaluation/remove_nodepairs.py:21 | for `i != j`, removing `(i, j)` keeps a row from `j` to `i` and drops a row from `i` to `j` |
| CandidatePairs.TriuFrom | src/utils/results_evaluation/remove_nodepairs.py:10-11 | the upper triangle from matrix row `i` on holds exactly the pairs with `i <= src < dst < n`, each once, in row-major order |
| CandidatePairs.UpperTriangle | src/utils/results_evaluation/remove_nodepairs.py:10-12 | the candidate list holds exactly the pairs with `0 <= i < j < num_nodes`, strictly increasing in row-major order, and has `num_nodes*(num_nodes-1)/2` entries |
| CandidatePairs.PickCount | src/utils/results_evaluation/remove_nodepairs.py:13 | at least one pair is drawn; the count is `int(num_pairs*percentage)` unless that is below 1; for a percentage in [0, 1] it is at most the number of candidates |
| CandidatePairs.DrawIndex | src/utils/results_evaluation/remove_nodepairs.py:14 | one draw `u` in [0, 1) selects a valid index `floor(u * n)` below the candidate count |
| CandidatePairs.DrawIndexReachesAll | src/utils/results_evaluation/remove_nodepairs.py:14 | every candidate index can be selected by some draw |
| CandidatePairs.Choices | src/utils/results_evaluation/remove_nodepairs.py:14 | `random.choices` returns exactly `k` picks, each one of the candidates; pick `m` is the candidate that draw `m` of the generator selects |
| CandidatePairs.ChoicesReachesAll | src/utils/results_evaluation/remove_nodepairs.py:14 | every sequence of candidates, repetitions allowed, is returned for some valid generator stream |
| HeldOutSplit.RemoveNodePairs | src/utils/results_evaluation/remove_nodepairs.py:6-31 | supplied pairs are returned unchanged; drawing pairs fails exactly when there are fewer than two nodes; the returned dataset is the filter by exactly the returned pairs; drawn pairs number `max(int(num_pairs*percentage), 1)` and each satisfies `0 <= i < j < num_nodes` |
| HeldOutSplit.SuppliedEmptyRemovesNothing | src/utils/results_evaluation/remove_nodepairs.py:9-31 | a supplied empty pair list is not `None`: the dataset is returned unchanged together with the empty list |
| HeldOutSplit.AnyDrawIsPossible | src/utils/results_evaluation/remove_nodepairs.py:10-31 | for at least two nodes, every list of candidate pairs of the drawn count, repetitions allowed, is held out for some generator stream, and the dataset is filtered by exactly that list |

## Left out

- Conversion of the result back to a tensor, device placement and the two progress prints (remove_nodepairs.py:28-30). These are I/O and library calls. The model returns a plain sequence of rows. For an empty result, numpy would build a one-dimensional empty array instead of a 0 x 3 one; the model does not distinguish the two.
- Seeding the generator with `random.seed(1)` at import time. The generator's output is the `random` parameter, so every seed is covered.
- Floating-point rounding in `num_pairs * percentage` and in `random() * n`. The model computes both in exact reals.
- `int()` on NaN or infinite node columns, which raises in Python. Reals have no such values.
- `int(num_pairs * percentage)` when `percentage` is NaN or infinite, which raises `ValueError` or `OverflowError`. The model's `percentage` is a `real`, which excludes both values.
- Caller-supplied pairs with non-integer entries, such as `(1.5, 2)`. They match no row, since a truncated node column is always whole, yet they are returned. The model's `NodePair` holds `int` entries and cannot express such a pair.
- `node_pairs == None` on a numpy array argument, which compares element-wise. The model takes a pair list or nothing.
- The rest of the repository: the closed-form intensity integral and its vectorized stub, the constant-velocity model, the entry scripts and the event sampler. These are floating-point numerics over torch, training and logging glue, and random sampling. None of them is part of this model.
