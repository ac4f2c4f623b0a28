# Partitioning and aggregation core of `parallel_inverse_aggregate`

`mapped_distance_matrix` computes, for a set of non-uniform points lying in a
uniform grid, a matrix with one row per grid cell and one column per point.
It splits the points into subproblems: every point is assigned the bin of the
grid that contains it, bins are numbered in C order, the point indices are
grouped by bin, and every bin's index list is cut into pieces of at most
`pts_per_future` points. Each subproblem is sent to a worker. The worker's
block of values is written into an all-zero array at the cells it addresses
and the points of its subproblem. The array is finally reshaped to
`(cells, points)`.

This project models that core as pure Dafny functions and proves what the
code and its documentation promise:

- `Grouping` (`group_by`): a sort by key followed by a cut at the first row of
  every distinct key. There is one group per key, the keys come in ascending
  order, and group contents are exact as multisets.
- `BinIndex` (`compute_linearized_bin_coords`): C-order linearization. It is
  in range and injective, and `Delinearize` is its inverse. The code's
  multiplier is kept separately as `LinearizeAsWritten` so that it can be
  compared with the intended one.
- `Extract` (`extract_subproblems`): `np.array_split` into `ceil(len/k)`
  sections, with the `-1` sentinel for unbounded subproblems. It models the
  Python errors for `k == 0`, for `k < -1` and for empty bins.
- `Subproblems` (the geometry of `distribute_subproblems` and
  `bin_content_tuple`): bins per axis, exact floor of the position over the
  bin width, and the clamp to the last bin. Then come linearization,
  grouping, splitting and packaging. The stream of subproblems is a partition
  of the point indices. Each subproblem lies in one bin and is bounded by `k`.
  With `k == -1`, each subproblem is a whole bin.
- `Aggregation` (the loop over completed futures and the reshape): the
  output array is modelled as its C-order buffer, and a block write as a
  sequence of single-entry writes. Blocks over disjoint points give the same
  result in every completion order. Every value lands at its cell and point,
  and every entry nobody writes stays zero. The reshape is row-major.
- `Pipeline` (`mapped_distance_matrix`): the weights default to ones, then
  distribution, the workers, and aggregation. The worker is a parameter
  `mapper`. The order in which `as_completed` yields results is a parameter
  `schedule`, which may be any permutation. The result does not depend on the
  schedule.

Positions are exact non-negative reals, so `np.floor_divide` is an exact
floor. Integers are unbounded.

## Model

| member | source | states |
|---|---|---|
| Grouping.SortByKey | parallel_inverse_aggregate.py:40 | the reordered rows are sorted by key and are a permutation of the input rows (and their value column a permutation of the input's) |
| Grouping.FirstIndices | parallel_inverse_aggregate.py:41 | the indices `np.unique(..., return_index=True)` returns: ascending, and an index is present exactly when no earlier row has its key |
| Grouping.Split | parallel_inverse_aggregate.py:41 | `np.split` yields one more piece than there are cuts, and the pieces concatenate back to the input |
| Grouping.SplitPiece | parallel_inverse_aggregate.py:41 | piece `i` of `np.split` runs from the previous cut (or the start) to the next cut (or the end) |
| Grouping.SplitRunsCorrect | parallel_inverse_aggregate.py:40-41 | for every key-sorted reordering, whatever order the unstable `argsort` leaves equal keys in: one non-empty group per distinct key, strictly ascending keys, and each group holds exactly the values paired with its key |
| Grouping.GroupByCorrect | parallel_inverse_aggregate.py:6-41 | on a non-empty input, `group_by` returns one non-empty group per distinct key, in ascending key order, and each group is, as a multiset, the values paired with its key |
| Grouping.InGroup | parallel_inverse_aggregate.py:6-23 | a value is in group `i` exactly when some input row pairs it with that group's key |
| Grouping.GroupByLossless | parallel_inverse_aggregate.py:40-41 | the groups together hold the value column, no value lost or duplicated |
| Grouping.ValuesWithKeyPermutation | parallel_inverse_aggregate.py:40 | reordering the rows changes no group's contents |
| Grouping.GroupByEmpty | parallel_inverse_aggregate.py:41 | on an empty input `np.split` still returns one empty group |
| Grouping.GroupByDocstringExample | parallel_inverse_aggregate.py:25-37 | the docstring example groups into `[[1,4],[2,3],[5]]` |
| BinIndex.LinearizeInRange | parallel_inverse_aggregate.py:44-65 | every valid bin coordinate maps to an index in `[0, prod(bins_per_axis))` |
| BinIndex.LinearizeInjective | parallel_inverse_aggregate.py:44-50 | distinct valid bins get distinct linear indices |
| BinIndex.Delinearize | parallel_inverse_aggregate.py:44-50 | every index in range is the linear index of a valid bin coordinate |
| BinIndex.LinearizeRoundTrip | parallel_inverse_aggregate.py:44-50 | linearizing and then delinearizing returns the coordinate |
| BinIndex.LinearizeLastAxisFastest | parallel_inverse_aggregate.py:50 | stepping the last coordinate steps the linear index by one (C order) |
| BinIndex.LinearizeAppendAxis | parallel_inverse_aggregate.py:345-354 | the index of `(cell, point)` in shape `(*cells, n)` is `index(cell) * n + point`, which makes the reshape to `(-1, n)` put cell `c` in row `index(c)` |
| BinIndex.LinearizeDocstringExample | parallel_inverse_aggregate.py:67-78 | bins `[1,3,2]` map the docstring's coordinates to `[3, 9, 1, 10]` |
| BinIndex.AsWrittenDocstringExample | parallel_inverse_aggregate.py:80-83 | the code's multipliers `bins_per_axis[i+1]` give `6` and `7` where the docstring expects `9` and `10` |
| BinIndex.AsWrittenCollides | parallel_inverse_aggregate.py:80-83 | with the code's multipliers two different bins of a 2x2x2 grid share linear index 2 |
| Extract.CeilDiv | parallel_inverse_aggregate.py:110 | `np.ceil(len / k)` is the least integer `q` with `len <= q * k` (for `k > 0`; mirrored for `k < 0`) |
| Extract.ArraySplit | parallel_inverse_aggregate.py:109-111 | `np.array_split(arr, n)` gives `n` consecutive pieces that concatenate to `arr`; the first `len % n` are one longer |
| Extract.SectionLengths | parallel_inverse_aggregate.py:109-111 | cutting `len` items into `ceil(len/k)` sections leaves between 1 and `k` items in each |
| Extract.SplitBin | parallel_inverse_aggregate.py:105-118 | one bin: whole for `-1`; else `ceil(len/k)` contiguous pieces of 1..k items differing in length by at most one, which concatenate to the bin; `ZeroDivisionError` for `k == 0`, `ValueError` for `k < -1` or an empty bin |
| Extract.ExtractSubproblems | parallel_inverse_aggregate.py:86-118 | the pieces of every bin, in bin order; fails exactly when some bin fails, with the error of `k` |
| Extract.ExtractSucceeds | parallel_inverse_aggregate.py:105-118 | extraction succeeds exactly for no bins, for `k == -1`, or for `k >= 1` with no empty bin |
| Extract.ExtractLossless | parallel_inverse_aggregate.py:105-118 | all pieces of all bins, concatenated in generator order, are all bins concatenated |
| Subproblems.BinsPerAxis | parallel_inverse_aggregate.py:173 | `cell_count // bins_size` whole bins fit along each axis and one more does not; at least one bin per axis |
| Subproblems.AxisBin | parallel_inverse_aggregate.py:175-181 | the bin of a coordinate is valid; below `bins_per_axis` bin widths (the region of whole bins) it is the interval of width `cell_size*bins_size` holding the position; at or beyond that bound it is the last bin |
| Subproblems.BinCoord | parallel_inverse_aggregate.py:175-181 | per axis, the same: a valid bin coordinate, containing the point when the point lies in the region of whole bins, the last bin otherwise |
| Subproblems.AxisBinAsWritten | parallel_inverse_aggregate.py:176-181 | the code's clamp keeps the coordinate below the cell count of the axis, not below its bin count |
| Subproblems.ClampAsWrittenMergesBins | parallel_inverse_aggregate.py:179-187 | with the code's clamp, a point beyond a 4x4-cell grid of 2x2 bins gets the invalid coordinate `(0, 3)`, whose linear index is that of bin `(1, 1)`; the last-bin clamp gives `(0, 1)` |
| Subproblems.Keyed | parallel_inverse_aggregate.py:183-193 | the augmented rows pair each point's linear bin index with the point's index |
| Subproblems.BinContentTuple | parallel_inverse_aggregate.py:207-213 | positions and weights gathered with the same index list, and the bin of its first point; an empty list raises `IndexError` |
| Subproblems.Package | parallel_inverse_aggregate.py:215-220 | every index list of the stream is packaged, in order; it fails exactly when some list is empty |
| Subproblems.GroupMember | parallel_inverse_aggregate.py:191-195 | a point is in group `i` exactly when its bin has that group's linear index |
| Subproblems.GroupIsWholeBin | parallel_inverse_aggregate.py:191-195 | a group holds every point of the bin of any of its points |
| Subproblems.OneTaskOneBin | parallel_inverse_aggregate.py:197-217 | every index list of the stream is non-empty, bounded by `k`, lies in one bin, and is the whole bin when `k == -1` |
| Subproblems.StreamFacts | parallel_inverse_aggregate.py:191-217 | the stream of index lists holds every point index exactly once; each list is non-empty, bounded by `k`, within one bin, and the whole bin when `k == -1`; with no points it is one empty list |
| Subproblems.DistributeFails | parallel_inverse_aggregate.py:195-199 | extraction of the grouped points fails only without points or when `k` is neither `-1` nor positive |
| Subproblems.Distribute | parallel_inverse_aggregate.py:172-220 | succeeds exactly with at least one point and `k` equal to `-1` or positive, and raises `ZeroDivisionError`, `ValueError` or `IndexError` otherwise; the subproblems partition the point indices; each subproblem's positions, weights and bin are those of its points, its bin holds every one of them, and it is the whole bin when `k == -1` |
| Aggregation.WriteEntries | parallel_inverse_aggregate.py:352 | entry writes leave every place they do not write unchanged; when they agree wherever they overlap, each one's value is found at its place |
| Aggregation.WriteEntriesConcat | parallel_inverse_aggregate.py:349-352 | writing one list of entries after another is writing their concatenation |
| Aggregation.OffsetIsLinearize | parallel_inverse_aggregate.py:345-348 | the buffer offset of `(cell, point)` is the C-order index of `cell + [point]` in shape `(*cell_count, n)` |
| Aggregation.OffsetBounds | parallel_inverse_aggregate.py:345-348 | every entry of a valid cell and point lies inside the array |
| Aggregation.OffsetInjective | parallel_inverse_aggregate.py:345-352 | different `(cell, point)` entries occupy different places of the array |
| Aggregation.EntriesFit | parallel_inverse_aggregate.py:352 | one block's writes stay in the array and never write one place with two values |
| Aggregation.Scatter | parallel_inverse_aggregate.py:352 | `mapped_distance[idxes] = submatrix`: every value lands at its cell and point, and every other place keeps its value |
| Aggregation.Zeros | parallel_inverse_aggregate.py:345-348 | the initial array has the requested size and is zero everywhere |
| Aggregation.AggregateIsOneWrite | parallel_inverse_aggregate.py:345-352 | the loop is one write, on zeros, of every block's entries in completion order |
| Aggregation.AllEntriesConsistent | parallel_inverse_aggregate.py:349-352 | blocks over disjoint points never write one place with two different values |
| Aggregation.AggregateAt | parallel_inverse_aggregate.py:345-352 | in any completion order, value `(a, j)` of block `t` ends at the block's cell `a` and point `j` |
| Aggregation.AggregateZeroAt | parallel_inverse_aggregate.py:345-352 | a place no block covers is still zero after the loop |
| Aggregation.AggregateClosedForm | parallel_inverse_aggregate.py:345-352 | after the loop, in any completion order, every value of every block sits at its cell and point, and every place no block covers is zero |
| Aggregation.AggregateOrderIndependent | parallel_inverse_aggregate.py:349-352 | any two completion orders give the same array |
| Aggregation.Reshape | parallel_inverse_aggregate.py:354 | `reshape(-1, n)` gives `rows` rows of `n` entries whose row-by-row concatenation is the buffer |
| Aggregation.ReshapeAt | parallel_inverse_aggregate.py:354 | entry `[c][p]` of the reshaped matrix is entry `c * n + p` of the buffer (row-major) |
| Pipeline.WeightsOrOnes | parallel_inverse_aggregate.py:320-321 | without weights, every point gets weight one; given weights are used as they are |
| Pipeline.DefaultWeightsAreOne | parallel_inverse_aggregate.py:320-321 | without weights, every weight of every subproblem is one |
| Pipeline.BlocksFit | parallel_inverse_aggregate.py:349-352 | subproblems that partition the points give worker blocks that fit the array and never share a point |
| Pipeline.ReshapeOffset | parallel_inverse_aggregate.py:345-354 | the buffer place of `(cell, point)` is entry `[index(cell)][point]` of the reshaped matrix |
| Pipeline.MatrixValueAt | parallel_inverse_aggregate.py:345-354 | each value of each worker's block is the result's entry at the row of its cell and the column of its point |
| Pipeline.MatrixZeroAt | parallel_inverse_aggregate.py:345-354 | an entry no worker writes is zero in the result |
| Pipeline.Assemble | parallel_inverse_aggregate.py:345-354 | the result has one row per cell and one column per point; the blocks fit and never share a point; every worker value sits at its cell's row and its point's column; every other entry is zero |
| Pipeline.MappedDistanceMatrix | parallel_inverse_aggregate.py:320-354 | succeeds exactly with at least one point and `k` equal to `-1` or positive, with the errors of the distribution otherwise; the result has one row per cell and one column per point, holds every worker value at its cell and point, and is zero elsewhere |
| Pipeline.AssembleScheduleIndependent | parallel_inverse_aggregate.py:345-354 | the assembled matrix is the same for any two completion orders |
| Pipeline.ScheduleIndependent | parallel_inverse_aggregate.py:349-352 | the result of `mapped_distance_matrix` does not depend on the order in which the futures complete |

## Left out

- Dask: `client.scatter`, `client.map` and `as_completed` are not modelled as a runtime. Dispatch is a sequence of subproblems, and the completion order is the parameter `schedule`, any permutation of the subproblems.
- `compute_mapped_distance_on_subgroup` and `build_uniform_grid_bin` are not modelled. They compute floating-point norms, call a user function, and read undefined names. A worker is the parameter `mapper`, and `MapperFits` assumes what the aggregation needs from it: valid cells, one value per cell and point, and no cell named twice.
- Pipeline.MappedDistanceMatrix: repeated or out-of-range cells in a worker's index tuple are excluded by `MapperFits`. NumPy would keep the last write, or raise `IndexError`, for those.
- The broken call site in `mapped_distance_matrix` is not modelled: the undefined `samples2`, the arguments passed in the wrong positions, and the `weights` keyword sent to the worker. The model wires the defaulted weights and the points into the distribution, and uses the number of points as the column count.
- The undefined name `bin_coords` in `compute_linearized_bin_coords`, which would raise `NameError`, is not modelled. The model reads the parameter.
- Float rounding and dtypes are not modelled. Positions, cell sizes and weights are exact reals. `np.floor_divide` is an exact floor, and `np.ones(..., dtype=int)` is the real `1.0`.
- Negative positions are excluded by `ValidPoints`. The code has no lower clamp, so they would give negative bin coordinates.
- When `cell_count % bins_size != 0` on an axis, the strip of leftover cells past the last whole bin is folded into the last bin. For 5 cells of size 1.0 in bins of 2, a point at 4.5 lies inside the grid of cells but goes to bin 1, which spans `[2.0, 4.0)`. `AxisBin` and `BinCoord` state this: their interval promise covers only the region of whole bins.
- Malformed geometry is excluded by `ValidGeometry`: positive cell sizes, and `1 <= bins_size <= cell_count` on each axis. The code does not check the geometry, so a zero bin size divides by zero and too large a bin size gives zero bins.
- Weights of the wrong length are excluded by the requires `|weights| == |pts|`. The code does not check them.
- Grouping.GroupByCorrect: group contents are stated as multisets, not as sequences, because `argsort` is not stable. The order inside a group is not fixed by the code, so the model sorts stably and states nothing that depends on that choice.
- Subproblems.Distribute: its promises are proved for the one key-sorted order the model picks for `argsort`, a stable sort. They do not mention the order inside a group: the partition, the per-subproblem facts and the whole-bin facts. They are not re-proved for the other orders an unstable `argsort` may produce. Only the grouping itself is stated for every key-sorted order, in `Grouping.SplitRunsCorrect`.
- The benchmarks are not modelled: they only generate data and drive the run.
- `group_by([])` returns `[[]]`, one empty group. This follows the code: `np.split` of an empty array gives one empty array. The docstring says nothing about empty input. With `k == -1` and no points, this empty group reaches `bin_content_tuple`, which raises `IndexError`.

## Findings

| source | as written | input that shows it | evidently intended | confidence | as-written member | corrected member |
|---|---|---|---|---|---|---|
| parallel_inverse_aggregate.py:80-83 | the multiplier of axis `i` is `bins_per_axis[i+1]` | bins `[2,2,2]`: coordinates `(0,1,0)` and `(1,0,0)` both map to 2, so two bins merge in `group_by`; bins `[1,3,2]` give `[3,6,1,7]` instead of the docstring's `[3,9,1,10]` | the multiplier is the product of all later axes' bin counts | not executed | BinIndex.AsWrittenCollides | BinIndex.LinearizeInjective |
| parallel_inverse_aggregate.py:179-181 | coordinates are clamped to `uniform_grid_cell_count - 1` | 4x4 cells in 2x2 bins, point `(0.0, 7.0)`: coordinate `(0, 3)` is not a bin, and its linear index 3 is that of bin `(1, 1)` | clamp to the last bin, `bins_per_axis - 1`, as the comment says | not executed | Subproblems.ClampAsWrittenMergesBins | Subproblems.BinCoord |
