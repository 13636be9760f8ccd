# dem-gmrf driver: bounding box, checkpoint split and residual statistics

dem-gmrf builds a Digital Elevation Model from a cloud of `x y z [stddev]`
samples with a Gaussian-Markov-Random-Field height grid. The estimator itself
(grid sizing, observation fusion, smoothness prior, sparse solve, prediction)
lives in MRPT's `CHeightGridMap2D_MRF`, which is not part of this model. This
project models the driver's own sequential logic in `src/dem-gmrf_main.cpp`,
as Dafny modules:

- `Dataset` (dataset.dfy): the loaded matrix (`Table`, every row `nCols`
  wide), the point of a row, the driver's error conditions, and `DoubleMax`
  (the exact value of `std::numeric_limits<double>::max()`).
- `BoundingBox` (bounding_box.dfy): the scan of step [2]. Six running
  accumulators are updated point by point with `keep_min`/`keep_max`. Heights
  with `|z| >= 1e6` (no-data markers such as 1e38) are skipped. All six bounds
  are then widened by `BORDER = 10`. The method is proved against `Lower` and
  `Upper`, which give the accumulators after a prefix. Lemmas show that the
  box contains the points, is tight, and ignores no-data heights.
- `Checkpoints` (checkpoints.dfy): step [3] and its consumers. The index list
  0..N-1 is built, then shuffled in place. `round(ratio * N)` indices become
  checkpoints and the rest are inserted. The insertion loop picks each
  reading's standard deviation: the global `--std-obs` for a 3-column file,
  column 3 otherwise. The checkpoint loop collects the withheld points.
- `ResidualStats` (residual_stats.dfy): `do_residuals_stats`. Entries 0 and 1
  are the signed maximum and minimum residual. Entry 5 comes from an in-place
  `nth_element` at N/2. The median is stated by rank: at most N/2 residuals
  are below it and more than N/2 are at or below it. A lemma shows this equals
  index N/2 of any sorted copy.
- `Driver` (driver.dfy): steps [1]-[3] chained as the source runs them. It
  produces what the estimator and the output files receive.

Where the documentation and the code differ, the model follows the code:

- Entries 0 and 1 of the statistics sit under the headers `MAX_ABS_ERR` and
  `MIN_ABS_ERR`, but they are signed extremes, not magnitudes
  (`WorkedExample`: [1, -2, 3] gives 3 and -2).
- The median is the element at index N/2 of the sorted residuals. For an even
  count this is the upper of the two middle values, not the lower one
  (`UpperMedianForEvenCount`).

## Model

| member | source | states |
|---|---|---|
| BoundingBox.ScanBoundingBox | src/dem-gmrf_main.cpp:89-109 | The loop leaves the six accumulators equal to `Lower`/`Upper` of the points, widened by 10. Every point lies at least 10 inside the x and y bounds. Every point with a usable height lies at least 10 inside the z bounds. With no usable height, the z bounds are the ±DBL_MAX sentinels shifted by 10. |
| BoundingBox.KeepMax | src/dem-gmrf_main.cpp:99-102 | `keep_max` leaves the accumulator at least as large as both the old value and the new coordinate, and equal to one of them. |
| BoundingBox.KeepMin | src/dem-gmrf_main.cpp:99-102 | `keep_min` leaves the accumulator at most as large as both the old value and the new coordinate, and equal to one of them. |
| BoundingBox.ExtentContains | src/dem-gmrf_main.cpp:96-104 | Every visited coordinate lies between the min and max accumulators. The accumulators never move past their sentinels. |
| BoundingBox.ExtentAttained | src/dem-gmrf_main.cpp:89-104 | For finite doubles: if some coordinate is visited, each accumulator equals one of the visited coordinates. If none is visited, both accumulators keep their sentinels. |
| BoundingBox.NoHeightKeepsSentinels | src/dem-gmrf_main.cpp:91-103 | When no height satisfies \|z\| < 1e6, minz stays DBL_MAX and maxz stays -DBL_MAX. |
| BoundingBox.BoxIsTight | src/dem-gmrf_main.cpp:96-109 | The widened box is tight. With at least one point, some point lies exactly 10 inside each x and y bound. With a usable height, some usable height lies exactly 10 inside each z bound. |
| BoundingBox.ZRangeIgnoresNoData | src/dem-gmrf_main.cpp:101-109 | No-data heights never widen the z range. Once one usable height exists, the widened z bounds stay inside (-1e6 - 10, 1e6 + 10), however large the no-data markers are. |
| Checkpoints.RoundHalfUp | src/dem-gmrf_main.cpp:130 | The rounding used for the checkpoint count gives an integer within one half of its argument. |
| Checkpoints.NearestStaysInRange | src/dem-gmrf_main.cpp:130-131 | Any nearest integer of a value in [0, N] lies in [0, N]. This covers half-up and half-even rounding, so N_chk_pts <= N either way. |
| Checkpoints.SplitCounts | src/dem-gmrf_main.cpp:121-131 | The call succeeds exactly when the ratio is in [0, 1]. Otherwise it returns the ratio error. On success the checkpoint count is within one half of ratio·N (so any nearest rounding qualifies) and equals round-half-up of it, and the inserted and checkpoint counts add up to N with no underflow. |
| Checkpoints.RatioEnds | src/dem-gmrf_main.cpp:41-43 | Ratio 0.0 selects no checkpoint. Ratio 1.0 selects every point. |
| Checkpoints.RangeOccurrences | src/dem-gmrf_main.cpp:126 | The initial index list holds each of 0..N-1 exactly once and nothing else. |
| Checkpoints.Linspace | src/dem-gmrf_main.cpp:125-126 | The freshly built index list is 0, 1, ..., N-1. |
| Checkpoints.RandomShuffle | src/dem-gmrf_main.cpp:128-129 | The in-place shuffle only permutes the list: its multiset of entries is unchanged. |
| Checkpoints.ShuffledIndices | src/dem-gmrf_main.cpp:125-129 | The shuffled index list has N entries and is a permutation of 0..N-1. |
| Checkpoints.SplitIsPartition | src/dem-gmrf_main.cpp:124-131 | For any permutation of 0..N-1, every index 0..N-1 occurs exactly once in exactly one of the inserted prefix `[0, N_insert)` and the checkpoint suffix `[N_insert, N)`. Neither part holds any other value. |
| Checkpoints.CollectReadings | src/dem-gmrf_main.cpp:165-184 | One reading per inserted index, in insertion order. Each reading carries that row's x, y and z. Its stddev is `--std-obs` exactly when the file has 3 columns, and otherwise that row's column 3. |
| Checkpoints.CollectCheckpoints | src/dem-gmrf_main.cpp:205-207 | Checkpoint k is the point of row `pts_indices[N_insert + k]`, for k < N_chk_pts. |
| ResidualStats.MaxOf | src/dem-gmrf_main.cpp:298 | The signed maximum is a residual, and no residual exceeds it. |
| ResidualStats.MinOf | src/dem-gmrf_main.cpp:299 | The signed minimum is a residual, and no residual is below it. |
| ResidualStats.CountsOfPermutation | src/dem-gmrf_main.cpp:305-307 | Copying and rearranging the residuals keeps the count below any value and the count at or below it. So the rank of a value is the same in `v` as in `r`. |
| ResidualStats.PartitionedHasRank | src/dem-gmrf_main.cpp:307-308 | After `nth_element` at position n, the value at position n has rank n. |
| ResidualStats.RankIsUnique | src/dem-gmrf_main.cpp:307-308 | Only one value can have a given rank, so the median entry is fully determined by the residuals. |
| ResidualStats.SortedRank | src/dem-gmrf_main.cpp:307-308 | In a sorted sequence, the value of rank k is the one at index k. |
| ResidualStats.MedianIsSortedMiddle | src/dem-gmrf_main.cpp:305-308 | The rank-N/2 residual is what index N/2 of any sorted copy of the residuals holds. |
| ResidualStats.NthElement | src/dem-gmrf_main.cpp:307 | `v` is rearranged in place as a permutation of itself. Nothing before position n is greater than v[n], and nothing after it is smaller. |
| ResidualStats.MedianOfResiduals | src/dem-gmrf_main.cpp:305-308 | The value read at v[N/2] is one of the residuals and has rank N/2 among them. |
| ResidualStats.DoResidualsStats | src/dem-gmrf_main.cpp:290-309 | The header is always set and the result always has six entries. For an empty vector nothing is computed. Otherwise entry 0 is the signed maximum and entry 1 the signed minimum: both are residuals and bound every residual. Entry 5 is the rank-N/2 residual. |
| ResidualStats.RmseWithinExtremes | src/dem-gmrf_main.cpp:303 | The RMSE squared over exact reals is non-negative and at most the larger square of the two signed extremes. |
| ResidualStats.MeanSquareBounded | src/dem-gmrf_main.cpp:303 | A bound on every squared residual bounds their mean, which is the square of the RMSE. |
| ResidualStats.WorkedExample | src/dem-gmrf_main.cpp:298-308 | For residuals [1, -2, 3]: entry 0 is 3, entry 1 is -2 (signed, not the smallest magnitude 1), the median is 1 and the RMSE squared is 14/3. |
| ResidualStats.UpperMedianForEvenCount | src/dem-gmrf_main.cpp:307-308 | For [4, 1, 3, 2] the only value of rank 2 is 3, the upper of the two middle values. |
| Driver.PrepareRun | src/dem-gmrf_main.cpp:77-207 | A table with fewer than 3 columns is rejected, and then a ratio outside [0, 1]. Otherwise the box is the widened scan of all points. The checkpoint count is round(ratio·N), and each index 0..N-1 occurs exactly once in exactly one of the inserted and checkpoint lists. Every reading and checkpoint carries its row's coordinates, and each reading carries the column-count-dependent stddev. |

## Left out

- The GMRF estimator: `setSize`, `insertIndividualReading`, `updateMapEstimation` and `predictMeasurement` are calls into MRPT's `CHeightGridMap2D_MRF`, which is not part of this model. The sequence of readings produced by `CollectReadings` stands for the insertion calls, in order.
- The residual values `z - predicted` depend on the estimator's prediction. The statistics are stated for an arbitrary residual vector, and the evaluation loop's prediction calls are not modelled.
- The `if (N_chk_pts)` guard around checkpoint evaluation is not modelled separately. `DoResidualsStats` covers the empty vector anyway.
- DoResidualsStats: entries 2 (mean), 3 (standard deviation) and 4 (RMSE) are not computed. They come from the foreign `meanAndStd` and from `sqrt` over floating point, so the model leaves them at their allocation value and its contract says nothing about them. The RMSE is described through its square over exact reals (`MeanSquare`, `RmseWithinExtremes`).
- DoResidualsStats: for an empty vector, Eigen's `resize` leaves the six entries uninitialised. The model allocates them, and its contract promises nothing about their values.
- ScanBoundingBox: coordinates are exact reals. In IEEE doubles, `DBL_MAX - 10` rounds back to `DBL_MAX`, so an unused z sentinel widened by the border stays at ±DBL_MAX. In the model it moves by exactly 10. NaN and infinite inputs are not modelled, and the tightness lemmas assume finite coordinates.
- RandomShuffle: the standard library's `random_shuffle` is not part of this model. It is modelled as a Fisher-Yates pass whose `rand()` draws are a parameter, and only the permutation property is promised. The distribution and the `srand(time(0))` seeding are not modelled.
- NthElement: the standard library's `nth_element` is not part of this model. It is implemented by a partial selection sort that meets the standard's contract: a permutation, with the element at position n having nothing larger before it and nothing smaller after it. Where the other entries end up can differ from the library's.
- Linspace: MRPT's `linspace` is not part of this model. It is modelled by its effect for `linspace(0, N-1, N)`, which fills the list with 0..N-1.
- SplitCounts: the ratio, ratio·N and the added one half are exact reals here, whereas the program parses `-c` into a double and rounds the double product. Near a half the count can differ by one: with `-c 0.29` and N = 50 the double product is 14.499999999999998 and the program takes 14 checkpoints, while the exact 14.5 gives 15 here. The count is still within one half of the exact ratio·N, and the range and partition properties hold for any such count.
- PrepareRun: its checkpoint count inherits the exact-real computation of `SplitCounts`, so it can differ by one from the program's double computation when ratio·N is within rounding error of a half.
- RoundHalfUp: `mrpt::utils::round` is not part of this model. Builds that round halves to even (the SSE2 path) can differ on exact halves. The range property holds for any nearest rounding (`NearestStaysInRange`).
- `size_t` and the matrix dimensions are unbounded naturals here, so overflow is not modelled.
- Command-line parsing, loading the text matrix (parse errors, missing file), writing the output files, timing and logging, the 3D viewer, and the exception handler in `main` are I/O and not modelled. The table is an input, and the output files' contents are the `Plan` fields and the statistics.
