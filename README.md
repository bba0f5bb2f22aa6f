# geotargeting — a verified model of the urban-area growth and targeting core

`geotargeting/geotargeting.py` turns populated places into urban-area
polygons. Each place grows outwards in 1000 m rings. The population density
sampled over the newest ring decides whether the place keeps growing. After at
most ten expansion rounds every place is finished. Places whose polygon is
mostly covered by another polygon are then dropped. The survivors are attributed
to administrative regions, once by polygon and once by centroid.

This project models that core in Dafny and proves its properties:

- `Growth` (`growth.dfy`) models `buffer_city`, `step` and `algo`. Geometry is a
  type parameter. Buffering, polygon difference and zonal statistics are the
  oracle functions of `Oracles`. Reprojection is folded into those oracles.
- `GrowthFacts` (`growth_facts.dfy`) defines each city's fate one city at a
  time: its row in the first round whose ring is not dense, or in round 10. It
  proves that the batched rounds of `algo` produce exactly these fates.
- `Overlap` (`overlap.dfy`) models `filter_overlap`. Intersection tests and
  area ratios are the oracle functions of `Overlay`.
- `Targeting` (`targeting.dfy`) models the row tables of `prepare_targeting`:
  `get_states` with `str.strip`, the two list comprehensions and the sort by
  name. The spatial predicate and the centroid are the oracle functions of
  `Lookup`.
- `Seqs` (`seqs.dfy`) holds boolean-mask selection (`Filter`) and
  order-preserving subsequences. `Wrappers` (`wrappers.dfy`) holds `Option`.

The model follows the code at four points that are easy to misread:

- A ring is *dense* when its mean exceeds `mean_lim` or its max exceeds
  `max_lim`. `algo` binds the dense rows to the continuing set and the other
  rows to the finished set (lines 34-35, 42-43). So a place keeps growing
  while its ring is dense, and finishes when both statistics are at or below
  the limits.
- The geometry carried into the next round is the outer buffer stored at line
  18, so the buffers compound from round to round (`GrowthFacts.RowAtFields`).
  They are not re-derived from the original point.
- Round 0 records radius 1 km and the tenth expansion round records 11 km, so
  finished radii range from 1 to 11 km. A place whose first ring is already
  sparse finishes at 1 km. With `min_rad` 2 it is therefore not returned
  (`GrowthFacts.IsolatedCityDropped`).
- Both joins of `prepare_targeting` use `intersects` (line 112). The centroid
  join tests the centroid with the same predicate; it is not a containment test.

## Model

| member | source | states |
|---|---|---|
| Growth.RoundRadius | geotargeting/geotargeting.py:32-41 | round r buffers with outer 1000·(r+1) m and inner 1000·r m; the next round's inner radius is this round's outer radius; the recorded radius is r+1 km |
| Growth.OrZero | geotargeting/geotargeting.py:16-17 | a missing statistic becomes 0; a present one is stored unchanged (a falsy 0 stays 0) |
| Growth.BufferRow | geotargeting/geotargeting.py:11-19 | one row after `buffer_city`: the max and mean density of its ring (outer buffer minus inner buffer) with missing or falsy values as 0, the outer buffer as its new geometry and `rad = o / 1000` |
| Growth.Buffered | geotargeting/geotargeting.py:10-20 | every row of the frame is rewritten by `buffer_city`, one for one and in order |
| Growth.BufferCity | geotargeting/geotargeting.py:10-20 | writes the densities of each row's ring, the outer buffer as geometry and `rad = o / 1000` into every row of the frame copy, in place |
| Growth.Step | geotargeting/geotargeting.py:23-27 | returns the dense and the sparse buffered rows, each in order; together they have as many rows as the input; every returned row has `rad = o/1000`; the dense rows satisfy the mask and the sparse rows do not |
| Growth.IsDense | geotargeting/geotargeting.py:26 | the mask of `step`: the mean density exceeds `mean_lim` or the max density exceeds `max_lim` |
| Growth.StepSplitsRows | geotargeting/geotargeting.py:26-27 | the two parts of `step` are a partition of the buffered rows: as multisets they add up to the buffered frame |
| Growth.Continue | geotargeting/geotargeting.py:37-46 | the rows finished by the expansion rounds after round i: each round's sparse rows, then, at the cap or when none is left, the rows still active as they are |
| Growth.ContinueRound | geotargeting/geotargeting.py:37-44 | one expansion round appends exactly the newly sparse rows to the finished part and hands the dense ones to the next round |
| Growth.GrowIteration | geotargeting/geotargeting.py:42-44 | one loop iteration keeps `finished` plus the rows still to be finished equal to the final frame |
| Growth.Grow | geotargeting/geotargeting.py:36-46 | the loop runs at most 10 times; the frame it finishes is the specified one; its rows have radius 1 to rounds+1 km and, unless the cap was hit, all failed the density mask |
| Growth.FinalRows | geotargeting/geotargeting.py:46 | appending the rows still active at the end keeps every radius within 1 to rounds+1 km; below the cap no active row is left |
| Growth.KeptRows | geotargeting/geotargeting.py:47 | the radius filter returns only rows of radius at least `min_rad` and keeps the bounds of the finished rows |
| Growth.Finished | geotargeting/geotargeting.py:30-46 | the `finished` frame before the radius filter: round 0's sparse rows, then what the expansion rounds finish from round 0's dense rows |
| Growth.Algo | geotargeting/geotargeting.py:30-47 | the result is the finished frame filtered by `rad >= min_rad`; at most 10 loop rounds; every returned radius is at least `min_rad` and between 1 and rounds+1 km; rows returned before the cap are all sparse |
| GrowthFacts.RowAtFields | geotargeting/geotargeting.py:11-19 | after round k a row has radius k+1 km, keeps its name, and its geometry is the outer buffer of the geometry it entered the round with |
| GrowthFacts.FirstSparseFrom | geotargeting/geotargeting.py:26-37 | the first round from k whose ring is not dense (10 at most); every ring before it is dense |
| GrowthFacts.FateCharacterized | geotargeting/geotargeting.py:26-46 | a city finishes in round r exactly when every earlier ring is dense and ring r is not, or r is the cap; its finished row keeps its name and has radius r+1, between 1 and 11 km |
| GrowthFacts.FateAtIsRowAt | geotargeting/geotargeting.py:37-44 | growing a row round by round from round k reaches the row of the first sparse round from k |
| GrowthFacts.FatesAtZero | geotargeting/geotargeting.py:34-46 | growing every input city from round 0 gives the cities' fates |
| GrowthFacts.FatesAtCap | geotargeting/geotargeting.py:37-46 | a row entering round 10 is finished with that round's buffer whatever its density |
| GrowthFacts.SplitFates | geotargeting/geotargeting.py:23-44 | the rows a round finishes plus the fates of the rows it keeps are, as a multiset, the fates of the rows that entered it |
| GrowthFacts.SplitHead | geotargeting/geotargeting.py:26-27 | the split of one round extends from the other rows to one more row |
| GrowthFacts.ContinueFates | geotargeting/geotargeting.py:37-46 | the rows the remaining rounds finish are, as a multiset, the fates of the active rows |
| GrowthFacts.FinishedAreFates | geotargeting/geotargeting.py:30-46 | before the radius filter every input city appears exactly once in the finished frame, as its own fate |
| GrowthFacts.FinishedRadius | geotargeting/geotargeting.py:36-46 | before the radius filter every finished row has a radius of 1 to 11 km |
| GrowthFacts.AlgoResult | geotargeting/geotargeting.py:47 | the result is an order-preserving subsequence of the finished frame and holds, up to order, exactly the fates of radius at least `min_rad` |
| GrowthFacts.SparseCityFinishesFirst | geotargeting/geotargeting.py:34-35 | a city whose first ring is sparse finishes in round 0 at 1 km |
| GrowthFacts.DenseCityReachesCap | geotargeting/geotargeting.py:37-46 | a city dense in rounds 0 to 9 finishes at the cap at 11 km |
| GrowthFacts.IsolatedCityDropped | geotargeting/geotargeting.py:34-47 | a lone city whose first ring is sparse is not returned when `min_rad` is 2 |
| GrowthFacts.DenseCityKept | geotargeting/geotargeting.py:37-47 | a lone city dense in rounds 0 to 9 is returned, at 11 km, for any `min_rad` up to 11 |
| GrowthFacts.KeptAlone | geotargeting/geotargeting.py:47 | a lone city whose finished radius reaches `min_rad` is returned alone |
| Overlap.Covers | geotargeting/geotargeting.py:55-58 | one row votes against another when it intersects it and the intersection covers strictly more than 80 % of the other's area |
| Overlap.Overlapped | geotargeting/geotargeting.py:54-59 | the test of iteration i: some row other than i and not yet in `bads` covers row i |
| Overlap.BadsAfter | geotargeting/geotargeting.py:51-60 | `bads` after the first k iterations lists only indices below k |
| Overlap.BadsAscending | geotargeting/geotargeting.py:51-60 | `bads` is appended to in index order, so it is ascending |
| Overlap.FilterOverlap | geotargeting/geotargeting.py:50-62 | the loop builds `bads` iteration by iteration and the result drops exactly the listed rows |
| Overlap.BadsStep | geotargeting/geotargeting.py:53-60 | iteration i lists i exactly when another row not yet listed covers row i |
| Overlap.BadsStepKeeps | geotargeting/geotargeting.py:53-60 | iteration i changes nothing about a smaller index |
| Overlap.BadsDecided | geotargeting/geotargeting.py:53-60 | once index j is decided, it stays decided through every later iteration |
| Overlap.BadsStable | geotargeting/geotargeting.py:53-60 | each index is decided once: later iterations never add or remove it |
| Overlap.DropRule | geotargeting/geotargeting.py:53-60 | row i is dropped exactly when some row j ≠ i that was not dropped earlier intersects it and covers strictly more than 80 % of it; later rows vote whatever becomes of them |
| Overlap.SurvivorsUpTo | geotargeting/geotargeting.py:62 | `drop(bads)` on the first n rows: the rows whose index is not listed, in order |
| Overlap.Survivors | geotargeting/geotargeting.py:62 | `drop(bads)` on the whole frame |
| Overlap.SurvivorsCount | geotargeting/geotargeting.py:51-62 | the rows `drop(bads)` keeps and the indices `bads` lists add up to the length of the frame: every row is either kept or dropped |
| Overlap.SurvivorsSubsequence | geotargeting/geotargeting.py:62 | `drop(bads)` keeps the remaining rows in their order |
| Overlap.SurvivorsMembers | geotargeting/geotargeting.py:62 | `drop(bads)` keeps every unlisted row, and only such rows |
| Overlap.FilterOverlapKeeps | geotargeting/geotargeting.py:50-62 | the result is an order-preserving subsequence of the frame; `bads` lists distinct indices in ascending order and the result has one row per index not listed, so its length is the frame's length minus the number of dropped rows |
| Overlap.NoCoverKeepsAll | geotargeting/geotargeting.py:55-60 | when no row covers another, the frame is returned unchanged |
| Overlap.NothingDropped | geotargeting/geotargeting.py:55-60 | when no row covers another, `bads` stays empty |
| Overlap.ThresholdIsStrict | geotargeting/geotargeting.py:58 | a coverage of exactly 80 % drops neither of two rows |
| Overlap.KeepsSome | geotargeting/geotargeting.py:53-62 | a non-empty frame never loses all its rows: the last row is dropped only for a row that is kept |
| Overlap.MutualCoverKeepsLater | geotargeting/geotargeting.py:53-62 | of two rows covering each other, such as identical polygons, the earlier is dropped and the later kept |
| Targeting.TrimStart | geotargeting/geotargeting.py:114 | removes the leading whitespace: the result is a suffix, does not start with whitespace, and everything removed is whitespace |
| Targeting.TrimEnd | geotargeting/geotargeting.py:114 | removes the trailing whitespace: the result is a prefix, does not end with whitespace, and everything removed is whitespace |
| Targeting.Strip | geotargeting/geotargeting.py:114 | `str.strip()`: leading and trailing whitespace removed |
| Targeting.StripSpec | geotargeting/geotargeting.py:114 | `strip` returns the middle of the name without whitespace at either end, and everything cut off at either end is whitespace |
| Targeting.StripIdempotent | geotargeting/geotargeting.py:114 | stripping a stripped name changes nothing |
| Targeting.GetStates | geotargeting/geotargeting.py:111-115 | at most one name per region |
| Targeting.GetStatesMembers | geotargeting/geotargeting.py:111-115 | a name is returned exactly when some region intersecting the probe has that name after stripping |
| Targeting.GetStatesSource | geotargeting/geotargeting.py:112-114 | every returned name comes from an intersecting region |
| Targeting.GetStatesHas | geotargeting/geotargeting.py:112-114 | every intersecting region contributes its stripped name |
| Targeting.GetStatesCount | geotargeting/geotargeting.py:111-115 | one name per intersecting region; an empty list exactly when no region intersects |
| Targeting.CityRows | geotargeting/geotargeting.py:117-118 | a city shape gives as many rows as there are regions intersecting its probe, in region order, each carrying the stripped region name, the city's name and its `overlap_population` |
| Targeting.CityRowsMembers | geotargeting/geotargeting.py:111-118 | a city shape emits a row exactly when the row has the shape's name and population and the stripped name of a region that intersects the probe |
| Targeting.RegionRows | geotargeting/geotargeting.py:117-118 | the list comprehension: the rows of each city shape in turn, in frame order |
| Targeting.RegionRowsCount | geotargeting/geotargeting.py:117-118 | the table has one row per (city, matching region) pair, so a city without a matching region contributes none |
| Targeting.RegionRowsMembers | geotargeting/geotargeting.py:117-118 | a row is emitted exactly when some city has its name and population and one of that city's matching regions has its region name |
| Targeting.RowSource | geotargeting/geotargeting.py:117-118 | every emitted row comes from some city and one of its regions |
| Targeting.RowHas | geotargeting/geotargeting.py:117-118 | every (city, matching region) pair is emitted |
| Targeting.NameLeqTotal | geotargeting/geotargeting.py:123 | any two names are ordered one way or the other |
| Targeting.NameLeqTransitive | geotargeting/geotargeting.py:123 | the name order is transitive |
| Targeting.Insert | geotargeting/geotargeting.py:123 | inserting a row into a sorted table keeps it sorted and adds exactly that row |
| Targeting.SortByName | geotargeting/geotargeting.py:123 | the sorted table is ordered by name and is a permutation of its input |
| Targeting.SortedPairwise | geotargeting/geotargeting.py:123 | in a sorted table every earlier name is at most every later one |
| Targeting.PrepareTargeting | geotargeting/geotargeting.py:103-125 | the centroid table and the overlap table are each sorted by name and hold exactly the rows of their lookup |
| Seqs.Filter | geotargeting/geotargeting.py:47 | a boolean mask keeps only rows that satisfy it, each taken from the input |
| Seqs.FilterIsSubsequence | geotargeting/geotargeting.py:47 | a boolean mask keeps the surviving rows in their order |
| Seqs.FilterCount | geotargeting/geotargeting.py:47 | a boolean mask keeps every occurrence of a row that satisfies it and no other |
| Seqs.FilterPartition | geotargeting/geotargeting.py:27 | a mask and its negation split a frame into two parts that add up to it |

## Left out

- Geometry and coordinate reference systems: `to_crs`, `buffer`, `difference`,
  `intersects`, `intersection`, `area` and `centroid` are oracle functions, not
  modelled geometry. The division of an intersection area by a zero own area is
  therefore not modelled.
- Raster work: `zonal_stats` is the `zonal` oracle. Only the coercion of
  missing or falsy statistics to 0 is modelled. `rasterio` is used only by
  `get_total_population`, which is left out below.
- Floating point: densities, limits and radii are exact reals. NaN statistics,
  which Python treats as truthy and which fail every comparison, are not
  modelled.
- Growth.Step: the multiset partition of its two outputs is stated by
  `Growth.StepSplitsRows` beside it, not in its own contract.
- Growth.Grow, Growth.Algo: the while-loop's `print` of the round number is not
  modelled.
- `add_total_population` and `get_total_population`: float sums, `round` and a
  coverage ratio that prints, outside the decision logic.
  `Targeting.Shape.population` stands for the `overlap_population` they add.
- The pandas `merge` in `prep` (line 122), which joins each row to the city
  shapes on their common columns (at least `name`) and adds `rad`, `lat` and
  `lng`. The `lng` and `lat` columns (lines 106-107) are left out with it.
- Targeting.PrepareTargeting: without the merge it holds exactly the rows of
  each lookup, which the program's tables do not in two cases. First, when
  several city shapes share a name, the inner merge repeats each row once per
  shape of that name. Second, when a lookup gives no rows (no city shape meets any
  region, or no city was kept), `pd.DataFrame([])` has no columns and the
  merge raises an error; the model returns an empty table there.
- Targeting.SortByName: it promises only "sorted by name and a permutation".
  `sort_values` is not stable, so the order of rows with equal names is not
  fixed.
- Reading the region file, `make_city_shapes`' file reading and place-type
  selection, `main`, the command-line interface, file output and the module's
  `run()` call are I/O.
- `_get_overlap` (lines 97-101) is not called anywhere.
