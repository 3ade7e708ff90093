# DVF transactions: cleaning and top-communes aggregation, in Dafny

This project models the data pipeline of `test.py`, a script over the French
land-value dataset (DVF, "demandes de valeurs foncières"). The script loads a
table of property sales, checks that the value (`valeur_fonciere`) and
built-surface (`surface_reelle_bati`) columns exist, and drops rows with a
missing or implausible surface or value. It then adds the price per square
metre (`prix_m2`) and derives the data of its charts:

- the number of sales per property type (`type_local`);
- the ten communes with the highest median price per m² among those with at
  least 30 sales;
- the size of the sample drawn for the surface/value scatter plot.

Modules:

- `Wrappers` — `Option` (a null cell is `None`), `Outcome`, `Result`.
- `Seqs` — generic row operations: `Filter` (a boolean mask `df[mask]`),
  `Count`, `Map`, `Distinct`, and a stable insertion sort `SortByDesc` in
  descending order of a real key, with lemmas on order, multiplicities and
  duplicates.
- `Sales` — the row datatype `Sale` and the table `Frame` (column set + rows).
- `Cleaning` — the schema check `CheckColumns`, and the cleaner. The cleaner is
  written imperatively, as in the script: `Clean` reassigns a working table
  through one loop per step (`KeepRows` for each filter, `AddPriceColumn` for
  the new column). It is proved equal to the stage-by-stage specification
  `Cleaned`. The properties of the cleaned table are lemmas about `Cleaned`.
- `Stats` — `Median` (sort, then the middle value or the mean of the two
  middle values), with its meaning proved: at most half of the values lie
  strictly below it and at most half strictly above it, and it does not depend
  on the order of the values.
- `Communes` — group by commune, count, median, the `nb >= 30` query, the
  ranking by median and the cut to ten rows (`TopCommunes`). Lemmas prove it
  sound, ranked and complete.
- `Charts` — `TypeCounts` (`value_counts` of the non-null property types),
  `SampleSize`, and the link from the cleaner to the ranking.

Arithmetic is exact (`real`): `prix_m2` is exactly value / surface.

## Model

| member | source | states |
|---|---|---|
| Cleaning.CheckColumns | test.py:29-31 | passes exactly when both `valeur_fonciere` and `surface_reelle_bati` are columns; otherwise fails with a non-empty set holding exactly the required columns that are absent |
| Cleaning.MissingValueColumnIsReported | test.py:29-31 | a table with the surface column but without the value column fails with exactly `{valeur_fonciere}` |
| Cleaning.CleanFrame | test.py:26-47 | fails with the missing required columns, or returns the cleaned rows with `prix_m2` added to the column set |
| Cleaning.KeepRows | test.py:34-43 | one row filter: the result is exactly the rows satisfying the mask, in input order |
| Cleaning.AddPriceColumn | test.py:46 | every row gets `prix_m2 = value / surface`, nothing else changes, order kept |
| Cleaning.Clean | test.py:26-47 | the step-by-step cleaner computes exactly the staged specification `Cleaned` |
| Cleaning.Ratio | test.py:46-47 | the ratio is null exactly when an operand is null or the surface is zero; otherwise ratio × surface = value |
| Cleaning.PriceDropRemovesNothing | test.py:46-47 | after the range filter every ratio is defined, so dropping null `prix_m2` removes no row |
| Cleaning.CleanedIsOnePass | test.py:34-47 | the four filters and the new column amount to one filter by the plausibility range followed by the price column |
| Cleaning.CleanedRowsAreValid | test.py:34-47 | every cleaned row has a present surface and value, 8 < surface < 5000, 1000 < value < 50000000, and `prix_m2` = value / surface |
| Cleaning.CleanedRowsComeFromInput | test.py:34-46 | the cleaned rows are the plausible input rows as an order-preserving subsequence, each unchanged except for its new `prix_m2` |
| Cleaning.SurvivesIffInRange | test.py:38-43 | an input row is in the output (with its price) if and only if its surface and value are present and strictly within bounds |
| Cleaning.CleanedIdempotent | test.py:34-47 | cleaning a cleaned table returns it unchanged |
| Cleaning.BoundsAreExclusive | test.py:38-43 | a row whose surface is 8 or 5000, or whose value is 1000 or 50000000, is dropped |
| Cleaning.ThreeRowExample | test.py:34-47 | of (10 m², 50000 €), (10000 m², 50000 €), (10 m², 500 €) only the first survives, at 5000 €/m² |
| Cleaning.InRange | test.py:38-43 | a row is in range exactly when its surface and value are both present and strictly inside (8, 5000) and (1000, 50000000); a null cell is never in range |
| Cleaning.Cleaned | test.py:34-47 | the cleaned table is no longer than the input, and every row in it is in range and has a price |
| Seqs.SortByDesc | test.py:98 | the sort returns a permutation of its input in non-increasing order of the key |
| Stats.MedianSplitsHalves | test.py:96 | at most half of a group's prices are strictly below its median and at most half strictly above it |
| Stats.MedianIgnoresOrder | test.py:95-96 | two groups holding the same prices in any order have the same median |
| Stats.Median | test.py:96 | the median is no smaller than some value of the group and no larger than some value of the group |
| Communes.PricedCommuneIsGroup | test.py:95 | a commune with a price has a non-null commune cell, so it is a group key |
| Communes.Groups | test.py:95 | the group keys are exactly the non-null commune cells, each once |
| Communes.GroupStat | test.py:96 | a commune's row carries the commune and its number of prices as `nb`; when `nb > 0`, at most half of its prices lie strictly below `median_prix_m2` and at most half strictly above |
| Communes.Aggregate | test.py:95-96 | one row per group key: as many rows as groups, each commune a group with its number of prices as `nb`, no commune twice |
| Communes.Ranking | test.py:97-98 | the ranking keeps only communes with `nb >= 30`, no more rows than the aggregate, in non-increasing order of median |
| Communes.TopCommunes | test.py:94-100 | the table is the first `min(len(ranking), 10)` rows of the ranking, all with `nb >= 30`, in non-increasing order of median |
| Communes.AggregateIsPerGroup | test.py:95-96 | every aggregate row is the stat of a group key, with that group's count and median; every group key has its row; no row occurs twice |
| Communes.CountIsGroupSize | test.py:96 | when every row has a price, a commune's `nb` equals its number of rows |
| Communes.TopCommunesSound | test.py:94-99 | every ranked commune has `nb >= 30`, `nb` equal to its number of prices, and `median_prix_m2` equal to the median of its prices |
| Communes.TopCommunesRanked | test.py:98-99 | the table has at most 10 rows, in non-increasing order of median, with no commune twice |
| Communes.RankedCommunesDistinct | test.py:95-98 | no commune appears twice in the ranking |
| Communes.TopCommunesComplete | test.py:97-99 | a commune with at least 30 prices that is not in the table was pushed out: the table has 10 rows and the commune's median is no higher than the tenth |
| Communes.TopCommunesCountSales | test.py:94-96 | on a table where every row has a price, each ranked `nb` is the commune's number of sales |
| Charts.TypeCounts | test.py:59 | the counted property types are exactly those of some row, and each count is the number of rows of that type |
| Charts.SampleSize | test.py:123 | the scatter sample has `min(n, 20000)` rows |
| Charts.RankingOfCleanedCountsSales | test.py:94-96 | on the cleaned table each ranked commune's `nb` is its number of cleaned sales |

## Left out

- Loading and saving the parquet files, the existence check and the snappy
  compression (test.py:17-20, 52): file I/O.
- All printed diagnostics and warnings (test.py:21, 49, 53, 70, 72, 88,
  111-116, 139): output only.
- The column-presence guards of the optional charts (test.py:58, 77, 93, 121)
  and the emptiness tests before drawing (test.py:60, 102): they only decide
  whether a chart is drawn. An absent optional column is modelled as a null
  cell in every row.
- All matplotlib/seaborn drawing and styling, the boxplot (test.py:77-88) and
  the quantile-based axis limits (test.py:83, 134-135): presentation, and
  floating-point percentile interpolation that only serves the plots.
- The random sampling with `random_state=42` (test.py:123): only the sample
  size is modelled.
- Floating point: values are exact reals, so there is no rounding and no
  overflow to infinity. A division by zero, which in floating point gives an
  infinite or undefined result that the script turns into null, is modelled as
  a null ratio.
- The other columns of the dataset are not represented. The script carries
  them along, but its infinity-to-null replacement (test.py:47) runs over the
  whole table, so an infinite value in any of them on a kept row becomes null.
  The model says nothing about those cells.
- Communes.TopCommunes: the order among communes with equal medians. The
  script's sort is not stable, and its groups come in sorted key order. The
  model keeps group order (last occurrence in the table) with a stable sort.
  The lemmas promise only non-increasing order, which holds for any tie order.
  The set of communes in the table can differ from the script's only by ties
  at the tenth place.
- Communes.GroupStat: a group with no price has a NaN median in the script. The
  model records 0.0, and such a group (count 0) is always removed by
  `nb >= 30`.
- Charts.TypeCounts: `value_counts` also orders the types by decreasing count.
  That order only arranges the bar chart, so the model returns a map.
