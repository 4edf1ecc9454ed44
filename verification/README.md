# Homicide coverage filter, ranking and UNODC row normalisation

A Dafny model of two pieces of table logic from a crime-data analysis
repository.

The first piece comes from `src/analysis_utils.py`:

- **Coverage filter (`get_countries_with_enough_data`).** Each requested
  country is scored by the share of years in the closed window
  `[start, end]` for which it has at least one row. The score is rounded to
  two decimals. Countries scoring at least a limit are selected. The
  configured limit is `PROP_YEARS_IN_PERIOD_LIMIT = 0.65`.
- **Ranking (`calculate_ranking`).** Rows of the selected countries inside
  the window are grouped by country and the other `by` columns. Each
  group's rate is averaged and rounded to two decimals. The `(Country,
  Region_2)` pairs of the table are left-joined on. Duplicate rows are
  dropped and the table is sorted by the mean rate, ascending.

The second piece is the transformation chain inside `main` of
`scripts/process_homicides_data_unodc.py`. It turns the UNODC sheet into
the processed series:

- keep the homicide-victims indicator and drop `Iso3_code`, `Indicator` and
  `Source`;
- inner-join rate rows with count rows on the eight descriptive columns;
- derive the population from count and unrounded rate when the rate is
  positive;
- round the rate;
- label `Region_2` and apply the rename tables;
- sort by `(Country, Dimension, Category, Sex, Age, Year)`;
- attach each row's rounded rate change against the previous row of its
  series.

Modules:

| file | module | contents |
|---|---|---|
| `rounding.dfy` | `Rounding` | round half to even, to integers and to hundredths |
| `seqs.dfy` | `Seqs` | `Option`, filter, map, first-occurrence deduplication (the order of a Python `dict`'s keys) |
| `sorting.dfy` | `Sorting` | sortedness under a total preorder, insertion sort with permutation proof |
| `collation.dfy` | `Collation` | lexicographic order of strings and of several sort columns |
| `coverage.dfy` | `Coverage` | `get_countries_with_enough_data` |
| `ranking.dfy` | `Ranking` | `calculate_ranking` |
| `ranking_example.dfy` | `RankingExample` | a worked instance with the configured limit |
| `unodc_processing.dfy` | `UnodcProcessing` | the processing chain of `process_homicides_data_unodc.main` |

Some descriptions of this project mention other behaviour:

- a population-weighted mean;
- a minimum-across-segments coverage rule;
- region-level rollups;
- hard errors on an inverted window or on a country with two regions.

`src/analysis_utils.py` contains none of it. It takes the plain mean
(line 39) and left-joins every `Region_2` a country has (lines 40-43). The
model follows the code.

Each data column the transformations read becomes a field, as follows:

- Rates, counts and values are exact `real`s.
- Years are `int`s.
- Strings are `seq<char>`.
- The `by` columns of `calculate_ranking` other than `Country` become the
  `segment` field of a row. It is a sequence of strings and is empty when
  the ranking groups by country alone.
- Polars' nulls become `Option` (`population`, `homicides_rate_abs_change`).

## Model

| member | source | states |
|---|---|---|
| Rounding.RoundHalfEven | src/analysis_utils.py:12 | the result is an integer within one half of the argument, and on an exact half it is the even neighbour (NumPy's rounding) |
| Rounding.Round2 | src/analysis_utils.py:12 | the result has at most two decimals (100 times it is an integer), lies within 0.005 of the value, and on an exact tie takes the neighbour whose last digit is even |
| Rounding.Round2Monotone | src/analysis_utils.py:39 | rounding to two decimals preserves order, so ranking by the rounded mean never inverts two groups |
| Rounding.Round2OfHundredths | scripts/process_homicides_data_unodc.py:89 | a value that already has two decimals is left unchanged by rounding |
| Rounding.Round2UnitInterval | src/analysis_utils.py:12 | a proportion in [0, 1] stays in [0, 1] after rounding, and 0 and 1 are kept exactly |
| Seqs.FilterKeepsEveryOccurrence | scripts/process_homicides_data_unodc.py:43-48 | a row filter keeps every occurrence of a matching row, drops every other row and keeps the order: the result is a subsequence whose count of each row is its count in the input when it matches and zero otherwise |
| Seqs.Dedup | src/analysis_utils.py:8-14 | keeps each element once, in the order of its first occurrence, and loses no element (iteration over a dict's keys) |
| Sorting.SortBy | src/analysis_utils.py:44-47 | the result is a permutation of the input (same multiset) sorted under the given total preorder |
| Coverage.YearsPresent | src/analysis_utils.py:9-12 | the year-by-year count over the window equals the number of distinct years with a row inside the window, and is at most the window's length |
| Coverage.Score | src/analysis_utils.py:8-12 | every coverage score lies between 0 and 1 |
| Coverage.FullCoverageScoresOne | src/analysis_utils.py:9-12 | a country with a row for every year of the window scores exactly 1 |
| Coverage.NoRowsScoresZero | src/analysis_utils.py:11-12 | a country without rows scores exactly 0 |
| Coverage.OutsideWindowIrrelevant | src/analysis_utils.py:9-12 | two tables that agree on a country's years inside the window give it the same score, whatever their rows outside it |
| Coverage.CountriesWithEnoughData | src/analysis_utils.py:6-16 | every requested country gets exactly one score, in [0, 1]; a country is selected exactly when its score is at least the limit (inclusive); the selection follows request order and lists each country once |
| Coverage.LowerLimitKeepsSelection | src/analysis_utils.py:14 | lowering the limit never removes a country from the selection |
| Coverage.NotSelected | src/analysis_utils.py:31 | the not-selected list holds exactly the requested countries absent from the selection, in request order (a subsequence of the request) and with every repeated request kept |
| Coverage.SelectionPartitionsRequest | src/analysis_utils.py:24-31 | every requested country is in exactly one of the selected and not-selected lists, and neither list holds anything else |
| Ranking.MeanWithinBounds | src/analysis_utils.py:39 | a mean lies between any lower and upper bound of the averaged rates |
| Ranking.RegionPairs | src/analysis_utils.py:22 | the regions map holds exactly the `(Country, Region_2)` pairs occurring in the table |
| Ranking.GroupMeans | src/analysis_utils.py:36-39 | every group has at least one kept row, and its value is the two-decimal rounding of the mean of its kept rows' rates |
| Ranking.RegionsFor | src/analysis_utils.py:40-43 | one row per map pair of the group's country, carrying that pair's label; this is the left join for every group the ranking forms, because a group's own rows give its country a pair |
| Ranking.JoinRegions | src/analysis_utils.py:40-43 | the joined table is the union of the per-group joins |
| Ranking.CalculateRanking | src/analysis_utils.py:20-47 | the ranking is sorted by mean rate ascending, has no duplicate row, and holds exactly the joined group means of the selected countries |
| Ranking.GroupOfKeptRows | src/analysis_utils.py:33-37 | for a selected country, a group's kept rows are exactly its rows whose year is inside the window |
| Ranking.JoinedRowIsSound | src/analysis_utils.py:33-43 | every joined row belongs to a selected country; its value is the rounded mean of its group's rates inside the window (a non-empty set); its label occurs with its country in the table |
| Ranking.GroupMeanOfKeptRow | src/analysis_utils.py:33-39 | a selected country's in-window row has its group among the group means, with a non-empty window and the rounded mean of the group's in-window rates |
| Ranking.JoinedRowsAreComplete | src/analysis_utils.py:33-43 | every group of a selected country with a row in the window is joined with every label its country has in the table |
| Ranking.RankingRowsAreSound | src/analysis_utils.py:20-47 | every ranking row is of a selected country, carries the rounded arithmetic mean of its group's rates over the closed window, and has a label its country has in the input (none is invented) |
| Ranking.RankingIsComplete | src/analysis_utils.py:20-47 | every group of a selected country with a row in the window is ranked with its rounded mean, once for each label its country has |
| RankingExample.ExampleSelection | config/config_01a.py:179 | with limit 0.65 and window 2000-2009, a country present in all ten years scores 1.0, one present in four years scores 0.4, and only the first is selected |
| RankingExample.ExampleRanking | src/analysis_utils.py:20-47 | in the same instance the ranking is non-empty and ranks only the selected country, with its region |
| UnodcProcessing.Observations | scripts/process_homicides_data_unodc.py:43-45 | the kept rows are exactly the rows of the homicide-victims indicator, without `Iso3_code`, `Indicator` and `Source` |
| UnodcProcessing.ObservationsKeepEveryRow | scripts/process_homicides_data_unodc.py:43-45 | one observation per sheet row of the indicator: each observation occurs as often as the indicator rows it comes from, including rows that differ only in a dropped column |
| UnodcProcessing.MatchCounts | scripts/process_homicides_data_unodc.py:47-57 | a rate row joins with exactly the count rows that have the same eight key values |
| UnodcProcessing.MatchCountsPerCountRow | scripts/process_homicides_data_unodc.py:52-57 | a rate row yields one joined row per count row of its key, so each joined row occurs once per count row producing it |
| UnodcProcessing.InnerJoin | scripts/process_homicides_data_unodc.py:52-57 | the inner join holds exactly the matches of each rate row |
| UnodcProcessing.InnerJoinPerPair | scripts/process_homicides_data_unodc.py:52-57 | the inner join has one row per (rate row, count row) pair with equal keys, and each joined row occurs once per pair producing it |
| UnodcProcessing.DuplicateCountRowsMultiply | scripts/process_homicides_data_unodc.py:52-57 | a rate row meeting two identical count rows of its key is joined twice, not once |
| UnodcProcessing.OutputHasOneRowPerPair | scripts/process_homicides_data_unodc.py:43-90 | the output has as many rows as there are pairs of an indicator rate row and count row with equal keys |
| UnodcProcessing.JoinedRowOrigin | scripts/process_homicides_data_unodc.py:43-57 | every joined row pairs a rate row and a count row of the indicator with equal keys |
| UnodcProcessing.MatchingPairIsJoined | scripts/process_homicides_data_unodc.py:43-57 | every rate row and count row of the indicator with equal keys are joined |
| UnodcProcessing.Population | scripts/process_homicides_data_unodc.py:58-64 | a population exists exactly when the rate is positive; it is the integer that makes `population * rate` miss `count * 100000` by at most half a rate |
| UnodcProcessing.RoundedQuotientIsConsistent | scripts/process_homicides_data_unodc.py:61-64 | rounding `count * 100000 / rate` to an integer keeps `population * rate` within half a rate of `count * 100000` |
| UnodcProcessing.Prepare | scripts/process_homicides_data_unodc.py:58-85 | the key columns other than Country and Category are kept; Country and Category go through their rename tables and are unchanged when not listed; the rate is the two-decimal rounding of the joined rate; `Region_2` is the label `Region2` gives from the sheet's country and region; the count is kept; the population exists exactly for a positive rate and is derived from the rate before rounding; the United States become `USA` in both `Country` and `Region_2` |
| UnodcProcessing.Region2 | scripts/process_homicides_data_unodc.py:67-75 | `Region_2` is `Spain` for Spain and `USA` for the United States, and otherwise the region with Americas renamed Latam; a row is Latam exactly when it is neither of those two countries and its region is Americas (or already Latam), so the US is never Latam |
| UnodcProcessing.RenamesTouchOnlyListedValues | scripts/process_homicides_data_unodc.py:76-85 | only the three listed countries and the one listed category change, and renaming twice equals renaming once |
| UnodcProcessing.SortLeComparesColumnByColumn | scripts/process_homicides_data_unodc.py:86-88 | the output order compares `Country` first, then `Dimension`, `Category`, `Sex` and `Age` by code point, and `Year` last, ascending |
| UnodcProcessing.SortLeIsTotalPreorder | scripts/process_homicides_data_unodc.py:86-88 | the order by `(Country, Dimension, Category, Sex, Age, Year)` is total and transitive |
| UnodcProcessing.SeriesAreContiguous | scripts/process_homicides_data_unodc.py:86-88 | in the sorted table the rows of each series are consecutive |
| UnodcProcessing.LastOfSeries | scripts/process_homicides_data_unodc.py:89 | finds the last earlier row of a series, or reports that the series has no earlier row |
| UnodcProcessing.RateChange | scripts/process_homicides_data_unodc.py:89 | a row's change is missing exactly when no earlier row is of its series; otherwise it is the two-decimal rounding of its rate minus the rate of the last earlier row of its series (the grouped `diff`) |
| UnodcProcessing.Normalise | scripts/process_homicides_data_unodc.py:43-90 | the output has one row per joined pair, is sorted by `(Country, Dimension, Category, Sex, Age, Year)`, and its records are a permutation of the prepared joined rows |
| UnodcProcessing.OutputRowsHaveRateAndCount | scripts/process_homicides_data_unodc.py:43-90 | every output row is the prepared join of a rate row and a count row of the indicator with equal values in all eight key columns |
| UnodcProcessing.MatchingPairIsOutput | scripts/process_homicides_data_unodc.py:43-90 | every such pair of rate and count rows appears in the output |
| UnodcProcessing.RateChangeOfSortedRecords | scripts/process_homicides_data_unodc.py:86-89 | in a sorted table, a row's change is the rounded difference with the row right above when that row is of the same series (and not of a later year), and missing otherwise |
| UnodcProcessing.OutputRateChanges | scripts/process_homicides_data_unodc.py:66-90 | `homicides_rate_abs_change` is the rounded difference of the rounded rates of a row and the row above it in the same series, and missing on the first row of every series |

## Left out

- Reading the Excel sheet, writing the CSV, creating the output directory, logging, the `try`/`except` reporting and the `print` diagnostics are left out. They are I/O and have no effect on the tables.
- Binary floating point is left out. Values are exact reals, and every rounding is round half to even. NumPy rounds this way; some polars versions round halves away from zero instead. Rounding errors of binary fractions are not modelled.
- Nulls in the sheet's values and key columns are left out. Every cell of the model holds a value. NaN and polars' null propagation through a missing rate are therefore not modelled.
- Coverage.Score: requires `start <= end`. An inverted window gives an empty mean, which is NaN in the source; that case is not modelled.
- Ranking.CalculateRanking: states sortedness and the set of rows, not the order among rows of equal mean. Polars' `group_by`, `unique` and `sort` do not fix that order.
- UnodcProcessing.Normalise: states sortedness and the permutation of records, not the order among rows equal on all six sort columns. The sort does not fix that order.
- UnodcProcessing.RateChangeOfSortedRecords: the change is taken against the previous row of the series. When a year is missing from a series, that row is not the previous calendar year, exactly as in the source.
- Ranking.CalculateRanking: `by` is assumed to contain `Country`, and its other columns are assumed to hold strings (the `segment` of a row). In the source, a `by` without `Country` makes the left join on `Country` fail; that case is not modelled.
- The join's and the group-by's own output order is left out. Only the multiset of rows is stated, not their order, because every table is sorted afterwards.
- `src/plots_utils.py`, the configuration tables (except the coverage limit) and `scripts/extract_intentional_homicides_eurostat.py` are not part of this model. They are presentation, constants and a network download.
