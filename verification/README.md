# World population dashboard — a Dafny model of its table logic

`world_population_dashboard.py` is a Streamlit dashboard. `load_data` builds
a table of (Country, Year, Population, Region) rows for twenty countries
every five years. It derives a per-country summary (smallest and largest
population, growth in percent). `main` and the chart builders then read that
table:

- the sidebar's year, country and region options;
- the region filter on the selected countries;
- the four header metrics (world population and its five-year delta,
  countries displayed, average growth, total growth);
- the rows behind the world map, the trend chart, the regional area chart
  and the top-10 growth ranking;
- the population table under the charts.

This project models that logic as pure Dafny functions over sequences and
proves what the code guarantees about it.

Modules, in dependency order:

- `Collections`: boolean-mask filtering, sorting largest first, min/max,
  distinctness.
- `Ordering`: string order and the sorted-unique key lists that `groupby`
  and `sorted(x.unique())` produce.
- `Catalog`: the country list, the region table, and the first-match region
  lookup with its `Other` fallback.
- `Series`: the year list and the generated table.
- `Summaries`: the per-country summary of `load_data`.
- `Aggregation`: the world and (Region, Year) sums, and the growth ranking.
- `Selection`: the sidebar options, the region filter, the metrics, and the
  chart and table rows.

The population of a row comes from random draws and float arithmetic. Here it
is an oracle `pop: (string, int) -> Pop` that gives a positive integer for
each (country, year) pair. Every property is proved for all oracles.
`Dataset(pop)` is the dashboard's own table: the catalog's twenty countries
and fifteen years run through the generator.

What the code computes, in the places where its labels suggest otherwise:

- **Summary populations.** The summary renames the group's `min` and `max`
  to `Population_1950` and `Population_2023` (line 99), and the ranking
  chart is titled "(1950-2023)" (line 234). The two columns are the
  minimum and maximum population by value, not the first-year and
  last-year values. `DipMisreportsFirstYear` shows they differ as soon as a
  later year dips below the first year. `MonotoneSummaryIsFirstAndLast`
  shows they agree when the series never decreases.
- **Years.** The years are `range(1950, 2024, 5)` (line 60), which ends at
  2020; 2023, the year in the column name and the chart title, is not
  among them.
- **Delta at 1950.** The delta subtracts the sum over year − 5 (line 290).
  For 1950 that sum covers no rows, so it is 0 and the delta is the whole
  1950 total (`DatasetDeltaAtFirstYear`).
- **Empty selection.** When the region filter empties the country selection,
  the table and the "Countries Displayed" count use every country in the
  table (lines 294 and 336). `Shown` and `DisplayedCount` state this.
- **Ties in the ranking.** `nlargest(10, 'Growth')` (line 227) uses its
  default `keep='first'`: among entries with equal growth it keeps the
  earlier summary rows and lists them in summary order. The summary is
  sorted by country, so a tie goes to the country that sorts first
  (`TopGrowthKeepsFirstTies`, `GrowthRankingKeepsFirstTies`).
- **Ties in the population table.** `sort_values` (line 338) sorts with an
  unstable default algorithm, so the order among equal populations is not
  fixed; the model states only the ordering and the contents.
- **Region lookup.** It scans the region table in insertion order and takes
  the first list that contains the country, else `Other` (lines 83-84).

## Model

| member | source | states |
|---|---|---|
| Catalog.RegionOf | world_population_dashboard.py:83-84 | a country listed in no region list gets `Other`; otherwise it gets the region of the first list, in table order, that contains it |
| Catalog.DisjointListsLookup | world_population_dashboard.py:83-84 | if no country is listed twice across the table, a listed country is counted in exactly one list and is looked up to that list's region |
| Catalog.CatalogIsPartition | world_population_dashboard.py:43-57 | each of the twenty countries is in exactly one region list and never falls back to `Other`; every listed name is one of the twenty and is looked up to its own list's region |
| Series.Range | world_population_dashboard.py:60 | `range(start, stop, step)`: element i is start + i·step and below stop, the list is empty exactly when stop ≤ start, and the next value would reach stop |
| Series.YearsIsRange | world_population_dashboard.py:60 | the fifteen written-out years equal `range(1950, 2024, 5)` |
| Series.YearsAreEveryFifthYear | world_population_dashboard.py:60 | there are 15 years, year i is 1950 + 5i, they run from 1950 to 2020, and they strictly ascend |
| Series.YearsMembership | world_population_dashboard.py:60 | a year is generated iff it lies in 1950..2020 and is a multiple of five after 1950; 1945 and 2023 are not generated |
| Series.Generate | world_population_dashboard.py:71-91 | the table has one block of \|years\| rows per country (length is the block offset after the last country) |
| Series.GenerateSize | world_population_dashboard.py:71-91 | the table has \|countries\| · \|years\| rows |
| Series.GenerateRows | world_population_dashboard.py:71-91 | every row names an input country and an input year, carries that country's looked-up region and the oracle's population for the pair |
| Series.GenerateBlock | world_population_dashboard.py:71-91 | row Offset(i, \|years\|) + j, which `OffsetIsProduct` shows is row i·\|years\| + j, is country i in year j with its region and population (countries outer loop, years inner loop) |
| Series.GenerateFirst | world_population_dashboard.py:71-91 | the first row is the first country in the first year |
| Series.GenerateCovers | world_population_dashboard.py:71-91 | every (country, year) pair of the inputs has a row |
| Series.GenerateUnique | world_population_dashboard.py:71-91 | with distinct countries and distinct years, no (country, year) pair has two rows |
| Series.GenerateIsTable | world_population_dashboard.py:71-93 | the generated table satisfies both table predicates: rows drawn from the inputs, and every pair covered |
| Series.DatasetIsTable | world_population_dashboard.py:43-93 | the dashboard's table is drawn from and covers the catalog's countries and the generated years |
| Series.DatasetFirstRow | world_population_dashboard.py:71-91 | the dashboard's table starts with China in 1950, and every row's year is a generated year |
| Series.DatasetSize | world_population_dashboard.py:71-91 | the dashboard's table has 20 × 15 = 300 rows |
| Series.DatasetPairsOnce | world_population_dashboard.py:71-91 | each catalog (country, year) pair occurs in exactly one row |
| Series.DatasetRegions | world_population_dashboard.py:83-84 | no row of the dashboard's table has region `Other` |
| Summaries.GrowthPercent | world_population_dashboard.py:101-103 | growth is zero exactly when the two populations agree, and is non-negative when the first is the smaller |
| Summaries.GrowthScales | world_population_dashboard.py:101-103 | growth · low = (high − low) · 100, the defining relation of a percentage increase over `low` |
| Summaries.SummaryFor | world_population_dashboard.py:96-99 | the summary of a group has the group's key, and its two populations are the least and the greatest population among the group's rows, both attained |
| Summaries.SortedGroupKeys | world_population_dashboard.py:96 | the group keys ascend strictly by (Country, Region), each has at least one row, and every row's key is among them |
| Summaries.Summarize | world_population_dashboard.py:96-103 | one entry per distinct (Country, Region) key, keys strictly ascending, every row's key present; each entry summarizes its group with min ≤ max, growth ≥ 0, and growth 0 iff min = max |
| Summaries.SummaryRegions | world_population_dashboard.py:96-103 | on a table drawn from the inputs, every summary entry is for an input country and carries its looked-up region |
| Summaries.SummaryCoversCountries | world_population_dashboard.py:96-100 | on a table covering the inputs with at least one year, every input country has a summary entry |
| Summaries.RowHasSummary | world_population_dashboard.py:96-100 | a country with any row has a summary entry |
| Summaries.SummaryMinMax | world_population_dashboard.py:96-99 | each entry's two populations are the country's least and greatest oracle population over the years, both attained in some year |
| Summaries.SummaryOnePerCountry | world_population_dashboard.py:96-100 | with distinct countries and at least one year, the summary has exactly one entry per country |
| Summaries.MonotoneSummaryIsFirstAndLast | world_population_dashboard.py:96-99 | when a country's population never decreases over the years, the min/max columns are its first-year and last-year populations |
| Summaries.DipMisreportsFirstYear | world_population_dashboard.py:96-99 | when a later year falls below the first year, `Population_1950` is not the first year's population |
| Summaries.DatasetSummary | world_population_dashboard.py:96-103 | the dashboard's summary has 20 entries with distinct countries, none with region `Other`, each holding its country's min and max over the generated years |
| Aggregation.YearTotal | world_population_dashboard.py:286 | the sum over a year's rows is non-negative, and zero exactly when no row has that year |
| Aggregation.YearTotalAppend | world_population_dashboard.py:286 | a year's sum over two concatenated tables is the sum of the two sums |
| Aggregation.GeneratedYearTotal | world_population_dashboard.py:71-91 | with distinct years, a generated table's sum for a year is the oracle summed over the countries if the year is generated, and 0 otherwise |
| Aggregation.RegionYearTotal | world_population_dashboard.py:211 | a (region, year) sum is non-negative and positive exactly when some row has that region and year |
| Aggregation.RegionTotals | world_population_dashboard.py:211 | one entry per (Region, Year) key present, strictly ascending, every row's key present, each entry's population equal to its group's sum and positive |
| Aggregation.RegionSumIsYearTotal | world_population_dashboard.py:211 | summing the (region, year) totals over distinct regions that include every region of the year gives the year's total |
| Aggregation.TotalsAtIsSumOverRegions | world_population_dashboard.py:211 | the aggregate rows of one year add up to the region sums over the regions they name |
| Aggregation.RegionTotalsSumToYearTotal | world_population_dashboard.py:211 | for any year, the regional totals of that year add up to the world total of that year |
| Aggregation.TopGrowth | world_population_dashboard.py:227 | `nlargest(n)`: min(n, \|s\|) entries, growth non-increasing, drawn from the summary as a sub-multiset, and no entry left out grows faster than any entry kept |
| Aggregation.GrowthRanking | world_population_dashboard.py:227 | `nlargest(10, 'Growth')`: ten pairs (all when fewer), growth non-increasing, drawn as a sub-multiset from the summary's (Country, Growth) pairs, and no pair left out grows faster than a pair kept |
| Aggregation.TopGrowthKeepsFirstTies | world_population_dashboard.py:227 | `keep='first'`: when no (Country, Growth) pair repeats, of two summary entries with equal growth, the earlier one is listed first, and the ranking holds the later one only if it also holds the earlier one |
| Aggregation.GrowthRankingKeepsFirstTies | world_population_dashboard.py:227 | on a summary with one row per country, the top-10 chart holds a tied later country only if it holds every tied earlier one |
| Aggregation.DatasetRankingSize | world_population_dashboard.py:227 | on the dashboard's summary the ranking has exactly ten bars |
| Selection.AllYears | world_population_dashboard.py:253 | the year options ascend strictly and are exactly the years that occur in the table |
| Selection.GeneratedYearOptions | world_population_dashboard.py:253 | on a table generated for at least one country from ascending years, the year options are those years |
| Selection.DatasetYearOptions | world_population_dashboard.py:253-258 | the dashboard's year options are the fifteen generated years, and they include the slider's default 2020 |
| Selection.AllCountries | world_population_dashboard.py:261 | the country options ascend strictly, have no repeats, and are exactly the countries that occur in the table |
| Selection.AllRegions | world_population_dashboard.py:270 | the region options ascend strictly, have no repeats, and are exactly the regions that occur in the table |
| Selection.RegionFilter | world_population_dashboard.py:278-280 | no chosen region leaves the selection unchanged; otherwise the result keeps, in order and with their multiplicities, exactly the selected countries that some row places in a chosen region |
| Selection.DatasetInRegions | world_population_dashboard.py:279 | on the dashboard's table a country is placed in the chosen regions iff it is a catalog country whose looked-up region is chosen |
| Selection.DefaultRegionsKeepSelection | world_population_dashboard.py:270-280 | with the default choice of all regions, every selected country that has a row survives the filter |
| Selection.Shown | world_population_dashboard.py:336 | the countries shown are the selection, or, when it is empty, the distinct countries of the table |
| Selection.DisplayedCount | world_population_dashboard.py:294 | "Countries Displayed" is the selection's length, or the number of distinct countries in the table when nothing is selected |
| Selection.WorldTotal | world_population_dashboard.py:286 | the world population of a year is non-negative, and zero exactly when the year has no rows |
| Selection.PopulationDelta | world_population_dashboard.py:290 | the delta plus the total five years earlier is this year's total; with no rows five years earlier the delta is the whole total |
| Selection.DatasetWorldTotal | world_population_dashboard.py:286 | on the dashboard's table the world population is the oracle summed over the twenty countries for a generated year, and 0 for any other year |
| Selection.DeltaWithoutEarlierYear | world_population_dashboard.py:290 | a year with rows but no generated year five years earlier has a delta equal to its positive total |
| Selection.DatasetDeltaAtFirstYear | world_population_dashboard.py:290 | on the dashboard's table the delta shown for 1950 is the whole, positive, 1950 world population |
| Selection.TotalGrowth | world_population_dashboard.py:302 | the total growth of non-negative growths is non-negative |
| Selection.AverageGrowth | world_population_dashboard.py:298 | the mean is missing exactly for an empty summary; otherwise the mean times the count is the total |
| Selection.TotalGrowthBounds | world_population_dashboard.py:302 | with every growth between lo and hi, the total lies between \|s\| copies of lo and \|s\| copies of hi |
| Selection.AverageBetween | world_population_dashboard.py:298 | the average growth lies between any lower and upper bound of the individual growths |
| Selection.DatasetTotalGrowth | world_population_dashboard.py:302 | on the dashboard's summary the total growth is non-negative |
| Selection.DatasetAverageGrowth | world_population_dashboard.py:298 | on the dashboard's summary the average exists and is the total divided by twenty |
| Selection.YearRows | world_population_dashboard.py:107 | the world map's rows are, in table order, exactly the rows of the selected year, each with its multiplicity in the table |
| Selection.TrendRows | world_population_dashboard.py:134 | the trend chart's rows are, in table order, exactly the rows of the selected countries, each with its multiplicity in the table |
| Selection.DisplayTable | world_population_dashboard.py:335-338 | the table rows are ordered by population, largest first, and are a permutation of the projected rows of the selected year and the shown countries |
| Selection.DisplayTableRows | world_population_dashboard.py:335-338 | a (Country, Region, Population) row is in the table iff some row of the selected year and a shown country projects to it |
| Selection.UnknownYearEmptyTable | world_population_dashboard.py:335-338 | a year without rows gives an empty table |
| Selection.GeneratedTableRows | world_population_dashboard.py:335-338 | on a generated table with distinct years, a generated year keeps one row per shown input country |
| Selection.GeneratedCountMatchesTable | world_population_dashboard.py:294-338 | on a generated table with distinct countries and years, for a generated year and a repetition-free selection of input countries, the table has as many rows as "Countries Displayed" counts |
| Selection.DisplayCountMatchesTable | world_population_dashboard.py:294-338 | the same on the dashboard's table: for a generated year and a repetition-free selection of catalog countries, the table shows "Countries Displayed" rows |
| Collections.Filter | world_population_dashboard.py:134 | a boolean mask keeps, in order and with their multiplicities, exactly the elements passing the test |
| Collections.MapFilterMembers | world_population_dashboard.py:335-338 | a projected filtered table holds exactly the projections of the rows that pass |
| Collections.SortDesc | world_population_dashboard.py:338 | `sort_values(ascending=False)`: a permutation of the input with keys non-increasing |
| Collections.SortDescStable | world_population_dashboard.py:227 | the descending sort is stable: of two distinct elements with equal keys, the one earlier in the input is earlier in the output |
| Collections.SortDescKeepsFirst | world_population_dashboard.py:227 | any prefix of the sorted list that holds the later of two tied elements holds the earlier one too |
| Collections.PrefixDominates | world_population_dashboard.py:227 | the first m entries of a list sorted largest first are sorted and drawn from it, and none of the rest has a larger key |
| Collections.MinOf | world_population_dashboard.py:97 | the minimum is an element and no element is smaller |
| Collections.MaxOf | world_population_dashboard.py:97 | the maximum is an element and no element is larger |
| Ordering.SortedKeys | world_population_dashboard.py:96 | the distinct keys in strictly ascending order, exactly those of the input |
| Ordering.StrictlySortedUnique | world_population_dashboard.py:253 | two strictly ascending lists with the same elements are equal |

## Left out

- Streamlit page setup, CSS, widgets and Plotly figures (lines 1-32 and the UI calls in 105-352): only the data each widget or chart receives is modelled.
- The population draw (lines 63-80): `base_populations`, the random growth rate, the ±5% noise, the float power and the `int()` truncation become the positive-integer oracle `pop`.
- `create_population_pyramid` (lines 153-207): it reads ambient session state, uses fixed float age shares, and feeds only a chart.
- The CSV download (lines 346-352): text formatting is not modelled.
- The metric strings (lines 287-303): thousands separators and one-decimal rounding are presentation only.
- `.round(0)` on the summary (line 98): the populations are already integers, so it changes nothing.
- Ties in `sort_values` (line 338): the default sort is not stable, so the order among equal populations in the population table is left open; `Selection.DisplayTable` states only the ordering and the contents.
- Selection.AverageGrowth: pandas' NaN for an empty growth column is modelled as `None`. The mean is taken over exact reals, not IEEE doubles, so "mean times count equals total" and the bounds of `Selection.AverageBetween` hold for the model only; float rounding can put a double mean slightly outside them.
- Selection.TotalGrowth: the sum of the growth column is taken over exact reals, not IEEE doubles; the rounding of float addition is not modelled.
- Population column: pandas stores it as int64 and its sums wrap past 2^63. The generator's values stay near 3.3e9 per row and 1e10 per year, far below that, so unbounded integers give the same sums.
- Summaries.GrowthPercent: computed on exact reals, not IEEE doubles; rounding of the float division is not modelled.
- Selection.DisplayCountMatchesTable: requires a selection without repeats drawn from the catalog. The multiselect widget only offers distinct options from the table, so other selections cannot arise.
