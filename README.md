# Bike-rental dashboard: the data pipeline

`dashboard/dashboard.py` is a Streamlit page over a table of daily bike rentals. Beneath the
charts it runs a small, stateless pipeline, and this project models that pipeline in Dafny
and proves what it computes:

1. **Year selection** (`YearFilter`): the sidebar choice '2011' keeps the rows with `yr == 0`,
   '2012' keeps the rows with `yr == 1`, anything else ('Both') keeps the whole table.
2. **Grouped means** (`GroupMeans`): `groupby(cols)['cnt'].mean().reset_index()` with pandas'
   default `sort=True`. A key is the tuple of the grouping columns' values, ordered
   lexicographically. Each output row holds the key, the integer sum of `cnt` and the group
   size, so the mean (`Mean`, over `real`) is exact.
3. **Labels** (`Labels`): `Series.map` with the weather dictionary {1: Clear, 2: Cloudy,
   3: Rain/Snow} and the holiday dictionary {0: Working Day, 1: Holiday}. An unmapped code
   gets `None`, the model's missing value.
4. **Rental categories** (`Categories`): `categorize_rentals` (Low below 2000, Medium from
   2000 up to 4000, High from 4000). The `rental_category` column it fills. The ordered
   `pd.Categorical` with categories `[High, Medium, Low]` (codes, -1 for a value outside the
   categories). The per-category counts drawn by the count plot.
5. **The page** (`Dashboard`): `Compute(day, years)` gives everything shown for one selection.

Records carry only the five columns the page reads (`yr`, `mnth`, `weathersit`, `holiday`,
`cnt`), all as unbounded integers. The CSV file becomes the parameter `day`. The sidebar
choice becomes the parameter `years`.

Modules: `Wrappers` (Option), `Records`, `YearFilter`, `Categories`, `GroupMeans`, `Labels`,
`Dashboard`, one file each.

## Model

| member | source | states |
|---|---|---|
| YearFilter.RowsOfYear | dashboard/dashboard.py:22-24 | the boolean-mask selection `df[df['yr'] == y]`; specified by RowsOfYearExact and RowsOfYearIdempotent |
| YearFilter.FilterByYear | dashboard/dashboard.py:18-26 | the year selection; specified by FilterByYearSpec and YearsPartitionFrame |
| YearFilter.RowsOfYearExact | dashboard/dashboard.py:21-24 | the mask selection of year `y` is an order-preserving subsequence, every kept row has `yr == y`, and each row of year `y` is kept with its full multiplicity while no other row is kept |
| YearFilter.RowsOfYearIdempotent | dashboard/dashboard.py:21-24 | selecting the same year twice gives the same rows as selecting it once |
| YearFilter.FilterByYearSpec | dashboard/dashboard.py:18-26 | '2011' keeps exactly the `yr == 0` rows, '2012' exactly the `yr == 1` rows, any other choice returns the table unchanged; always an order-preserving subsequence; filtering the result again changes nothing |
| YearFilter.YearsPartitionFrame | dashboard/dashboard.py:21-26 | when every `yr` is 0 or 1, the '2011' and '2012' selections together hold exactly the rows of 'Both' (as multisets) |
| Categories.Categorize | dashboard/dashboard.py:112-118 | Low exactly when `cnt < 2000`, Medium exactly when `2000 <= cnt < 4000`, High exactly when `cnt >= 4000` |
| Categories.CategorizeBoundaries | dashboard/dashboard.py:112-118 | 1999 is Low, 2000 and 3999 are Medium, 4000 is High |
| Categories.CategorizeMonotone | dashboard/dashboard.py:112-118 | a larger count never gets a lower category on the scale Low < Medium < High |
| Categories.CategoryOrderSpec | dashboard/dashboard.py:121 | the category order lists every category exactly once, in descending volume |
| Categories.IndexOf | dashboard/dashboard.py:122 | the code of a category is its first position in the category list, -1 exactly when it is absent |
| Categories.ToCategorical | dashboard/dashboard.py:122 | one code per value; the code is -1 exactly for a value outside the categories, otherwise it indexes that value in the category list |
| Categories.CategoricalOrderDescending | dashboard/dashboard.py:121-122 | under the ordered categorical, a category sorts before another exactly when it has the higher volume |
| Categories.RentalCategoryColumn | dashboard/dashboard.py:120 | the `.apply(categorize_rentals)` column; specified by RentalCategoryColumnSpec |
| Categories.CategoryCounts | dashboard/dashboard.py:128 | the bar heights of the count plot, one per category in category order; specified by CategoryCountsPartition and CategoryCountsMeaning |
| Categories.RentalCategoryColumnSpec | dashboard/dashboard.py:120 | the new column has one entry per row, and entry i is the category of row i's `cnt` |
| Categories.CategorizeFrame | dashboard/dashboard.py:120-122 | the categorised frame uses the categories [High, Medium, Low] and has one code per row, decoding to that row's category |
| Categories.CategoryCountsPartition | dashboard/dashboard.py:128 | the count plot has three bars and their counts add up to the number of filtered rows |
| Categories.CategoryCountsMeaning | dashboard/dashboard.py:120-128 | the bar of category c counts exactly the rows whose `cnt` the classifier puts in c |
| GroupMeans.AddRow | dashboard/dashboard.py:29 | one step of the grouped aggregation, shared by lines 29, 62 and 88; specified by AddRowSpec |
| GroupMeans.GroupBy | dashboard/dashboard.py:29 | `groupby(cols)['cnt']` with `sort=True`, shared by lines 29, 62 and 88; specified by GroupByCorrect and GroupSizesPartition |
| GroupMeans.Mean | dashboard/dashboard.py:29 | the `.mean()` of a group, its sum over its size as a real; GroupByCorrect equates it with the reference mean of the group's rows |
| GroupMeans.LexLessPair | dashboard/dashboard.py:29 | on two-column keys the output order is by `yr`, then by `mnth` |
| GroupMeans.LexLessSingle | dashboard/dashboard.py:62 | on one-column keys the output order is the order of the values |
| GroupMeans.AddRowKeys | dashboard/dashboard.py:29 | adding one row adds its key to the output's keys and no other key |
| GroupMeans.AddRowSorted | dashboard/dashboard.py:29 | adding one row keeps the output strictly sorted with non-empty groups |
| GroupMeans.AddRowTallies | dashboard/dashboard.py:29 | adding one row adds 1 to the size and `cnt` to the sum of its own key's group, and changes no other group |
| GroupMeans.AddRowSpec | dashboard/dashboard.py:29 | adding one row keeps the output sorted with non-empty groups, adds the row's key, and adds 1 to the size and `cnt` to the sum of that key's group only |
| GroupMeans.GroupByInvariant | dashboard/dashboard.py:29 | the output is strictly sorted, its keys are exactly the keys that occur, and each key's size and sum are the count of rows and the sum of `cnt` with that key |
| GroupMeans.GroupByCorrect | dashboard/dashboard.py:29 | one output row per occurring key and none for any other, keys strictly ascending, each row's size positive and equal to its group's row count, its sum the group's sum of `cnt`, and its mean the reference mean |
| GroupMeans.GroupKeysOccur | dashboard/dashboard.py:29 | every output row's key is the key of some input row |
| GroupMeans.RowKeysGrouped | dashboard/dashboard.py:29 | every input row's key has an output row |
| GroupMeans.GroupSizesPartition | dashboard/dashboard.py:29 | the group sizes add up to the number of input rows, so each row is in exactly one group |
| Labels.MapCode | dashboard/dashboard.py:63 | `Series.map(dict)` on one code, missing when unmapped (also line 89); specified by WeatherLabelSpec and HolidayLabelSpec |
| Labels.WeatherLabelSpec | dashboard/dashboard.py:56-60 | weather codes 1, 2 and 3 map to Clear, Cloudy and Rain/Snow, and every other code has no label |
| Labels.HolidayLabelSpec | dashboard/dashboard.py:87 | holiday codes 0 and 1 map to Working Day and Holiday, and every other code has no label |
| Labels.LabelMapsInjective | dashboard/dashboard.py:56-87 | no two codes in either dictionary share a label |
| Labels.LabelGroups | dashboard/dashboard.py:63 | relabelling keeps the number of aggregate rows |
| Labels.LabelGroupsSpec | dashboard/dashboard.py:63 | row i of the labelled aggregate keeps the sum and size of group i and carries the label of its code |
| Labels.LabelsDistinct | dashboard/dashboard.py:89 | when every code of a sorted one-column aggregate is mapped, the labelled rows carry pairwise different labels |
| Dashboard.Compute | dashboard/dashboard.py:18-128 | everything the page shows for one selection; specified by WeatherStatsSpec, HolidayStatsSpec, CountPlotSpec, CategorisedFrameSpec, ComputeIdempotent and EmptySelection |
| Dashboard.MonthlyAvg | dashboard/dashboard.py:29 | the monthly aggregate; specified by MonthlyAvgKeysOccur, MonthlyAvgCoversMonths, MonthlyAvgOrder and GroupByCorrect |
| Dashboard.LabelledStats | dashboard/dashboard.py:62-63 | a one-column aggregate with its key column relabelled (also lines 88-89); specified by LabelledStatsSpec and LabelledAggregateHolds |
| Dashboard.AggregateCodes | dashboard/dashboard.py:62 | the key column of a one-column aggregate: one code per output row, the code of that row's group |
| Dashboard.WeatherStats | dashboard/dashboard.py:62-63 | the weather view; specified by WeatherStatsSpec |
| Dashboard.HolidayStats | dashboard/dashboard.py:88-89 | the holiday view; specified by HolidayStatsSpec |
| Dashboard.SingleColumnKeys | dashboard/dashboard.py:62 | the keys of a one-column aggregate are one-element tuples |
| Dashboard.MonthlyAvgKeysOccur | dashboard/dashboard.py:29 | every monthly row is a (yr, mnth) pair that occurs in the filtered rows |
| Dashboard.MonthlyAvgCoversMonths | dashboard/dashboard.py:29 | every (yr, mnth) pair that occurs in the filtered rows has a monthly row |
| Dashboard.MonthlyKeysArePairs | dashboard/dashboard.py:29 | every monthly key has exactly two components |
| Dashboard.MonthlyAvgOrder | dashboard/dashboard.py:29 | monthly rows are strictly ordered by year and then by month |
| Dashboard.CodesOccur | dashboard/dashboard.py:62 | every code of a one-column aggregate (weather, holiday) occurs in the filtered rows |
| Dashboard.CodesCovered | dashboard/dashboard.py:88 | every code that occurs in the filtered rows is a code of the one-column aggregate |
| Dashboard.CodesAscending | dashboard/dashboard.py:62 | the codes of a one-column aggregate are strictly ascending |
| Dashboard.LabelledStatsSpec | dashboard/dashboard.py:62-63 | row i of the labelled aggregate carries the label of code i (missing when unmapped) and the sum and count of `cnt` over the rows with that code, a positive count |
| Dashboard.LabelledAggregateHolds | dashboard/dashboard.py:62-63 | a labelled one-column aggregate has one row per occurring code and none for any other, codes ascending, each row labelled and holding its group's sum and count |
| Dashboard.WeatherStatsSpec | dashboard/dashboard.py:56-63 | for any selection the weather view has one row per weather code among the selected days and none for any other, codes ascending, each labelled Clear/Cloudy/Rain/Snow (missing otherwise) with the sum and count of `cnt` over the days with that code |
| Dashboard.HolidayStatsSpec | dashboard/dashboard.py:87-89 | for any selection the holiday view has one row per holiday code among the selected days and none for any other, codes ascending, each labelled Working Day/Holiday (missing otherwise) with the sum and count of `cnt` over the days with that code |
| Dashboard.EmptySelection | dashboard/dashboard.py:29 | a selection that keeps no row yields empty monthly, weather and holiday aggregates and a count plot of three zeros |
| Dashboard.CountPlotSpec | dashboard/dashboard.py:120-128 | for any selection the categories are [High, Medium, Low], the bars count the selected rows of each category in that order, and together they count every selected row once |
| Dashboard.CategorisedFrameSpec | dashboard/dashboard.py:18-122 | the frame behind the categories is a subsequence of the day table, with one category per row equal to that row's own category |
| Dashboard.ComputeIdempotent | dashboard/dashboard.py:18-29 | running the page on its own selected rows with the same selection gives the same view |
| Dashboard.SampleGroupBy | dashboard/dashboard.py:29 | on three sample days where the first two share a key that sorts before the third's, the aggregate is that key with sum 4000 over 2 days, then the third key with 4500 over 1 day |
| Dashboard.SampleMonthly | dashboard/dashboard.py:29 | on the sample with 'Both': (0, 1) averaging 2000 over two days, then (1, 6) with 4500 |
| Dashboard.SampleWeather | dashboard/dashboard.py:62-63 | on the sample: Clear averaging 2000 over two days, then Rain/Snow with 4500 |
| Dashboard.SampleHoliday | dashboard/dashboard.py:88-89 | on the sample: Working Day averaging 2000 over two days, then Holiday with 4500 |
| Dashboard.SampleCategories | dashboard/dashboard.py:120-122 | on the sample (1500, 2500, 4500): codes [2, 1, 0] (Low, Medium, High) and one day per bar |

## Left out

- Streamlit widgets, titles, subheaders and the markdown insight text. The figures quoted in the insights ("408", "5595", ...) are fixed text, not computed.
- Seaborn and matplotlib plotting and theming. The count plot is reduced to its bar heights (`CategoryCounts`); the legend relabelling of `yr` as 2011/2012 is plotting only, so monthly keys keep `yr` as 0/1.
- Loading `data_final.csv` (file I/O): the table is the parameter `day`, and only the five columns the page reads are modelled.
- The selectbox limits the choice to 'Both', '2011' and '2012'; the model takes any string, and every string other than '2011' and '2012' behaves like 'Both', as the `else` branch does.
- Floating-point means: sums and sizes are exact integers and the mean is a `real`.
- pandas copy-versus-view behaviour and the warning raised by the column assignment at line 120; the categorised column is a new value beside the filtered rows.
- How pandas represents a missing label (NaN) beyond "no label" (`None`).
- Filters by weather, holiday or category and a per-category min/max/mean summary: `dashboard.py` has none of these (it filters by year only and plots category counts only), so the model has none either.
- Rejecting unmapped weather or holiday codes with an error: `Series.map` yields a missing value instead, and that is what the model does.
