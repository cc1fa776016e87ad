# COVID-19 dashboard data pipeline in Dafny

This project models the data pipeline of a Streamlit COVID-19 dashboard
(`covid_dashboard.py`) and proves what it computes. The dashboard reads two
wide CSV tables from the JHU CSSE time series, one of confirmed cases and
one of deaths. Each table has one row per province or country and one
cumulative count column per date. The dashboard then:

1. reshapes each table into a long table with one row per (country, date),
   summing the provinces of a country (`process_data`);
2. sorts the long table by date and adds a `Daily` column. `Daily` is the
   difference from the country's previous row, and 0 on the country's first
   row (`calculate_daily_cases`);
3. stops if no country is selected, filters both tables to the selected
   countries for the charts, and shows each selected country's latest
   confirmed and death counts (`main`).

All of this is pure table arithmetic, so the model is made of datatypes,
functions and lemmas:

- `Order`: Python's string order, and `sorted(unique(...))` as a generic
  `SortedUnique`.
- `Tables`: the rows and tables passed between stages.
- `Reshape`: `melt`, the `groupby(...).sum()`, and `process_data`.
- `Daily`: `sort_values('Date')`, the per-country `diff().fillna(0)`, and
  `calculate_daily_cases`.
- `Dashboard`: the `isin` filter, the `iloc[-1]` lookup, the statistics loop
  and the outcome of `main`.

Dates are the parsed date headers, kept as integers because only their order
matters. A lookup that pandas would answer with `IndexError` (a selected
country with no row) is modelled as `None`. `main` then ends in the
`LookupFailed` view.

## Model

| member | source | states |
|---|---|---|
| Reshape.Melt | covid_dashboard.py:38-42 | `df.melt(...)` gives exactly one row per (raw row, date column); `Reshape.MeltAt` states where each one sits and what it holds |
| Reshape.MeltAt | covid_dashboard.py:38-42 | the melted table is column-major: row `i` of date column `j` sits at `j * rows + i` and carries that row's province, country, lat, long, the column's date and the row's count there |
| Reshape.OccursMelt | covid_dashboard.py:38-42 | the melted table has a row keyed (c, d) exactly when some raw row belongs to c and d heads a date column |
| Reshape.ProcessData | covid_dashboard.py:33-53 | `process_data`: melt, then group-by sum, then the sorted distinct countries; its meaning is stated by `Reshape.ReshapeKeys`, `ReshapeValues`, `ReshapeRowsPerCountry`, `ReshapeIgnoresLocation`, `UniqueRows` and `CountryList` |
| Reshape.GroupSum | covid_dashboard.py:48 | the group-by result is sorted by country and then date; each of its rows is a key present in the input, carrying the sum of that key's `Cases`; every key present in the input has a row |
| Reshape.ReshapeKeys | covid_dashboard.py:38-48 | after the reshape, every row is (a country of the raw table, a date column); every such pair has a row; no key appears twice |
| Reshape.ReshapeRowsPerCountry | covid_dashboard.py:38-48 | with N distinct date columns, each country of the raw table has exactly N rows in the long table |
| Reshape.ReshapeValues | covid_dashboard.py:38-48 | with distinct date columns, the value at (c, date of column j) is the sum of column j over all raw rows of c |
| Reshape.GroupedColumnTotals | covid_dashboard.py:38-48 | rows that hold the melted sums at their keys hold, at the date of column j, the sum of column j over their country's raw rows |
| Reshape.ReshapeIgnoresLocation | covid_dashboard.py:38-48 | province, lat and long have no effect: tables that agree on dates, countries and counts give the same long table and country list |
| Reshape.UniqueRows | covid_dashboard.py:48 | the long table holds at most one row per (country, date) |
| Reshape.CountryList | covid_dashboard.py:51 | the returned country list is strictly ascending, so it has no duplicates; it holds exactly the countries of the raw table, provided the table has a date column |
| Reshape.OfferedCountry | covid_dashboard.py:51 | a country on the returned list appears in the raw table, and the table has date columns |
| Reshape.KeyOfRow | covid_dashboard.py:38-48 | each row of the long table is keyed by a raw row's country and a date column |
| Reshape.RowOfKey | covid_dashboard.py:38-48 | for each country of the raw table and each date column, the long table has a row with that key |
| Reshape.LatestRow | covid_dashboard.py:38-48 | at the last date column, a country of the raw table has a row no earlier than any of its other rows, holding the sum of that column over the country's raw rows |
| Order.StrLessIsStrictTotalOrder | covid_dashboard.py:51 | Python's `<` on strings is irreflexive, transitive and total, so sorting country names is well defined |
| Order.SortedUnique | covid_dashboard.py:51 | `sorted(unique(s))` is strictly ascending and holds exactly the elements of s; when s has no duplicates it keeps all of them |
| Order.InsertUnique | covid_dashboard.py:51 | adding one value to a strictly ascending sequence keeps it strictly ascending; the value is added only when it is not already there |
| Order.AscendingDetermined | covid_dashboard.py:51 | two strictly ascending sequences with the same elements are equal, so the sorted list does not depend on how the values were collected |
| Daily.InsertByDate | covid_dashboard.py:59 | inserting a row into a date-sorted table keeps it date-sorted; the result holds the old rows plus the new one; one row per key is kept when the new key is fresh |
| Daily.SortByDate | covid_dashboard.py:59 | `sort_values('Date')` returns a date-ordered permutation of the input's rows, which keeps one row per key when the input had one |
| Daily.LastRowBefore | covid_dashboard.py:60 | the row that the group-wise `diff` subtracts is the last earlier row of the same country, and there is none exactly when no earlier row has that country |
| Daily.GroupDiff | covid_dashboard.py:60 | one cell of `groupby('Country/Region')['Cases'].diff().fillna(0)`; its meaning is stated by `Daily.GroupDiffIsDatePredecessor`, `DailyFirstIsZero` and `DailyIsDifference` |
| Daily.WithDaily | covid_dashboard.py:60 | the `Daily` column assigned onto the sorted table; `Daily.StripWithDaily` states that nothing else changes, and `Daily.DailyPrefixSum` that its running sum gives `Cases` back |
| Daily.StripWithDaily | covid_dashboard.py:60 | adding `Daily` leaves every row's country, date and `Cases`, and the row order, as they were |
| Daily.CalculateDaily | covid_dashboard.py:59-61 | the result has one row per input row, and dropping `Daily` gives back exactly the input's rows, as a multiset |
| Daily.CalculateDailyOrdered | covid_dashboard.py:59-61 | the result is ordered by non-decreasing date, and keeps one row per key when the input had one |
| Daily.PrevIsDatePredecessor | covid_dashboard.py:59-60 | on a date-sorted table with one row per key, the previous row of a country in table order is its closest earlier date; if it has none, the row has the country's earliest date |
| Daily.GroupDiffIsDatePredecessor | covid_dashboard.py:59-60 | on such a table, a row's difference is taken against the country's row at the immediately preceding date |
| Daily.DailyFirstIsZero | covid_dashboard.py:60 | the row with a country's earliest date has `Daily` 0 |
| Daily.DailyIsDifference | covid_dashboard.py:60 | every other row's `Daily` is its `Cases` minus the country's `Cases` at the immediately preceding date; a decrease gives a negative value |
| Daily.DailyPrefixSum | covid_dashboard.py:60 | in table order, a country's first `Cases` plus its running sum of `Daily` up to any of its rows equals that row's `Cases` |
| Daily.SortedRoundTrip | covid_dashboard.py:60 | on a date-sorted table with one row per key, a country's earliest `Cases` plus the sum of its `Daily` through date d is its `Cases` at d |
| Daily.DailyRoundTrip | covid_dashboard.py:59-60 | on the output of `calculate_daily_cases`, a country's `Cases` at its first date plus the sum of its `Daily` over its rows dated d or earlier is its `Cases` at d |
| Dashboard.FilterSelected | covid_dashboard.py:109-114 | the `isin` filter never adds rows, and every row it keeps has a selected country |
| Dashboard.FilterCounts | covid_dashboard.py:109-114 | each row with a selected country is kept as many times as it occurs; no other row is kept |
| Dashboard.FilterConcat | covid_dashboard.py:109-114 | filtering a concatenation is concatenating the filtered parts, so kept rows stay in their original order |
| Dashboard.FilterEmpty | covid_dashboard.py:109-114 | the filtered table is empty exactly when no row has a selected country |
| Dashboard.RowsOf | covid_dashboard.py:157-158 | the `== country` mask never adds rows and keeps only rows of that country; `Dashboard.RowsOfEmpty`, `RowsOfFiltered` and `LatestIsLastRow` state the rest |
| Dashboard.Latest | covid_dashboard.py:157-158 | `['Cases'].iloc[-1]` on the masked table, `None` for pandas' `IndexError`; its meaning is stated by `Dashboard.LatestIsLastRow`, `LatestThroughFilter` and `LatestIsMaxDate` |
| Dashboard.RowsOfEmpty | covid_dashboard.py:157-158 | the `== country` mask selects nothing exactly when no row has that country |
| Dashboard.RowsOfFiltered | covid_dashboard.py:157-158 | masking the filtered table by a selected country gives that country's rows of the whole table; an unselected country has none |
| Dashboard.LatestIsLastRow | covid_dashboard.py:157-158 | `iloc[-1]` fails exactly when the country has no row, and otherwise reads the `Cases` of the country's last row in table order |
| Dashboard.LatestThroughFilter | covid_dashboard.py:157-158 | looking a selected country up in the filtered table gives the same value as in the unfiltered table; an unselected country is not found |
| Dashboard.LatestIsMaxDate | covid_dashboard.py:157-158 | after `calculate_daily_cases`, the value looked up for a country is the `Cases` of its row with the greatest date |
| Dashboard.LatestStats | covid_dashboard.py:153-158 | the loop yields metrics exactly when every selected country is found in both tables, one per country in selection order with the values looked up; otherwise it names the first selected country whose lookup fails |
| Dashboard.Show | covid_dashboard.py:101-158 | an empty selection stops before filtering; otherwise the two chart tables are exactly the `isin`-filtered tables; the page shows metrics exactly when every lookup succeeds, one per selected country in selection order with the values looked up; otherwise it names the first selected country whose lookup fails |
| Dashboard.SelectedThroughFilter | covid_dashboard.py:109-114 | a selected country's lookup in a filtered table gives what it gives in the whole table |
| Dashboard.FirstFailureThroughFilter | covid_dashboard.py:109-114 | the first selected country whose lookup fails after the filter is the first one that fails without it |
| Dashboard.DailyTable | covid_dashboard.py:77-82 | `process_data` followed by `calculate_daily_cases` on one fetched table; its meaning is stated by `Dashboard.LatestFound` and `LatestIsColumnTotal` |
| Dashboard.Render | covid_dashboard.py:72-103 | `main` stops with an error exactly when a fetch failed, and with a warning exactly when the data loaded but nothing is selected |
| Dashboard.LatestFoundInLong | covid_dashboard.py:157-158 | after `calculate_daily_cases`, a country has a latest value exactly when it has a row in the long table |
| Dashboard.SameCountries | covid_dashboard.py:59-61 | two tables with the same rows, as multisets, once `Daily` is dropped name the same countries |
| Dashboard.LatestInLong | covid_dashboard.py:157-158 | on a long table with one row per key, the latest value of a country is the `Cases` of its row with the greatest date |
| Dashboard.LatestFound | covid_dashboard.py:157-158 | from a published table, a country has a latest value exactly when it appears in the table and the table has a date column |
| Dashboard.LatestIsColumnTotal | covid_dashboard.py:157-158 | from a published table with distinct dates, the value shown for a country is the sum of the last date column over the country's rows |
| Dashboard.LatestAreColumnTotals | covid_dashboard.py:153-158 | for every country of a selection drawn from the table, the value shown is the sum of the last date column over that country's rows |
| Dashboard.ShowAllFound | covid_dashboard.py:153-158 | when every selected country is found in both tables, the page shows one metric per selected country, in selection order, with the values found |
| Dashboard.OfferedCountriesFailOnlyOnDeaths | covid_dashboard.py:88-158 | when the selection comes from the offered country list, a failed lookup names a country missing from the deaths table, or the deaths table has no date column |

## Left out

- `fetch_data` and its one-hour cache (network I/O and a library cache): a fetch is a parameter of `Dashboard.Render`, `None` when it failed.
- The Streamlit page setup and widgets (title, spinner, columns, warnings, the multiselect's defaults): the selection is a parameter.
- The plotly charts and the Daily/Cumulative radio choice, which only picks the column to plot. The model keeps the two filtered tables handed to the charts.
- `pd.to_datetime` parsing of the `M/D/YY` headers: dates are the parsed values, kept as integers. Lemmas that need distinct dates require them.
- Lat and Long are kept as `real` values that nothing reads. The `,.0f` thousands formatting of the metrics is not modelled.
- Missing CSV cells, NaN, and the float dtype `diff` produces: counts are integers with no missing cells.
- `latest_date` (line 150) is computed but never used, so it is not modelled.
- Reshape.GroupSum: sums are unbounded integers; int64 overflow is not modelled.
- Daily.SortByDate: pandas' default quicksort does not promise an order among rows of equal date. The model uses a stable insertion sort, and the per-country properties do not depend on that order.
- Dashboard.LatestStats: the source shows the metrics of the countries before a failing one and then raises. The model reports only the failing country.
- Reshape.ProcessData: its meaning is stated by the `Reshape` lemmas in the table, not by its own contract, so that proofs about other members do not carry its facts.
- Daily.CalculateDaily: its own contract gives only the row count and the multiset of rows; order and `Daily` values are stated by the `Daily` lemmas.
- Daily.GroupDiff: its meaning is stated by `Daily.GroupDiffIsDatePredecessor`, `DailyFirstIsZero` and `DailyIsDifference`.
- Daily.WithDaily: its meaning is stated by `Daily.StripWithDaily` and `Daily.DailyPrefixSum`.
- Dashboard.Latest: its meaning is stated by `Dashboard.LatestIsLastRow`, `LatestThroughFilter` and `LatestIsMaxDate`.
- Dashboard.DailyTable: its meaning is stated by `Dashboard.LatestFound` and `Dashboard.LatestIsColumnTotal`.
- There is no single lemma about `Dashboard.Render` on published tables. The full path is stated by `Dashboard.LatestAreColumnTotals` followed by `Dashboard.ShowAllFound`.
- Mutation of the caller's table is not modelled. Tables are values, so `calculate_daily_cases` cannot change its input; the source gets the same effect by adding `Daily` to a sorted copy.
