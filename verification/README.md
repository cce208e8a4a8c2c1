# Ad-reporting dashboard: the metric layer in Dafny

This project models the metric layer of the two Streamlit dashboards in the
repository and proves properties of it.

- **The full dashboard (`new_dashboard.py`).** A platform table is modelled with its
  - metric catalog,
  - ordered date-range columns,
  - cells tagged as typed in or fetched from the Facebook insights API.

  Also modelled:
  - the derived-metric calculator;
  - the value formatter;
  - the aggregation of a daily insights response into seven raw counters;
  - every mutation the dashboard applies to a table: creation, adding a metric, adding a column, the API overwrite, a manual edit and the summary edit.
- **The sample-data dashboard (`streamlit_app.py`).** Its four-metric calculator and its eight-row weekly table.

Modules, one per file:

- `Wrappers` (wrappers.dfy): `Option`.
- `Decimal` (decimal.dfy): decimal digits, comma grouping, truncation, rounding to cents, the two-decimal rendering and readers for both renderings.
- `Formatting` (formatting.dfy): `format_value` and the sample dashboard's inline formatter.
- `Metrics` (metrics.dfy): `DEFAULT_METRICS` and `calculate_metric`.
- `Insights` (insights.dfy): `process_facebook_data`, `get_empty_metrics` and the decision in `get_insights`.
- `Report` (report.dfy): the table and its mutations.
- `Refresh` (refresh.dfy): `fetch_facebook_data` feeding the table update.
- `SimpleApp` (simple_app.dfy): `calculate_metrics` and `create_metrics_table`.

Modelling choices:

- **Values.** Values are exact reals. The calculator's catch-all `except` has nothing to catch, so `CalculateMetric` is simply total.
- **The two-decimal rendering.**
  - The value is rounded to cents: correctly rounded, ties to even.
  - A `-` is written when the value is negative.
  - The integer part holds the digits of the whole units of the rounded value, and two digits follow a single point.
  - Reading the text back with `ParseFixed2` gives the value rounded to cents.
  - These facts determine the text: `Decimal.Fixed2Unique` shows that no other string meets them.
- **Number format.** It is the truncated integer with commas. Removing the commas gives `str(int(x))`, and every group after the first has three digits. `Decimal.GroupUnique` shows that these facts determine the grouped text.
- **Cells.** Values and sources are one map of `Cell(value, source)` values. The dashboard keeps them in two dictionaries (`data` and `data_source`), but every operation writes both at the same metric key and column name.
- **Stored cells of calculated metrics.** The dashboard stores a cell for every catalog key, calculated metrics included: each starts at 0.0 (new_dashboard.py:232-237). The manual-edit block offers inputs only for metrics typed raw (new_dashboard.py:522 and 533), so no path of the dashboard writes such a cell afterwards. The table shows the calculator's value in its place. `Report.DerivedIgnoresStoredCell` shows that even a write there, one the dashboard cannot make, would not change what the table displays.
- **Days.** Days are integers, and "today" is a parameter of `InitialTable`.
- **Summary text.** What the user types in the summary box is a parameter of `Report.SetSummary`.
- **Fetch results.** Each column's result is a parameter: an `Option` of a counter map in `Report.ApiUpdate`, or the request outcome in `Refresh`.

## Model

| member | source | states |
|---|---|---|
| Decimal.NatToDigits | new_dashboard.py:59 | the decimal digits of a natural number have no superfluous leading zero |
| Decimal.DigitsOfNat | new_dashboard.py:59 | reading the rendered digits gives the number back |
| Decimal.NatOfDigits | new_dashboard.py:59 | every canonical digit string is the rendering of its value, so rendering is a bijection onto canonical strings |
| Decimal.Group | new_dashboard.py:59 | deleting the commas of the grouped digits gives the digits back, and nonempty digits come out well grouped: a comma at every fourth place from the right, digits everywhere else |
| Decimal.GroupUnique | new_dashboard.py:59 | a well-grouped numeral is the grouping of its own digits, so the two facts above determine the grouped text |
| Decimal.FormatGroupedInt | new_dashboard.py:59 | the `{:,}` rendering of an integer is an optional `-` and a well-grouped numeral; without commas it is `str(n)`, and reading it back gives `n` |
| Decimal.Truncate | new_dashboard.py:59 | `int(x)` rounds toward zero: the integer lies within 1 of `x`, on the side of zero |
| Decimal.RoundHalfEven | new_dashboard.py:53-57 | the nearest integer, within one half, and even on a tie |
| Decimal.RoundedToCents | new_dashboard.py:53-57 | the two-decimal value is a whole number of cents within half a cent of the input, with an even number of cents on a tie |
| Decimal.NearestCentsUnique | new_dashboard.py:53-57 | those three facts fix the value: two numbers that both meet them are equal |
| Decimal.Fixed2 | new_dashboard.py:53-57 | exactly two digits after a single point; a `-` exactly when the value is negative; an integer part, grouped (currency) or canonical (otherwise), whose digits are the whole units of the value rounded to cents; reading it back gives the value rounded to cents |
| Decimal.Fixed2Unique | new_dashboard.py:53-57 | any text with the properties above is the one `Fixed2` writes, so they determine the two-decimal text character by character |
| Formatting.Dollars | new_dashboard.py:53 | `$` followed by the grouped two-decimal text of the value: a `-` exactly when it is negative, the grouped whole units and two decimals, reading back as the value rounded to cents |
| Formatting.WithUnit | new_dashboard.py:55-57 | the plain two-decimal text of the value (sign, canonical whole units, two decimals, reading back as the value rounded to cents), followed by the unit character |
| Formatting.DollarsUnique | new_dashboard.py:53 | any text meeting the currency contract is the one `Dollars` writes, so the contract fixes `f"${x:,.2f}"` character by character |
| Formatting.WithUnitUnique | new_dashboard.py:55-57 | any text meeting the percentage or ratio contract is the one `WithUnit` writes |
| Formatting.Grouped | new_dashboard.py:59 | shows the value truncated toward zero, digits grouped in threes |
| Formatting.FormatValue | new_dashboard.py:45-63 | "N/A" exactly for a missing value; currency, percentage and ratio show the two-decimal text of the value (a `-` exactly when it is negative) with their `$`, `%` or `x`; number shows the value truncated and grouped |
| Formatting.NotAvailableIsNoNumber | new_dashboard.py:47-48 | "N/A" is never read as a number, so it cannot be confused with a formatted value |
| Formatting.InlineFormat | streamlit_app.py:98-105 | currency, percentage and number render as in `format_value`; any other format falls through to the bare two-decimal text of the value, with its sign rule |
| Formatting.InlineAgreesWithFormatValue | streamlit_app.py:98-105 | the inline copy agrees with `format_value` on every format except ratio, where it lacks the `x` suffix |
| Metrics.Lookup | new_dashboard.py:23-43 | a key has a definition exactly when it is a catalog key, and the definition is that key's entry |
| Metrics.LookupDistinct | new_dashboard.py:23-43 | with distinct keys, each entry's key looks up to that entry's own definition |
| Metrics.Classify | new_dashboard.py:76-93 | the `elif` chain recognises exactly the nine derived keys, each as the metric of that key |
| Metrics.FormulaOf | new_dashboard.py:76-93 | every derived formula divides one raw counter by another |
| Metrics.Evaluate | new_dashboard.py:76-93 | a guarded quotient is 0 when the denominator is not positive; otherwise the result times the denominator is the scaled numerator |
| Metrics.CalculateMetric | new_dashboard.py:65-97 | a derived key gets its guarded formula (CTR and CPM over impressions, CPC, add-to-cart and click-to-purchase rates over clicks, and so on); any other key its stored value, or 0 if absent |
| Metrics.CalculatorFormulas | new_dashboard.py:76-93 | key by key: ctr is clicks over impressions times 100, cpm spend over impressions times 1000, cpc spend over clicks, atc_rate add-to-cart over clicks times 100, checkout_rate checkout over add-to-cart times 100, purchase_rate purchases over checkout times 100, click_to_purchase purchases over clicks times 100, roas revenue over spend, cost_per_purchase spend over purchases; each is 0 when its denominator is not positive |
| Metrics.FormulaDeterminesValue | new_dashboard.py:76-93 | the formula's promise pins the value down: two values satisfying it are equal |
| Metrics.AbsentReadsAsZero | new_dashboard.py:68-74 | a missing counter reads as 0: adding it with value 0 changes no metric |
| Metrics.EmptyCountersGiveZero | new_dashboard.py:65-97 | with no counters at all, every metric is 0 |
| Metrics.DerivedReadsRawOnly | new_dashboard.py:68-93 | a derived metric does not depend on any entry other than the seven raw counters |
| Metrics.DefaultKeysDistinct | new_dashboard.py:23-43 | the default catalog has sixteen distinct keys |
| Metrics.DefaultCalculatedAreDerived | new_dashboard.py:23-43 | the default entries typed calculated are exactly those the calculator derives |
| Metrics.DefaultRawAreCounters | new_dashboard.py:23-43 | the default entries typed raw are exactly the seven counters |
| Metrics.DefaultHasCounters | new_dashboard.py:23-31 | every raw counter is in the default catalog |
| Metrics.DefaultHasDerived | new_dashboard.py:33-42 | every derived metric is in the default catalog |
| Insights.AsRawMap | new_dashboard.py:185-195 | the counters as a dictionary with exactly the seven raw keys, each holding its counter |
| Insights.EmptyIsZero | new_dashboard.py:185-195 | the empty counters are 0 under every raw key |
| Insights.AddActionsCounts | new_dashboard.py:164-173 | the action loop adds the `add_to_cart` count to add-to-cart, `initiate_checkout` to checkout, `purchase` and `complete_registration` to purchases, and touches nothing else |
| Insights.AddActionValuesAmounts | new_dashboard.py:176-181 | the action-value loop adds the purchase and registration amounts to revenue and touches nothing else |
| Insights.AddDayAddsTotals | new_dashboard.py:155-181 | one pass of the day loop adds exactly that day's totals |
| Insights.AddDaysAddsTotals | new_dashboard.py:155-183 | the day loop adds the sum of all days' totals to its starting counters |
| Insights.ProcessFacebookData | new_dashboard.py:150-183 | `process_facebook_data` equals the per-counter sums over the days |
| Insights.TotalsSplit | new_dashboard.py:155-158 | aggregating a range in two parts and adding the parts aggregates the whole range |
| Insights.CountOfIgnores | new_dashboard.py:164-173 | an action of an unlisted type leaves the count unchanged |
| Insights.AmountOfIgnores | new_dashboard.py:176-181 | an action value of an unlisted type leaves the amount unchanged |
| Insights.UntrackedIgnored | new_dashboard.py:164-181 | an action or action value of any other type changes no counter |
| Insights.GetInsights | new_dashboard.py:138-148 | a failure, a missing list or an empty list gives all zeros; a list gives its per-counter sums |
| Report.ColumnNamesAppend | new_dashboard.py:452 | appending a column adds exactly its name to the column names |
| Report.WeekNamesDistinct | new_dashboard.py:222 | different week numbers give different column names |
| Report.InitialColumns | new_dashboard.py:216-226 | four columns Week 1 to Week 4, each seven days long, each starting the day after the previous ends, the last ending today |
| Report.InitialWeeksTile | new_dashboard.py:217-219 | the four weeks cover the 28 days ending today, every day in some week, in date order with distinct names |
| Report.InitialTable | new_dashboard.py:211-246 | the default catalog and the four weeks, with a cell for exactly every metric and column, every cell 0.0 and tagged manual, and the platform's summary text |
| Report.Upsert | new_dashboard.py:420-424 | dictionary assignment on the ordered catalog: an existing key is replaced in place, a new key is appended, nothing else moves |
| Report.UpsertKeyAt | new_dashboard.py:420-424 | each position keeps its key, and a new key sits last |
| Report.UpsertKeys | new_dashboard.py:420-424 | the catalog's keys gain exactly the new key |
| Report.UpsertDistinct | new_dashboard.py:420-424 | the keys stay distinct |
| Report.UpsertLookup | new_dashboard.py:420-424 | the new key looks up to the new definition |
| Report.KeyChar | new_dashboard.py:419 | a space or hyphen becomes `_`, an ASCII capital its lower-case letter, any other character is kept |
| Report.MetricKey | new_dashboard.py:419 | the key has the name's length and, position by position, the rewrite above: no spaces, hyphens or capitals remain |
| Report.MetricKeyIdempotent | new_dashboard.py:419 | a key rewrites to itself |
| Report.PutMetric | new_dashboard.py:420-430 | storing a metric keeps the grid invariant and the frame, upserts the catalog and adds exactly its key to the rows |
| Report.PutMetricCell | new_dashboard.py:425-430 | the stored metric's row is 0.0 and tagged manual in every column; other rows are unchanged |
| Report.AddMetric | new_dashboard.py:418-430 | an empty name changes nothing; otherwise the name's key is stored as a raw metric with the chosen format, keeping the invariant |
| Report.AddMetricCatalog | new_dashboard.py:419-424 | the key looks up to a raw definition with the given name and format, the catalog gains exactly that key, and the other entries keep their places |
| Report.AddColumn | new_dashboard.py:445-457 | an empty name changes nothing; otherwise the column goes last and the invariant holds for the longer column list |
| Report.AddColumnCell | new_dashboard.py:452-457 | the new column is 0.0 and tagged manual in every row; every other cell is unchanged |
| Report.Put | new_dashboard.py:555-556 | writing one cell keeps every row's set of cells |
| Report.PutCell | new_dashboard.py:555-556 | writing one cell changes that cell and no other |
| Report.ManualEdit | new_dashboard.py:553-556 | an edit keeps the invariant and frame, and an unchanged value leaves the table as it was |
| Report.ManualEditCell | new_dashboard.py:553-556 | the edited cell holds the new value, re-tagged manual if it changed and keeping its tag otherwise; all other cells are unchanged |
| Report.RawKeyOrderIsRawKeys | new_dashboard.py:270 | the update loop visits exactly the seven raw counters |
| Report.WriteFetched | new_dashboard.py:272-275 | the inner loop keeps every row's set of cells |
| Report.WriteFetchedCell | new_dashboard.py:272-275 | the inner loop overwrites, in its column, each listed counter the map holds, tagged as fetched, and nothing else |
| Report.ApiColumn | new_dashboard.py:268-275 | the update of one column keeps every row's set of cells |
| Report.ApiColumnCell | new_dashboard.py:268-275 | a nonempty fetch result holding a raw counter overwrites that counter's cell in the column, tagged as fetched; all else is unchanged |
| Report.ApiFold | new_dashboard.py:264-275 | the column loop keeps every row's set of cells |
| Report.ApiUpdate | new_dashboard.py:257-275 | the update keeps the invariant, the frame and the catalog |
| Report.ApiFoldUntouched | new_dashboard.py:264-275 | a cell that no column of its name delivers to is unchanged |
| Report.ApiFoldDelivered | new_dashboard.py:264-275 | a delivered cell holds the value of the last column of its name that delivers it |
| Report.ApiFoldKeepsManual | new_dashboard.py:264-275 | a cell still tagged manual after the loop is the cell it was before |
| Report.ApiUpdateKeepsManualCells | new_dashboard.py:264-275 | after the update, a manual tag means the value was not changed by the update |
| Report.ApiFoldCell | new_dashboard.py:264-275 | keys outside the visited counters are untouched, and a delivered counter takes the fetched value |
| Report.ApiUpdateCell | new_dashboard.py:264-275 | a metric that is not a raw counter keeps its cell; a delivered raw counter shows the fetched value tagged as fetched |
| Report.ApiUpdateUntouched | new_dashboard.py:264-275 | a cell that no column of its name delivers to keeps its value and tag |
| Report.FetchDeliversAll | new_dashboard.py:268-273 | a successful fetch delivers every raw counter |
| Report.Snapshot | new_dashboard.py:490 | the calculator's input has a counter for every row of the table |
| Report.CellValue | new_dashboard.py:488-496 | a raw metric shows its stored value; a calculated derived metric shows a value satisfying its formula on the column's counters |
| Report.CellText | new_dashboard.py:488-496 | a table cell is never "N/A"; a currency cell shows `$` and the grouped two-decimal text of its value, a percentage or ratio cell the plain two-decimal text followed by `%` or `x`, and a number cell its value truncated and grouped |
| Report.PutReachesCalculator | new_dashboard.py:490 | a written cell reaches the calculator's input for its column under its key, and nothing else there changes |
| Report.PutStaysInColumn | new_dashboard.py:490 | a written cell does not change the calculator's input for any other column |
| Report.DerivedIgnoresStoredCell | new_dashboard.py:488-491 | writing the stored cell of a calculated derived metric does not change what the table displays for it |
| Report.SetSummary | new_dashboard.py:352-358 | the summary box's text becomes the table's summary; platform, columns, catalog and cells are unchanged, so the invariant holds |
| Report.SummaryKeepsCellTexts | new_dashboard.py:352-358 | editing the summary changes no cell's displayed text |
| Refresh.FetchAsWritten | new_dashboard.py:197-209 | with credentials, a result is always returned, all zeros after a failed request; without credentials, none |
| Refresh.FetchIntended | new_dashboard.py:197-209 | corrected half of the finding below, not the code as written: a result exactly when credentials are set and the request succeeded, holding the insights counters |
| Refresh.RefreshTable | new_dashboard.py:257-279 | as written: refreshing the Facebook table keeps the invariant, the frame and the catalog |
| Refresh.RefreshIntended | new_dashboard.py:257-279 | corrected half of the finding below: the same update fed by the corrected fetch keeps the invariant, the frame and the catalog |
| Refresh.RefreshAgreesWhenReceived | new_dashboard.py:136-148 | the correction concerns failures only: when every request succeeds, the as-written and corrected refreshes give the same table |
| Refresh.FailedFetchZeroesCounters | new_dashboard.py:143-148 | as written, a failed request overwrites the column's raw counters with 0.0 tagged as fetched |
| Refresh.FailedFetchKeepsColumn | new_dashboard.py:278-279 | corrected half of the finding below: with the corrected fetch, a column whose every request failed keeps all its cells |
| Refresh.ReceivedFetchWritesTotals | new_dashboard.py:264-275 | as written, a received response writes the day-summed counters into its column, tagged as fetched |
| Refresh.NoCredentialsNoChange | new_dashboard.py:201-202 | as written, without credentials the refresh changes no cell |
| SimpleApp.CalculateMetrics | streamlit_app.py:55-76 | the four counters pass through unchanged; ctr, cpc, conversion rate and cost per conversion are 0 when their denominator is not positive, otherwise the stated quotient |
| SimpleApp.AsFullCounters | streamlit_app.py:57-60 | the week's counters under the full dashboard's names, conversions as purchases |
| SimpleApp.AgreesWithFullDashboard | streamlit_app.py:62-65 | the sample's ctr, cpc, conversion rate and cost per conversion equal the full calculator's CTR, CPC, click-to-purchase rate and cost per purchase |
| SimpleApp.ListedKeysAreOutputs | streamlit_app.py:80-89 | every listed metric key is one the calculator returns |
| SimpleApp.CreateRows | streamlit_app.py:91-106 | one row per listed metric, in list order, each with the metric's name and its per-week texts |
| SimpleApp.CreateMetricsTable | streamlit_app.py:78-108 | exactly eight rows in list order, each with the metric's name and its inline-formatted value for Week 1 to Week 4 |

## Left out

- The HTTP request in `get_insights` and the `FacebookAPI` constructor are left out: they are network I/O. Their outcome is the `Response` parameter. A failed request ends in the `RequestException` handler (new_dashboard.py:143). So does a body that does not decode as JSON, since requests 2.27 raises a `JSONDecodeError` derived from `RequestException`; older versions of requests reach the generic handler instead (new_dashboard.py:146). A failed `int()`/`float()` conversion of a day's fields ends in the generic handler. Both handlers return the empty counters, so `Response.Failed` stands for all of these failures.
- Streamlit rendering is left out as UI: session state, forms, buttons, spinners, success and warning messages, the HTML table markup with its colours and emoji indicators, the legend, the quick stats and `initialize_tables`.
- The `active_table` guard of the update (new_dashboard.py:259-260) is left out: it reads session state. The model updates the table it is given.
- CSV export through pandas is left out (a foreign library). The sample table is a sequence of rows, not a `DataFrame`.
- `datetime.now()`, `timedelta` and `strftime` are left out: dates are day numbers, and the `display_name` strings are not modelled. A custom column's start and end days are parameters.
- The sample data and the week-over-week KPI deltas of the sample dashboard (streamlit_app.py:149-173) are left out. They are display-only figures.
- The `str(value)` fallback of `format_value` is not modelled: every metric carries one of the four formats, so the branch cannot be reached.
- The `except` that turns a non-numeric value into "N/A" is not modelled: values are reals. NaN has no real counterpart either.
- Formatting.FormatValue: two-decimal rounding is of the exact real, ties to even. Python rounds the nearest binary double, so values whose decimal tie is not exactly representable can round the other way. A negative value that rounds to zero keeps its `-` sign in Python as well as here.
- Report.KeyChar: lower-cases ASCII capitals only, where Python's `lower()` also lowers other Unicode capitals such as `É`.
- Report.MetricKey: lower-cases ASCII capitals only, where Python's `lower()` covers all of Unicode.
- Report.ManualEdit: accepts any cell. The dashboard offers inputs only for raw metrics (new_dashboard.py:522-537), so the model covers more edits than the dashboard can make.
- Integer widths and floating point: Python keeps impressions, clicks and action counts as unbounded integers and spend and revenue as doubles. The model uses `int` and exact `real`, with no floating-point accumulation error.

## Findings

| source | as written | input that shows it | evidently intended | confidence | as-written member | corrected member |
|---|---|---|---|---|---|---|
| new_dashboard.py:143-148 | A failed insights request returns the all-zero counters. That dictionary is nonempty, so `if api_data:` (line 268) takes the update branch: the column's seven counters are overwritten with 0 and tagged as fetched, and the "could not fetch" warning (lines 278-279) is never shown for a failure. | Credentials set, and the request for a column raises a request exception | A failed request yields no data. The column keeps its values, and the warning branch runs. | medium; not executed | Refresh.FailedFetchZeroesCounters | Refresh.FailedFetchKeepsColumn |
