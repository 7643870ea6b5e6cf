# Bank-marketing dashboard filter, in Dafny

Two dashboard scripts load one table of bank-marketing records. Each filters the table
with sidebar widgets, then shows aggregates over the rows that survive:

- `streamlit_app.py` has an age-range slider and four multiselects (job, marital status,
  education, contact type). It shows the "Total Customers", "Conversion Rate" and
  "Conversions" tiles, a ten-row preview and a job frequency table.
- `dashboardx.py` has the age slider and the job multiselect only. It shows the preview
  and the job frequency table.

This project models the filter and the counts as pure functions over a sequence of
records. Each script run is one call of `Render` on the loaded table and the widget
values. The modules are:

- `Masks` (masks.dfy): the data-frame primitives the scripts use, stated once over
  sequences. `Keep` is boolean-mask indexing `df[mask]`. `Positions` is the index the
  masked frame keeps. `Count` is `mask.sum()`. `Unique` is `Series.unique()`.
  `Project` selects a column.
- `Records` (records.dfy): the record and table datatypes, plus the minimum and
  maximum age that give the slider its default range.
- `Summary` (summary.dfy): the conversion tiles, the preview and the job frequency
  table. Both scripts use them.
- `Dashboard` (dashboard.dfy): the five-widget script.
- `JobDashboard` (job_dashboard.dfy): the two-widget script, and its agreement with
  the five-widget one.

The default criteria are an `Option`. On an empty table the minimum age is NaN, and
converting it to an integer raises. So an empty table has no default widget values.

The conversion rate is divided without a guard, so an empty view shows NaN. The model
follows the code in `Summary.ConversionRateAsWritten` and records the defect under
"## Findings". `Render` uses the guarded tile, which shows "N/A" instead.

## Model

| member | source | states |
|---|---|---|
| Masks.Keep | streamlit_app.py:47-54 | Boolean-mask indexing keeps only rows that pass the mask and is never longer than the frame. |
| Masks.KeepMembers | streamlit_app.py:47-54 | Every row of the masked frame is a row of the frame, and every row that passes the mask is in the masked frame. |
| Masks.Count | streamlit_app.py:65 | The sum of a boolean mask is at most the number of rows. |
| Masks.CountIsMaskSet | streamlit_app.py:71 | The mask sum equals the number of positions whose row passes the mask. |
| Masks.PositionsExact | streamlit_app.py:47-54 | The masked frame keeps an increasing list of original positions. These are exactly the positions whose row passes, and the k-th kept row is the row at the k-th position. So the view is an order-preserving subsequence. |
| Masks.KeepLength | streamlit_app.py:59 | The masked frame's length equals the number of true mask entries. |
| Masks.KeepMultiset | streamlit_app.py:47-54 | A row that passes keeps its full multiplicity in the view. A row that fails does not appear. |
| Masks.KeepAll | streamlit_app.py:47-54 | Masking returns the whole frame exactly when every row passes (both directions). |
| Masks.KeepNone | streamlit_app.py:47-54 | Masking returns an empty frame exactly when no row passes (both directions). |
| Masks.KeepIdempotent | dashboardx.py:28-32 | Applying the same mask to the masked frame changes nothing. |
| Masks.KeepKeep | dashboardx.py:28-32 | Masking the masked frame again equals masking once with the conjunction of both masks. |
| Masks.KeepAgree | streamlit_app.py:47-54 | Two masks that agree on every row select the same rows. |
| Masks.CountOfKeep | streamlit_app.py:71 | Counting one mask over the rows another mask kept equals counting their conjunction over the whole frame. |
| Masks.CountZero | streamlit_app.py:71 | A mask sums to zero exactly when no row passes. |
| Masks.CountFull | streamlit_app.py:71 | A mask sums to the row count exactly when every row passes. |
| Masks.Unique | streamlit_app.py:24 | The distinct values of a column contain every value of the column and nothing else, each once. |
| Records.MinAge | streamlit_app.py:17 | The minimum age is at most every row's age and is some row's age. |
| Records.MaxAge | streamlit_app.py:18 | The maximum age is at least every row's age and is some row's age. |
| Records.DefaultAgeRange | streamlit_app.py:15-20 | There is no default range exactly when the table is empty. Otherwise lo <= hi, every age lies in [lo, hi], and both bounds are ages that occur. |
| Summary.Conversions | streamlit_app.py:70-74 | The tile is "N/A" exactly when the `y` column is missing. Otherwise it is the number of view positions whose `y` is "yes". That count is at most the view length, is 0 exactly when no row says "yes", and equals the view length exactly when every row does. |
| Summary.ConversionRateAsWritten | streamlit_app.py:64-68 | The tile is "N/A" exactly when `y` is missing and NaN exactly when `y` is present and the view is empty. Otherwise it is the percentage 100 × conversions / view length, which is at most 100. |
| Summary.ConversionRate | streamlit_app.py:64-68 | The guarded tile is never NaN. It shows a percentage exactly when `y` is present and the view is non-empty. The percentage is 100 × conversions / view length. It lies in [0, 100], is 0 exactly when nobody converted, and is 100 exactly when everybody did. |
| Summary.ConversionRateCorrectsEmptyView | streamlit_app.py:65 | The guarded and unguarded tiles agree on every non-empty view. On an empty view the unguarded one shows NaN and the guarded one shows "N/A". |
| Summary.Preview | streamlit_app.py:77 | The preview is a prefix of the view with length min(10, view length). |
| Summary.JobCounts | streamlit_app.py:87-88 | The frequency table lists each job of the view once and no other job. Every count is the number of view rows with that job, every count is positive, and the counts sum to the view length. |
| Summary.TallyTotal | streamlit_app.py:87-88 | Over distinct keys that cover every job of the view, the tallied counts sum to the view length. |
| Summary.TallyCovers | streamlit_app.py:87-88 | Tallying over the distinct jobs of the view gives those jobs as keys, positive counts, and a total equal to the view length. |
| Summary.JobCountsOfMasked | streamlit_app.py:87-88 | Read against the whole frame, each count in the job table of a masked frame is the number of frame rows that pass the mask and have that job. Every passing row's job is a key. |
| Dashboard.View | streamlit_app.py:47-54 | Every kept row has lo <= age <= hi (both bounds inclusive) and job, marital, education and contact in their selections. Every dataset row absent from the view violates one of the six predicates. The view's rows come from the dataset, and it is no longer than the dataset. |
| Dashboard.ViewIsMaskedSubsequence | streamlit_app.py:47-54 | The view is the order-preserving subsequence of the dataset at exactly the matching positions. |
| Dashboard.ViewMultiplicity | streamlit_app.py:47-54 | A matching row appears in the view as often as in the dataset. A non-matching row does not appear. |
| Dashboard.DefaultCriteria | streamlit_app.py:15-44 | There are no defaults exactly when the table is empty. Otherwise the age range is exactly (min age, max age): it contains every age, and both bounds are ages that occur. Each selection contains its column's value for every row and holds only values of that column, each once. |
| Dashboard.ColumnsCovered | streamlit_app.py:22-44 | Every row's job, marital, education and contact value is among the distinct values of its column. |
| Dashboard.ViewIsDatasetIff | streamlit_app.py:47-54 | The view equals the dataset exactly when every row matches. |
| Dashboard.DefaultViewIsDataset | streamlit_app.py:15-54 | With the default widget values the view equals the dataset. Defaults are missing only for the empty table. |
| Dashboard.ViewEmptyIff | streamlit_app.py:47-54 | The view is empty exactly when no row matches. |
| Dashboard.EmptySelectionEmptiesView | streamlit_app.py:50-53 | An empty job, marital, education or contact selection gives an empty view, and so does lo > hi. |
| Dashboard.ViewIdempotent | streamlit_app.py:47-54 | Filtering the view again with the same criteria returns the same view. |
| Dashboard.Render | streamlit_app.py:47-88 | "Total Customers" is the view length, which equals the number of matching dataset rows. "Conversions" counts the matching rows whose `y` is "yes", or shows "N/A" without `y`. The rate is 100 × conversions / total exactly when `y` exists and the view is non-empty, and it equals the script's tile on every non-empty view. An empty view with `y` shows "N/A". The preview is the view's prefix of length min(10, total). The job table lists each job of a matching row once, and each count is the number of matching rows with that job. The counts sum to the total. |
| Dashboard.EmptySelectionShowsNaN | streamlit_app.py:65 | With a `y` column and an empty multiselect, the unguarded rate tile shows NaN and the guarded one shows "N/A". |
| JobDashboard.View | dashboardx.py:28-32 | Every kept row has lo <= age <= hi and its job selected. Every dropped row has its age outside the range or its job not selected. The view comes from the dataset and is no longer than it. |
| JobDashboard.DefaultCriteria | dashboardx.py:14-25 | There are no defaults exactly when the table is empty. Otherwise the range is exactly (min age, max age): it contains every age, and both bounds occur. The job selection holds each distinct job of the table once and nothing else. |
| JobDashboard.DefaultViewIsDataset | dashboardx.py:14-32 | With the default range and all distinct jobs selected, the view equals the dataset. |
| JobDashboard.ViewExtremes | dashboardx.py:28-32 | The view is the dataset exactly when every row matches, and empty exactly when no row matches. |
| JobDashboard.EmptyJobSelectionEmptiesView | dashboardx.py:31 | An empty job selection gives an empty view. |
| JobDashboard.Meet | dashboardx.py:29-31 | The combined criteria accept a row exactly when both given criteria accept it. |
| JobDashboard.ViewOfView | dashboardx.py:28-32 | Filtering the view again with other values gives the dataset's view under both sets of values at once. |
| JobDashboard.ViewIdempotent | dashboardx.py:28-32 | Filtering the view again with the same criteria returns the same view. |
| JobDashboard.AgreesWithFullDashboard | dashboardx.py:28-32 | The two-widget view equals the five-widget view with marital, education and contact left at all their distinct values. |
| JobDashboard.Render | dashboardx.py:35-46 | The preview is the view's prefix of length min(10, matching rows). The job table lists each job of a matching row once, and each count is the number of matching dataset rows with that job. Every listed job is selected, every count is positive, and the counts sum to the number of matching rows. |
| JobDashboard.JobCountsSelected | dashboardx.py:45-46 | Every job in the frequency table of the view is a selected job. |

## Left out

- Loading the CSV file (`;` separator, latin1 decoding) and stripping whitespace from header names (streamlit_app.py:6-7, dashboardx.py:6-7). This is file I/O and library string handling. The loaded table is a parameter.
- The "Average Age" tile (streamlit_app.py:61-62) and the percentage string format (streamlit_app.py:66). They are floating-point mean and formatting. The rate is kept as a numerator/denominator pair.
- The correlation heatmap (streamlit_app.py:102-114, dashboardx.py:60-71) and the age histogram. They are floating-point statistics and chart construction in external libraries.
- Widget rendering and the slider's bound enforcement. The slider's (lo, hi) pair and the multiselect lists are parameters, so any values are allowed, including lo > hi.
- Streamlit's re-run on every widget change. Each run is one pure call of `Render`.
- Columns other than age, job, marital, education, contact and `y`. The filter carries them along unchanged. Missing-column errors (a `KeyError` for a filter column) are not modelled, so the schema is assumed.
- Missing values (NaN) in the categorical columns. Records always hold a string per column.
- Ages are unbounded integers. pandas holds them as 64-bit integers, which the dataset's ages never approach.
- Dashboard.Render: renders the guarded "Conversion Rate" tile, so an empty view with a `y` column shows "N/A" where the script shows NaN. On every non-empty view the tile equals the script's. The as-written tile is `Summary.ConversionRateAsWritten`.
- Summary.JobCounts: it does not state the row order of `value_counts()` (descending count). The model lists jobs in order of first appearance. Order affects only the bar chart's layout.
- Masks.Unique: it does not state that distinct values come in order of first appearance. Selection order has no effect on `isin`.

## Findings

| source | as written | input that shows it | evidently intended | confidence | as-written member | corrected member |
|---|---|---|---|---|---|---|
| streamlit_app.py:65 | The conversion count is divided by the view length with no guard. An empty view gives 0/0, which numpy evaluates to NaN, and the tile shows "nan%". | A table with a `y` column and an empty job multiselect (or any selection that matches no row). | The tile shows "N/A" when the rate is undefined, as it already does when the `y` column is missing. | medium, not executed | Summary.ConversionRateAsWritten | Summary.ConversionRate |

`Dashboard.EmptySelectionShowsNaN` exhibits the as-written behaviour. `Dashboard.Render` uses the corrected tile.
