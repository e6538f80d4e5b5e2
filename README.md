# Logistics Insights Dashboard — the data logic, modelled in Dafny

The dashboard loads every sheet of an Excel workbook, normalises the column
labels and shows a sheet in three tabs. This project models the part that
decides what the user sees:

- how the loader normalises labels; a missing or unreadable file gives an empty book;
- which columns count as categorical (filterable), numeric, KPI and value columns;
- the sidebar filter loop, where each categorical column in turn narrows the rows;
- the case-insensitive group-column lookup;
- the group / sum / sort / head aggregation behind the Summary tab (top 25 groups, columns detected automatically);
- the same aggregation behind the Breakdown tab (every group, columns chosen by the user).

A sheet is a `Frame.Table`: column names, one dtype per column and rows of
cells. A cell is a whole number, a text or an empty cell (pandas' NaN). The
dtype is `Numeric` exactly when the column holds no text, which is the rule
the decoder applies (`Frame.InferDtype`). The spreadsheet decoder itself is
outside the model: `Loader.LoadWorkbookAllSheets` receives what it produced,
as a `Loader.Source`.

Some members are definitions that the lemmas reason about, rather than
properties:

- `Strings.LowerChar` and `Strings.Lower`: ASCII lowercasing.
- `Frame.Column`: the cells of one column.
- `Frame.InferDtype`: the dtype rule above.
- `Frame.DistinctValues`: `dropna().unique()`.
- `Loader.NormalizeSheet`: `[str(c).strip() for c in df.columns]`.

Their properties are stated in `Strings.LowerIdempotent`,
`Loader.NormalizeSheetNames`, `Loader.NormalizeSheetWellFormed`,
`Filters.KeepRowsDistinctValues` and `Classify.CategoricalColumns`.

Modules, in dependency order:

- `Wrappers`: `Option` and `Result`.
- `Strings`: `str.strip()`, `str.lower()`, `str(int)`.
- `Frame`: cells, dtypes, tables, distinct values, the subsequence relation.
- `Loader`: `load_workbook_all_sheets`.
- `Lookup`: `find_first_existing_column`.
- `Classify`: categorical, numeric, KPI and value columns.
- `Filters`: the sidebar filter loop.
- `Grouping`: groupby / sum / sort_values / head.
- `Dashboard`: the Summary and Breakdown tabs.

Every source citation below is in `dashboard_app.py`.

## Model

| member | source | states |
|---|---|---|
| Strings.TrimStart | dashboard_app.py:58 | lstrip keeps a suffix of its input, everything removed is whitespace, and the result does not start with whitespace |
| Strings.TrimEnd | dashboard_app.py:58 | rstrip keeps a prefix of its input, everything removed is whitespace, and the result does not end with whitespace |
| Strings.StripSpec | dashboard_app.py:58 | strip keeps a contiguous slice, removes only whitespace on both sides, and leaves no whitespace at either end |
| Strings.StripNoEdgeSpace | dashboard_app.py:58 | a label with no whitespace at either end is unchanged by strip |
| Strings.StripIdempotent | dashboard_app.py:58 | stripping an already stripped label changes nothing |
| Strings.LowerIdempotent | dashboard_app.py:66-68 | lowering twice is lowering once, so a lowered column name is its own key |
| Strings.NatToString | dashboard_app.py:58 | str(n) of a natural number is a non-empty string of digits with no leading zero |
| Strings.IntToString | dashboard_app.py:58 | str(i) of an integer label is non-empty and has no whitespace at either end |
| Strings.NatToStringRoundTrip | dashboard_app.py:58 | the digits str(n) writes read back as n, so distinct integer labels get distinct names |
| Frame.IndexOf | dashboard_app.py:113-114 | a column is found at its first position in the column list |
| Frame.IndexOfDistinct | dashboard_app.py:113-114 | with distinct names, a column's name leads back to its own position |
| Frame.SubsequenceElements | dashboard_app.py:122 | a subsequence is no longer than its source and holds only its source's elements |
| Frame.SubsequenceTransitive | dashboard_app.py:118-122 | a subsequence of a subsequence is a subsequence, so successive filters compose |
| Frame.SubsequenceDistinct | dashboard_app.py:133 | a subsequence of a list without repeats has no repeats |
| Loader.Put | dashboard_app.py:59 | dict assignment: a new key is appended in insertion order, an existing key keeps its place, only that key's value changes |
| Loader.NormalizeSheetNames | dashboard_app.py:58 | normalisation keeps the number and order of columns, no name has whitespace at either end, and an integer label becomes its decimal digits |
| Loader.NormalizeSheetWellFormed | dashboard_app.py:53-58 | a decoded sheet whose stripped labels stay distinct is a well-formed table, numeric columns holding no text |
| Loader.LoadWorkbookAllSheets | dashboard_app.py:47-63 | a missing or unreadable file gives the empty dict; otherwise the same sheet names in the same order, each sheet normalised |
| Lookup.LowerMapKeys | dashboard_app.py:66 | the keys of {c.lower(): c} are exactly the lowered column names |
| Lookup.LowerMapValues | dashboard_app.py:66 | each key maps to the last column with that lowered name, since later entries overwrite earlier ones |
| Lookup.LowerMapSpec | dashboard_app.py:66 | the two facts above together |
| Lookup.FirstExistingSpec | dashboard_app.py:65-70 | None exactly when no candidate matches any column case-insensitively; otherwise a real column that matches a candidate with no earlier candidate matching, and no later column lowers to the same string |
| Lookup.LaterCaseVariantWins | dashboard_app.py:66-69 | of two columns that differ only by case, the earlier one is never returned |
| Lookup.FirstExistingNonEmpty | dashboard_app.py:65-70 | with non-empty candidates, a returned name is never the empty string |
| Lookup.FindFirstExistingColumn | dashboard_app.py:65-70 | the loop with its early return computes the lookup of FirstExistingSpec |
| Classify.ColumnsWhere | dashboard_app.py:113-114 | the filtered column list keeps the columns' order and holds exactly the columns passing the test |
| Classify.CategoricalColumns | dashboard_app.py:113 | cat_cols is in column order and holds exactly the object columns with at most 50 distinct non-empty values |
| Classify.NumericColumns | dashboard_app.py:114 | num_cols is in column order and holds exactly the numeric columns |
| Classify.NumericColumnHoldsNumbers | dashboard_app.py:114 | a column in num_cols is a column of the table and none of its cells is text |
| Classify.PresentInOrder | dashboard_app.py:133 | the comprehension keeps the wanted list's order and holds exactly the wanted names present in the table |
| Classify.KpiSpec | dashboard_app.py:133-136 | kpi_cols is exactly the SAFE_NUM_COLS names present, each once, in SAFE_NUM_COLS order; the tiles show the first min(4, len(kpi_cols)) of them |
| Classify.FirstNumericPresentSpec | dashboard_app.py:155-159 | the value column is a candidate that is a numeric column, with no earlier candidate qualifying; None exactly when no candidate qualifies |
| Classify.ValueColumnRule | dashboard_app.py:156-159 | Total_AWBs when it is numeric, else Total_Invoice_Value when that is numeric, else nothing; names are compared exactly |
| Classify.FindValueColumn | dashboard_app.py:153-159 | the loop with its break computes the value column of FirstNumericPresentSpec |
| Filters.KeepMatching | dashboard_app.py:122 | astype(str).isin keeps the rows in order and keeps only rows whose cell text was selected |
| Filters.KeepMatchingCounts | dashboard_app.py:122 | each row is kept exactly as many times as it occurs when its cell text was selected, and not at all otherwise, so identical rows are all kept |
| Filters.KeepRowsDistinctValues | dashboard_app.py:119-122 | a filter never brings in a value: each column's distinct non-empty values afterwards are among those before, and no more of them |
| Filters.KeepRowsWellFormed | dashboard_app.py:122 | dropping rows keeps the columns, the dtypes and well-formedness |
| Filters.FilterStep | dashboard_app.py:119-122 | a step changes nothing unless something was selected and the number selected differs from the column's count of distinct values; when it runs, only rows with a selected value remain and every such row is among them |
| Filters.FilterStepCounts | dashboard_app.py:121-122 | a step that runs keeps each row with a selected value as many times as it occurred, and no other row |
| Filters.FilterAll | dashboard_app.py:118-122 | the filter loop keeps the columns and dtypes and leaves a subsequence of the rows |
| Filters.FilterAllSubsequence | dashboard_app.py:118-122 | filtering never adds rows or invents rows |
| Filters.FilterAllKeepsSelected | dashboard_app.py:118-122 | every remaining row passes each filter that ran, even though later filters ran on fewer rows |
| Filters.FilterAllNoSelection | dashboard_app.py:121 | with nothing selected anywhere, the table is unchanged |
| Filters.ApplyFilters | dashboard_app.py:113-122 | the loop, which recounts each column's distinct values on the rows kept so far, computes the filter fold over cat_cols |
| Grouping.TotalOfEntry | dashboard_app.py:163 | with distinct keys, the sum recorded for a key is that key's entry |
| Grouping.TotalOfAbsent | dashboard_app.py:163 | a key with no entry has sum 0 |
| Grouping.AddTo | dashboard_app.py:163 | adding a value to a group keeps keys distinct, adds the key if new, changes only that key's sum and raises the grand total by the value |
| Grouping.GroupSum | dashboard_app.py:163 | groupby(dropna=False).sum(): one entry per distinct value of the group column, the empty cell included; each entry holds its rows' sum with empty cells counting 0; the sums add up to the column total |
| Grouping.InsertElements | dashboard_app.py:164 | insertion adds exactly one entry and its sum |
| Grouping.InsertSorted | dashboard_app.py:164 | inserting into a list sorted largest first keeps it sorted |
| Grouping.SortDescSpec | dashboard_app.py:164 | sort_values(ascending=False) gives a permutation of the groups, largest sum first, with the same grand total |
| Grouping.InsertDistinct | dashboard_app.py:164 | inserting a group with a new key keeps the keys distinct |
| Grouping.SortDescDistinct | dashboard_app.py:164 | sorting keeps the group keys distinct |
| Grouping.SortedGroupsSpec | dashboard_app.py:163-164 | the sorted aggregation has distinct keys, runs largest first, has one entry per value of the group column carrying that group's sum, and its sums add up to the column total |
| Grouping.AggregateErrors | dashboard_app.py:163-164 | the chain succeeds exactly when both columns exist and differ; otherwise a missing column is reported by name, the group column first, and a value column equal to the group column fails at reset_index |
| Grouping.AggregateSpec | dashboard_app.py:163-164 | on two distinct columns: each group once, largest sum first, every entry a value of the group column with its group's sum; without head every group is present and the sums add up to the column total; with head(n) at most n groups, and a group left out means n groups were shown, each summing to at least as much |
| Grouping.TopGroupsSpec | dashboard_app.py:163-164 | the first n groups by sum: at most n, each once, largest first, each a value of the group column with its group's sum, and any group left out sums to no more than each of the n shown |
| Grouping.TopGroupsDropped | dashboard_app.py:164 | a group head(n) leaves out means n groups are shown, each summing to at least as much as it |
| Grouping.HeadDropped | dashboard_app.py:164 | an entry head(n) cuts from a list sorted largest first is no larger than any kept entry |
| Grouping.HeadSpec | dashboard_app.py:164 | head(n) of a sorted list with distinct keys keeps at most n entries, in place, still sorted and distinct; an entry left out means n were kept, none smaller |
| Grouping.PrefixKeepsOrder | dashboard_app.py:164 | the first n sorted groups are still sorted and distinct |
| Dashboard.CandidateLengthsDiffer | dashboard_app.py:36-44 | no group candidate has the length of a value candidate |
| Dashboard.DetectedColumnsDiffer | dashboard_app.py:152-159 | the detected group column is never the detected value column, so the summary's reset_index never clashes |
| Dashboard.DetectionTruthy | dashboard_app.py:161 | `if group_col and value_col` holds exactly when both were found, and a found name is a column of the table |
| Dashboard.SummaryAggregateSpec | dashboard_app.py:163-164 | aggregating two distinct columns succeeds with at most 25 groups, distinct keys, largest first |
| Dashboard.Summary | dashboard_app.py:148-181 | an empty sheet gives the warning; otherwise no chart exactly when either column is not detected; a chart uses the detected columns and shows the top 25 groups, distinct and largest first |
| Dashboard.BreakdownSpec | dashboard_app.py:184-197 | the breakdown fails exactly when the sheet is non-empty, a value column is chosen and it equals the group column; ranked output has distinct keys, runs largest first, holds only values of the group column, covers every one of them with its sum, and its sums add up to the column total |
| Dashboard.DefaultBreakdownFails | dashboard_app.py:190-196 | on every non-empty sheet whose first column is numeric (and not named ""), the default value choice is that same column, and the breakdown with the widget defaults fails at reset_index |
| Dashboard.DefaultBreakdownExample | dashboard_app.py:190-196 | a one-column sheet Total_AWBs holding 10 and 5 is such a sheet, and its default breakdown fails |
| Dashboard.ValueOptions | dashboard_app.py:193 | the corrected value options are the numeric columns other than the group column |
| Dashboard.RemoveName | dashboard_app.py:193 | dropping a name keeps exactly the other names |
| Dashboard.BreakdownCorrectedRanks | dashboard_app.py:190-197 | with the group column excluded from the value options, every non-empty choice on a non-empty sheet gives ranked groups |
| Dashboard.AggregateExample | dashboard_app.py:163-164 | groups A:10, B:5, A:3 aggregate to A 13 then B 5, head(1) keeps A 13, and an unknown column fails with its name |
| Dashboard.LookupExample | dashboard_app.py:65-70 | "CITY" finds the later of "City" and "city", and finds nothing among ["Region"] |
| Dashboard.MixedColumnIsNotNumeric | dashboard_app.py:114 | a column with one text cell among numbers is not numeric, so it is left out of num_cols |

## Left out

- The Streamlit page: configuration, sidebar widgets, headers, tabs, metric tiles, charts, tables and messages (lines 9-13, 86-92, 101-105, 127-145, 166-181, 198-232). The user's sheet choice, filter selections and Breakdown column choices are parameters.
- The report registry and file paths (lines 18-24, 94-95): the model starts from the decoder's result for one path.
- File access, `pd.read_excel` and the cache (lines 46-53): `Loader.Source` stands for "no file", "unreadable" and "decoded sheets". The warning text for an unreadable file is not modelled.
- `format_number` and `df_to_csv_bytes` (lines 72-81): formatting and byte encoding for display and download.
- KPI tile values: the sums of the KPI columns shown in the tiles are not modelled; only which columns get a tile is.
- Grouping.SortDescSpec: groups with equal sums may appear in any order, because pandas' default sort is not stable. The model sorts in one fixed order and states nothing about ties.
- Grouping.GroupSum: the entries come out in first-appearance order. pandas sorts the group keys, but that order is hidden by the sort by sum that follows.
- Grouping.GroupSum: only numeric value columns are summed, as both tabs choose them. The sum of a text column, which pandas forms by concatenation, is not modelled.
- Strings.Lower: lowers ASCII letters only. Python's full Unicode case mapping is not modelled.
- Loader.LabelString: header labels are text or whole numbers. Other label types (floats, dates, tuples) and pandas' automatic renaming of duplicate headers are not modelled.
- Loader.NormalizeSheetWellFormed: it requires that stripped labels stay distinct. Two labels that become equal after stripping (" a" and "a") give duplicate column names, for which pandas' selection returns a frame, not a column; that case is outside the model.
- Frame.InferDtype: numbers are whole numbers and the dtype rule is abstract. Floats, dates, booleans, and the object dtype of a sheet without rows are not modelled.
- Filters.ApplyFilters: the sorted order of the filter options and the multiselect's default selection (lines 119-120) are left to the caller. Any selection list is accepted.
- Any exception while reading gives the empty dict (lines 61-63). There is no recovery per sheet, and the model has none either.

## Findings

| source | as written | input that shows it | evidently intended | confidence | as-written member | corrected member |
|---|---|---|---|---|---|---|
| dashboard_app.py:190-196 | the "Value (numeric)" options include the group-by column, and both widgets default to their first option | a sheet whose first column is numeric, e.g. one column Total_AWBs with values 10 and 5 (`Dashboard.DefaultBreakdownExample`): the defaults group by Total_AWBs and sum Total_AWBs; `reset_index` then fails because the sum's name is already the index name | the value options leave out the group-by column, so every choice gives a ranking | not executed | Dashboard.DefaultBreakdownFails | Dashboard.BreakdownCorrectedRanks |
