# Student dashboard: filter and aggregate pipeline

This project models the data logic of a single-page teacher's dashboard
(`school.py`). The dashboard loads a spreadsheet of student records and
offers a sidebar multiselect for each categorical column. It narrows the
table to the records that match every non-empty selection. It then
pre-selects the columns for its pie charts and heatmap and counts records
per pair of values for the heatmap.

The model has five modules:

- `Tables` holds the table: ordered column labels, the set of categorical
  columns, and records. Each record maps column labels to abstract values
  that only need equality. The module also holds the primitives the rest is
  built from: a column's values, its distinct values (`unique`), and
  selection by `isin`.
- `Filters` builds the filter dictionary with a loop, one entry per
  categorical column in column order. It also holds the filter loop as a
  method. `FilterRows` is the one-pass AND-of-ORs predicate filter. The
  loop is proved equal to it, and the properties of the filter are proved
  about it.
- `Defaults` holds the default pie-chart columns and the default heatmap
  axis positions.
- `Pivot` holds the dense contingency grid behind the heatmap: row labels
  from column y, column labels from column x, and one count per pair.
- `Dashboard` holds one run of the script over a loaded table, composing
  the pieces above.

The default pie columns are "Gender" and then "Category", each one only if
the table has it (school.py:50). The heatmap's default X position is that of
"Gender", falling back to 0, and its default Y position is that of
"Category", falling back to 1; the two fallbacks are independent
(school.py:61-62). So when "Gender" is missing and "Category" is at position
0, both axes default to the same column.

## Model

| member | source | states |
|---|---|---|
| `Tables.Unique` | school.py:37 | The multiselect options of a column: every value of the column appears exactly once, nothing else appears, and the options follow the column's order. |
| `Tables.UniqueOrder` | school.py:37 | The distinct values come in order of first appearance: a value listed before another occurs in the column before every occurrence of the other. |
| `Tables.Select` | school.py:42 | `isin` selection keeps a record exactly when its value in the column is selected. The result is an order-preserving subsequence of the records. |
| `Tables.SelectMultiplicity` | school.py:42 | A selected record is kept as many times as it occurs, and an unselected one not at all. |
| `Tables.SelectNone` | school.py:42 | Selecting on an empty list of values keeps no record. |
| `Tables.SubsequenceMultiset` | school.py:42 | An order-preserving subsequence never repeats or invents a record: its multiset is contained in the original's. |
| `Tables.SelectAll` | school.py:42 | Selecting on values that cover everything a column holds keeps the table unchanged. |
| `Tables.SelectSplit` | school.py:42 | Selecting on one more distinct value adds exactly the records that hold that value, each as often as it occurs (as multisets), so the number of selected records grows by the number holding it. |
| `Filters.CategoricalColumns` | school.py:36 | The columns that get a filter are exactly the categorical ones, in table order. |
| `Filters.Offered` | school.py:37 | A multiselect returns only requested values that are among its options, in request order. |
| `Filters.FilterSetOf` | school.py:35-37 | The filter dictionary of a run: one entry per categorical column, in column order, each holding what the multiselect over that column's distinct values in the unfiltered table returns for the user's request. |
| `Filters.FilterSetPicks` | school.py:37 | A value is picked for a column exactly when the user requested it and it occurs in that column of the unfiltered table. |
| `Filters.BuildFilterSet` | school.py:35-37 | The loop that fills the filter dictionary produces exactly the dictionary of the run. |
| `Filters.FilterSetAdmits` | school.py:35-42 | The run's dictionary admits a record exactly when, in every categorical column where some requested value occurs, the record's value is a requested one. |
| `Filters.FilterRows` | school.py:40-42 | The reference AND-of-ORs filter. A record survives exactly when, in every column with a non-empty selection, its value is selected. The result is an order-preserving subsequence of the input. |
| `Filters.FilterMultiplicity` | school.py:40-42 | Each admitted record survives as many times as it occurs in the input, and no other record survives. Nothing is duplicated or invented. |
| `Filters.FilterCongruent` | school.py:40-42 | Two filter sets that admit the same records give the same result. |
| `Filters.FilterNothing` | school.py:41 | When every selection is empty, the table comes out unchanged. |
| `Filters.FilterUnconstrained` | school.py:41 | A column whose selection is empty imposes no constraint. |
| `Filters.FilterOrderIrrelevant` | school.py:40-42 | The order in which the columns are visited, and repeating one, do not change the result. |
| `Filters.AdmitsSnoc` | school.py:40-42 | Adding a column's selection to the filter set adds one conjunct to the predicate. |
| `Filters.FilterStep` | school.py:41-42 | Narrowing the already filtered table by one more non-empty selection equals filtering by the extended set. |
| `Filters.ApplyFilters` | school.py:39-42 | The sequential filter loop equals the one-pass reference filter of the original table. Columns, categorical kinds and well-formedness are unchanged. |
| `Defaults.DefaultPieColumns` | school.py:50 | The default pie columns are exactly those of "Gender" and "Category" present in the table, in that order, with no duplicates. |
| `Defaults.Position` | school.py:61-62 | Finding a label returns an index that holds it, with no earlier occurrence. With unique labels it is the only index that holds it. |
| `Defaults.DefaultXIndex` | school.py:61 | The X default points at "Gender" when present, and is 0 otherwise. |
| `Defaults.DefaultYIndex` | school.py:62 | The Y default points at "Category" when present, and is 1 otherwise. |
| `Defaults.DefaultIndicesInRange` | school.py:61-62 | X is in range iff "Gender" exists or there is at least one column. Y is in range iff "Category" exists or there are at least two columns. |
| `Pivot.PivotSize` | school.py:65 | The grid is dense. Its row labels are the distinct y values and its column labels are the distinct x values. An empty table gives an empty grid, and only an empty table does. |
| `Pivot.PairCount` | school.py:65 | Selecting y = a and then x = b counts the occurrences of the pair (a, b) among the records. |
| `Pivot.PairPresent` | school.py:65 | Selecting y = a and then x = b keeps some record exactly when some record holds the pair (a, b). |
| `Pivot.PivotCell` | school.py:65 | Each cell equals the number of records with that (y, x) pair. A cell is zero exactly when no record has the pair. |
| `Pivot.CountsSum` | school.py:65 | Counting distinct keys one at a time adds up to selecting on all of them at once. |
| `Pivot.PivotRowSum` | school.py:65 | Each grid row sums to the number of records with that y value. |
| `Pivot.PivotTotal` | school.py:65 | All cells together sum to the number of records. |
| `Dashboard.Refresh` | school.py:31-65 | One run keeps the columns and yields the reference filter of the records by the run's filter dictionary: a record survives exactly when, in every categorical column where some requested value occurs, its value is a requested one. The survivors keep their order. With no selections it returns the table unchanged. It computes the default pie columns and axis positions, and a heatmap grid whose cells sum to the filtered record count and which is empty exactly when no record survives. |

## Left out

- Loading the workbook (school.py:7-10) is left out. It is spreadsheet parsing in a foreign library, plus framework memoisation. The loaded table is an input.
- Loading the stylesheet (school.py:13-19) is left out. It is file I/O whose missing-file error is ignored.
- Titles, headers, the upload widget, the table display and the "please upload" warning are presentation (school.py:22-29, 45-46, 49, 60, 75-76).
- The user's interaction with the widgets is an input. The multiselect requests are a map from column to values. The heatmap axes and the pie-chart choice are given columns.
- The pie charts (school.py:51-57) are left out: the per-value counting and the percentage labels happen inside the charting library and use floating point.
- The heatmap figure and its colour scale (school.py:66-73) are rendering only.
- When "Category" is absent and the table has fewer than two columns, the Y select box at school.py:62 gets the out-of-range default index 1, raises an error, and the script stops before the pivot table. `Dashboard.Refresh` does not model that stop: it takes the axes as given columns and computes the heatmap grid anyway. `Defaults.DefaultIndicesInRange` states exactly when the defaults are in range.
- The guard at school.py:64 on the two axis names being non-empty is not modelled. The axes are always columns of the table.
- Dtype inference behind choosing the categorical columns is not modelled: each table carries its set of categorical columns as given.
- Missing values (NaN) are not modelled. Cell values are abstract with ordinary equality, so neither the special treatment of NaN by `isin` nor the pivot table's dropping of NaN keys is covered.
- Pivot.PivotSize: pandas sorts the row and column labels of a pivot table. Cell values here are abstract and unordered, so the model lists labels in order of first appearance. It states the set of labels and the counts, not their sorted order.
- Pivot.PivotSize: the same column used for both axes is treated like any other pair, giving counts on the diagonal only. What the dataframe library does in that case is not modelled.
- Filters.Offered: the multiselect widget is modelled as returning the requested values that are among its options. The widget's own interaction is not modelled.
