# Population statistics dashboard: a Dafny model of its filter and aggregation core

The dashboard (`bQ_Pop_Stats.py`) loads a table of population counts, where each
row is one province, district, area type and gender combination with numeric
columns such as `group_all_ages`, `group_18_and_up` and `group_60_and_up`. A
sidebar holds four dependent drop-downs. Each one offers `"All"` followed by the
distinct values that are left after the drop-downs before it. The page then
shows the total population, several `groupby(...).sum()` charts, a per-age-group
distribution, and a chart of the twenty most populous districts split by area
type.

This project models that script as pure functions over an immutable sequence of
rows, and proves what each step promises.

- `seqs.dfy` (module `Seqs`): order-preserving sub-sequences and first-appearance
  de-duplication. `Distinct` specifies pandas' `unique`, and the `Unique` method
  is its one-pass implementation.
- `table.dfy` (module `Table`):
  - `Row` and `Facet` (the four categorical columns), plus `Table`.
  - `Cell` reads a numeric cell; an empty (NaN) cell reads as 0, as pandas' `sum` skips it.
  - `Sum` is a column total.
  - `Where` keeps the rows whose composite key equals a given key.
  - `Result`/`Error` model the key error raised for a missing column.
- `cascade.dfy` (module `Cascade`):
  - `Apply` is one filter stage.
  - `Options` is one drop-down's option list.
  - `Stage`/`Filtered` are the rows left after the first k stages, and after all four.
  - `OptionsAt` is the list offered by drop-down k.
  - Lemmas cover shrinking, the logical AND of the four choices, dependence on earlier choices only, and non-emptiness.
- `aggregate.dfy` (module `Aggregate`):
  - `GroupBy(rows, facets, column)` is `rows.groupby(facets)[column].sum()`, as a map from composite keys to sums.
  - `MapTotal` adds up a map's values, which states conservation.
  - `AgeGroupDistribution` models lines 97-98.
- `topn.dfy` (module `TopN`):
  - `SortDescendingHead` ranks any totals map, with no tie rule.
  - `TopDistricts` picks lines 201-208's twenty districts.
  - `RestrictToDistricts` is line 211's `isin` restriction of the (district, area type) table.
- `dashboard.dfy` (module `Dashboard`):
  - `Run` runs the whole script and returns a `Report` of every figure on the page.
  - Lemmas say the charts add up to the metric cards and that an empty selection yields zeros.
- `examples.dfy` (module `Examples`): worked examples on a four-row table.

Group keys are sequences of strings: `["M"]` for a group by gender, and
`["A", "F"]` for a group by (province, gender). A key holds the row's values for
the group-by columns, in group-by order.

## Model

| member | source | states |
|---|---|---|
| `Seqs.Distinct` | bQ_Pop_Stats.py:22-52 | `unique()`, as the four drop-downs call it on lines 22, 32, 42 and 52: the distinct values have no repeats and contain exactly the values that occur in the column |
| `Seqs.DistinctFirstAppearance` | bQ_Pop_Stats.py:22-52 | the distinct values are listed strictly in the order of their first occurrence, as `unique()` lists them |
| `Seqs.Unique` | bQ_Pop_Stats.py:22-52 | a one-pass refinement of `Distinct`: a scan that keeps a set of the values already seen returns exactly the first-appearance distinct list |
| `Table.SumAppend` | bQ_Pop_Stats.py:63 | the total over two runs of rows one after the other is the sum of their totals, wherever the rows are split |
| `Table.SumNonNegative` | bQ_Pop_Stats.py:142 | a column total is never negative when none of its cells is |
| `Table.Where` | bQ_Pop_Stats.py:27 | an equality filter keeps an order-preserving sub-sequence of the rows, and a row value is in it exactly when it is in the input and its key equals the chosen value |
| `Table.WhereCounts` | bQ_Pop_Stats.py:27 | the boolean mask keeps every copy of a matching row, as often as it occurs in the input, and no copy of any other row |
| `Cascade.Apply` | bQ_Pop_Stats.py:26-29 | a stage with `"All"` returns its input unchanged; otherwise it keeps an order-preserving sub-sequence, and a row value is in it exactly when the row's column equals the choice |
| `Cascade.ApplyCounts` | bQ_Pop_Stats.py:26-29 | a stage keeps every copy of each row it admits, as often as it occurs in its input, and no copy of any other row |
| `Cascade.Options` | bQ_Pop_Stats.py:22-52 | an options list is `"All"` followed by the column's values that occur in the rows, without repeats, strictly in the order of their first occurrence in the column; the whole list repeats `"All"` exactly when some row's own value is the literal `"All"` |
| `Cascade.Stage` | bQ_Pop_Stats.py:26-49 | filtering never adds rows: after any number of stages there are at most as many rows as in the data |
| `Cascade.StageCounts` | bQ_Pop_Stats.py:26-49 | after k stages, each row occurs exactly as often as in the data when all k choices admit it, and not at all otherwise |
| `Cascade.Filtered` | bQ_Pop_Stats.py:20-56 | the rows every chart uses are an order-preserving sub-sequence of the data |
| `Cascade.OptionsAt` | bQ_Pop_Stats.py:31-53 | drop-down k offers `"All"` first, then exactly the values in its column of the data rows that the first k choices admit |
| `Cascade.StageShrinks` | bQ_Pop_Stats.py:36-49 | every later stage's rows are an order-preserving sub-sequence of every earlier stage's rows |
| `Cascade.StageMembers` | bQ_Pop_Stats.py:26-56 | a row survives k stages exactly when each of those k choices is `"All"` or equals the row's value |
| `Cascade.FilteredIsConjunction` | bQ_Pop_Stats.py:26-56 | the final rows are the data rows, in order, that meet all four choices at once (logical AND), each kept as often as it occurs in the data; they are empty exactly when no data row meets all four |
| `Cascade.EarlierChoicesDecide` | bQ_Pop_Stats.py:31-53 | a drop-down's options and the rows it filters depend only on the choices made in the drop-downs before it |
| `Cascade.ChosenOptionKeepsRows` | bQ_Pop_Stats.py:31-37 | filtering by a value taken from that stage's own options empties the rows only when they were already empty |
| `Cascade.ValidSelectionNonEmpty` | bQ_Pop_Stats.py:20-56 | when every drop-down holds one of the options it was offered, the final subset is empty exactly when the table is |
| `Aggregate.GroupBy` | bQ_Pop_Stats.py:70-177 | a grouping has groups exactly when there are rows, so an empty subset draws an empty chart and a non-empty one never does |
| `Aggregate.GroupByMeaning` | bQ_Pop_Stats.py:177 | a group sum has exactly one entry per key combination that occurs in the rows (observed combinations only); each entry is the column's sum over the rows with that key |
| `Aggregate.GroupByConserves` | bQ_Pop_Stats.py:70 | the entries of any group sum add up to the column's total over the rows, so no row is lost or counted twice |
| `Aggregate.AgeGroupDistribution` | bQ_Pop_Stats.py:97-98 | there is one entry per column whose name starts with `group_` and is not `group_all_ages`, in column order, and nothing else; each entry's value is that column's sum over the rows |
| `TopN.Largest` | bQ_Pop_Stats.py:205 | the key picked has a total at least that of every other candidate |
| `TopN.SortDescendingHead` | bQ_Pop_Stats.py:205-206 | the result holds `min(n, number of keys)` distinct keys in non-increasing order of total, and none left out outweighs one chosen |
| `TopN.DistrictKeys` | bQ_Pop_Stats.py:202-204 | grouping by district has exactly one key `[d]` per district `d` present |
| `TopN.DistrictRanking` | bQ_Pop_Stats.py:206-208 | a ranking of the district keys, read as district names, keeps every ranking property |
| `TopN.TopDistricts` | bQ_Pop_Stats.py:201-208 | the names satisfy `IsTopDistricts`: at most 20 names, and `min(20, number of districts)` of them; no repeats; all present in the rows; non-increasing by total population; every chosen district's total is at least that of every district not chosen |
| `TopN.InDistricts` | bQ_Pop_Stats.py:194-198 | the reference filter behind `RestrictedAreaTable`: an order-preserving sub-sequence of the rows that holds a row value exactly when its district is one of the chosen names |
| `TopN.InDistrictsCounts` | bQ_Pop_Stats.py:194-198 | that reference filter keeps every copy of a chosen district's row and no copy of any other row |
| `TopN.WhereInDistricts` | bQ_Pop_Stats.py:194-198 | for a group whose district was chosen, the chosen rows select the same rows as the whole table |
| `TopN.RestrictedAreaKeys` | bQ_Pop_Stats.py:211 | the restricted (district, area type) table keeps exactly the groups whose district was chosen |
| `TopN.RestrictedAreaSameKeys` | bQ_Pop_Stats.py:194-211 | the restricted table has exactly the groups of the grouping of the chosen districts' rows |
| `TopN.RestrictedAreaValue` | bQ_Pop_Stats.py:194-211 | each kept group has the same total in the restricted table as in the grouping of the chosen districts' rows |
| `TopN.RestrictedAreaTable` | bQ_Pop_Stats.py:194-211 | the restricted table equals the grouping of the chosen districts' rows alone, so every kept group's total is unchanged |
| `Dashboard.Run` | bQ_Pop_Stats.py:20-211 | the run fails with the first missing column in script order (`group_all_ages`, then `group_60_and_up`, then `group_18_and_up`) and succeeds exactly when all three exist; on success every figure is computed from the filtered rows and the top districts form a valid ranking |
| `Dashboard.ChartsAddUp` | bQ_Pop_Stats.py:63-177 | the gender, province and area charts add up to the total population card; the adult gender, province and province-by-gender charts add up to the total adult card |
| `Dashboard.EmptySubsetReport` | bQ_Pop_Stats.py:62-211 | a selection that leaves no rows is not an error: both cards show 0, every group chart and the top-district list are empty, and every age group sums to 0 |
| `Examples.ProvinceAFilter` | bQ_Pop_Stats.py:26-29 | on the four-row example, choosing province A keeps its two rows |
| `Examples.ProvinceAExample` | bQ_Pop_Stats.py:26-70 | on the example, choosing province A shows a total of 22 people and a gender chart of 10 men and 12 women |
| `Examples.ProvinceADistricts` | bQ_Pop_Stats.py:31-33 | on the example, province A's two rows give the district options `["All", "D1"]` |
| `Examples.ProvinceADistrictOptions` | bQ_Pop_Stats.py:31-33 | once province A is chosen, the district drop-down offers `["All", "D1"]` |
| `Examples.ExampleDistrictTotals` | bQ_Pop_Stats.py:201-204 | unfiltered, the example holds 34 people: 22 in D1 and 12 in D2 |
| `Examples.TopOneExample` | bQ_Pop_Stats.py:205-206 | the only ranking of length one is D1 |
| `Examples.TopOneOfTwo` | bQ_Pop_Stats.py:205-206 | with totals D1: 22 and D2: 12, the only ranking of length one is D1 |

Three behaviours of the script shape the model:

- **No selection error.** A Streamlit drop-down can only return one of the options it shows, so the script never checks a choice. `ValidSelection` states that condition, and `Run` accepts any selection.
- **Key errors at first use.** A missing numeric column raises a key error where the script first reads it. So `Run` fails with the first missing column in script order (lines 63, 126, 142).
- **Unordered results.** pandas sorts `groupby` output by key, and its default descending sort does not keep ties in any fixed order. So group results are maps, and the ranking states no tie rule.

## Left out

- Dashboard.Run: on a key error the figures drawn before the failing line are not returned. Without `group_60_and_up`, the script has already drawn the total card and the gender, province, age-group and area charts (lines 63-112) when line 126 raises. Without `group_18_and_up`, the senior chart (line 126) is drawn as well. `Run` returns only the error.

- CSV loading and `@st.cache_data` (lines 9-13): file I/O and framework caching. The table is a parameter of `Run`.
- Missing categorical columns: the four facet columns are fixed fields of `Row`. The key error pandas would raise at line 22, 32, 42 or 52, wherever the missing column is first read, is not modelled.
- Page layout: titles, headers, the data table, metric cards with their thousands separators, and every Altair chart specification. These only display the values of a successful run, which the model computes.
- Streamlit's handling of a previously chosen value that vanishes from a drop-down's options: the script never sees it. A selection is any string, and `ValidSelection` says when each choice comes from its own options.
- pandas details:
  - Rows with a NaN facet value are dropped by `groupby`; facet values here are always strings.
  - Numeric columns are `int`. Float columns and the 64-bit overflow of a very large sum are not modelled.
  - A non-numeric column whose name starts with `group_` is not modelled.
  - Repeated column names: pandas' CSV reader renames a repeated header, so `Table.columns` is taken to have no repeats, and `AgeGroupDistribution`'s contract does not count entries for a repeated name.
- Output order of `groupby` and of the sorted district list:
  - Group results are maps.
  - `TopDistricts` returns the ranking order, but does not fix the order among districts with equal totals.
- The literal `"All"` as a real data value: the code cannot tell it from "no filter". `Options` states exactly when the list then repeats `"All"`. `Apply` keeps every row for that choice, just as the script does.
- `Pop Stats/bQ_Pop_Stats.py`: the same dashboard reading from a warehouse query instead of a CSV file. Its filter and aggregation code matches lines 14-188 of the modelled script, it has no top-20 district chart, and the query is I/O.
