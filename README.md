# csv-to-table: the data-shaping layer, modelled in Dafny

csv-to-table is a browser application. It loads a CSV or Excel file, turns the
file into rows and columns, and shows them in a filterable table that can be
exported to PDF. Beneath the React screens is a small layer of decision logic.
This project models that layer and proves properties of it:

- **Row and column derivation** (`TableUtils`). This covers `createColumn`,
  `convertToTableData` (row ids), `extractColumns` and `extractColumnsInOrder`,
  and the label built from a camelCase key.
- **The filter panel's decisions** (`FilterPanel`). This covers which columns
  get a filter, the first-match classifier `getFilterType` (`text`, `range` or
  `select`), the dispatch to a filter control, and the group-by list, which is
  a class with `Add` and `Remove`.
- **The table's row-match predicates** (`DataTable`). These are `startsWith`,
  `endsWith`, `contains`, `equals` and `fuzzy`, plus the column preparation
  that forces `fuzzy` onto every column.
- **File ingestion** (`FileParser`). This covers the extension dispatch, the
  loop that collects the header row of the first worksheet, and the CSV and
  Excel branches.
- **PDF export** (`ExportButtons`). This covers projecting rows and headers
  onto the visible columns, the loop that builds each exported row, the
  "selected rows if any, otherwise filtered rows" rule, the tooltip, and the
  disabled condition.

A row and a column definition are both `Types.Record`, a map from property
name to a tagged scalar (`Str`, `Num`, `Bool`, `Null`, `Undefined`). With that
representation, JavaScript's object spread `{...a, ...b}` is the map union
`a + b`, up to property order (which a map does not keep; the only order
read is `Object.keys`, which is an input). `createColumn`'s option override, the `{ id, ...item }` of
`convertToTableData` and DataTable's forced `filterFn` are all modelled that
way.

Helper modules: `Wrappers` (Option, Result), `Seqs` (order-preserving
filter, duplicate removal) and `Strings` (ASCII case mapping, prefix/suffix/
substring tests, decimal numerals).

Notes on the code, which the model follows:

- The filter-type classifier offers a select control for a string column
  with at most 10 distinct values (or at most a fifth of the row count).
- The classifier looks only at the values, never at the column's name.
- It inspects only the first row's value, even when that row lacks one (the column then gets a text filter).
- With an id field, the row's value of that field is used even when the row
  lacks it (it is then `undefined`).
- Labels only split before capitals, so `last_name` becomes `Last_name`.

## Model

| member | source | states |
|---|---|---|
| TableUtils.CreateColumn | src/utils/tableUtils.ts:12-20 | the column has `accessorKey` and `header` plus every option; an option of the same name overrides either |
| TableUtils.SpaceBeforeCapitals | src/utils/tableUtils.ts:60 | the replacement lengthens the text by exactly the number of `A`-`Z` characters in it |
| TableUtils.SpacesRoundTrip | src/utils/tableUtils.ts:85 | removing every space that precedes a capital undoes the replacement exactly, so no character of the key is changed or lost |
| TableUtils.Label | src/utils/tableUtils.ts:60 | empty key gives empty label; otherwise the first character is upper-cased, the length is key length plus capitals after position 0, and the rest is the key's tail with one space before each capital |
| TableUtils.LabelExamples | src/utils/tableUtils.ts:85 | `firstName` gives "First Name"; `last_name` gives "Last_name" (underscores are not split) |
| TableUtils.AssignedId | src/utils/tableUtils.ts:34 | without a non-empty id field the id is the 1-based position, which is truthy; with one it is the item's value of that field, `undefined` when the item lacks it |
| TableUtils.NormalizeRow | src/utils/tableUtils.ts:34-38 | the row has the item's keys plus `id`; every item property is copied unchanged (its own `id` included); the assigned id is used only when the item has no `id` |
| TableUtils.ConvertToTableData | src/utils/tableUtils.ts:33-39 | exactly one row per input item, in input order, the i-th normalised with index i |
| TableUtils.PositionalIds | src/utils/tableUtils.ts:34 | without an id field, the item at index i gets id i+1 unless it carries its own `id`, which wins |
| TableUtils.PositionalIdsAreUnique | src/utils/tableUtils.ts:33-39 | when no item carries an `id`, the positional ids are pairwise distinct |
| TableUtils.KeptFields | src/utils/tableUtils.ts:80 | a field is kept exactly when it is listed and not excluded |
| TableUtils.ExtractColumnsInOrder | src/utils/tableUtils.ts:72-87 | empty data gives no columns whatever the fields are; otherwise one default column per kept field, in field order, duplicates kept |
| TableUtils.ColumnsFollowFields | src/utils/tableUtils.ts:80-86 | for non-empty data a key names a column iff it is one of the fields and not excluded |
| TableUtils.ExtractColumns | src/utils/tableUtils.ts:49-62 | empty data gives no columns; otherwise one labelled default column per key of the first row that is not excluded, each once, in `Object.keys` order, so the same columns `extractColumnsInOrder` builds from that key order |
| FilterPanel.IsFilterable | src/components/FilterPanel.tsx:145 | a filterable column always has an accessor key, and `enableColumnFilter: false` always excludes a column |
| FilterPanel.FilterableColumns | src/components/FilterPanel.tsx:144-146 | a column is kept iff `enableColumnFilter !== false` and its `accessorKey` is truthy; every kept column has an accessor key |
| FilterPanel.FilterableColumnsAppend | src/components/FilterPanel.tsx:144-146 | the selection keeps column order: appending a column appends it to the selection exactly when it is filterable |
| FilterPanel.DistinctAtMostRows | src/components/FilterPanel.tsx:211-215 | the set of distinct column values never exceeds the row count |
| FilterPanel.GetFilterType | src/components/FilterPanel.tsx:196-226 | no table gives text; a truthy `filterVariant` is returned verbatim; no rows gives text; a numeric first value gives range (whatever the distinct count); select iff the first value is a string and distinct <= 10 or 5*distinct <= rows; everything else is text |
| FilterPanel.SmallTablesAreCategorical | src/components/FilterPanel.tsx:209-221 | with at most ten rows, a string column always gets the select filter |
| FilterPanel.ManyDistinctStringsAreText | src/components/FilterPanel.tsx:209-225 | a string column with more than 10 distinct values and more than a fifth of the rows distinct gets the text filter |
| FilterPanel.OrDefault | src/components/FilterPanel.tsx:94-95 | `??` falls back exactly on null and undefined |
| FilterPanel.FilterComponent | src/components/FilterPanel.tsx:45-128 | text control iff the type is neither `select` nor `range` (a falsy type included); select offers the distinct truthy facet values, each once; range defaults to 0 and 100 |
| FilterPanel.Without | src/components/FilterPanel.tsx:161 | the removed value is gone and every other value stays |
| FilterPanel.RemoveUndoesAdd | src/components/FilterPanel.tsx:152-162 | removing a value that was just added restores the previous list |
| FilterPanel.GroupBy.constructor | src/components/FilterPanel.tsx:138 | the selection starts empty |
| FilterPanel.GroupBy.Add | src/components/FilterPanel.tsx:152-157 | a non-empty value not yet selected is appended; anything else leaves the list alone; no duplicates and no empty value ever |
| FilterPanel.GroupBy.Remove | src/components/FilterPanel.tsx:160-162 | the value is deleted, the others keep their relative order, and the invariant is kept |
| DataTable.Matches | src/components/DataTable.tsx:66-86 | the five case-insensitive string predicates on `String(cell)` and `String(filterValue)`; a match needs a filter text no longer than the cell text |
| DataTable.ContainsIsFuzzy | src/components/DataTable.tsx:75-85 | `contains` and `fuzzy` agree on every cell and filter; `startsWith` and `endsWith` matches are `contains` matches |
| DataTable.EqualsImpliesOthers | src/components/DataTable.tsx:67-81 | a cell that `equals` the filter passes every predicate |
| DataTable.EmptyFilterMatchesAll | src/components/DataTable.tsx:67-85 | an empty filter passes every row under all predicates but `equals`, which then only passes cells whose string is empty |
| DataTable.CaseInsensitive | src/components/DataTable.tsx:67-85 | upper- or lower-casing the cell text or the filter text never changes any predicate's result |
| DataTable.PrepareColumn | src/components/DataTable.tsx:43-47 | the column gets `filterFn: 'fuzzy'` and `enableColumnFilter: true`, overriding the caller's, and every other property is untouched |
| DataTable.ColumnsWithFilterOptions | src/components/DataTable.tsx:43-47 | same number and order of columns, each prepared |
| DataTable.PreparedColumnsUseFuzzy | src/components/DataTable.tsx:43-47 | every prepared column names the fuzzy predicate, keeps its accessor key, and would pass the panel's filterability test iff it has an accessor key |
| DataTable.PanelReadsUnpreparedColumns | src/components/FilterableDataTable.tsx:53-54 | the panel reads the caller's unprepared columns: a column with `enableColumnFilter: false` and an accessor key gets no panel control, though its prepared copy would pass the panel's test |
| DataTable.FilterText | src/components/FilterPanel.tsx:101-103 | `String(filterValue)` of a single value is its string; of the slider's `[min, max]` array it holds a comma right after the first element's text |
| DataTable.MatchesAsWritten | src/components/DataTable.tsx:82-85 | the predicates applied to either kind of filter value; on a single value they are exactly `Matches` |
| DataTable.RangeSliderHidesNumbers | src/components/DataTable.tsx:43-47 | with the forced `fuzzy` predicate (or any other of the five), a slider value `[min, max]` rejects every numeric cell, whatever the bounds |
| DataTable.RangeSliderExample | src/pages/Index.tsx:50-55 | the age column's slider at `[0, 100]` hides an age of 30 |
| DataTable.IntendedRangeKeepsInside | src/pages/Index.tsx:50-55 | under the intended range test a numeric cell passes a numeric range iff it lies between the bounds, an unbounded range keeps every number, and single values match exactly as written |
| FileParser.DetectFormat | src/utils/fileParser.ts:16-27 | `.csv` in any case takes the CSV branch; `.xlsx`/`.xls` in any case (and not `.csv`) takes the Excel branch; anything else fails with the unsupported-format message |
| FileParser.FormatIgnoresCase | src/utils/fileParser.ts:17-23 | changing the letter case of the file name never changes the branch |
| FileParser.FormatExamples | src/utils/fileParser.ts:16-27 | `Data.CSV` is CSV; `report.XLS` is Excel; `notes.txt` is rejected |
| FileParser.Headers | src/utils/fileParser.ts:89-95 | no more headers than columns in the range, and no header is empty |
| FileParser.HeaderColumns | src/utils/fileParser.ts:89-95 | each header is `String(v)` of a present, truthy cell in range; the source columns ascend strictly; every present truthy cell contributes |
| FileParser.CollectHeaders | src/utils/fileParser.ts:84-95 | the loop returns exactly the headers of the range, in sheet order |
| FileParser.Assemble | src/utils/fileParser.ts:99-104 | rows are normalised without an id field; columns follow the header order with `id` excluded |
| FileParser.ParseCsv | src/utils/fileParser.ts:34-59 | a parser error becomes "Error parsing CSV: " + message; otherwise rows and `meta.fields` (or [] when absent) are assembled |
| FileParser.ParseExcel | src/utils/fileParser.ts:66-118 | no content fails with "Failed to read file", a reader error with "Error reading file"; otherwise rows are assembled with the collected headers |
| FileParser.ParseFileToData | src/utils/fileParser.ts:16-27 | the name decides the branch; CSV gives the CSV result, Excel gives the Excel result, with "Failed to read file" for an empty read and "Error reading file" for a reader error, any other name fails with the unsupported-format message |
| FileParser.ParsedResultShape | src/utils/fileParser.ts:44-47 | one row per parsed row, each with its own or its 1-based positional id; `id` is never a column; no rows means no columns |
| ExportButtons.IsExported | src/components/ExportButtons.tsx:24 | a column without a truthy accessor key, or whose key the table does not know, is never exported; a known key is exported iff the column is visible |
| ExportButtons.ExportedColumns | src/components/ExportButtons.tsx:33-39 | a column is exported iff it has a truthy accessor key naming a visible column |
| ExportButtons.ExportHeaders | src/components/ExportButtons.tsx:33-39 | one header per exported column, in column-list order |
| ExportButtons.ExportRow | src/components/ExportButtons.tsx:20-30 | the loop yields the row's values of exactly the exported columns, in column-list order |
| ExportButtons.ExportTable | src/components/ExportButtons.tsx:18-39 | one body entry per row, in row order, and every entry has as many cells as there are headers |
| ExportButtons.RowsToExport | src/components/ExportButtons.tsx:75-86 | the selected rows when some or all rows are selected, otherwise the filtered rows |
| ExportButtons.TooltipText | src/components/ExportButtons.tsx:89-94 | the "selected" text iff some or all rows are selected, the "all filtered" text otherwise |
| ExportButtons.TooltipDescribesExport | src/components/ExportButtons.tsx:77-94 | the tooltip names the rows a click would export |
| ExportButtons.ExportDisabled | src/components/ExportButtons.tsx:104 | an enabled button with no selection always exports at least one row |
| ExportButtons.DisabledWhenNothingFiltered | src/components/ExportButtons.tsx:104 | the button is disabled iff no row passes the filters; with no selection, iff an export would be empty |
| ExportButtons.ExportRowsHandler | src/components/ExportButtons.tsx:75-86 | exports the chosen rows projected onto the exported columns, with the matching header list |

## Findings

| source | as written | input that shows it | evidently intended | confidence | as-written member | corrected member |
|---|---|---|---|---|---|---|
| src/components/DataTable.tsx:43-47 | every column is given `filterFn: 'fuzzy'`, so the range slider's `[min, max]` value (src/components/FilterPanel.tsx:101-103) is tested as the text `"min,max"` against `String(cell)` | the age column (src/pages/Index.tsx:50-55, `filterFn: 'range'`) with the slider at `[0, 100]` and a row whose age is 30: the row is hidden | a range value keeps the numeric cells between its bounds, as the column's own `filterFn: 'range'` asks | medium, not executed | DataTable.RangeSliderHidesNumbers | DataTable.IntendedRangeKeepsInside |

`DataTable.MatchesAsWritten` is the predicate as the code applies it; `DataTable.MatchesIntended` is the corrected one, which agrees with it on every single (text or select) value and differs only on the slider's pair.

## Left out

- Rendering is not modelled: the JSX and MUI drawer, accordion, chips, text fields, selects and sliders. Of `getFilterComponent` only the choice of control and the values handed to it are modelled.
- Persistence is not modelled, because it is I/O: `localStorage` reads and writes, `handleSave`, filter reset and page reloads (src/pages/Index.tsx, src/components/FilterPanel.tsx:174-187).
- src/pages/Upload.tsx is not part of this model. Its extension check repeats `FileParser.DetectFormat`. The rest of it is async plumbing.
- src/App.tsx and src/pages/TableDemo.tsx are not part of this model. They hold routing and fixed UI wiring.
- src/components/FilterableDataTable.tsx is not modelled beyond which columns it hands the panel (DataTable.PanelReadsUnpreparedColumns); the rest is layout.
- src/utils/mockData.ts is not part of this model, because it depends on `Math.random`.
- The libraries are foreign code and are not modelled: PapaParse, SheetJS (`XLSX.read`, `decode_range`, `sheet_to_json`), jsPDF/autoTable and material-react-table's row models and facets. Their results are inputs instead: rows, `meta.fields`, the header row as a function from column index to optional cell, the range's first and last column, the facet keys and min/max, and the filtered and selected rows with column visibility.
- Exceptions thrown inside those libraries are not modelled. Only the errors the source raises itself are: unsupported format, "Error parsing CSV: …", "Failed to read file" and "Error reading file".
- Numbers are integers. Fractions, NaN and Infinity are left out, and `String()` on a number is its decimal numeral.
- Letter case is ASCII only. JavaScript's Unicode `toLowerCase`/`toUpperCase` also maps non-ASCII letters, and a few of those change length.
- FilterPanel.GetFilterType: the `0.2 *` floating-point comparison is stated as the integer test `5 * distinct <= rowCount`.
- FilterPanel.GetFilterType: it requires a truthy accessor key. The source only calls it for filterable columns (src/components/FilterPanel.tsx:298-305).
- `Object.keys` enumeration order is an input to TableUtils.ExtractColumns, as in the source. It is required to list the first row's keys, each once.
- `extractColumns` and `extractColumnsInOrder` type their result by a generic parameter. That typing has no runtime effect and is not modelled.
