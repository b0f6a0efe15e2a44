/** What the PDF export puts in the document and which rows it takes
    (src/components/ExportButtons.tsx). Drawing the PDF is not modelled. */
module ExportButtons {
  import opened Types
  import Seqs

  /** The parts of the table instance the export reads: the filtered rows,
      the selected rows, the two selection flags and, for each column id the
      table knows, whether the column is visible. */
  datatype Table = Table(
    filteredRows: seq<Row>,
    selectedRows: seq<Row>,
    someRowsSelected: bool,
    allRowsSelected: bool,
    columnVisibility: map<string, bool>)

  /** `column.accessorKey && table.getColumn(column.accessorKey)?.getIsVisible()`. */
  predicate IsExported(t: Table, c: Column)
    // a column without a truthy accessor key is never exported
    ensures !Truthy(Get(c, "accessorKey")) ==> !IsExported(t, c)
    // nor is one the table does not know or has hidden
    ensures AccessorKey(c).Some? && AccessorKey(c).value !in t.columnVisibility ==> !IsExported(t, c)
    ensures AccessorKey(c).Some? && AccessorKey(c).value in t.columnVisibility ==>
      (IsExported(t, c) <==> t.columnVisibility[AccessorKey(c).value])
  {
    var key := AccessorKey(c);
    key.Some? && key.value in t.columnVisibility && t.columnVisibility[key.value]
  }

  /** The columns that are exported, in column-list order. */
  function ExportedColumns(t: Table, columns: seq<Column>): (r: seq<Column>)
    ensures forall c :: c in r <==> c in columns && IsExported(t, c)
  {
    Seqs.Filter(columns, c => IsExported(t, c))
  }

  /** `row.getValue(column.accessorKey)`. */
  function CellOf(row: Row, c: Column): Scalar {
    match AccessorKey(c)
    case Some(key) => Get(row, key)
    case None => Undefined
  }

  /** The header list: `column.header` of each exported column. */
  function ExportHeaders(t: Table, columns: seq<Column>): (head: seq<Scalar>)
    ensures var cols := ExportedColumns(t, columns);
      |head| == |cols| && forall i :: 0 <= i < |head| ==> head[i] == Get(cols[i], "header")
  {
    var cols := ExportedColumns(t, columns);
    seq(|cols|, i requires 0 <= i < |cols| => Get(cols[i], "header"))
  }

  /** The values of `row` in the given columns. */
  function Cells(cols: seq<Column>, row: Row): (cells: seq<Scalar>)
    ensures |cells| == |cols|
    ensures forall i :: 0 <= i < |cols| ==> cells[i] == CellOf(row, cols[i])
  {
    seq(|cols|, i requires 0 <= i < |cols| => CellOf(row, cols[i]))
  }

  /** One more column in the list adds it to the exported columns exactly
      when it is exported. */
  lemma ExportedColumnsStep(t: Table, columns: seq<Column>, i: nat)
    requires i < |columns|
    ensures ExportedColumns(t, columns[..i + 1]) ==
      ExportedColumns(t, columns[..i]) + (if IsExported(t, columns[i]) then [columns[i]] else [])
  {
    Seqs.FilterAppend(columns[..i], [columns[i]], c => IsExported(t, c));
    assert columns[..i + 1] == columns[..i] + [columns[i]];
    assert [columns[i]][1..] == [];
  }

  lemma CellsAppend(cols: seq<Column>, c: Column, row: Row)
    ensures Cells(cols + [c], row) == Cells(cols, row) + [CellOf(row, c)]
  {
  }

  /** The `forEach`/`push` loop that builds one `dataRow`: the values of the
      exported columns, in column-list order. */
  method ExportRow(t: Table, columns: seq<Column>, row: Row) returns (dataRow: seq<Scalar>)
    ensures dataRow == Cells(ExportedColumns(t, columns), row)
  {
    dataRow := [];
    var i := 0;
    while i < |columns|
      invariant 0 <= i <= |columns|
      invariant dataRow == Cells(ExportedColumns(t, columns[..i]), row)
    {
      var column := columns[i];
      ExportedColumnsStep(t, columns, i);
      if IsExported(t, column) {
        CellsAppend(ExportedColumns(t, columns[..i]), column, row);
        dataRow := dataRow + [CellOf(row, column)];
      }
      i := i + 1;
    }
    assert columns[..i] == columns;
  }

  /** `handleExportRows(rows)`: the header list and one body entry per row,
      in row order; every body entry lines up with the header list. */
  method ExportTable(t: Table, columns: seq<Column>, rows: seq<Row>) returns (head: seq<Scalar>, body: seq<seq<Scalar>>)
    ensures head == ExportHeaders(t, columns)
    ensures |body| == |rows|
    ensures forall i :: 0 <= i < |rows| ==>
      body[i] == Cells(ExportedColumns(t, columns), rows[i]) && |body[i]| == |head|
  {
    head := ExportHeaders(t, columns);
    body := [];
    var i := 0;
    while i < |rows|
      invariant 0 <= i <= |rows|
      invariant |body| == i
      invariant forall j :: 0 <= j < i ==> body[j] == Cells(ExportedColumns(t, columns), rows[j])
    {
      var dataRow := ExportRow(t, columns, rows[i]);
      body := body + [dataRow];
      i := i + 1;
    }
  }

  /** `table.getIsSomeRowsSelected() || table.getIsAllRowsSelected()`. */
  predicate HasSelectedRows(t: Table) {
    t.someRowsSelected || t.allRowsSelected
  }

  /** The rows `exportRowsHandler` hands to the export. */
  function RowsToExport(t: Table): (rows: seq<Row>)
    ensures HasSelectedRows(t) ==> rows == t.selectedRows
    ensures !HasSelectedRows(t) ==> rows == t.filteredRows
  {
    if HasSelectedRows(t) then t.selectedRows else t.filteredRows
  }

  const SelectedTooltip := "Export selected rows to PDF"
  const FilteredTooltip := "Export all filtered rows to PDF"

  /** `getTooltipText()`. */
  function TooltipText(t: Table): (text: string)
    ensures text == SelectedTooltip <==> HasSelectedRows(t)
    ensures text == FilteredTooltip <==> !HasSelectedRows(t)
  {
    if HasSelectedRows(t) then SelectedTooltip else FilteredTooltip
  }

  /** The tooltip always describes the rows that a click would export. */
  lemma TooltipDescribesExport(t: Table)
    ensures TooltipText(t) == SelectedTooltip ==> RowsToExport(t) == t.selectedRows
    ensures TooltipText(t) == FilteredTooltip ==> RowsToExport(t) == t.filteredRows
  {
  }

  /** `disabled={table.getFilteredRowModel().rows.length === 0}`. */
  predicate ExportDisabled(t: Table)
    // an enabled button with no selection always exports at least one row
    ensures !ExportDisabled(t) && !HasSelectedRows(t) ==> RowsToExport(t) != []
  {
    |t.filteredRows| == 0
  }

  /** The button is disabled exactly when there are no filtered rows; with
      no selection that is exactly when a click would export nothing. */
  lemma DisabledWhenNothingFiltered(t: Table)
    ensures ExportDisabled(t) <==> t.filteredRows == []
    ensures !HasSelectedRows(t) ==> (ExportDisabled(t) <==> RowsToExport(t) == [])
  {
  }

  /** `exportRowsHandler()`: the selected rows if any row is selected,
      otherwise the filtered rows, projected onto the exported columns. */
  method ExportRowsHandler(t: Table, columns: seq<Column>) returns (head: seq<Scalar>, body: seq<seq<Scalar>>)
    ensures head == ExportHeaders(t, columns)
    ensures |body| == |RowsToExport(t)|
    ensures forall i :: 0 <= i < |body| ==>
      body[i] == Cells(ExportedColumns(t, columns), RowsToExport(t)[i])
    ensures !HasSelectedRows(t) && !ExportDisabled(t) ==> |body| > 0
  {
    head, body := ExportTable(t, columns, RowsToExport(t));
  }
}
