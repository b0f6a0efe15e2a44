/** Turning an uploaded file into rows and columns (src/utils/fileParser.ts).
    The parsing libraries are abstracted: what they deliver is an input. */
module FileParser {
  import opened Wrappers
  import opened Strings
  import opened Types
  import opened TableUtils

  datatype FileFormat = Csv | Excel

  const UnsupportedFormat := "Unsupported file format. Please upload a CSV or Excel file."

  /** The extension test of `parseFileToData`, on the lower-cased name;
      `.csv` is tested first. */
  function DetectFormat(name: string): (r: Result<FileFormat, string>)
    ensures r == Success(Csv) <==> EndsWith(Lower(name), ".csv")
    ensures r == Success(Excel) <==>
      !EndsWith(Lower(name), ".csv") &&
      (EndsWith(Lower(name), ".xlsx") || EndsWith(Lower(name), ".xls"))
    ensures r.Failure? ==> r.error == UnsupportedFormat
  {
    var lower := Lower(name);
    if EndsWith(lower, ".csv") then Success(Csv)
    else if EndsWith(lower, ".xlsx") || EndsWith(lower, ".xls") then Success(Excel)
    else Failure(UnsupportedFormat)
  }

  /** The letter case of the file name never changes the branch taken. */
  lemma FormatIgnoresCase(name: string)
    ensures DetectFormat(Upper(name)) == DetectFormat(name)
    ensures DetectFormat(Lower(name)) == DetectFormat(name)
  {
    LowerOfCaseChange(name);
  }

  lemma CsvExample()
    ensures DetectFormat("Data.CSV") == Success(Csv)
  {
    assert Lower("Data.CSV") == "data.csv";
    assert "data.csv"[4..] == ".csv";
  }

  lemma ExcelExample()
    ensures DetectFormat("report.XLS") == Success(Excel)
  {
    assert Lower("report.XLS") == "report.xls";
    assert "report.xls"[6..] == ".xls";
    assert "report.xls"[6..] != ".csv";
  }

  lemma UnsupportedExample()
    ensures DetectFormat("notes.txt") == Failure(UnsupportedFormat)
  {
    assert Lower("notes.txt") == "notes.txt";
    assert "notes.txt"[5..] != ".csv";
    assert "notes.txt"[5..] != ".xls";
    assert "notes.txt"[4..] != ".xlsx";
  }

  lemma FormatExamples()
    ensures DetectFormat("Data.CSV") == Success(Csv)
    ensures DetectFormat("report.XLS") == Success(Excel)
    ensures DetectFormat("notes.txt") == Failure(UnsupportedFormat)
  {
    CsvExample();
    ExcelExample();
    UnsupportedExample();
  }

  // ---------------------------------------------------------------------
  // The header row of the first worksheet
  // ---------------------------------------------------------------------

  /** The header row of a worksheet: the value `v` of the cell in each
      column, or `None` when there is no cell there. */
  type HeaderRow = int -> Option<Scalar>

  /** `cell && cell.v`. */
  predicate HasHeader(row: HeaderRow, col: int) {
    row(col).Some? && Truthy(row(col).value)
  }

  /** The headers collected from columns `first` to `last`, in column order. */
  function Headers(row: HeaderRow, first: int, last: int): (hs: seq<string>)
    ensures |hs| <= if last < first then 0 else last - first + 1
    ensures forall i :: 0 <= i < |hs| ==> hs[i] != ""
    decreases last - first + 1
  {
    if last < first then []
    else Headers(row, first, last - 1) + (if HasHeader(row, last) then [ToStr(row(last).value)] else [])
  }

  /** The columns that contribute a header, in ascending order. */
  function HeaderColumns(row: HeaderRow, first: int, last: int): (cols: seq<int>)
    ensures |cols| == |Headers(row, first, last)|
    ensures forall i :: 0 <= i < |cols| ==>
      first <= cols[i] <= last && HasHeader(row, cols[i]) &&
      Headers(row, first, last)[i] == ToStr(row(cols[i]).value)
    ensures forall i, j :: 0 <= i < j < |cols| ==> cols[i] < cols[j]
    ensures forall c :: first <= c <= last && HasHeader(row, c) ==> c in cols
    decreases last - first + 1
  {
    if last < first then []
    else HeaderColumns(row, first, last - 1) + (if HasHeader(row, last) then [last] else [])
  }

  /** The loop of `parseExcel` that walks the first row from the range's
      first column to its last and pushes `String(cell.v)` for every cell that
      is present with a truthy value. */
  method CollectHeaders(row: HeaderRow, first: int, last: int) returns (headers: seq<string>)
    ensures headers == Headers(row, first, last)
  {
    headers := [];
    var col := first;
    while col <= last
      invariant last < first ==> col == first
      invariant first <= col <= last + 1 || last < first
      invariant headers == Headers(row, first, col - 1)
      decreases last - col + 1
    {
      if row(col).Some? && Truthy(row(col).value) {
        headers := headers + [ToStr(row(col).value)];
      }
      col := col + 1;
    }
  }

  // ---------------------------------------------------------------------
  // The two branches
  // ---------------------------------------------------------------------

  datatype ParsedResult = ParsedResult(data: seq<Row>, columns: seq<Column>)

  /** What PapaParse reports: rows and `meta.fields`, or an error. */
  datatype CsvOutcome =
    | CsvParsed(rows: seq<Row>, fields: Option<seq<string>>)
    | CsvError(message: string)

  /** What reading the workbook yields: the first sheet's header row, the
      first and last column of its range and `sheet_to_json`'s rows; or a
      read with no content; or a reader error. */
  datatype ExcelOutcome =
    | ExcelRead(headerRow: HeaderRow, firstCol: int, lastCol: int, rows: seq<Row>)
    | NoContent
    | ReadError

  /** Both branches: positional ids, and columns in header order without `id`. */
  function Assemble(rows: seq<Row>, headers: seq<string>): (p: ParsedResult)
    ensures p.data == ConvertToTableData(rows, None)
    ensures p.columns == ExtractColumnsInOrder(p.data, headers, ["id"])
  {
    var data := ConvertToTableData(rows, None);
    ParsedResult(data, ExtractColumnsInOrder(data, headers, ["id"]))
  }

  /** `parseCSV`: `meta.fields`, or `[]` when PapaParse gives none. */
  function ParseCsv(outcome: CsvOutcome): (r: Result<ParsedResult, string>)
    ensures outcome.CsvError? ==> r == Failure("Error parsing CSV: " + outcome.message)
    ensures outcome.CsvParsed? ==> r == Success(Assemble(outcome.rows, outcome.fields.GetOr([])))
  {
    match outcome
    case CsvParsed(rows, fields) => Success(Assemble(rows, fields.GetOr([])))
    case CsvError(message) => Failure("Error parsing CSV: " + message)
  }

  /** `parseExcel`. */
  method ParseExcel(outcome: ExcelOutcome) returns (r: Result<ParsedResult, string>)
    ensures outcome.NoContent? ==> r == Failure("Failed to read file")
    ensures outcome.ReadError? ==> r == Failure("Error reading file")
    ensures outcome.ExcelRead? ==>
      r == Success(Assemble(outcome.rows, Headers(outcome.headerRow, outcome.firstCol, outcome.lastCol)))
  {
    match outcome
    case NoContent =>
      r := Failure("Failed to read file");
    case ReadError =>
      r := Failure("Error reading file");
    case ExcelRead(headerRow, firstCol, lastCol, rows) =>
      var headers := CollectHeaders(headerRow, firstCol, lastCol);
      r := Success(Assemble(rows, headers));
  }

  /** `parseFileToData(file)`: the file name picks the branch; only the
      chosen parser's outcome is used. */
  method ParseFileToData(name: string, csv: CsvOutcome, excel: ExcelOutcome) returns (r: Result<ParsedResult, string>)
    ensures DetectFormat(name) == Success(Csv) ==> r == ParseCsv(csv)
    ensures DetectFormat(name) == Success(Excel) && excel.ExcelRead? ==>
      r == Success(Assemble(excel.rows, Headers(excel.headerRow, excel.firstCol, excel.lastCol)))
    ensures DetectFormat(name) == Success(Excel) && excel.NoContent? ==> r == Failure("Failed to read file")
    ensures DetectFormat(name) == Success(Excel) && excel.ReadError? ==> r == Failure("Error reading file")
    ensures DetectFormat(name).Failure? ==> r == Failure(UnsupportedFormat)
  {
    var format := DetectFormat(name);
    match format
    case Success(Csv) =>
      r := ParseCsv(csv);
    case Success(Excel) =>
      r := ParseExcel(excel);
    case Failure(message) =>
      r := Failure(message);
  }

  /** Whatever the file, a parsed result never offers `id` as a column, has
      a column only when it has rows, and gives every row an `id`: its own,
      or its 1-based position. */
  lemma ParsedResultShape(rows: seq<Row>, headers: seq<string>)
    ensures var p := Assemble(rows, headers);
      && |p.data| == |rows|
      && Str("id") !in ColumnKeys(p.columns)
      && (rows == [] ==> p.columns == [])
      && (forall i :: 0 <= i < |rows| ==>
            p.data[i]["id"] == (if "id" in rows[i] then rows[i]["id"] else Num(i + 1)))
  {
    var p := Assemble(rows, headers);
    PositionalIds(rows);
    if rows != [] {
      ColumnsFollowFields(p.data, headers, ["id"], "id");
    }
  }
}
