/** The row-match predicates the table registers as `filterFns`, and the
    preparation of its columns (src/components/DataTable.tsx). */
module DataTable {
  import opened Wrappers
  import opened Strings
  import opened Types
  import FilterPanel
  import Seqs

  /** The five named predicates. */
  datatype FilterFn = StartsWith | EndsWith | Contains | Equals | Fuzzy

  /** `String(v).toLowerCase()`. */
  function Folded(v: Scalar): string {
    Lower(ToStr(v))
  }

  /** `filterFns[fn](row, id, filterValue)` where `cell` is `row.getValue(id)`. */
  predicate Matches(fn: FilterFn, cell: Scalar, filterValue: Scalar)
    // a match needs a filter text no longer than the cell text
    ensures Matches(fn, cell, filterValue) ==> |Folded(filterValue)| <= |Folded(cell)|
  {
    var s, f := Folded(cell), Folded(filterValue);
    match fn
    case StartsWith => Strings.StartsWith(s, f)
    case EndsWith => Strings.EndsWith(s, f)
    case Contains => Includes(s, f)
    case Equals => s == f
    case Fuzzy => Includes(s, f)
  }

  /** `contains` and `fuzzy` are the same predicate, and a prefix or a suffix
      match is also a `contains` match. */
  lemma ContainsIsFuzzy(cell: Scalar, filterValue: Scalar)
    ensures Matches(Contains, cell, filterValue) == Matches(Fuzzy, cell, filterValue)
    ensures Matches(StartsWith, cell, filterValue) ==> Matches(Contains, cell, filterValue)
    ensures Matches(EndsWith, cell, filterValue) ==> Matches(Contains, cell, filterValue)
  {
    PrefixAndSuffixAreOccurrences(Folded(cell), Folded(filterValue));
  }

  /** A cell that `equals` the filter also passes every other predicate. */
  lemma EqualsImpliesOthers(fn: FilterFn, cell: Scalar, filterValue: Scalar)
    requires Matches(Equals, cell, filterValue)
    ensures Matches(fn, cell, filterValue)
  {
    var s := Folded(cell);
    assert s[..|s|] == s && s[|s| - |s|..] == s;
    assert OccursAt(s, s, 0);
  }

  /** The empty filter string lets every row through under every predicate
      except `equals`, which then only admits cells whose string is empty. */
  lemma EmptyFilterMatchesAll(fn: FilterFn, cell: Scalar)
    ensures fn != Equals ==> Matches(fn, cell, Str(""))
    ensures Matches(Equals, cell, Str("")) <==> ToStr(cell) == ""
  {
    assert Folded(Str("")) == "";
    assert OccursAt(Folded(cell), "", 0);
  }

  /** Changing the letter case of the cell text or of the filter text never
      changes any predicate's result. */
  lemma CaseInsensitive(fn: FilterFn, cell: string, filter: string)
    ensures Matches(fn, Str(Upper(cell)), Str(filter)) == Matches(fn, Str(cell), Str(filter))
    ensures Matches(fn, Str(Lower(cell)), Str(filter)) == Matches(fn, Str(cell), Str(filter))
    ensures Matches(fn, Str(cell), Str(Upper(filter))) == Matches(fn, Str(cell), Str(filter))
    ensures Matches(fn, Str(cell), Str(Lower(filter))) == Matches(fn, Str(cell), Str(filter))
  {
    LowerOfCaseChange(cell);
    LowerOfCaseChange(filter);
  }

  // ---------------------------------------------------------------------
  // columnsWithFilterOptions
  // ---------------------------------------------------------------------

  /** `{ ...column, filterFn: 'fuzzy', enableColumnFilter: true }`. */
  function PrepareColumn(column: Column): (r: Column)
    ensures r.Keys == column.Keys + {"filterFn", "enableColumnFilter"}
    ensures r["filterFn"] == Str("fuzzy") && r["enableColumnFilter"] == Bool(true)
    ensures forall k :: k in column && k != "filterFn" && k != "enableColumnFilter" ==> r[k] == column[k]
  {
    column + map["filterFn" := Str("fuzzy"), "enableColumnFilter" := Bool(true)]
  }

  /** `columns.map(...)`: same length and order, each column prepared. */
  function ColumnsWithFilterOptions(columns: seq<Column>): (r: seq<Column>)
    ensures |r| == |columns|
    ensures forall i :: 0 <= i < |columns| ==> r[i] == PrepareColumn(columns[i])
  {
    seq(|columns|, i requires 0 <= i < |columns| => PrepareColumn(columns[i]))
  }

  /** The predicate a column's `filterFn` names, if it names one of the five. */
  function NamedFilterFn(column: Column): Option<FilterFn> {
    match Get(column, "filterFn")
    case Str(name) =>
      if name == "startsWith" then Some(StartsWith)
      else if name == "endsWith" then Some(EndsWith)
      else if name == "contains" then Some(Contains)
      else if name == "equals" then Some(Equals)
      else if name == "fuzzy" then Some(Fuzzy)
      else None
    case _ => None
  }

  /** After preparation every column filters with the case-insensitive
      substring test, whatever it asked for, and a prepared column would pass
      the filter panel's test exactly when it has an accessor key. */
  lemma PreparedColumnsUseFuzzy(columns: seq<Column>, i: nat)
    requires i < |columns|
    ensures var c := ColumnsWithFilterOptions(columns)[i];
      && NamedFilterFn(c) == Some(Fuzzy)
      && (FilterPanel.IsFilterable(c) <==> Truthy(Get(columns[i], "accessorKey")))
      && AccessorKey(c) == AccessorKey(columns[i])
  {
  }

  /** The filter panel is handed the caller's columns, not the prepared ones
      (src/components/FilterableDataTable.tsx), so a column that opts out with
      `enableColumnFilter: false` gets no panel control even though its
      prepared copy would pass the panel's test. */
  lemma PanelReadsUnpreparedColumns(column: Column)
    requires Get(column, "enableColumnFilter") == Bool(false) && Truthy(Get(column, "accessorKey"))
    ensures !FilterPanel.IsFilterable(column)
    ensures FilterPanel.IsFilterable(PrepareColumn(column))
    ensures FilterPanel.FilterableColumns([column]) == []
  {
    assert FilterPanel.FilterableColumns([column]) == [] by {
      Seqs.FilterAppend([], [column], FilterPanel.IsFilterable);
      assert [] + [column] == [column];
      assert [column][1..] == [];
    }
  }

  // ---------------------------------------------------------------------
  // The range slider's filter value
  // ---------------------------------------------------------------------

  /** A column filter value: the text or select control's single value, or
      the range slider's `[min, max]` array. */
  datatype FilterValue = Single(value: Scalar) | Pair(lo: Scalar, hi: Scalar)

  /** An array element as `Array.prototype.join` renders it: `null` and
      `undefined` become the empty string. */
  function JoinElement(v: Scalar): (s: string)
    ensures (v.Null? || v.Undefined?) ==> s == ""
    ensures !(v.Null? || v.Undefined?) ==> s == ToStr(v)
  {
    if v.Null? || v.Undefined? then "" else ToStr(v)
  }

  /** `String(filterValue)`; an array is joined with commas. */
  function FilterText(f: FilterValue): (s: string)
    ensures f.Single? ==> s == ToStr(f.value)
    ensures f.Pair? ==> |s| > |JoinElement(f.lo)| && s[|JoinElement(f.lo)|] == ','
  {
    match f
    case Single(v) => ToStr(v)
    case Pair(lo, hi) => JoinElement(lo) + "," + JoinElement(hi)
  }

  /** The registered predicates as written, for either kind of filter value:
      the case-insensitive string test against `String(filterValue)`. */
  predicate MatchesAsWritten(fn: FilterFn, cell: Scalar, f: FilterValue)
    ensures f.Single? ==> (MatchesAsWritten(fn, cell, f) <==> Matches(fn, cell, f.value))
  {
    var s, text := Folded(cell), Lower(FilterText(f));
    match fn
    case StartsWith => Strings.StartsWith(s, text)
    case EndsWith => Strings.EndsWith(s, text)
    case Contains => Includes(s, text)
    case Equals => s == text
    case Fuzzy => Includes(s, text)
  }

  /** The text of a number never holds a comma. */
  lemma NumeralHasNoComma(n: int)
    ensures forall i :: 0 <= i < |Folded(Num(n))| ==> Folded(Num(n))[i] != ','
  {
    var s := ToStr(Num(n));
    assert forall i :: 0 <= i < |s| ==> s[i] != ',';
  }

  /** Every prepared column filters with `fuzzy`, so once the range slider
      has set `[min, max]`, the text `"min,max"` is searched for in the cell;
      a numeric cell never contains a comma, so no numeric row passes, under
      any of the five predicates, whatever the bounds. */
  lemma RangeSliderHidesNumbers(fn: FilterFn, n: int, lo: Scalar, hi: Scalar)
    ensures !MatchesAsWritten(fn, Num(n), Pair(lo, hi))
  {
    var s, text := Folded(Num(n)), Lower(FilterText(Pair(lo, hi)));
    var k := |JoinElement(lo)|;
    assert text[k] == ',';
    NumeralHasNoComma(n);
    PrefixAndSuffixAreOccurrences(s, text);
  }

  /** The age column's slider at `[0, 100]` hides an age of 30. */
  lemma RangeSliderExample()
    ensures !MatchesAsWritten(Fuzzy, Num(30), Pair(Num(0), Num(100)))
  {
    RangeSliderHidesNumbers(Fuzzy, 30, Num(0), Num(100));
  }

  /** A bound of the range, when it is a number. */
  function Bound(v: Scalar): (b: Option<int>)
    ensures b.Some? <==> v.Num?
    ensures b.Some? ==> b.value == v.n
  {
    if v.Num? then Some(v.n) else None
  }

  /** The evidently intended test: a range keeps the numeric cells between
      its bounds (a bound that is not a number does not bound), and a single
      value is matched as before. */
  predicate MatchesIntended(fn: FilterFn, cell: Scalar, f: FilterValue) {
    match f
    case Single(v) => Matches(fn, cell, v)
    case Pair(lo, hi) =>
      cell.Num? &&
      (Bound(lo).None? || Bound(lo).value <= cell.n) &&
      (Bound(hi).None? || cell.n <= Bound(hi).value)
  }

  /** With the intended test, a numeric cell passes a numeric range exactly
      when it lies inside it, the untouched slider `[min, max]` over the
      column's own extremes keeps every numeric row, and single values behave
      exactly as written. */
  lemma IntendedRangeKeepsInside(fn: FilterFn, n: int, lo: int, hi: int, v: Scalar)
    ensures MatchesIntended(fn, Num(n), Pair(Num(lo), Num(hi))) <==> lo <= n <= hi
    ensures lo <= n <= hi ==> MatchesIntended(fn, Num(n), Pair(Num(lo), Num(hi)))
    ensures MatchesIntended(fn, Num(n), Pair(Null, Undefined))
    ensures MatchesIntended(fn, Num(n), Single(v)) == MatchesAsWritten(fn, Num(n), Single(v))
  {
  }
}
