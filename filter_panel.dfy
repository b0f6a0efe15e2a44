/** The decision logic of the filter panel (src/components/FilterPanel.tsx):
    which columns get a filter, which kind of filter each gets, and the
    group-by selection list. Rendering is not modelled. */
module FilterPanel {
  import opened Wrappers
  import opened Types
  import Seqs

  const TextType := Str("text")
  const RangeType := Str("range")
  const SelectType := Str("select")

  // ---------------------------------------------------------------------
  // filterableColumns
  // ---------------------------------------------------------------------

  /** `column.enableColumnFilter !== false && column.accessorKey`. */
  predicate IsFilterable(c: Column)
    ensures IsFilterable(c) ==> AccessorKey(c).Some?
    // an explicit opt-out always wins, whatever the accessor key
    ensures Get(c, "enableColumnFilter") == Bool(false) ==> !IsFilterable(c)
  {
    Get(c, "enableColumnFilter") != Bool(false) && Truthy(Get(c, "accessorKey"))
  }

  /** The columns that get a filter control, in column order. */
  function FilterableColumns(columns: seq<Column>): (r: seq<Column>)
    ensures forall c :: c in r <==> c in columns && IsFilterable(c)
    ensures forall i :: 0 <= i < |r| ==> AccessorKey(r[i]).Some?
  {
    Seqs.Filter(columns, IsFilterable)
  }

  /** The selection is made one column at a time, so it keeps column order:
      appending a column appends it to the selection exactly when it is
      filterable. */
  lemma FilterableColumnsAppend(columns: seq<Column>, c: Column)
    ensures FilterableColumns(columns + [c]) ==
      FilterableColumns(columns) + (if IsFilterable(c) then [c] else [])
  {
    Seqs.FilterAppend(columns, [c], IsFilterable);
    assert [c][1..] == [];
  }

  // ---------------------------------------------------------------------
  // getFilterType
  // ---------------------------------------------------------------------

  /** `new Set(rows.map(row => row.getValue(key)))`. */
  function DistinctValues(rows: seq<Row>, key: string): set<Scalar> {
    set r | r in rows :: Get(r, key)
  }

  /** There are never more distinct values than rows. */
  lemma {:induction false} DistinctAtMostRows(rows: seq<Row>, key: string)
    ensures |DistinctValues(rows, key)| <= |rows|
    decreases |rows|
  {
    if rows != [] {
      var rest := rows[1..];
      DistinctAtMostRows(rest, key);
      assert DistinctValues(rows, key) == DistinctValues(rest, key) + {Get(rows[0], key)} by {
        assert forall r :: r in rows <==> r == rows[0] || r in rest;
      }
    }
  }

  /** `size <= 10 || size <= rowCount * 0.2`, the second test in integers. */
  predicate FewDistinct(distinct: nat, rowCount: nat) {
    distinct <= 10 || 5 * distinct <= rowCount
  }

  /** `getFilterType(column)`. `rows` is `Some` of the pre-pagination rows when
      a table instance exists and `None` when it does not. The result is the
      column's own truthy `filterVariant`, verbatim, or one of `'text'`,
      `'range'` and `'select'`. */
  function GetFilterType(rows: Option<seq<Row>>, column: Column): (t: Scalar)
    requires AccessorKey(column).Some?
    // no table instance: text
    ensures rows.None? ==> t == TextType
    // an explicit variant wins before any data is looked at
    ensures rows.Some? && Truthy(Get(column, "filterVariant")) ==> t == Get(column, "filterVariant")
    // otherwise the data decides, and only the three built-in kinds result
    ensures rows.Some? && !Truthy(Get(column, "filterVariant")) ==>
      && t in {TextType, RangeType, SelectType}
      && (rows.value == [] ==> t == TextType)
      && (rows.value != [] ==>
            var first := Get(rows.value[0], AccessorKey(column).value);
            && (t == RangeType <==> first.Num?)
            && (t == SelectType <==>
                  first.Str? &&
                  FewDistinct(|DistinctValues(rows.value, AccessorKey(column).value)|, |rows.value|)))
  {
    if rows.None? then TextType
    else if Truthy(Get(column, "filterVariant")) then Get(column, "filterVariant")
    else if rows.value == [] then TextType
    else
      var key := AccessorKey(column).value;
      var first := Get(rows.value[0], key);
      if first.Num? then RangeType
      else if first.Str? && FewDistinct(|DistinctValues(rows.value, key)|, |rows.value|) then SelectType
      else TextType
  }

  /** In a table of at most ten rows, a column whose first value is a string
      always gets the select filter, whatever its values are. */
  lemma SmallTablesAreCategorical(rows: seq<Row>, column: Column)
    requires AccessorKey(column).Some? && !Truthy(Get(column, "filterVariant"))
    requires 0 < |rows| <= 10 && Get(rows[0], AccessorKey(column).value).Str?
    ensures GetFilterType(Some(rows), column) == SelectType
  {
    DistinctAtMostRows(rows, AccessorKey(column).value);
  }

  /** A string column with more than ten distinct values and more than a
      fifth of the row count distinct gets the text filter. */
  lemma ManyDistinctStringsAreText(rows: seq<Row>, column: Column)
    requires AccessorKey(column).Some? && !Truthy(Get(column, "filterVariant"))
    requires rows != [] && Get(rows[0], AccessorKey(column).value).Str?
    requires var d := |DistinctValues(rows, AccessorKey(column).value)|; d > 10 && 5 * d > |rows|
    ensures GetFilterType(Some(rows), column) == TextType
  {
  }

  // ---------------------------------------------------------------------
  // getFilterComponent: the dispatch on the filter type
  // ---------------------------------------------------------------------

  /** The filter control chosen for a column, with the data it is given. */
  datatype FilterControl =
    | TextInput
    | SelectInput(options: seq<Scalar>)
    | RangeSlider(min: Scalar, max: Scalar)

  /** `x ?? fallback`. */
  function OrDefault(v: Scalar, fallback: Scalar): (r: Scalar)
    ensures (v.Null? || v.Undefined?) ==> r == fallback
    ensures !(v.Null? || v.Undefined?) ==> r == v
  {
    if v.Null? || v.Undefined? then fallback else v
  }

  /** `getFilterComponent(columnType, ...)`: `facetKeys` are the keys of the
      column's faceted unique values and `minMax` its faceted minimum and
      maximum (`undefined` when the table has none). */
  function FilterComponent(columnType: Scalar, facetKeys: seq<Scalar>, minMax: Option<(Scalar, Scalar)>): (c: FilterControl)
    ensures c.TextInput? <==> columnType != SelectType && columnType != RangeType
    ensures c.SelectInput? <==> columnType == SelectType
    ensures c.SelectInput? ==>
      && Seqs.NoDuplicates(c.options)
      && (forall v :: v in c.options <==> v in facetKeys && Truthy(v))
    ensures c.RangeSlider? && minMax.None? ==> c.min == Num(0) && c.max == Num(100)
    ensures c.RangeSlider? && minMax.Some? ==>
      c.min == OrDefault(minMax.value.0, Num(0)) && c.max == OrDefault(minMax.value.1, Num(100))
  {
    if columnType == TextType || !Truthy(columnType) then TextInput
    else if columnType == SelectType then
      var distinct := Seqs.Dedupe(facetKeys);
      Seqs.FilterNoDuplicates(distinct, Truthy);
      SelectInput(Seqs.Filter(distinct, Truthy))
    else if columnType == RangeType then
      var min := if minMax.Some? then OrDefault(minMax.value.0, Num(0)) else Num(0);
      var max := if minMax.Some? then OrDefault(minMax.value.1, Num(100)) else Num(100);
      RangeSlider(min, max)
    else TextInput
  }

  // ---------------------------------------------------------------------
  // Group-by selections (component state)
  // ---------------------------------------------------------------------

  /** `list.filter(item => item !== value)`. */
  function Without(list: seq<string>, value: string): (r: seq<string>)
    ensures value !in r
    ensures forall x :: x in r <==> x in list && x != value
  {
    Seqs.Filter(list, item => item != value)
  }

  /** Removing a value that was just added gives back the list from before. */
  lemma RemoveUndoesAdd(list: seq<string>, value: string)
    requires value !in list
    ensures Without(list + [value], value) == list
  {
    Seqs.FilterAppend(list, [value], item => item != value);
    Seqs.FilterAll(list, item => item != value);
    assert [value][1..] == [];
  }

  /** The `groupBySelections` state with its two handlers. */
  class GroupBy {
    var selections: seq<string>

    /** What the handlers keep true: no empty value and no value twice. */
    ghost predicate Valid()
      reads this
    {
      "" !in selections && Seqs.NoDuplicates(selections)
    }

    constructor ()
      ensures Valid() && selections == []
    {
      selections := [];
    }

    /** `handleAddGroupBy`: appends a non-empty value not yet selected,
        and ignores anything else. */
    method Add(value: string)
      requires Valid()
      modifies this
      ensures Valid()
      ensures selections ==
        if value != "" && value !in old(selections) then old(selections) + [value] else old(selections)
    {
      if value != "" && value !in selections {
        selections := selections + [value];
      }
    }

    /** `handleRemoveGroupBy`: deletes the value and keeps the others in their
        relative order. */
    method Remove(value: string)
      requires Valid()
      modifies this
      ensures Valid()
      ensures selections == Without(old(selections), value)
    {
      Seqs.FilterNoDuplicates(selections, item => item != value);
      selections := Without(selections, value);
    }
  }
}
