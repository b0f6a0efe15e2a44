/** Row normalisation and column derivation (src/utils/tableUtils.ts). */
module TableUtils {
  import opened Wrappers
  import opened Strings
  import opened Types
  import Seqs

  /** `createColumn(accessorKey, header, options)`: the two given properties,
      then every option copied over them, so an option of the same name wins. */
  function CreateColumn(accessorKey: string, header: string, options: Column): (c: Column)
    ensures c.Keys == options.Keys + {"accessorKey", "header"}
    ensures forall k :: k in options ==> c[k] == options[k]
    ensures "accessorKey" !in options ==> c["accessorKey"] == Str(accessorKey)
    ensures "header" !in options ==> c["header"] == Str(header)
  {
    map["accessorKey" := Str(accessorKey), "header" := Str(header)] + options
  }

  // ---------------------------------------------------------------------
  // Labels: key.charAt(0).toUpperCase() + key.slice(1).replace(/([A-Z])/g, ' $1')
  // ---------------------------------------------------------------------

  function CountCapitals(s: string): nat
    decreases |s|
  {
    if s == [] then 0 else (if IsUpperAscii(s[0]) then 1 else 0) + CountCapitals(s[1..])
  }

  /** The regular-expression replacement: one space before every `A`-`Z`. */
  function SpaceBeforeCapitals(s: string): (r: string)
    ensures |r| == |s| + CountCapitals(s)
    ensures r == [] || !IsUpperAscii(r[0])
    decreases |s|
  {
    if s == [] then []
    else (if IsUpperAscii(s[0]) then [' ', s[0]] else [s[0]]) + SpaceBeforeCapitals(s[1..])
  }

  /** Drops every space that stands right before an `A`-`Z`: the inverse of
      `SpaceBeforeCapitals`. */
  function RemoveSpaceBeforeCapitals(t: string): string
    decreases |t|
  {
    if t == [] then []
    else if t[0] == ' ' && |t| >= 2 && IsUpperAscii(t[1]) then RemoveSpaceBeforeCapitals(t[1..])
    else [t[0]] + RemoveSpaceBeforeCapitals(t[1..])
  }

  /** Inserting the spaces changes no character of the key and can be undone
      exactly: every inserted space is recognisable as one. */
  lemma {:induction false} SpacesRoundTrip(s: string)
    ensures RemoveSpaceBeforeCapitals(SpaceBeforeCapitals(s)) == s
    decreases |s|
  {
    if s != [] {
      var rest := SpaceBeforeCapitals(s[1..]);
      SpacesRoundTrip(s[1..]);
      if IsUpperAscii(s[0]) {
        var t := [' ', s[0]] + rest;
        assert t[1..] == [s[0]] + rest;
        assert ([s[0]] + rest)[1..] == rest;
      } else {
        var t := [s[0]] + rest;
        assert t[1..] == rest;
      }
    }
  }

  /** The human-readable label of a column key, e.g. `firstName` becomes
      `First Name`. */
  function Label(key: string): (r: string)
    ensures key == [] ==> r == []
    ensures key != [] ==> |r| == |key| + CountCapitals(key[1..])
    ensures key != [] ==> r[0] == UpperChar(key[0])
    ensures key != [] ==> RemoveSpaceBeforeCapitals(r[1..]) == key[1..]
  {
    if key == [] then []
    else
      SpacesRoundTrip(key[1..]);
      var r := [UpperChar(key[0])] + SpaceBeforeCapitals(key[1..]);
      assert r[1..] == SpaceBeforeCapitals(key[1..]);
      r
  }

  /** One step of the replacement, for working out concrete labels. */
  lemma SpaceBeforeCapitalsCons(c: char, s: string)
    ensures SpaceBeforeCapitals([c] + s) ==
      (if IsUpperAscii(c) then [' ', c] else [c]) + SpaceBeforeCapitals(s)
  {
    assert ([c] + s)[1..] == s;
  }

  // The tails of `firstName` and `last_name`, spaced one character at a
  // time from the end, to keep each step small for the solver.

  lemma SpacingKeepsAme()
    ensures SpaceBeforeCapitals("ame") == "ame"
  {
    SpaceBeforeCapitalsCons('e', "");
    assert SpaceBeforeCapitals("e") == "e" by { assert "e" == ['e'] + ""; }
    SpaceBeforeCapitalsCons('m', "e");
    assert SpaceBeforeCapitals("me") == "me" by { assert "me" == ['m'] + "e"; }
    SpaceBeforeCapitalsCons('a', "me");
    assert SpaceBeforeCapitals("ame") == "ame" by { assert "ame" == ['a'] + "me"; }
  }

  lemma SpacingSplitsTName()
    ensures SpaceBeforeCapitals("tName") == "t Name"
  {
    SpacingKeepsAme();
    SpaceBeforeCapitalsCons('N', "ame");
    assert SpaceBeforeCapitals("Name") == " Name" by { assert "Name" == ['N'] + "ame"; }
    SpaceBeforeCapitalsCons('t', "Name");
    assert SpaceBeforeCapitals("tName") == "t Name" by { assert "tName" == ['t'] + "Name"; }
  }

  lemma SpacingSplitsFirstNameTail()
    ensures SpaceBeforeCapitals("irstName") == "irst Name"
  {
    SpacingSplitsTName();
    SpaceBeforeCapitalsCons('s', "tName");
    assert SpaceBeforeCapitals("stName") == "st Name" by { assert "stName" == ['s'] + "tName"; }
    SpaceBeforeCapitalsCons('r', "stName");
    assert SpaceBeforeCapitals("rstName") == "rst Name" by { assert "rstName" == ['r'] + "stName"; }
    SpaceBeforeCapitalsCons('i', "rstName");
    assert SpaceBeforeCapitals("irstName") == "irst Name" by { assert "irstName" == ['i'] + "rstName"; }
  }

  lemma SpacingKeepsTUnderscoreName()
    ensures SpaceBeforeCapitals("t_name") == "t_name"
  {
    SpacingKeepsAme();
    SpaceBeforeCapitalsCons('n', "ame");
    assert SpaceBeforeCapitals("name") == "name" by { assert "name" == ['n'] + "ame"; }
    SpaceBeforeCapitalsCons('_', "name");
    assert SpaceBeforeCapitals("_name") == "_name" by { assert "_name" == ['_'] + "name"; }
    SpaceBeforeCapitalsCons('t', "_name");
    assert SpaceBeforeCapitals("t_name") == "t_name" by { assert "t_name" == ['t'] + "_name"; }
  }

  lemma SpacingKeepsLastNameTail()
    ensures SpaceBeforeCapitals("ast_name") == "ast_name"
  {
    SpacingKeepsTUnderscoreName();
    SpaceBeforeCapitalsCons('s', "t_name");
    assert SpaceBeforeCapitals("st_name") == "st_name" by { assert "st_name" == ['s'] + "t_name"; }
    SpaceBeforeCapitalsCons('a', "st_name");
    assert SpaceBeforeCapitals("ast_name") == "ast_name" by { assert "ast_name" == ['a'] + "st_name"; }
  }

  lemma LabelOfFirstName()
    ensures Label("firstName") == "First Name"
  {
    SpacingSplitsFirstNameTail();
    assert "firstName"[1..] == "irstName";
  }

  lemma LabelOfLastName()
    ensures Label("last_name") == "Last_name"
  {
    SpacingKeepsLastNameTail();
    assert "last_name"[1..] == "ast_name";
  }

  /** Two concrete labels: a camelCase key is split at its capital, a
      snake_case key is not split at all. */
  lemma LabelExamples()
    ensures Label("firstName") == "First Name"
    ensures Label("last_name") == "Last_name"
  {
    LabelOfFirstName();
    LabelOfLastName();
  }

  // ---------------------------------------------------------------------
  // convertToTableData
  // ---------------------------------------------------------------------

  /** The identity a row receives before its own properties are spread:
      `idField ? item[idField] : index + 1`. */
  function AssignedId(item: Row, index: nat, idField: Option<string>): (id: Scalar)
    // without a (non-empty) id field: the 1-based position, which is truthy
    ensures (idField.None? || idField.value == "") ==> id == Num(index + 1) && Truthy(id)
    // with one: the item's value of it, `undefined` when the item lacks it
    ensures idField.Some? && idField.value != "" ==>
      id == (if idField.value in item then item[idField.value] else Undefined)
  {
    if idField.Some? && idField.value != "" then Get(item, idField.value) else Num(index + 1)
  }

  /** `{ id, ...item }`: the item's own properties win, including its own `id`. */
  function NormalizeRow(item: Row, index: nat, idField: Option<string>): (r: Row)
    ensures r.Keys == item.Keys + {"id"}
    ensures forall k :: k in item ==> r[k] == item[k]
    ensures "id" !in item ==> r["id"] == AssignedId(item, index, idField)
  {
    map["id" := AssignedId(item, index, idField)] + item
  }

  /** `convertToTableData(data, idField)`. */
  function ConvertToTableData(data: seq<Row>, idField: Option<string>): (rows: seq<Row>)
    ensures |rows| == |data|
    ensures forall i :: 0 <= i < |data| ==> rows[i] == NormalizeRow(data[i], i, idField)
  {
    seq(|data|, i requires 0 <= i < |data| => NormalizeRow(data[i], i, idField))
  }

  /** Without an id field, the item at index i gets id i + 1 unless it carries
      its own `id`, which it keeps; every row has an `id`. */
  lemma PositionalIds(data: seq<Row>)
    ensures var rows := ConvertToTableData(data, None);
      forall i :: 0 <= i < |data| ==>
        "id" in rows[i] &&
        rows[i]["id"] == (if "id" in data[i] then data[i]["id"] else Num(i + 1))
  {
  }

  /** When no item carries an `id` and no id field is given, the ids are
      pairwise distinct. */
  lemma PositionalIdsAreUnique(data: seq<Row>)
    requires forall i :: 0 <= i < |data| ==> "id" !in data[i]
    ensures var rows := ConvertToTableData(data, None);
      forall i, j :: 0 <= i < j < |rows| ==> rows[i]["id"] != rows[j]["id"]
  {
  }

  // ---------------------------------------------------------------------
  // extractColumnsInOrder / extractColumns
  // ---------------------------------------------------------------------

  /** `fields.filter(field => !exclude.includes(field))`. */
  function KeptFields(fields: seq<string>, exclude: seq<string>): (kept: seq<string>)
    ensures forall f :: f in kept <==> f in fields && f !in exclude
  {
    Seqs.Filter(fields, f => f !in exclude)
  }

  /** The column `createColumn(key, <label of key>)`. */
  function DefaultColumn(key: string): (c: Column)
    ensures c == map["accessorKey" := Str(key), "header" := Str(Label(key))]
  {
    CreateColumn(key, Label(key), map[])
  }

  /** The `accessorKey` of each column, in column order. */
  function ColumnKeys(columns: seq<Column>): (keys: seq<Scalar>)
    ensures |keys| == |columns|
    ensures forall i :: 0 <= i < |columns| ==> keys[i] == Get(columns[i], "accessorKey")
  {
    seq(|columns|, i requires 0 <= i < |columns| => Get(columns[i], "accessorKey"))
  }

  /** `extractColumnsInOrder(data, fields, exclude)`: nothing for empty data,
      otherwise one default column per field not excluded, in field order,
      duplicates kept and nothing checked against the rows' keys. */
  function ExtractColumnsInOrder(data: seq<Row>, fields: seq<string>, exclude: seq<string>): (columns: seq<Column>)
    ensures data == [] ==> columns == []
    ensures data != [] ==> |columns| == |KeptFields(fields, exclude)|
    ensures data != [] ==> forall i :: 0 <= i < |columns| ==>
      columns[i] == DefaultColumn(KeptFields(fields, exclude)[i])
  {
    if data == [] then []
    else
      var kept := KeptFields(fields, exclude);
      seq(|kept|, i requires 0 <= i < |kept| => DefaultColumn(kept[i]))
  }

  /** For non-empty data, a key names a column exactly when it is one of the
      fields and not excluded; excluded keys never appear. */
  lemma ColumnsFollowFields(data: seq<Row>, fields: seq<string>, exclude: seq<string>, key: string)
    requires data != []
    ensures var keys := ColumnKeys(ExtractColumnsInOrder(data, fields, exclude));
      Str(key) in keys <==> key in fields && key !in exclude
  {
    var columns := ExtractColumnsInOrder(data, fields, exclude);
    var kept := KeptFields(fields, exclude);
    var keys := ColumnKeys(columns);
    if key in fields && key !in exclude {
      var i :| 0 <= i < |kept| && kept[i] == key;
      assert keys[i] == Str(key);
    }
    if Str(key) in keys {
      var i :| 0 <= i < |keys| && keys[i] == Str(key);
      assert kept[i] == key;
    }
  }

  /** Object.keys(row) lists the row's keys, each once; the enumeration order
      itself is the JavaScript engine's and is an input here. */
  ghost predicate EnumeratesKeys(objectKeys: seq<string>, row: Row) {
    Seqs.NoDuplicates(objectKeys) && forall k :: k in objectKeys <==> k in row
  }

  /** `extractColumns(data, exclude)`, where `objectKeys` is `Object.keys(data[0])`:
      the first row's keys minus the excluded ones, once each. */
  function ExtractColumns(data: seq<Row>, objectKeys: seq<string>, exclude: seq<string>): (columns: seq<Column>)
    requires data != [] ==> EnumeratesKeys(objectKeys, data[0])
    ensures data == [] ==> columns == []
    ensures data != [] ==> forall k :: Str(k) in ColumnKeys(columns) <==> k in data[0] && k !in exclude
    ensures Seqs.NoDuplicates(ColumnKeys(columns))
    // each column is the labelled default column of a kept key, in `Object.keys` order
    ensures data != [] ==> |columns| == |KeptFields(objectKeys, exclude)|
    ensures data != [] ==> forall i :: 0 <= i < |columns| ==>
      columns[i] == DefaultColumn(KeptFields(objectKeys, exclude)[i])
    // so it is `extractColumnsInOrder` with the first row's own key order
    ensures columns == ExtractColumnsInOrder(data, objectKeys, exclude)
  {
    if data == [] then []
    else
      var columns := ExtractColumnsInOrder(data, objectKeys, exclude);
      var kept := KeptFields(objectKeys, exclude);
      forall k ensures Str(k) in ColumnKeys(columns) <==> k in data[0] && k !in exclude {
        ColumnsFollowFields(data, objectKeys, exclude, k);
      }
      Seqs.FilterNoDuplicates(objectKeys, f => f !in exclude);
      assert forall i, j :: 0 <= i < j < |columns| ==> ColumnKeys(columns)[i] != ColumnKeys(columns)[j] by {
        forall i, j | 0 <= i < j < |columns| ensures ColumnKeys(columns)[i] != ColumnKeys(columns)[j] {
          assert ColumnKeys(columns)[i] == Str(kept[i]) && ColumnKeys(columns)[j] == Str(kept[j]);
        }
      }
      columns
  }
}
