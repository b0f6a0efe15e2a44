/** The shapes of data that flow through the table: a row or a column
    definition is a record from property name to a scalar value. */
module Types {
  import opened Wrappers
  import opened Strings

  /** A value as the CSV and spreadsheet parsers deliver it, or as a column
      option holds it. Numbers are integers in this model. */
  datatype Scalar = Str(s: string) | Num(n: int) | Bool(b: bool) | Null | Undefined

  /** A JavaScript object with scalar properties. A key that is absent reads
      as `undefined`; a key that is present may still hold `undefined`. */
  type Record = map<string, Scalar>

  /** One record of the dataset (`TableData`). */
  type Row = Record

  /** A column definition (`TableColumn`): `accessorKey`, `header` and
      options such as `filterVariant`, `enableColumnFilter`, `filterFn`. */
  type Column = Record

  /** Property access `r[key]`. */
  function Get(r: Record, key: string): Scalar {
    if key in r then r[key] else Undefined
  }

  /** JavaScript truthiness of a scalar. */
  predicate Truthy(v: Scalar) {
    match v
    case Str(s) => s != ""
    case Num(n) => n != 0
    case Bool(b) => b
    case Null => false
    case Undefined => false
  }

  /** `String(v)`. */
  function ToStr(v: Scalar): (s: string)
    ensures v.Str? ==> s == v.s
    ensures Truthy(v) ==> s != ""
  {
    match v
    case Str(s) => s
    case Num(n) => if n < 0 then "-" + Decimal(-n) else Decimal(n)
    case Bool(b) => if b then "true" else "false"
    case Null => "null"
    case Undefined => "undefined"
  }

  /** The column's `accessorKey` when it is truthy, as the property name it
      is used as. */
  function AccessorKey(c: Column): (k: Option<string>)
    ensures k.Some? <==> Truthy(Get(c, "accessorKey"))
    ensures k.Some? ==> k.value != ""
  {
    var v := Get(c, "accessorKey");
    if Truthy(v) then Some(ToStr(v)) else None
  }
}
