/** The JavaScript values that spreadsheet rows and request fields carry, and the
    truthiness rules the source's `if (!x)` and `a || b` tests rely on. */
module JsValues {

  /** A cell or field value: absent, `null`, a string, or an integral number. */
  datatype Value = Undefined | Null | Str(s: string) | Num(n: int)

  /** JavaScript truthiness: `undefined`, `null`, `""` and `0` are falsy. */
  predicate Truthy(v: Value) {
    match v
    case Undefined => false
    case Null => false
    case Str(s) => s != ""
    case Num(n) => n != 0
  }

  /** `a || b`: the first operand when it is truthy, otherwise the second. */
  function Or(a: Value, b: Value): (r: Value)
    ensures Truthy(a) ==> r == a
    ensures !Truthy(a) ==> r == b
    ensures Truthy(r) <==> Truthy(a) || Truthy(b)
    ensures r == a || r == b
  {
    if Truthy(a) then a else b
  }

  /** A spreadsheet row as `sheet_to_json` delivers it: column header to cell. */
  type Row = map<string, Value>

  /** `row[key]`, which is `undefined` for a column the row has no cell in. */
  function Get(row: Row, key: string): (v: Value)
    ensures key !in row ==> v == Undefined
  {
    if key in row then row[key] else Undefined
  }
}
