/** Scalar values as PHP hands them to the progress manager, and PHP's
    notion of an "empty" (falsy) value, which the manager uses for every
    setting it tests with `!empty(...)`, `?:` or a bare `if`. */
module PhpValues {

  datatype Option<+T> = None | Some(value: T)

  /** A scalar stored in a settings array or an item property. */
  datatype Value = Null | Bool(b: bool) | Int(i: int) | Str(s: string)

  /** PHP's conversion to boolean: null, false, 0, "" and "0" are falsy. */
  predicate Truthy(v: Value) {
    match v
    case Null => false
    case Bool(b) => b
    case Int(i) => i != 0
    case Str(s) => s != "" && s != "0"
  }

  /** The string PHP's `(string)` cast gives a boolean: "1" or "". */
  function BoolString(b: bool): (r: string)
    ensures r == "" <==> !b
  {
    if b then "1" else ""
  }
}
