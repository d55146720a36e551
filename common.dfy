/** Shared wrappers: optional values, results with an error, and the Python
    values (str, None, anything else) that dictionaries in the server hold. */
module Common {

  datatype Option<+T> = None | Some(value: T)

  datatype Result<+T, +E> = Success(value: T) | Failure(error: E)

  /** A value read out of a parsed JSON object or a database row, as Python
      sees it: a string, None, or some other value known only by its str(). */
  datatype Value = Str(s: string) | Null | Other(repr: string)

  /** A Python dict with string keys (a JSON object, a document row). */
  type Record = map<string, Value>

  /** dict.get(key, default) */
  function Get(r: Record, key: string, default: Value): Value
  {
    if key in r then r[key] else default
  }

  /** str(v), as an f-string renders a value */
  function PyStr(v: Value): string
  {
    match v
    case Str(t) => t
    case Null => "None"
    case Other(repr) => repr
  }
}
