/** The values a record holds once it is written out as JSON. */
module JsonValue {
  import opened Wrappers
  import opened PyDict

  /** `None`, a string, a boolean or a list of strings. */
  datatype Value = Null | Str(s: string) | Bool(b: bool) | List(items: seq<string>)

  /** A record: the dict passed to `json.dump`, keys in insertion order. */
  type Record = Dict<Value>

  /** A text that may be missing, as it is stored: `None` or the string. */
  function OptStr(o: Option<string>): Value {
    match o
    case None => Null
    case Some(s) => Str(s)
  }
}
