/** Shared value types: optional values, results, and the JSON values that
    travel through request bodies and JSONB columns, together with Python's
    truthiness rules for them. */
module Common {

  datatype Option<+T> = None | Some(value: T)

  datatype Result<+T, +E> = Ok(value: T) | Err(error: E)

  /** A JSON value as produced by a JSON decoder or stored in a JSONB column.
      Objects are maps, so duplicate keys and key order are not represented. */
  datatype Json =
    | JNull
    | JBool(b: bool)
    | JNum(n: real)
    | JStr(s: string)
    | JArr(items: seq<Json>)
    | JObj(fields: map<string, Json>)

  /** Python's `bool(v)` for a decoded JSON value. */
  predicate Truthy(j: Json) {
    match j
    case JNull => false
    case JBool(b) => b
    case JNum(n) => n != 0.0
    case JStr(s) => s != ""
    case JArr(items) => items != []
    case JObj(fields) => fields != map[]
  }

  /** `d.get(key)` on a dict; a missing key reads as None (JNull). A non-object
      has no keys. */
  function Get(j: Json, key: string): Json
  {
    if j.JObj? && key in j.fields then j.fields[key] else JNull
  }

  /** Python's `a or b` on two JSON values. */
  function JOr(a: Json, b: Json): Json
  {
    if Truthy(a) then a else b
  }

  /** Python's `o or d` for an `Optional[str]`: None and "" are both falsy. */
  function OrElse(o: Option<string>, d: string): string
  {
    if o.Some? && o.value != "" then o.value else d
  }

  /** Python's `a or b` on two `Optional[str]` values. */
  function OrOpt(a: Option<string>, b: Option<string>): (r: Option<string>)
    ensures !IsEmpty(a) ==> r == a
    ensures IsEmpty(a) ==> r == b
  {
    if a.Some? && a.value != "" then a else b
  }

  /** Python's `not o` for an `Optional[str]`. */
  predicate IsEmpty(o: Option<string>) {
    o.None? || o.value == ""
  }

  /** An HTTP error raised by a route or a dependency. */
  datatype HttpError = HttpError(status: int, detail: string)
}
