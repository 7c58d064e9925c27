/** Decoded JSON values as `response.json()` gives them to the parsers, with
    the Python operations the parsers apply to them: truthiness, `dict.get`
    and `str()`. */
module Json {
  import opened Py
  import opened Numbers

  /** `None`, `bool`, `int`/`float`, `str`, `list` or `dict`. */
  datatype JsonValue =
    | JNull
    | JBool(b: bool)
    | JNum(n: Number)
    | JStr(s: string)
    | JArr(items: seq<JsonValue>)
    | JObj(fields: map<string, JsonValue>)

  /** `bool(v)`. */
  predicate Truthy(v: JsonValue) {
    match v
    case JNull => false
    case JBool(b) => b
    case JNum(n) => Value(n) != 0.0
    case JStr(s) => s != []
    case JArr(a) => a != []
    case JObj(m) => m != map[]
  }

  /** The value stored under `key`, if any. */
  function Lookup(m: map<string, JsonValue>, key: string): (r: Option<JsonValue>)
    ensures r.Some? <==> key in m
    ensures r.Some? ==> r.value == m[key]
  {
    if key in m then Some(m[key]) else None
  }

  /** `d.get(key)`: `None` when the key is missing. */
  function Get(m: map<string, JsonValue>, key: string): JsonValue {
    GetOr(m, key, JNull)
  }

  /** `d.get(key, default)`. */
  function GetOr(m: map<string, JsonValue>, key: string, default: JsonValue): (r: JsonValue)
    ensures key in m ==> r == m[key]
    ensures key !in m ==> r == default
  {
    match Lookup(m, key)
    case Some(v) => v
    case None => default
  }

  /** `str(v)` for a scalar; lists and dicts are not rendered by the model. */
  function PyStr(v: JsonValue): (r: Outcome<string>)
    ensures r.Raised? <==> v.JArr? || v.JObj?
    ensures v.JStr? ==> r == Ok(v.s)
    ensures v.JNum? ==> r.Ok? && |r.value| >= 1 && IsNumericText(r.value)
    ensures v.JNum? ==> ParseDecimal(r.value) == Some(Value(v.n))
  {
    match v
    case JNull => Ok("None")
    case JBool(b) => Ok(if b then "True" else "False")
    case JNum(n) => RenderRoundTrip(n); Ok(Render(n))
    case JStr(s) => Ok(s)
    case JArr(_) => Raised
    case JObj(_) => Raised
  }
}
