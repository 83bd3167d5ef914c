/** Values produced by the JSON decoder, and the dynamic-typing helpers
    (`dict.get`, truthiness, `int(x or 0)`, `float(x or 0)`) the parser applies to them. */
module JsonValue {

  datatype Option<+T> = None | Some(value: T)

  /** A decoded JSON document. Objects are maps: key order is not modelled. */
  datatype Json =
    | JNull
    | JBool(b: bool)
    | JNum(n: real)
    | JStr(s: string)
    | JArr(items: seq<Json>)
    | JObj(fields: map<string, Json>)

  /** The decoder the parser calls (`json.loads`): `None` stands for a decode error. */
  type Decoder = string -> Option<Json>

  /** `obj.get(key, default)`; a document that is not an object has no keys. */
  function GetOr(j: Json, key: string, default: Json): Json
  {
    if j.JObj? && key in j.fields then j.fields[key] else default
  }

  /** `obj.get(key)`, whose default is Python's `None`. */
  function Get(j: Json, key: string): Json
  {
    GetOr(j, key, JNull)
  }

  /** Python truthiness of a decoded value. */
  predicate Truthy(j: Json)
  {
    match j
    case JNull => false
    case JBool(b) => b
    case JNum(n) => n != 0.0
    case JStr(s) => |s| > 0
    case JArr(items) => |items| > 0
    case JObj(fields) => |fields| > 0
  }

  /** `int(r)` on a float: truncation toward zero. */
  function TruncateReal(r: real): (i: int)
    ensures r >= 0.0 ==> i as real <= r < i as real + 1.0
    ensures r < 0.0 ==> i as real - 1.0 < r <= i as real
  {
    if r >= 0.0 then r.Floor else -((-r).Floor)
  }

  /** `int(x or 0)` for the numeric JSON values; other values give 0 (see README). */
  function CoerceInt(j: Json): int
  {
    match j
    case JNum(n) => TruncateReal(n)
    case JBool(b) => if b then 1 else 0
    case _ => 0
  }

  /** `float(x or 0)` for the numeric JSON values; other values give 0 (see README). */
  function CoerceReal(j: Json): real
  {
    match j
    case JNum(n) => n
    case JBool(b) => if b then 1.0 else 0.0
    case _ => 0.0
  }
}
