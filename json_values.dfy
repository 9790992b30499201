/**
 * The values `json.loads` produces, and the Python operations the billing
 * scripts apply to them: truthiness, `dict.get` and `str(v).strip()`.
 */
module JsonValues {
  import opened Wrappers
  import opened Strings

  /** A decoded JSON value; numbers are integers in this model. */
  datatype Json =
    | JNull
    | JBool(b: bool)
    | JNum(n: int)
    | JStr(s: string)
    | JArr(items: seq<Json>)
    | JObj(fields: map<string, Json>)

  /** Python truthiness: `None`, `False`, `0`, `""`, `[]` and `{}` are false. */
  predicate Truthy(v: Json)
  {
    match v
    case JNull => false
    case JBool(b) => b
    case JNum(n) => n != 0
    case JStr(s) => s != []
    case JArr(items) => items != []
    case JObj(fields) => fields != map[]
  }

  /** `d.get(key, default)` on a dict. */
  function GetOr(d: map<string, Json>, key: string, default: Json): (r: Json)
    ensures key in d ==> r == d[key]
    ensures key !in d ==> r == default
  {
    if key in d then d[key] else default
  }

  /** `d.get(key)`: `None` when the key is absent. */
  function Get(d: map<string, Json>, key: string): (r: Json)
    ensures key in d ==> r == d[key]
    ensures key !in d ==> r == JNull
  {
    GetOr(d, key, JNull)
  }

  /** `a or b` on two values. */
  function Or(a: Json, b: Json): (r: Json)
    ensures Truthy(a) ==> r == a
    ensures !Truthy(a) ==> r == b
  {
    if Truthy(a) then a else b
  }

  /**
   * `not str(v).strip()`: only a string of whitespace prints as blank; every
   * other value (`None`, numbers, booleans, lists, dicts) prints as non-blank text.
   */
  predicate PrintsBlank(v: Json)
  {
    v.JStr? && Strip(v.s) == []
  }

}
