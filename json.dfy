/** JSON values as both the Python backend and the JavaScript frontend see them. */
module Json {

  /** A JSON document. Objects are maps, so two objects with the same members are
      equal whatever their key order: this is exactly the equality that
      `json.dumps(x, sort_keys=True)` comparisons decide. Python `None` is `JNull`. */
  datatype Json =
    | JNull
    | JBool(b: bool)
    | JNum(n: int)
    | JStr(s: string)
    | JArr(items: seq<Json>)
    | JObj(fields: map<string, Json>)

  /** Values Python can use as a dict key (lists and dicts are unhashable). */
  predicate IsHashable(j: Json)
  {
    !j.JArr? && !j.JObj?
  }

  /** JavaScript truthiness of a parsed JSON value (`!!x`). */
  predicate Truthy(j: Json)
  {
    match j
    case JNull => false
    case JBool(b) => b
    case JNum(n) => n != 0
    case JStr(s) => s != ""
    case JArr(_) => true
    case JObj(_) => true
  }
}
