/** Parsed JSON values, shared by every module of the model. */
module Json {
  datatype Option<+T> = None | Some(value: T)

  /** A JSON value. A number keeps its canonical literal, so that `1` and `1.0` stay different
      values, as they are in canonical JSON text. An object is a map: canonical printing sorts keys. */
  datatype Json =
    | JNull
    | JBool(b: bool)
    | JNum(literal: string)
    | JStr(s: string)
    | JArr(items: seq<Json>)
    | JObj(fields: map<string, Json>)

  type Fields = map<string, Json>

  /** `dict.get(key)`: an absent key reads as JSON null. */
  function Get(o: Fields, key: string): Json {
    if key in o then o[key] else JNull
  }

  /** Python's truth value of a parsed JSON value. */
  predicate Truthy(j: Json) {
    match j
    case JNull => false
    case JBool(b) => b
    case JNum(literal) => literal !in {"0", "0.0", "-0.0"}
    case JStr(s) => s != ""
    case JArr(items) => items != []
    case JObj(fields) => fields != map[]
  }
}
