/** The values `JSON.parse` produces and `JSON.stringify` consumes. */
module Json {
  import JsObject

  /**
   * A JSON value. Objects keep their members in insertion order; numbers are
   * integers, which is what the core stores in them (millisecond clock readings).
   */
  datatype Json =
    | JNull
    | JBool(b: bool)
    | JNum(n: int)
    | JStr(s: string)
    | JArr(items: seq<Json>)
    | JObj(fields: JsObject.Object<Json>)
}
