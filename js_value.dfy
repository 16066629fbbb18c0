/** The untyped JavaScript value a schema decoder receives (`unknown`):
    the JSON-shaped values that an XML-to-object conversion produces. */
module JsValue {

  /** `undefined` is not a value here: an absent object key is a key missing
      from `fields`.  Numbers are integers (fractional numbers are not needed
      by any schema in this model). */
  datatype Json =
    | JNull
    | JBool(b: bool)
    | JNum(n: int)
    | JStr(s: string)
    | JArr(items: seq<Json>)
    | JObj(fields: map<string, Json>)
}
