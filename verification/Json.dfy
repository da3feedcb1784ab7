// JSON values as the TypeScript modules see them.

module JsonValues {
  datatype Json =
    | JNull | JBool(flag: bool) | JNumber(n: int) | JString(s: string)
    | JArray(items: seq<Json>) | JObject(fields: map<string, Json>)

  /** Stored or received text as JSON.parse sees it. */
  datatype Document = Unparsable | Parsed(value: Json)

  predicate Truthy(j: Json) {
    match j
    case JNull => false
    case JBool(flag) => flag
    case JNumber(n) => n != 0
    case JString(s) => s != ""
    case _ => true
  }

  predicate Primitive(j: Json) { !j.JArray? && !j.JObject? }

  /** A property of a parsed object; JNull stands in for undefined. */
  function Field(fields: map<string, Json>, name: string): Json { if name in fields then fields[name] else JNull }

  /** String(value) does not throw: no object on the way shadows toString. */
  predicate Stringable(j: Json) {
    match j
    case JObject(fields) => "toString" !in fields
    case JArray(items) => forall i :: 0 <= i < |items| ==> items[i].JNull? || Stringable(items[i])
    case _ => true
  }
}
