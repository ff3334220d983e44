/** The JavaScript values `JSON.parse` can produce, with the two JavaScript
    operations the handlers apply to them: truthiness and property access. */
module JsonValue {
  import opened Base

  /** Numbers are modelled as integers; strings by their UTF-8 bytes. An object
      maps each key to its value, as the parsed object does (a repeated key in
      the JSON text has already been resolved by the parser). */
  datatype Json =
    | JNull
    | JBool(b: bool)
    | JNumber(n: int)
    | JString(s: Text)
    | JArray(items: seq<Json>)
    | JObject(fields: map<Text, Json>)

  /** `!!v`: `null`, `false`, `0` and `''` are falsy, everything else is truthy. */
  predicate Truthy(v: Json) {
    match v
    case JNull => false
    case JBool(b) => b
    case JNumber(n) => n != 0
    case JString(s) => s != []
    case JArray(_) => true
    case JObject(_) => true
  }

  /** `v[key]` for a non-null value: only objects carry the keys used here,
      anything else reads `undefined` (`None`). */
  function Property(v: Json, key: Text): (r: Option<Json>)
    ensures r.Some? <==> v.JObject? && key in v.fields
    ensures r.Some? ==> r.value == v.fields[key]
  {
    if v.JObject? && key in v.fields then Some(v.fields[key]) else None
  }
}
