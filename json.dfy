/** A decoded JSON document, as `response.json()` hands it to the proxy: objects
    become dictionaries keyed by strings, arrays become lists. Numbers are kept
    as integers, which is all the data-source records carry (`id`). */
module JsonValue {

  datatype Json =
    | JNull
    | JBool(b: bool)
    | JNumber(n: int)
    | JString(s: string)
    | JArray(items: seq<Json>)
    | JObject(members: map<string, Json>)
}
