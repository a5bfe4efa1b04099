/** A parsed JSON value, as `json.loads` returns it. Objects are maps, so a
    duplicated key keeps its last value, as in Python. */
module Json {

  datatype Json =
    | JNull
    | JBool(b: bool)
    | JNumber(n: real)
    | JString(str: string)
    | JArray(items: seq<Json>)
    | JObject(fields: map<string, Json>)
}
