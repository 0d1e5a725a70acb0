/** The generic JSON tree that Moshi's `JsonReader.readJsonValue` materializes:
    objects become maps, arrays lists, and scalars strings, numbers, booleans or null. */
module JsonValues {

  datatype Json =
    | JNull
    | JBool(b: bool)
    | JNumber(n: real)
    | JString(s: string)
    | JList(items: seq<Json>)
    | JObject(fields: map<string, Json>)
}
