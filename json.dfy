/** The JSON values that request bodies and index mappings are made of. */
module Json {

  datatype Json =
    | JString(s: string)
    | JBool(b: bool)
    | JArray(items: seq<Json>)
    | JObject(fields: map<string, Json>)

  /** `{}` */
  const EmptyObject: Json := JObject(map[])

  /** `obj.get(key, {})` */
  function GetObject(obj: map<string, Json>, key: string): Json {
    if key in obj then obj[key] else EmptyObject
  }
}
