/**
 * JSON values, standing for `serde_json::Value`. Numbers are kept as their
 * literal text; objects are maps, as serde_json's default `Map` is keyed
 * uniquely.
 */
module Json {
  import opened Wrappers

  datatype Json =
    | JNull
    | JBool(b: bool)
    | JNumber(literal: string)
    | JString(s: string)
    | JArray(items: seq<Json>)
    | JObject(fields: map<string, Json>)

  /** `Value::get(key)`: the member of an object, `None` for a missing key or a non-object. */
  function Get(v: Json, key: string): (r: Option<Json>)
    ensures r.Some? <==> v.JObject? && key in v.fields
    ensures r.Some? ==> r.value == v.fields[key]
  {
    if v.JObject? && key in v.fields then Some(v.fields[key]) else None
  }

  /** `Value::as_str`: the text of a string value. */
  function AsStr(v: Json): (r: Option<string>)
    ensures r.Some? <==> v.JString?
  {
    if v.JString? then Some(v.s) else None
  }

  /** `v.get(key).and_then(as_str)` on an optional value. */
  function StrField(v: Option<Json>, key: string): (r: Option<string>)
    ensures r.Some? <==> v.Some? && Get(v.value, key).Some? && Get(v.value, key).value.JString?
    ensures r.Some? ==> v.value.fields[key] == JString(r.value)
  {
    match v
    case None => None
    case Some(o) =>
      match Get(o, key)
      case None => None
      case Some(f) => AsStr(f)
  }
}
