/** Values that `JSON.parse` can return, and JavaScript property access on them. */
module Json {
  import opened Wrappers

  /** A JSON value; numbers are modelled as integers. */
  datatype Json =
    | JNull
    | JBool(b: bool)
    | JNumber(n: int)
    | JString(s: string)
    | JArray(items: seq<Json>)
    | JObject(fields: map<string, Json>)

  /** The outcome of `v[key]`: a `TypeError` (on `null`), `undefined`, or a value. */
  datatype Property = Throws | Undefined | Value(v: Json)

  /**
   * `v[key]` for the claim names the application reads: an object gives its member or
   * `undefined`, `null` throws, and the other values have no such property.
   */
  function Get(v: Json, key: string): (p: Property)
    ensures p.Throws? <==> v.JNull?
    ensures p.Value? <==> v.JObject? && key in v.fields
    ensures p.Value? ==> p.v == v.fields[key]
  {
    match v
    case JNull => Throws
    case JObject(fields) => if key in fields then Value(fields[key]) else Undefined
    case _ => Undefined
  }

  /** A property value seen as an optional JSON value (`undefined` is `None`). */
  function AsOption(p: Property): Option<Json>
    requires !p.Throws?
  {
    if p.Value? then Some(p.v) else None
  }
}
