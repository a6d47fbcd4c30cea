/**
 * The parsed `site-manifest.json`, as both site scripts see it after `JSON.parse`.
 * Numbers are kept only as far as the scripts look at them: a zero number is falsy.
 */
module Json {
  import opened Wrappers

  datatype Json =
    | JNull
    | JBool(b: bool)
    | JNumber(n: int)
    | JString(s: string)
    | JArray(items: seq<Json>)
    | JObject(fields: map<string, Json>)

  /** JavaScript truthiness of a JSON value. */
  predicate Truthy(j: Json) {
    match j
    case JNull => false
    case JBool(b) => b
    case JNumber(n) => n != 0
    case JString(s) => s != ""
    case _ => true
  }

  /** `!value || typeof value !== "object"` is false: an object or an array. */
  predicate IsObject(j: Json) {
    Truthy(j) && (j.JObject? || j.JArray?)
  }

  /** `value.key`: a field of an object; anything else has no such property. */
  function Get(j: Json, key: string): (r: Option<Json>)
    ensures r.Some? <==> j.JObject? && key in j.fields
  {
    if j.JObject? && key in j.fields then Some(j.fields[key]) else None
  }

  /** A non-empty string field: `value.key` is truthy and `typeof value.key === "string"`. */
  predicate HasStringField(j: Json, key: string) {
    var v := Get(j, key);
    v.Some? && v.value.JString? && Truthy(v.value)
  }

  /** A list of strings as a JSON array. */
  function StringArray(xs: seq<string>): (r: Json)
    ensures r.JArray? && |r.items| == |xs|
    ensures forall k :: 0 <= k < |xs| ==> r.items[k] == JString(xs[k])
  {
    JArray(seq(|xs|, k requires 0 <= k < |xs| => JString(xs[k])))
  }
}
