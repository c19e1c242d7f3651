/** Parsed JSON values as `JSON.parse` produces them. Objects are maps, so two
    objects are equal exactly when they have the same keys with equal values,
    whatever the key order: the comparison Node's `assert.deepStrictEqual`
    makes between two parsed documents. */
module JsonValues {
  import opened Wrappers

  datatype Json =
    | JNull
    | JBool(b: bool)
    | JNum(n: int)
    | JStr(str: string)
    | JArr(items: seq<Json>)
    | JObj(fields: map<string, Json>)

  /** A top-level JSON object, such as a bucket policy document. */
  type Doc = map<string, Json>

  /** Property access `v[key]` on an object; nothing for a missing key or a
      value that is not an object. */
  function Lookup(v: Json, key: string): (r: Option<Json>)
    ensures r.Some? <==> v.JObj? && key in v.fields
    ensures r.Some? ==> r.value == v.fields[key]
  {
    if v.JObj? && key in v.fields then Some(v.fields[key]) else None
  }
}
