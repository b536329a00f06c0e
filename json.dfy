/** The values Python's `json.loads` produces, as far as the workflow inspects them. */
module Json {
  import opened Wrappers

  /**
   * A decoded JSON document: `Object` is a Python `dict`, `Array` a `list`,
   * `Str` a `str`. Numbers keep their literal text, since nothing here
   * computes with them.
   */
  datatype Value =
    | Null
    | Bool(b: bool)
    | Number(literal: string)
    | Str(s: string)
    | Array(items: seq<Value>)
    | Object(fields: map<string, Value>)

  /** `d.get(key)` on a decoded object. */
  function Get(fields: map<string, Value>, key: string): (r: Option<Value>)
    ensures r.Some? <==> key in fields
    ensures r.Some? ==> r.value == fields[key]
  {
    if key in fields then Some(fields[key]) else None
  }

  /** `isinstance(v, str)`. */
  predicate IsStr(v: Value) {
    v.Str?
  }
}
