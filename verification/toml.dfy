/** The part of a TOML document tree that configuration resolution looks at.
    Floats and date-times carry no information this model needs and are left out. */
module Toml {
  import opened Wrappers

  datatype Value =
    | String(str: string)
    | Integer(num: int)
    | Boolean(flag: bool)
    | Array(items: seq<Value>)
    | Table(entries: map<string, Value>)

  /** `Value::get(key)`: the entry under `key` when the value is a table that
      holds it; `None` for a missing key and for every non-table value. */
  function Get(v: Value, key: string): (r: Option<Value>)
    ensures r.Some? <==> v.Table? && key in v.entries
    ensures r.Some? ==> r.value == v.entries[key]
  {
    if v.Table? && key in v.entries then Some(v.entries[key]) else None
  }

  /** A one-entry table `{ key = v }`. */
  function Singleton(key: string, v: Value): Value
  {
    Table(map[key := v])
  }
}
