/** The part of `serde_json::Value` the core inspects: its shape, and the
    indexing operators `v[i]` and `v["key"]`, which never fail but yield
    `Null` when the element or field is missing. Parsing and printing are
    library calls and live in `Foreign.Primitives`. */
module Json {
  import opened Base

  /** The integers serde_json keeps exactly: those of an `i64` or a `u64`. */
  type Integer = n: int | -0x8000_0000_0000_0000 <= n < 0x1_0000_0000_0000_0000

  datatype Value =
    | Null
    | Bool(b: bool)
    | Number(n: Integer)
    | String(str: string)
    | Array(items: seq<Value>)
    | Object(fields: map<string, Value>)

  /** `v[i]`: the i-th element of an array, `Null` for anything else. */
  function At(v: Value, i: nat): (r: Value)
    ensures v.Array? && i < |v.items| ==> r == v.items[i]
    ensures !(v.Array? && i < |v.items|) ==> r == Null
  {
    if v.Array? && i < |v.items| then v.items[i] else Null
  }

  /** `v["key"]`: the field of an object, `Null` for anything else. */
  function Get(v: Value, key: string): (r: Value)
    ensures v.Object? && key in v.fields ==> r == v.fields[key]
    ensures !(v.Object? && key in v.fields) ==> r == Null
  {
    if v.Object? && key in v.fields then v.fields[key] else Null
  }

  /** `v.as_str()` */
  function AsStr(v: Value): (r: Option<string>)
    ensures r.Some? <==> v.String?
    ensures r.Some? ==> r.value == v.str
  {
    if v.String? then Some(v.str) else None
  }
}
