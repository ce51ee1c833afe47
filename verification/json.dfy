/** The JSON values the client sends and receives (serde_json's `Value`), with
    the accessors the command handlers use on them. Decoding and pretty-printing
    JSON text are not modelled: a decoded body is an input of type
    `Option<Value>`. */
module Json {
  import opened Wrappers

  /** Rust's fixed-width unsigned integers. */
  const U16_LIMIT: int := 0x1_0000
  const U32_LIMIT: int := 0x1_0000_0000
  const U64_LIMIT: int := 0x1_0000_0000_0000_0000
  type U16 = n: int | 0 <= n < U16_LIMIT
  type U32 = n: int | 0 <= n < U32_LIMIT
  type U64 = n: int | 0 <= n < U64_LIMIT

  /** An integer JSON number is `Int`; `Float` stands for every number serde
      stores as a double (fractions, exponents, integers beyond 64 bits). An
      object has at most one value per key. */
  datatype Value =
    | Null
    | Bool(b: bool)
    | Int(i: int)
    | Float(f: real)
    | Str(s: string)
    | Array(items: seq<Value>)
    | Object(fields: map<string, Value>)

  /** `value.get(key)`: the field of an object, and nothing for a missing key
      or a value that is not an object. */
  function Lookup(v: Value, key: string): (r: Option<Value>)
    ensures r.Some? <==> v.Object? && key in v.fields
    ensures r.Some? ==> r.value == v.fields[key]
  {
    if v.Object? && key in v.fields then Some(v.fields[key]) else None
  }

  /** `value[key]`: like `Lookup`, but `Null` where `Lookup` finds nothing. */
  function Index(v: Value, key: string): (r: Value)
    ensures r == Lookup(v, key).GetOr(Null)
  {
    match v
    case Object(fields) => if key in fields then fields[key] else Null
    case _ => Null
  }

  /** `value.as_str()`. */
  function AsStr(v: Value): (r: Option<string>)
    ensures r.Some? <==> v.Str?
    ensures r.Some? ==> r.value == v.s
  {
    if v.Str? then Some(v.s) else None
  }

  /** `value.as_array()`. */
  function AsArray(v: Value): (r: Option<seq<Value>>)
    ensures r.Some? <==> v.Array?
    ensures r.Some? ==> r.value == v.items
  {
    if v.Array? then Some(v.items) else None
  }

  /** `value.as_u64()`: an integer that fits in 64 unsigned bits. */
  function AsU64(v: Value): (r: Option<U64>)
    ensures r.Some? <==> v.Int? && 0 <= v.i < U64_LIMIT
    ensures r.Some? ==> r.value == v.i
  {
    if v.Int? && 0 <= v.i < U64_LIMIT then Some(v.i) else None
  }
}
