/** JSON trees as Python's json module decodes them: integers and floats are distinct, and a float
    may be infinite or NaN. An object is a map: nothing modelled here depends on key order. */
module Json {
  import opened Options

  datatype Float = Finite(r: real) | Infinite(negative: bool) | NaN

  datatype Json =
    | JNull
    | JBool(b: bool)
    | JInt(i: int)
    | JFloat(f: Float)
    | JStr(s: string)
    | JArray(items: seq<Json>)
    | JObject(fields: map<string, Json>)

  /** The number a scalar is equal to: True is 1, and 1 is 1.0. */
  function Number(v: Json): Option<real> {
    match v
    case JBool(b) => Some(if b then 1.0 else 0.0)
    case JInt(i) => Some(i as real)
    case JFloat(Finite(r)) => Some(r)
    case _ => None
  }

  /** `dict.get`, with None for an absent key. */
  function GetOrNull(fields: map<string, Json>, key: string): Json {
    if key in fields then fields[key] else JNull
  }
}
