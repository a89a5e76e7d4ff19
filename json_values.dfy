/** JSON values as Python's `json` module hands them to the program, and
    Python's truth test on them (`if not text:`). */
module JsonValues {

  /** A Python float as `json.loads` may produce it; `NaN`, `Infinity` and
      `-Infinity` are accepted by Python's parser besides finite numbers. */
  datatype Float = Finite(r: real) | NaN | Infinity | NegInfinity

  /** A decoded JSON document: `null`, `true`/`false`, an integer literal
      (Python `int`), a literal with a fraction or exponent (Python `float`),
      a string, an array (Python `list`) or an object (Python `dict`). */
  datatype Json =
    | JNull
    | JBool(b: bool)
    | JInt(i: int)
    | JFloat(f: Float)
    | JString(s: string)
    | JArray(items: seq<Json>)
    | JObject(fields: map<string, Json>)

  /** A directory of JSON files: file name to the document it holds. */
  type Directory = map<string, Json>

  /** Python truthiness of a decoded value: `None`, `False`, zero, the empty
      string, the empty list and the empty dict are false, all else is true
      (a NaN float is true). The falsy values are exactly those listed in
      `FalsyValues`. */
  predicate Truthy(j: Json)
    ensures !Truthy(j) <==> j in FalsyValues
  {
    match j
    case JNull => false
    case JBool(b) => b
    case JInt(i) => i != 0
    case JFloat(f) => f != Finite(0.0)
    case JString(s) => s != ""
    case JArray(items) => items != []
    case JObject(fields) => fields != map[]
  }

  /** The falsy values, listed one by one. */
  const FalsyValues: set<Json> :=
    {JNull, JBool(false), JInt(0), JFloat(Finite(0.0)), JString(""), JArray([]), JObject(map[])}
}
