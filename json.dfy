/** The values `json.loads` produces, and what a parse attempt returns. The
    parser itself is not modelled: callers receive it as a function. */
module JsonValue {
  datatype Json =
    | JNull
    | JBool(b: bool)
    | JInt(i: int)
    | JFloat(literal: string)
    | JString(s: string)
    | JArray(elems: seq<Json>)
    | JObject(fields: map<string, Json>)

  /** A parse either yields a value or raises `JSONDecodeError`, whose text
      is `reason`. */
  datatype ParseResult = Parsed(value: Json) | Malformed(reason: string)

  type Parser = string -> ParseResult

  /** `type(v).__name__` for the Python object `json.loads` builds. */
  function TypeName(v: Json): (r: string)
    ensures r != []
    ensures r == "dict" <==> v.JObject?
    ensures r == "str" <==> v.JString?
  {
    match v
    case JNull => "NoneType"
    case JBool(_) => "bool"
    case JInt(_) => "int"
    case JFloat(_) => "float"
    case JString(_) => "str"
    case JArray(_) => "list"
    case JObject(_) => "dict"
  }
}
