/** The JSON values the configuration is made of, with the QJsonValue
    conversions the logger uses: each returns the value when it has the
    asked-for type and Qt's fallback (false, 0, "", [] or {}) otherwise. */
module Json {

  datatype JsonValue =
    | JNull
    | JBool(b: bool)
    | JNumber(n: real)
    | JString(s: string)
    | JArray(items: seq<JsonValue>)
    | JObject(fields: map<string, JsonValue>)

  /** QJsonValue::type(). */
  datatype JsonType = Null | Bool | Double | String | Array | Object

  function TypeOf(v: JsonValue): JsonType
  {
    match v
    case JNull => Null
    case JBool(_) => Bool
    case JNumber(_) => Double
    case JString(_) => String
    case JArray(_) => Array
    case JObject(_) => Object
  }

  /** The fallback value of each type; a Null slot becomes the number 0. */
  function ZeroOf(t: JsonType): (v: JsonValue)
    ensures TypeOf(v) == if t == Null then Double else t
  {
    match t
    case Null => JNumber(0.0)
    case Bool => JBool(false)
    case Double => JNumber(0.0)
    case String => JString("")
    case Array => JArray([])
    case Object => JObject(map[])
  }

  function ToBool(v: JsonValue): bool
  {
    if v.JBool? then v.b else false
  }

  function ToDouble(v: JsonValue): real
  {
    if v.JNumber? then v.n else 0.0
  }

  function ToStr(v: JsonValue): string
  {
    if v.JString? then v.s else ""
  }

  function ToArray(v: JsonValue): seq<JsonValue>
  {
    if v.JArray? then v.items else []
  }

  function ToObject(v: JsonValue): map<string, JsonValue>
  {
    if v.JObject? then v.fields else map[]
  }

  const IntMin: int := -0x8000_0000
  const IntMax: int := 0x7fff_ffff

  /** QJsonValue::toInt(): a whole number that fits an int, otherwise 0. */
  function ToInt(v: JsonValue): (i: int)
    ensures IntMin <= i <= IntMax
    ensures i != 0 ==> v == JNumber(i as real)
    ensures v.JNumber? && v.n == v.n.Floor as real && IntMin <= v.n.Floor <= IntMax ==> i as real == v.n
  {
    if v.JNumber? && v.n.Floor as real == v.n && IntMin <= v.n.Floor <= IntMax then v.n.Floor else 0
  }

  /** The value a configuration slot holds after one key of the file is
      merged into it: the file's value converted to the slot's type, and
      the number 0 for a slot that was empty. */
  function Coerce(slot: JsonValue, v: JsonValue): (r: JsonValue)
    ensures TypeOf(r) == if TypeOf(slot) == Null then Double else TypeOf(slot)
    ensures TypeOf(slot) != Null && TypeOf(v) == TypeOf(slot) ==> r == v
    ensures TypeOf(slot) != TypeOf(v) ==> r == ZeroOf(TypeOf(slot))
    ensures TypeOf(slot) == Null ==> r == JNumber(0.0)
  {
    match TypeOf(slot)
    case Bool => JBool(ToBool(v))
    case Double => JNumber(ToDouble(v))
    case String => JString(ToStr(v))
    case Array => JArray(ToArray(v))
    case Object => JObject(ToObject(v))
    case Null => JNumber(0.0)
  }
}
