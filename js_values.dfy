/** The few JavaScript value semantics the session code relies on: the values
    JSON.parse can produce, truthiness (`!x`), property access on a parsed
    value, and the numeric conversion behind `>`. JSON.parse and
    JSON.stringify themselves are not defined here: the code that needs them
    receives them as function parameters. */
module JsValues {

  datatype Option<+T> = None | Some(value: T)

  /** A value produced by JSON.parse. Numbers are exact reals (not doubles);
      an object maps each key to the value of its last occurrence. */
  datatype Json =
    | JNull
    | JBool(b: bool)
    | JNumber(n: real)
    | JString(s: string)
    | JArray(items: seq<Json>)
    | JObject(fields: map<string, Json>)

  /** A JavaScript value as seen by the session code: `undefined` (a missing
      property) or a JSON value; JavaScript's `null` is Defined(JNull). */
  datatype Js = Undefined | Defined(json: Json)

  /** JavaScript truthiness of a parsed value: null, false, 0 and "" are falsy
      (JSON cannot produce NaN, and 0 and -0 are both JNumber(0.0)). */
  predicate Truthy(v: Json)
  {
    match v
    case JNull => false
    case JBool(b) => b
    case JNumber(n) => n != 0.0
    case JString(s) => s != ""
    case _ => true
  }

  /** `v.key` for a parsed value. Only objects have own properties; the
      prototype chain of parsed values holds no enumerable data keys, so every
      other lookup is `undefined`. */
  function Property(v: Json, key: string): (r: Js)
    ensures r.Defined? <==> v.JObject? && key in v.fields
    ensures r.Defined? ==> r.json == v.fields[key]
  {
    match v
    case JObject(fields) => if key in fields then Defined(fields[key]) else Undefined
    case _ => Undefined
  }

  /** ToNumber as applied by the relational operators to the operand `v`;
      None stands for NaN. Strings, arrays and objects are treated as NaN. */
  function ToNumber(v: Js): (r: Option<real>)
    ensures v.Defined? && v.json.JNumber? ==> r == Some(v.json.n)
    ensures v.Undefined? ==> r.None?
  {
    match v
    case Undefined => None
    case Defined(JNumber(n)) => Some(n)
    case Defined(JBool(b)) => Some(if b then 1.0 else 0.0)
    case Defined(JNull) => Some(0.0)
    case Defined(_) => None
  }

  /** `v === text` for a string literal `text`. */
  predicate IsString(v: Js, text: string)
  {
    v == Defined(JString(text))
  }
}
