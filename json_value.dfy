/**
 * Parsed JSON (RFC 8259) and the few JavaScript operations the front ends
 * apply to it: truthiness, property access on a non-null value, element 0
 * and the `length > 0` test. A JavaScript value read from parsed JSON is
 * an `Option<Json>`, where `None` stands for `undefined`.
 */
module JsonValue {
  import opened Wrappers

  datatype Json =
    | JNull
    | JBool(b: bool)
    | JNumber(n: real)
    | JString(s: string)
    | JArray(items: seq<Json>)
    | JObject(fields: map<string, Json>)

  /** ECMAScript ToBoolean (section 7.1.2 of ECMA-262) on a value read from
      JSON: `undefined`, `null`, `false`, `0` and `""` are falsy. JSON has no
      NaN, and `-0` is the number 0. */
  predicate Truthy(v: Option<Json>)
  {
    match v
    case None => false
    case Some(JNull) => false
    case Some(JBool(b)) => b
    case Some(JNumber(n)) => n != 0.0
    case Some(JString(s)) => s != []
    case Some(JArray(_)) => true
    case Some(JObject(_)) => true
  }

  /** `v[key]` on a value that is neither `null` nor `undefined`: an own
      property of an object, the `length` of an array or a string, and
      `undefined` for anything else. */
  function Get(v: Json, key: string): (r: Option<Json>)
    requires v != JNull
    ensures v.JObject? ==> (r.Some? <==> key in v.fields)
    ensures r.Some? ==> v.JObject? || key == "length"
  {
    match v
    case JObject(fields) => if key in fields then Some(fields[key]) else None
    case JArray(items) => if key == "length" then Some(JNumber(|items| as real)) else None
    case JString(s) => if key == "length" then Some(JNumber(|s| as real)) else None
    case _ => None
  }

  /** `v[0]`: the first element of an array, the first character of a
      string, the property named "0" of an object. */
  function Index0(v: Json): (r: Option<Json>)
    ensures v.JArray? ==> (r.Some? <==> v.items != [])
    ensures v.JString? ==> (r.Some? <==> v.s != [])
    ensures r.Some? ==> v.JArray? || v.JString? || v.JObject?
  {
    match v
    case JArray(items) => if items != [] then Some(items[0]) else None
    case JString(s) => if s != [] then Some(JString([s[0]])) else None
    case JObject(fields) => if "0" in fields then Some(fields["0"]) else None
    case _ => None
  }

  /** `x > 0` for a value `x` that is a number, a boolean, `null` or
      `undefined` (ECMAScript's relational comparison after ToNumber);
      strings, arrays and objects count as not greater than 0. */
  predicate GreaterThanZero(x: Option<Json>)
  {
    match x
    case Some(JNumber(n)) => n > 0.0
    case Some(JBool(b)) => b
    case _ => false
  }

  /** `v.length > 0` on a truthy value. */
  predicate HasPositiveLength(v: Json)
    requires v != JNull
  {
    GreaterThanZero(Get(v, "length"))
  }

  /** For the arrays and strings a configuration file normally holds, a
      positive length is exactly non-emptiness, and then element 0 exists. */
  lemma PositiveLengthOfSequence(v: Json)
    requires v.JArray? || v.JString?
    ensures HasPositiveLength(v) <==> Index0(v).Some?
  {
  }
}
