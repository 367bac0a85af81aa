/**
 * The values a JSON request body can hand to the feedback service, and the
 * JavaScript truthiness rule the handlers use to decide whether a field is
 * "present" (`!name || !email || !age || !message`).
 */
module JsValues {

  /** A JavaScript value as it arrives from a parsed JSON body (or is missing). */
  datatype Value =
    | Undefined              // the field is absent from the body
    | Null                   // JSON `null`
    | Bool(b: bool)          // JSON `true` / `false`
    | Num(n: int)            // a JSON number (integral; `-0` is the same as `0`)
    | Str(s: string)         // a JSON string
    | Compound               // any JSON object or array, always truthy

  /** JavaScript's `ToBoolean`: the falsy values are undefined, null, false, 0 and "". */
  predicate Truthy(v: Value)
  {
    match v
    case Undefined => false
    case Null => false
    case Bool(b) => b
    case Num(n) => n != 0
    case Str(s) => s != ""
    case Compound => true
  }

  /** The five falsy values a JSON body can produce. */
  const Falsy: set<Value> := {Undefined, Null, Bool(false), Num(0), Str("")}

  /** A value is truthy exactly when it is none of the falsy values. */
  lemma TruthyIffNotFalsy(v: Value)
    ensures Truthy(v) <==> v !in Falsy
  {
    match v
    case Bool(b) =>
    case Num(n) =>
    case Str(s) =>
    case _ =>
  }
}
