/** The values a field of a parsed JSON request body can hold, and JavaScript's truthiness. */
module JsValues {

  /** `Undefined` stands for a field the body does not have; the others are what
      `JSON.parse` produces. JSON has no NaN, so a number is a real. */
  datatype JsValue =
    | Undefined
    | Null
    | Bool(b: bool)
    | Num(n: real)
    | Str(s: string)
    | Arr(elems: seq<JsValue>)
    | Obj(members: seq<(string, JsValue)>)

  /** The values a condition treats as false: `undefined`, `null`, `false`, `0` and `""`
      (NaN cannot come out of JSON). */
  const Falsy: set<JsValue> := {Undefined, Null, Bool(false), Num(0.0), Str("")}

  /** The value counts as true in a condition (`if (v)`, `v || w`, `a && v`). */
  predicate Truthy(v: JsValue)
    ensures Truthy(v) <==> v !in Falsy
  {
    match v
    case Undefined => false
    case Null => false
    case Bool(b) => b
    case Num(n) => n != 0.0
    case Str(s) => |s| > 0
    case Arr(_) => true
    case Obj(_) => true
  }

  /** `v === x` for a number literal `x`: no conversion, so only a number equal to x matches. */
  predicate IsNumber(v: JsValue, x: real)
  {
    v.Num? && v.n == x
  }
}
