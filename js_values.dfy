/**
 * The JavaScript values the extension passes around: message properties,
 * stored option values and tab indices. Numbers are restricted to integers
 * and NaN (the only numbers the core produces: tab indices, parseInt results
 * and slider values); objects other than the message itself never occur.
 */
module JsValues {
  /** A JavaScript number as the core sees it: NaN or an integer (-0 is folded into 0). */
  datatype Num = NaN | Int(n: int)

  datatype JsValue =
    | Undefined
    | Null
    | Bool(b: bool)
    | Number(num: Num)
    | Str(s: string)

  /** ToBoolean: the test behind `if (x)`, `!!x` and `x || y`. */
  predicate Truthy(v: JsValue) {
    match v
    case Undefined => false
    case Null => false
    case Bool(b) => b
    case Number(num) => num.Int? && num.n != 0
    case Str(s) => s != []
  }

  /** `a || b` on numbers: `a` when it is truthy, otherwise `b`. */
  function OrNum(a: Num, b: Num): (r: Num)
    ensures a.Int? && a.n != 0 ==> r == a
    ensures a == NaN || a == Int(0) ==> r == b
  {
    if a.Int? && a.n != 0 then a else b
  }

  /** Property access `o[k]` on a plain object: a missing key reads as undefined. */
  function Get(o: map<string, JsValue>, k: string): (v: JsValue)
    ensures k !in o ==> v == Undefined
    ensures k in o ==> v == o[k]
  {
    if k in o then o[k] else Undefined
  }
}
