/** ECMAScript Number values as the standings page produces them: every Number
    it computes is either NaN or an integer (a `parseInt` result or a sum of
    such results), so a Number is modelled as NaN or an exact integer. */
module JsNumbers {

  datatype JsNumber = NaN | Num(value: int)

  /** Number::add (section 6.1.6.1.7 of ECMA-262) on integral values: NaN
      absorbs, otherwise the values are added. */
  function Add(x: JsNumber, y: JsNumber): JsNumber
  {
    match (x, y)
    case (Num(a), Num(b)) => Num(a + b)
    case _ => NaN
  }

  /** ToBoolean (section 7.1.2 of ECMA-262) on a Number: false for +0, -0
      and NaN, true for every other value. */
  function ToBoolean(x: JsNumber): (b: bool)
    ensures b <==> x != NaN && x != Num(0)
  {
    match x
    case NaN => false
    case Num(v) => v != 0
  }
}
