/** Ruby Floats as the aspect-ratio and progress arithmetic produces them: a finite
    value, an infinity or NaN. Dividing by 0.0 gives one of the last two; it does
    not raise. Rounding of finite values is not modelled: a finite Float is a real. */
module Floats {

  datatype Float = Num(r: real) | Inf(negative: bool) | NaN

  /** x / y on two finite Floats. */
  function Div(x: real, y: real): Float {
    if y != 0.0 then Num(x / y)
    else if x == 0.0 then NaN
    else Inf(x < 0.0)
  }

  /** An Integer divided by a Float. */
  function IntDiv(n: int, f: Float): Float {
    match f
    case Num(r) => Div(n as real, r)
    case Inf(_) => Num(0.0)
    case NaN => NaN
  }

  /** An Integer multiplied by a Float. */
  function IntMul(n: int, f: Float): Float {
    match f
    case Num(r) => Num(n as real * r)
    case Inf(negative) => if n == 0 then NaN else Inf(negative != (n < 0))
    case NaN => NaN
  }

  /** Float#zero? */
  predicate IsZero(f: Float) {
    f == Num(0.0)
  }

  function Floor(x: real): int {
    x.Floor
  }

  function Ceil(x: real): int {
    -((-x).Floor)
  }
}
