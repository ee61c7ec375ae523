/** numpy floating-point values where the source can divide by zero: a
    finite value, a signed infinity or NaN. Finite values are exact reals. */
module Floats {
  import opened Rounding

  datatype Float = Num(x: real) | PosInf | NegInf | NaN

  /** numpy's `a / b`: dividing by zero gives a signed infinity, or NaN for
      zero over zero, instead of an error. */
  function Div(a: real, b: real): (r: Float)
    ensures b != 0.0 <==> r.Num?
    ensures r.Num? ==> r.x * b == a
    ensures r == NaN <==> a == 0.0 && b == 0.0
  {
    if b != 0.0 then Num(a / b)
    else if a > 0.0 then PosInf
    else if a < 0.0 then NegInf
    else NaN
  }

  /** `f >= c`; every comparison with NaN is false. */
  predicate AtLeast(f: Float, c: real)
  {
    match f
    case Num(x) => x >= c
    case PosInf => true
    case NegInf => false
    case NaN => false
  }

  /** `f > c`. */
  predicate Above(f: Float, c: real)
  {
    match f
    case Num(x) => x > c
    case PosInf => true
    case NegInf => false
    case NaN => false
  }

  /** `c + f`: a finite value added to an infinity or NaN leaves it as it is. */
  function Plus(c: real, f: Float): (r: Float)
    ensures r.Num? <==> f.Num?
    ensures r.Num? ==> r.x == c + f.x
    ensures !f.Num? ==> r == f
  {
    if f.Num? then Num(c + f.x) else f
  }

  /** `f - c`. */
  function Minus(f: Float, c: real): (r: Float)
    ensures r.Num? <==> f.Num?
    ensures r.Num? ==> r.x == f.x - c
    ensures !f.Num? ==> r == f
  {
    if f.Num? then Num(f.x - c) else f
  }

  /** `round(3)`: infinities and NaN are kept. */
  function Round3F(f: Float): (r: Float)
    ensures r.Num? <==> f.Num?
    ensures r.Num? ==> -0.0005 <= r.x - f.x <= 0.0005
    ensures !f.Num? ==> r == f
  {
    if f.Num? then Num(Round3(f.x)) else f
  }
}
