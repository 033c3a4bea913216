/** Double-precision values as pandas and numpy treat them, without rounding:
    a finite real, one of the two infinities, or NaN.  Only the behaviour the
    scripts rely on is modelled: division by zero gives an infinity or NaN,
    NaN never compares true, and pandas' `dropna` removes NaN but keeps the
    infinities.  Negative zero is not modelled (a zero divisor counts as +0). */
module Floats {

  datatype Float = Finite(v: real) | PosInf | NegInf | NaN

  predicate IsNaN(x: Float) { x.NaN? }

  function Add(a: Float, b: Float): (r: Float)
  {
    match (a, b)
    case (Finite(x), Finite(y)) => Finite(x + y)
    case (NaN, _) => NaN
    case (_, NaN) => NaN
    case (PosInf, NegInf) => NaN
    case (NegInf, PosInf) => NaN
    case (PosInf, _) => PosInf
    case (_, PosInf) => PosInf
    case (NegInf, _) => NegInf
    case (_, NegInf) => NegInf
  }

  function Neg(a: Float): Float
  {
    match a
    case Finite(x) => Finite(-x)
    case PosInf => NegInf
    case NegInf => PosInf
    case NaN => NaN
  }

  function Sub(a: Float, b: Float): Float { Add(a, Neg(b)) }

  /** Sign of a non-NaN value: -1, 0 or 1. */
  function Sign(a: Float): int
    requires !a.NaN?
  {
    match a
    case Finite(x) => if x < 0.0 then -1 else if x == 0.0 then 0 else 1
    case PosInf => 1
    case NegInf => -1
  }

  function Mul(a: Float, b: Float): (r: Float)
  {
    match (a, b)
    case (Finite(x), Finite(y)) => Finite(x * y)
    case (NaN, _) => NaN
    case (_, NaN) => NaN
    case _ =>
      // at least one infinity: 0 * inf is NaN, otherwise an infinity of the product's sign
      var s := Sign(a) * Sign(b);
      if s == 0 then NaN else if s > 0 then PosInf else NegInf
  }

  /** IEEE division: x / 0 is an infinity of x's sign, 0 / 0 and inf / inf are NaN. */
  function Div(a: Float, b: Float): (r: Float)
    ensures b.Finite? && b.v != 0.0 && a.Finite? ==> r == Finite(a.v / b.v)
    ensures b == Finite(0.0) && a.Finite? ==>
              r == (if a.v > 0.0 then PosInf else if a.v < 0.0 then NegInf else NaN)
  {
    match (a, b)
    case (NaN, _) => NaN
    case (_, NaN) => NaN
    case (Finite(x), Finite(y)) =>
      if y != 0.0 then Finite(x / y)
      else if x > 0.0 then PosInf else if x < 0.0 then NegInf else NaN
    case (Finite(_), _) => Finite(0.0)
    case (_, Finite(y)) =>
      var s := Sign(a) * (if y < 0.0 then -1 else 1);
      if s > 0 then PosInf else NegInf
    case _ => NaN
  }

  /** `a < b`; false whenever either side is NaN. */
  predicate Lt(a: Float, b: Float)
  {
    match (a, b)
    case (NaN, _) => false
    case (_, NaN) => false
    case (Finite(x), Finite(y)) => x < y
    case (NegInf, NegInf) => false
    case (NegInf, _) => true
    case (_, PosInf) => !a.PosInf?
    case _ => false
  }

  /** `a <= b`; false whenever either side is NaN. */
  predicate Le(a: Float, b: Float)
  {
    Lt(a, b) || (!a.NaN? && a == b)
  }

  /** Sum of a column as pandas computes it: NaN entries are skipped. */
  function SkipNaNSum(xs: seq<Float>): Float
  {
    if xs == [] then Finite(0.0)
    else if xs[|xs| - 1].NaN? then SkipNaNSum(xs[..|xs| - 1])
    else Add(SkipNaNSum(xs[..|xs| - 1]), xs[|xs| - 1])
  }
}
