/** The part of IEEE-754 double arithmetic that the likelihood's control flow
    depends on: the two infinities and NaN. Rounding is not modelled; a finite
    double is an exact real. */
module Doubles {

  datatype Double = Finite(v: real) | PosInf | NegInf | NaN {

    predicate IsInfinite() { PosInf? || NegInf? }
  }

  /** IEEE addition without rounding: infinities absorb finite values,
      opposite infinities (and any NaN) give NaN. */
  function Add(a: Double, b: Double): (r: Double)
    ensures r.NaN? <==> a.NaN? || b.NaN? || (a.PosInf? && b.NegInf?) || (a.NegInf? && b.PosInf?)
    ensures r.Finite? <==> a.Finite? && b.Finite?
  {
    match (a, b)
    case (NaN, _) => NaN
    case (_, NaN) => NaN
    case (PosInf, NegInf) => NaN
    case (NegInf, PosInf) => NaN
    case (PosInf, _) => PosInf
    case (_, PosInf) => PosInf
    case (NegInf, _) => NegInf
    case (_, NegInf) => NegInf
    case (Finite(x), Finite(y)) => Finite(x + y)
  }
}
