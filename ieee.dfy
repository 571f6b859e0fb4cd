/**
  The few IEEE 754 double behaviours the primal-decomposition code depends on: a quotient
  whose divisor is zero is an infinity or NaN, comparisons with NaN are false, and
  `std::max`/`std::min`, written as `(a < b) ? b : a` and `(b < a) ? b : a`, therefore map
  NaN and the infinities to one of the clamping bounds. Finite values are exact reals:
  rounding is not modelled.
 */
module Ieee {
  datatype Ext = Fin(v: real) | PosInf | NegInf | NaN

  /** IEEE `a < b`: false whenever one side is NaN. */
  predicate Less(a: Ext, b: Ext)
  {
    match (a, b)
    case (Fin(x), Fin(y)) => x < y
    case (NegInf, Fin(_)) => true
    case (NegInf, PosInf) => true
    case (Fin(_), PosInf) => true
    case _ => false
  }

  /** IEEE `a <= b`: false whenever one side is NaN. */
  predicate LessEq(a: Ext, b: Ext)
  {
    Less(a, b) || (a == b && !a.NaN?)
  }

  /** `a / b` for finite operands; a zero divisor is taken to be +0. */
  function Div(a: real, b: real): (r: Ext)
    ensures b != 0.0 ==> r == Fin(a / b)
    ensures b == 0.0 ==> (r.NaN? <==> a == 0.0) && (r.PosInf? <==> a > 0.0) && (r.NegInf? <==> a < 0.0)
  {
    if b != 0.0 then Fin(a / b)
    else if a == 0.0 then NaN
    else if a > 0.0 then PosInf
    else NegInf
  }

  /** `x * c` for a finite `c`: an infinity times zero is NaN. */
  function Times(x: Ext, c: real): (r: Ext)
    ensures x.Fin? ==> r == Fin(x.v * c)
    ensures x.NaN? ==> r.NaN?
    ensures (!x.Fin? && c == 0.0) ==> r.NaN?
  {
    match x
    case Fin(_) => Fin(x.v * c)
    case NaN => NaN
    case PosInf => if c > 0.0 then PosInf else if c < 0.0 then NegInf else NaN
    case NegInf => if c > 0.0 then NegInf else if c < 0.0 then PosInf else NaN
  }

  /** `std::max(a, b)`. */
  function Max(a: Ext, b: Ext): Ext
  {
    if Less(a, b) then b else a
  }

  /** `std::min(a, b)`. */
  function Min(a: Ext, b: Ext): Ext
  {
    if Less(b, a) then b else a
  }

  /** `x = std::max(lo, x); x = std::min(hi, x);` always ends on a finite value; with ordered
      bounds it lies between them, a value already between them is kept, and NaN goes to the
      lower bound, +inf to the upper one. */
  function Clamp(lo: real, hi: real, x: Ext): (r: real)
    ensures Fin(r) == Min(Fin(hi), Max(Fin(lo), x))
    ensures lo <= hi ==> lo <= r <= hi
    ensures x.Fin? && lo <= x.v <= hi ==> r == x.v
    ensures lo <= hi && (x.NaN? || x.NegInf?) ==> r == lo
    ensures x.PosInf? ==> r == hi
  {
    var a := match x
      case Fin(v) => if lo < v then v else lo
      case PosInf => hi
      case _ => lo;
    if x.PosInf? then hi else if a < hi then a else hi
  }

  /** The clamp of a finite value, as the real `std::min(hi, std::max(lo, v))`. */
  lemma {:induction false} ClampFinite(lo: real, hi: real, v: real)
    ensures Clamp(lo, hi, Fin(v)) == (var a := if lo < v then v else lo; if a < hi then a else hi)
  {
  }

  /** With ordered bounds the clamp is monotone. */
  lemma {:induction false} ClampMonotone(lo: real, hi: real, v: real, w: real)
    requires lo <= hi && v <= w
    ensures Clamp(lo, hi, Fin(v)) <= Clamp(lo, hi, Fin(w))
  {
  }
}
