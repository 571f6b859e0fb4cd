/**
  `hiopAlgPrimalDecomposition::HessianApprox`: the scalar quadratic model alpha/2 ||x - x_{k-1}||^2
  of the recourse function that the primal-decomposition solver adds to its master problem,
  with the secant state of the last step, the trust-region rule adapting `ratio_`, and the
  clamped candidates for the quadratic coefficient. Vectors are sequences of reals and
  ||v||^2 is the dot product v.v.
 */
module PriDecHessian {
  import opened Ieee

  // ----- Vectors -----

  /** `dotProductWith`. */
  function Dot(a: seq<real>, b: seq<real>): real
    requires |a| == |b|
  {
    if |a| == 0 then 0.0 else a[0] * b[0] + Dot(a[1..], b[1..])
  }

  /** `copyFrom(a); axpy(-1.0, b)`. */
  function Sub(a: seq<real>, b: seq<real>): (r: seq<real>)
    requires |a| == |b|
    ensures |r| == |a| && forall i :: 0 <= i < |a| ==> r[i] == a[i] - b[i]
  {
    seq(|a|, i requires 0 <= i < |a| => a[i] - b[i])
  }

  function Add(a: seq<real>, b: seq<real>): (r: seq<real>)
    requires |a| == |b|
    ensures |r| == |a| && forall i :: 0 <= i < |a| ==> r[i] == a[i] + b[i]
  {
    seq(|a|, i requires 0 <= i < |a| => a[i] + b[i])
  }

  function Scale(c: real, a: seq<real>): (r: seq<real>)
    ensures |r| == |a| && forall i :: 0 <= i < |a| ==> r[i] == c * a[i]
  {
    seq(|a|, i requires 0 <= i < |a| => c * a[i])
  }

  function Zeros(n: nat): (r: seq<real>)
    ensures |r| == n && forall i :: 0 <= i < n ==> r[i] == 0.0
  {
    seq(n, _ => 0.0)
  }

  predicate IsZero(a: seq<real>)
  {
    forall i :: 0 <= i < |a| ==> a[i] == 0.0
  }

  /** The dot product is linear in its second argument. */
  lemma {:induction false} DotSub(g: seq<real>, a: seq<real>, b: seq<real>)
    requires |g| == |a| == |b|
    ensures Dot(g, Sub(a, b)) == Dot(g, a) - Dot(g, b)
  {
    if |g| > 0 {
      assert Sub(a, b)[1..] == Sub(a[1..], b[1..]);
      DotSub(g[1..], a[1..], b[1..]);
      assert g[0] * (a[0] - b[0]) == g[0] * a[0] - g[0] * b[0];
    }
  }

  lemma {:induction false} DotScale(s: seq<real>, c: real)
    ensures Dot(s, Scale(c, s)) == c * Dot(s, s)
  {
    if |s| > 0 {
      assert Scale(c, s)[1..] == Scale(c, s[1..]) by {
        forall i | 0 <= i < |s| - 1
          ensures Scale(c, s)[1..][i] == Scale(c, s[1..])[i]
        {
          assert s[1..][i] == s[i + 1];
        }
      }
      DotScale(s[1..], c);
      assert s[0] * (c * s[0]) == c * (s[0] * s[0]);
    }
  }

  lemma MulAddPos(x: real, y: real, b: real)
    requires x > 0.0 && y > 0.0 && b >= 0.0
    ensures x * y + b > 0.0
  {
  }

  /** A square added to a non-negative number is non-negative, and positive off zero. */
  lemma SquareAdd(x: real, b: real)
    requires b >= 0.0
    ensures x * x + b >= 0.0
    ensures x != 0.0 ==> x * x + b > 0.0
    ensures x == 0.0 ==> x * x + b == b
  {
    if x > 0.0 {
      MulAddPos(x, x, b);
    } else if x < 0.0 {
      assert x * x == (-x) * (-x);
      MulAddPos(-x, -x, b);
    }
  }

  /** ||s||^2 is never negative, and is zero exactly for the zero vector. */
  lemma {:induction false} NormSquared(s: seq<real>)
    ensures Dot(s, s) >= 0.0
    ensures Dot(s, s) == 0.0 <==> IsZero(s)
  {
    if |s| > 0 {
      var t := s[1..];
      assert Dot(s, s) == s[0] * s[0] + Dot(t, t);
      NormSquared(t);
      SquareAdd(s[0], Dot(t, t));
      assert IsZero(s) <==> s[0] == 0.0 && IsZero(t) by {
        if s[0] == 0.0 && IsZero(t) {
          forall i | 0 <= i < |s|
            ensures s[i] == 0.0
          {
            if i > 0 {
              assert s[i] == t[i - 1];
            }
          }
        }
        if IsZero(s) {
          forall i | 0 <= i < |t|
            ensures t[i] == 0.0
          {
            assert t[i] == s[i + 1];
          }
        }
      }
    }
  }

  /** The dot product with a zero vector is zero. */
  lemma {:induction false} DotZero(s: seq<real>, y: seq<real>)
    requires |s| == |y| && IsZero(s)
    ensures Dot(s, y) == 0.0
  {
    if |s| > 0 {
      assert IsZero(s[1..]) by {
        forall i | 0 <= i < |s| - 1
          ensures s[1..][i] == 0.0
        {
          assert s[1..][i] == s[i + 1];
        }
      }
      DotZero(s[1..], y[1..]);
    }
  }

  /** The quadratic term alpha/2 ||s||^2 of the model. */
  function Curvature(alpha: real, s: seq<real>): real
  {
    0.5 * alpha * Dot(s, s)
  }

  /** The quadratic model of the recourse function built at `x0` with value `f0`, gradient
      `g0` and coefficient alpha, evaluated at `x`. */
  function QuadModel(f0: real, g0: seq<real>, alpha: real, x0: seq<real>, x: seq<real>): real
    requires |g0| == |x0| == |x|
  {
    var s := Sub(x, x0);
    f0 + Dot(g0, s) + Curvature(alpha, s)
  }

  // ----- The trust-region rule for `ratio_` -----

  /** `update_ratio_tr(rhok, alpha_ratio)` before the clamp: the ratio grows when the actual
      decrease is below a quarter of the predicted one (or rho is -inf), shrinks when it is
      above three quarters, and stays otherwise (in particular when rho is NaN). */
  function RatioRule2(rhok: Ext, r: real): real
  {
    if Less(rhok, Fin(0.25)) then r / 0.75
    else if Less(Fin(0.75), rhok) then r * 0.75
    else r
  }

  /** The rule with the clamp into [ratio_min, ratio_max]. */
  function RatioTr2(rhok: Ext, r: real, ratioMin: real, ratioMax: real): (nr: real)
    ensures ratioMin <= ratioMax ==> ratioMin <= nr <= ratioMax
  {
    Clamp(ratioMin, ratioMax, Fin(RatioRule2(rhok, r)))
  }

  /** The step the two-argument rule reports as to be rejected; nothing is rolled back. */
  predicate Rejected2(rhok: Ext)
  {
    Less(rhok, Fin(0.125))
  }

  /** `update_ratio_tr(rhok, rkm1, rk, alpha_g_ratio, alpha_ratio)` before the clamp. */
  function RatioRule5(rhok: Ext, rkm1: real, rk: real, alphaGRatio: Ext, r: real): real
  {
    if Less(Fin(0.0), rhok) && Less(rhok, Fin(0.25)) && rkm1 - rk > 0.0 then r / 0.75
    else if Less(rhok, Fin(0.0)) && rkm1 - rk < 0.0 then r / 0.75
    else if Less(Fin(0.75), rhok) && Less(rhok, Fin(1.333)) && rkm1 - rk > 0.0 && Less(Fin(0.1), alphaGRatio) then r * 0.75
    else if Less(Fin(1.333), rhok) && rkm1 - rk < 0.0 then r / 0.75
    else r
  }

  function RatioTr5(rhok: Ext, rkm1: real, rk: real, alphaGRatio: Ext, r: real, ratioMin: real, ratioMax: real): (nr: real)
    ensures ratioMin <= ratioMax ==> ratioMin <= nr <= ratioMax
  {
    Clamp(ratioMin, ratioMax, Fin(RatioRule5(rhok, rkm1, rk, alphaGRatio, r)))
  }

  /** The step the five-argument rule reports as rejected. */
  predicate Rejected5(rhok: Ext, rkm1: real, rk: real)
  {
    (Less(Fin(0.0), rhok) && Less(rhok, Fin(0.125)) && rkm1 - rk > 0.0) || (Less(rhok, Fin(0.0)) && rkm1 - rk < 0.0)
  }

  /** For a non-negative ratio the two-argument rule moves it in the direction its comment
      gives: up below a quarter, down above three quarters, and not at all in between or for
      a NaN rho; a step it reports as rejected is always one that raised the ratio. */
  lemma {:induction false} RatioTr2Direction(rhok: Ext, r: real, ratioMin: real, ratioMax: real)
    requires ratioMin <= ratioMax && r >= 0.0
    ensures Less(rhok, Fin(0.25)) ==> RatioTr2(rhok, r, ratioMin, ratioMax) >= Clamp(ratioMin, ratioMax, Fin(r))
    ensures Less(Fin(0.75), rhok) ==> RatioTr2(rhok, r, ratioMin, ratioMax) <= Clamp(ratioMin, ratioMax, Fin(r))
    ensures !Less(rhok, Fin(0.25)) && !Less(Fin(0.75), rhok) ==> RatioTr2(rhok, r, ratioMin, ratioMax) == Clamp(ratioMin, ratioMax, Fin(r))
    ensures rhok.NaN? ==> RatioTr2(rhok, r, ratioMin, ratioMax) == Clamp(ratioMin, ratioMax, Fin(r))
    ensures Rejected2(rhok) ==> RatioRule2(rhok, r) == r / 0.75
  {
    if Less(rhok, Fin(0.25)) {
      ClampMonotone(ratioMin, ratioMax, r, r / 0.75);
    } else if Less(Fin(0.75), rhok) {
      ClampMonotone(ratioMin, ratioMax, r * 0.75, r);
    }
  }

  /** The five-argument rule: the ratio never shrinks when the recourse value grew, a NaN rho
      leaves it alone, and a step reported as rejected always raised it. */
  lemma {:induction false} RatioTr5Direction(rhok: Ext, rkm1: real, rk: real, alphaGRatio: Ext, r: real)
    ensures rkm1 - rk <= 0.0 ==> RatioRule5(rhok, rkm1, rk, alphaGRatio, r) in {r, r / 0.75}
    ensures rhok.NaN? ==> RatioRule5(rhok, rkm1, rk, alphaGRatio, r) == r
    ensures Rejected5(rhok, rkm1, rk) ==> RatioRule5(rhok, rkm1, rk, alphaGRatio, r) == r / 0.75
  {
  }

  // ----- The candidates for alpha -----

  /** `get_alpha_BB`: the Barzilai-Borwein quotient (s.y)/(s.s), clamped. */
  function AlphaBB(s: seq<real>, y: seq<real>, alphaMin: real, alphaMax: real): (a: real)
    requires |s| == |y|
    ensures alphaMin <= alphaMax ==> alphaMin <= a <= alphaMax
  {
    Clamp(alphaMin, alphaMax, Div(Dot(s, y), Dot(s, s)))
  }

  /** `get_alpha_f`: ratio * ||g||^2 / (2 fk), clamped. */
  function AlphaF(g: seq<real>, fk: real, ratio: real, alphaMin: real, alphaMax: real): (a: real)
    ensures alphaMin <= alphaMax ==> alphaMin <= a <= alphaMax
  {
    Clamp(alphaMin, alphaMax, Times(Div(Dot(g, g) / 2.0, fk), ratio))
  }

  /** `get_alpha_tr`: the current alpha times `tr_ratio_`, clamped. */
  function AlphaTr(alpha: real, trRatio: real, alphaMin: real, alphaMax: real): (a: real)
    ensures alphaMin <= alphaMax ==> alphaMin <= a <= alphaMax
  {
    Clamp(alphaMin, alphaMax, Fin(alpha * trRatio))
  }

  /** The secant quotient recovers the curvature c of a quadratic whose gradient change is
      y = c s; a zero step gives 0/0, a NaN that the clamp turns into alpha_min. */
  lemma {:induction false} AlphaBBSecant(s: seq<real>, c: real, alphaMin: real, alphaMax: real)
    requires alphaMin <= alphaMax
    ensures !IsZero(s) ==> AlphaBB(s, Scale(c, s), alphaMin, alphaMax) == Clamp(alphaMin, alphaMax, Fin(c))
    ensures IsZero(s) ==> AlphaBB(s, Scale(c, s), alphaMin, alphaMax) == alphaMin
  {
    NormSquared(s);
    DotScale(s, c);
    if IsZero(s) {
      DotZero(s, Scale(c, s));
    } else {
      assert Dot(s, Scale(c, s)) / Dot(s, s) == c;
    }
  }

  /** With a positive ratio and a positive value fk, the f-based candidate is the quotient
      ratio ||g||^2 / (2 fk) whenever that lies in the bounds; a zero gradient at fk == 0 is a
      NaN that ends on alpha_min. */
  lemma {:induction false} AlphaFCases(g: seq<real>, fk: real, ratio: real, alphaMin: real, alphaMax: real)
    requires alphaMin <= alphaMax
    ensures fk != 0.0 && alphaMin <= Dot(g, g) / 2.0 / fk * ratio <= alphaMax ==>
      AlphaF(g, fk, ratio, alphaMin, alphaMax) == Dot(g, g) / 2.0 / fk * ratio
    ensures fk == 0.0 && IsZero(g) ==> AlphaF(g, fk, ratio, alphaMin, alphaMax) == alphaMin
    ensures fk == 0.0 && !IsZero(g) && ratio > 0.0 ==> AlphaF(g, fk, ratio, alphaMin, alphaMax) == alphaMax
  {
    NormSquared(g);
    if fk == 0.0 && !IsZero(g) {
      assert Dot(g, g) / 2.0 > 0.0;
    }
  }

  // ----- The object -----

  class HessianApprox {
    /** `n_`, the number of coupled variables. */
    var n: nat
    var fkm1: real
    var fk: real
    var fkm1Lin: real
    /** x_{k-1}, s_{k-1} = x_k - x_{k-1}, y_{k-1} = g_k - g_{k-1} and g_{k-1}. */
    var xkm1: seq<real>
    var skm1: seq<real>
    var ykm1: seq<real>
    var gkm1: seq<real>
    var alpha: real
    var ratio: real
    var trRatio: real
    var ratioMin: real
    var ratioMax: real
    var alphaMin: real
    var alphaMax: real

    /** All four vectors have the dimension n. */
    predicate Valid()
      reads this`n, this`xkm1, this`skm1, this`ykm1, this`gkm1
    {
      |xkm1| == n && |skm1| == n && |ykm1| == n && |gkm1| == n
    }

    /** `HessianApprox(n, ratio, ...)`: the function values start at 1e20. The initial alpha,
        `tr_ratio_` and the four bounds are declared with the class and are parameters here;
        the vectors are created with dimension n and start at zero. */
    constructor (n: nat, ratio: real, alpha: real, trRatio: real, ratioMin: real, ratioMax: real,
                 alphaMin: real, alphaMax: real)
      ensures Valid() && this.n == n && this.ratio == ratio && this.alpha == alpha && this.trRatio == trRatio
      ensures this.ratioMin == ratioMin && this.ratioMax == ratioMax && this.alphaMin == alphaMin && this.alphaMax == alphaMax
      ensures fkm1 == 100000000000000000000.0 && fk == 100000000000000000000.0 && fkm1Lin == 100000000000000000000.0
      ensures xkm1 == Zeros(n) && skm1 == Zeros(n) && ykm1 == Zeros(n) && gkm1 == Zeros(n)
    {
      this.n := n;
      fkm1 := 100000000000000000000.0;
      fk := 100000000000000000000.0;
      fkm1Lin := 100000000000000000000.0;
      xkm1 := Zeros(n);
      skm1 := Zeros(n);
      ykm1 := Zeros(n);
      gkm1 := Zeros(n);
      this.alpha := alpha;
      this.ratio := ratio;
      this.trRatio := trRatio;
      this.ratioMin := ratioMin;
      this.ratioMax := ratioMax;
      this.alphaMin := alphaMin;
      this.alphaMax := alphaMax;
    }

    /** `set_alpha_min`. */
    method SetAlphaMin(a: real)
      modifies this`alphaMin
      ensures alphaMin == a
    {
      alphaMin := a;
    }

    /** `set_alpha_max`. */
    method SetAlphaMax(a: real)
      modifies this`alphaMax
      ensures alphaMax == a
    {
      alphaMax := a;
    }

    /** `set_alpha_ratio_min`. */
    method SetAlphaRatioMin(r: real)
      modifies this`ratioMin
      ensures ratioMin == r
    {
      ratioMin := r;
    }

    /** `set_alpha_ratio_max`. */
    method SetAlphaRatioMax(r: real)
      modifies this`ratioMax
      ensures ratioMax == r
    {
      ratioMax := r;
    }

    /** `initialize(f_val, xk, grad)`: the value and the first n entries of the point and the
        gradient become the state of the previous iterate; s and y are left alone. */
    method Initialize(fVal: real, xk: seq<real>, grad: seq<real>)
      requires Valid() && |xk| >= n && |grad| >= n
      modifies this`fk, this`xkm1, this`gkm1
      ensures Valid() && fk == fVal && xkm1 == xk[..n] && gkm1 == grad[..n]
    {
      fk := fVal;
      xkm1 := xk[..n];
      gkm1 := grad[..n];
    }

    /** `update_hess_coeff(xk, gk, f_val)`: the secant pair of the step and the linear term of
        the model; afterwards the model value is the quadratic model built at the previous
        iterate and evaluated at the new one. */
    method UpdateHessCoeff(xk: seq<real>, gk: seq<real>, fVal: real)
      requires Valid() && |xk| == n && |gk| == n
      modifies this`fkm1, this`fk, this`skm1, this`ykm1, this`xkm1, this`fkm1Lin, this`gkm1
      ensures Valid() && fkm1 == old(fk) && fk == fVal
      ensures skm1 == Sub(xk, old(xkm1)) && ykm1 == Sub(gk, old(gkm1)) && xkm1 == xk && gkm1 == gk
      ensures fkm1Lin == Dot(old(gkm1), skm1) == Dot(old(gkm1), xk) - Dot(old(gkm1), old(xkm1))
      ensures RecourseModel() == QuadModel(old(fk), old(gkm1), alpha, old(xkm1), xk)
    {
      var s := Sub(xk, xkm1);
      var y := Sub(gk, gkm1);
      var lin := Dot(gkm1, s);
      DotSub(gkm1, xk, xkm1);
      fkm1 := fk;
      fk := fVal;
      skm1 := s;
      ykm1 := y;
      xkm1 := xk;
      fkm1Lin := lin;
      gkm1 := gk;
    }

    /** The model value fkm1 + fkm1_lin + alpha/2 ||s||^2 that `update_ratio` and
        `compute_base` use. */
    function RecourseModel(): real
      reads this`n, this`xkm1, this`skm1, this`ykm1, this`gkm1, this`fkm1, this`fkm1Lin, this`alpha
      requires Valid()
    {
      fkm1 + fkm1Lin + Curvature(alpha, skm1)
    }

    /** The rho of `update_ratio(base_v, base_vm1)`: actual over predicted decrease of the
        total objective. */
    function Rho(baseV: real, baseVm1: real): Ext
      reads this`n, this`xkm1, this`skm1, this`ykm1, this`gkm1, this`fkm1, this`fkm1Lin, this`alpha, this`fk
      requires Valid()
    {
      Div(baseVm1 + fkm1 - fk - baseV, fkm1 + baseVm1 - RecourseModel() - baseV)
    }

    /** `update_ratio(base_v, base_vm1)`: the two-argument trust-region rule applied to
        `ratio_`; with ordered ratio bounds the ratio ends between them. */
    method UpdateRatio(baseV: real, baseVm1: real)
      requires Valid()
      modifies this`ratio
      ensures ratio == RatioTr2(Rho(baseV, baseVm1), old(ratio), ratioMin, ratioMax)
      ensures ratioMin <= ratioMax ==> ratioMin <= ratio <= ratioMax
    {
      var rk := fkm1 + fkm1Lin;
      rk := rk + Curvature(alpha, skm1);
      var rhoK := Div(baseVm1 + fkm1 - fk - baseV, fkm1 + baseVm1 - rk - baseV);
      ratio := RatioTr2(rhoK, ratio, ratioMin, ratioMax);
    }

    /** `get_alpha_BB`. */
    method GetAlphaBB() returns (a: real)
      requires Valid()
      modifies this`alpha
      ensures a == alpha == AlphaBB(skm1, ykm1, alphaMin, alphaMax)
      ensures alphaMin <= alphaMax ==> alphaMin <= alpha <= alphaMax
    {
      var temp1 := Dot(skm1, skm1);
      var temp2 := Dot(skm1, ykm1);
      alpha := Clamp(alphaMin, alphaMax, Div(temp2, temp1));
      a := alpha;
    }

    /** `get_alpha_f(gk)`. */
    method GetAlphaF(gk: seq<real>) returns (a: real)
      modifies this`alpha
      ensures a == alpha == AlphaF(gk, fk, ratio, alphaMin, alphaMax)
      ensures alphaMin <= alphaMax ==> alphaMin <= alpha <= alphaMax
    {
      var temp3 := Dot(gk, gk);
      var q := Div(temp3 / 2.0, fk);
      alpha := Clamp(alphaMin, alphaMax, Times(q, ratio));
      a := alpha;
    }

    /** `get_alpha_tr`. */
    method GetAlphaTr() returns (a: real)
      modifies this`alpha
      ensures a == alpha == AlphaTr(old(alpha), trRatio, alphaMin, alphaMax)
      ensures alphaMin <= alphaMax ==> alphaMin <= alpha <= alphaMax
    {
      alpha := Clamp(alphaMin, alphaMax, Fin(alpha * trRatio));
      a := alpha;
    }

    /** `check_convergence_fcn(base_v, base_vm1)`: the absolute change of the total objective
        that the model predicts, which is zero exactly when the model value plus the new base
        value equals the previous recourse value plus the previous base value. */
    function CheckConvergenceFcn(baseV: real, baseVm1: real): (c: real)
      reads this`n, this`xkm1, this`skm1, this`ykm1, this`gkm1, this`fkm1, this`fkm1Lin, this`alpha
      requires Valid()
      ensures c >= 0.0
      ensures c == 0.0 <==> RecourseModel() + baseV == fkm1 + baseVm1
    {
      var predictedDecrease := fkm1Lin + Curvature(alpha, skm1) + (baseV - baseVm1);
      if predictedDecrease < 0.0 then -predictedDecrease else predictedDecrease
    }

    /** `compute_base(val)`: the objective of the master problem without the model value, so
        that the base value of an objective made of base value and model is recovered. */
    function ComputeBase(val: real): (b: real)
      reads this`n, this`xkm1, this`skm1, this`ykm1, this`gkm1, this`fkm1, this`fkm1Lin, this`alpha
      requires Valid()
      ensures b + RecourseModel() == val
    {
      val - (fkm1 + fkm1Lin + Curvature(alpha, skm1))
    }
  }

  /** In `run_single` the base value is `compute_base` of the master objective, and the
      function measure of that base value is then the distance between the master objective
      and the previous total objective fkm1 + base_vm1. */
  lemma ConvergenceOfMaster(h: HessianApprox, masterObj: real, baseVm1: real)
    requires h.Valid()
    ensures var c := h.CheckConvergenceFcn(h.ComputeBase(masterObj), baseVm1);
      c == if masterObj < h.fkm1 + baseVm1 then h.fkm1 + baseVm1 - masterObj else masterObj - (h.fkm1 + baseVm1)
  {
  }
}
