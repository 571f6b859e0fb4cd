/**
  The bookkeeping of the serial primal-decomposition driver `hiopAlgPrimalDecomposition`: its
  settings read from the PriDec options, the stopping predicate, the counter of consecutive
  acceptable iterations, the outer iteration loop of `run_single`, and the averaging of the
  recourse values and gradients of the S contingencies. The master problem and the recourse
  evaluations are foreign calls: the values they produce are parameters.
 */
module PriDecDriver {
  import opened Ieee
  import opened Options
  import opened OptionsRegistry
  import opened PriDecHessian

  // ----- The acceptable-iteration counter -----

  /** The counter update of `run_single`: one more acceptable iteration when `convg <=
      accp_tol_` (false for NaN), a reset otherwise. */
  function NextCount(c: nat, convg: Ext, accpTol: real): nat
  {
    if LessEq(convg, Fin(accpTol)) then c + 1 else 0
  }

  /** The counter after the convergence measures `cs` of the iterations so far, starting at 0. */
  function CountAfter(cs: seq<Ext>, accpTol: real): nat
  {
    if cs == [] then 0 else NextCount(CountAfter(cs[..|cs| - 1], accpTol), cs[|cs| - 1], accpTol)
  }

  /** The counter is the length of the longest run of acceptable measures that ends at the
      latest iteration: it never exceeds the number of iterations, every measure of that run is
      acceptable, and the one just before it is not. */
  lemma {:induction false} CountAfterMeaning(cs: seq<Ext>, accpTol: real)
    ensures CountAfter(cs, accpTol) <= |cs|
    ensures forall k :: |cs| - CountAfter(cs, accpTol) <= k < |cs| ==> LessEq(cs[k], Fin(accpTol))
    ensures CountAfter(cs, accpTol) < |cs| ==> !LessEq(cs[|cs| - 1 - CountAfter(cs, accpTol)], Fin(accpTol))
  {
    if cs != [] {
      var init := cs[..|cs| - 1];
      CountAfterMeaning(init, accpTol);
      var c := CountAfter(init, accpTol);
      if LessEq(cs[|cs| - 1], Fin(accpTol)) {
        forall k | |cs| - (c + 1) <= k < |cs|
          ensures LessEq(cs[k], Fin(accpTol))
        {
          if k < |cs| - 1 {
            assert cs[k] == init[k];
          }
        }
        if c + 1 < |cs| {
          assert cs[|cs| - 1 - (c + 1)] == init[|init| - 1 - c];
        }
      }
    }
  }

  /** A run of m acceptable measures at the end brings the counter to at least m. */
  lemma {:induction false} CountAtLeastRun(cs: seq<Ext>, accpTol: real, m: nat)
    requires m <= |cs|
    requires forall k :: |cs| - m <= k < |cs| ==> LessEq(cs[k], Fin(accpTol))
    ensures CountAfter(cs, accpTol) >= m
  {
    if m > 0 {
      var init := cs[..|cs| - 1];
      forall k | |init| - (m - 1) <= k < |init|
        ensures LessEq(init[k], Fin(accpTol))
      {
        assert init[k] == cs[k];
      }
      CountAtLeastRun(init, accpTol, m - 1);
    }
  }

  /** The counter grows by one at a time, so before it exceeds c >= 1 it equals c after some
      prefix of the measures. */
  lemma {:induction false} CountPassesThrough(cs: seq<Ext>, accpTol: real, c: nat)
    requires 1 <= c <= CountAfter(cs, accpTol)
    ensures exists k :: 1 <= k <= |cs| && CountAfter(cs[..k], accpTol) == c
  {
    assert cs[..|cs|] == cs;
    if CountAfter(cs, accpTol) > c {
      var init := cs[..|cs| - 1];
      CountPassesThrough(init, accpTol, c);
      var k :| 1 <= k <= |init| && CountAfter(init[..k], accpTol) == c;
      assert init[..k] == cs[..k];
    }
  }

  /** The measure `convg` the loop tests in iteration `it`: 1e20 in the first iteration, which
      only solves the basecase, and afterwards the value the iteration computes. */
  function Convergence(measure: nat -> Ext, it: nat): Ext
  {
    if it == 0 then Fin(100000000000000000000.0) else measure(it)
  }

  function Measures(measure: nat -> Ext, k: nat): (cs: seq<Ext>)
    ensures |cs| == k && forall i :: 0 <= i < k ==> cs[i] == Convergence(measure, i)
  {
    seq(k, i requires 0 <= i < k => Convergence(measure, i))
  }

  lemma MeasuresStep(measure: nat -> Ext, k: nat)
    ensures Measures(measure, k + 1) == Measures(measure, k) + [Convergence(measure, k)]
  {
  }

  lemma MeasuresPrefix(measure: nat -> Ext, n: nat, k: nat)
    requires k <= n
    ensures Measures(measure, n)[..k] == Measures(measure, k)
  {
  }

  /** One more iteration updates the counter with that iteration's measure. */
  lemma CountStep(measure: nat -> Ext, i: nat, accpTol: real)
    ensures CountAfter(Measures(measure, i + 1), accpTol) ==
      NextCount(CountAfter(Measures(measure, i), accpTol), Convergence(measure, i), accpTol)
  {
    MeasuresStep(measure, i);
    assert Measures(measure, i + 1)[..i] == Measures(measure, i);
  }

  // ----- Serial aggregation of the recourse terms -----

  /** The sum of the recourse values in the order of the contingencies. */
  function Sum(fs: seq<real>): real
  {
    if fs == [] then 0.0 else Sum(fs[..|fs| - 1]) + fs[|fs| - 1]
  }

  /** The sum of the recourse gradients, each of dimension `nc`. */
  function VecSum(gs: seq<seq<real>>, nc: nat): (r: seq<real>)
    requires forall i :: 0 <= i < |gs| ==> |gs[i]| == nc
    ensures |r| == nc
  {
    if gs == [] then Zeros(nc) else Add(VecSum(gs[..|gs| - 1], nc), gs[|gs| - 1])
  }

  function Column(gs: seq<seq<real>>, nc: nat, k: nat): (r: seq<real>)
    requires forall i :: 0 <= i < |gs| ==> |gs[i]| == nc
    requires k < nc
    ensures |r| == |gs| && forall i :: 0 <= i < |gs| ==> r[i] == gs[i][k]
  {
    seq(|gs|, i requires 0 <= i < |gs| => gs[i][k])
  }

  /** Entry k of the vector sum is the sum of the entries k of the gradients. */
  lemma {:induction false} VecSumColumn(gs: seq<seq<real>>, nc: nat, k: nat)
    requires forall i :: 0 <= i < |gs| ==> |gs[i]| == nc
    requires k < nc
    ensures VecSum(gs, nc)[k] == Sum(Column(gs, nc, k))
  {
    if gs != [] {
      var init := gs[..|gs| - 1];
      VecSumColumn(init, nc, k);
      assert Column(gs, nc, k)[..|gs| - 1] == Column(init, nc, k);
    }
  }

  /** Values between lo and hi add up to between |fs| lo and |fs| hi. */
  lemma {:induction false} SumBounds(fs: seq<real>, lo: real, hi: real)
    requires forall i :: 0 <= i < |fs| ==> lo <= fs[i] <= hi
    ensures (|fs| as real) * lo <= Sum(fs) <= (|fs| as real) * hi
  {
    if fs != [] {
      var init := fs[..|fs| - 1];
      SumBounds(init, lo, hi);
      assert (|fs| as real) * lo == (|init| as real) * lo + lo;
      assert (|fs| as real) * hi == (|init| as real) * hi + hi;
    }
  }

  /** The average of values between lo and hi lies between them; in particular the average of
      S equal values is that value. */
  lemma {:induction false} MeanBounds(fs: seq<real>, lo: real, hi: real)
    requires |fs| > 0
    requires forall i :: 0 <= i < |fs| ==> lo <= fs[i] <= hi
    ensures lo <= Sum(fs) / (|fs| as real) <= hi
  {
    SumBounds(fs, lo, hi);
    var n := |fs| as real;
    assert lo == n * lo / n;
    assert hi == n * hi / n;
  }

  /** The loop over the contingencies in `run_single`: the accumulators start at zero, each
      recourse value `fs[i]` and gradient `gs[i]` is added in turn, and the sums are divided by
      S (the gradient through a scaling by 1/S). With no contingency the divisions are 0/0
      and 0 * inf, so both results are NaN. */
  method AggregateSerial(fs: seq<real>, gs: seq<seq<real>>, nc: nat) returns (rval: Ext, gradR: seq<Ext>)
    requires |fs| == |gs|
    requires forall i :: 0 <= i < |gs| ==> |gs[i]| == nc
    ensures rval == Div(Sum(fs), |fs| as real)
    ensures |gradR| == nc
    ensures forall k :: 0 <= k < nc ==> gradR[k] == Times(Div(1.0, |fs| as real), VecSum(gs, nc)[k])
    ensures |fs| > 0 ==> rval == Fin(Sum(fs) / (|fs| as real))
    ensures |fs| > 0 ==> forall k :: 0 <= k < nc ==> gradR[k] == Fin(VecSum(gs, nc)[k] / (|fs| as real))
    ensures |fs| == 0 ==> rval.NaN? && forall k :: 0 <= k < nc ==> gradR[k].NaN?
  {
    var sum := 0.0;
    var acc := Zeros(nc);
    var i := 0;
    while i < |fs|
      invariant 0 <= i <= |fs|
      invariant sum == Sum(fs[..i])
      invariant acc == VecSum(gs[..i], nc)
    {
      assert fs[..i + 1][..i] == fs[..i];
      assert gs[..i + 1][..i] == gs[..i];
      sum := sum + fs[i];
      acc := Add(acc, gs[i]);
      i := i + 1;
    }
    assert fs[..i] == fs && gs[..i] == gs;
    var s := |fs| as real;
    rval := Div(sum, s);
    var scale := Div(1.0, s);
    gradR := seq(nc, k requires 0 <= k < nc => Times(scale, acc[k]));
    if |fs| > 0 {
      forall k | 0 <= k < nc
        ensures gradR[k] == Fin(acc[k] / s)
      {
        assert (1.0 / s) * acc[k] == acc[k] / s;
      }
    }
  }

  // ----- The driver -----

  class PriDecSolver {
    var tol: real
    var accpTol: real
    /** `accp_count_`, the number of consecutive acceptable iterations that stops the loop. */
    var accpCount: int
    var maxIter: int
    var alphaMax: real
    var alphaMin: real
    var localAccum: string
    var ver: int
    var alphaRatio: real
    /** `it_`, the last iteration started. */
    var it: int

    /** `hiopAlgPrimalDecomposition(prob_in, ...)`: the settings are read from the PriDec
        options. The options object is a parameter here; the source builds it from the default
        option file. It asserts that alpha_max exceeds alpha_min and that the verbosity lies in
        0..12. `alpha_ratio_` is initialised with the class and is a parameter. */
    constructor (options: PriDecOptions, alphaRatio: real)
      requires IsNum(options.opts, Tolerance) && IsNum(options.opts, AcceptableTolerance)
      requires IsInt(options.opts, "acceptable_iterations") && IsInt(options.opts, "max_iter")
      requires IsNum(options.opts, "alpha_max") && IsNum(options.opts, "alpha_min")
      requires IsStr(options.opts, "accum_local") && IsInt(options.opts, "verbosity_level")
      requires options.GetNumeric("alpha_max") > options.GetNumeric("alpha_min")
      requires 0 <= options.GetInteger("verbosity_level") <= 12
      ensures tol == options.GetNumeric(Tolerance) && accpTol == options.GetNumeric(AcceptableTolerance)
      ensures accpCount == options.GetInteger("acceptable_iterations") && maxIter == options.GetInteger("max_iter")
      ensures alphaMax == options.GetNumeric("alpha_max") && alphaMin == options.GetNumeric("alpha_min")
      ensures localAccum == options.GetString("accum_local") && ver == options.GetInteger("verbosity_level")
      ensures this.alphaRatio == alphaRatio
      ensures alphaMin < alphaMax && 0 <= ver <= 12
    {
      tol := options.GetNumeric(Tolerance);
      accpTol := options.GetNumeric(AcceptableTolerance);
      accpCount := options.GetInteger("acceptable_iterations");
      maxIter := options.GetInteger("max_iter");
      alphaMax := options.GetNumeric("alpha_max");
      alphaMin := options.GetNumeric("alpha_min");
      localAccum := options.GetString("accum_local");
      ver := options.GetInteger("verbosity_level");
      this.alphaRatio := alphaRatio;
    }

    /** `set_verbosity`: the source asserts 0 <= i <= 12. */
    method SetVerbosity(i: int)
      requires 0 <= i <= 12
      modifies this`ver
      ensures ver == i
    {
      ver := i;
    }

    /** `set_initial_alpha_ratio`: the source asserts 0 <= alpha < 10. */
    method SetInitialAlphaRatio(alpha: real)
      requires 0.0 <= alpha < 10.0
      modifies this`alphaRatio
      ensures alphaRatio == alpha
    {
      alphaRatio := alpha;
    }

    /** `stopping_criteria(it, convg, accp_count)`: the loop stops below the tolerance, in the
        last allowed iteration, or after `accp_count_` consecutive acceptable iterations; a NaN
        measure is never below the tolerance. */
    predicate StoppingCriteria(it: int, convg: Ext, count: int)
      reads this`tol, this`maxIter, this`accpCount
    {
      if Less(convg, Fin(tol)) then true
      else if it == maxIter - 1 then true
      else count == accpCount
    }

    /** Whether iteration j of a run whose measures are `measure` stops the loop. */
    predicate StopsAt(measure: nat -> Ext, j: nat)
      reads this`tol, this`maxIter, this`accpCount, this`accpTol
    {
      StoppingCriteria(j, Convergence(measure, j), CountAfter(Measures(measure, j + 1), accpTol))
    }

    /** The iterations `j + 1 - accp_count_` to `j` all have an acceptable measure. */
    predicate AcceptableWindow(measure: nat -> Ext, j: nat)
      reads this`accpCount, this`accpTol
    {
      1 <= accpCount <= j + 1 &&
      forall i :: j + 1 - accpCount <= i <= j ==> LessEq(Convergence(measure, i), Fin(accpTol))
    }

    /** The outer loop of `run_single` with the per-iteration work abstracted to its
        convergence measure: it runs until the stopping predicate holds, and never more than
        `max_iter_` iterations. `iters` is the number of iterations run and `count` the last
        value of the acceptable counter. */
    method OuterLoop(measure: nat -> Ext) returns (iters: nat, count: nat)
      modifies this`it
      ensures maxIter <= 0 ==> iters == 0
      ensures maxIter > 0 ==> 1 <= iters <= maxIter && StopsAt(measure, iters - 1)
      ensures forall j :: 0 <= j < iters - 1 ==> !StopsAt(measure, j)
      ensures count == CountAfter(Measures(measure, iters), accpTol)
      ensures forall j :: 0 <= j && Less(Convergence(measure, j), Fin(tol)) ==> iters <= j + 1
      ensures forall j: nat :: AcceptableWindow(measure, j) ==> iters <= j + 1
      ensures iters > 0 ==> it == iters - 1
      ensures iters == 0 ==> it == old(it)
    {
      count := 0;
      var convg := Fin(100000000000000000000.0);
      var i: nat := 0;
      var stop := false;
      while i < maxIter && !stop
        invariant i == 0 || i <= maxIter
        invariant count == CountAfter(Measures(measure, i), accpTol)
        invariant i == 0 ==> convg == Fin(100000000000000000000.0)
        invariant forall j :: 0 <= j < i - 1 ==> !StopsAt(measure, j)
        invariant i > 0 ==> (StopsAt(measure, i - 1) <==> stop)
        invariant i > 0 ==> it == i - 1
        invariant i == 0 ==> it == old(it) && !stop
        decreases maxIter - i
      {
        it := i;
        if i > 0 {
          convg := measure(i);
        }
        CountStep(measure, i, accpTol);
        count := NextCount(count, convg, accpTol);
        stop := StoppingCriteria(i, convg, count);
        i := i + 1;
      }
      iters := i;
      StopBound(this, measure, iters);
    }
  }

  /** After `accp_count_` consecutive acceptable measures ending at iteration j the stopping
      predicate has held at j or earlier: the counter rises by one per acceptable iteration, so
      it equals `accp_count_` at some iteration up to j. */
  lemma {:induction false} AcceptableRunStops(s: PriDecSolver, measure: nat -> Ext, j: nat)
    requires s.AcceptableWindow(measure, j)
    ensures exists k :: 0 <= k <= j && s.StopsAt(measure, k)
  {
    var cs := Measures(measure, j + 1);
    CountAtLeastRun(cs, s.accpTol, s.accpCount);
    CountPassesThrough(cs, s.accpTol, s.accpCount);
    var k :| 1 <= k <= |cs| && CountAfter(cs[..k], s.accpTol) == s.accpCount;
    MeasuresPrefix(measure, j + 1, k);
    assert s.StopsAt(measure, k - 1);
  }

  /** A run that did not stop before its last iteration ends no later than any iteration
      whose measure is below the tolerance or that closes `accp_count_` acceptable measures. */
  lemma StopBound(s: PriDecSolver, measure: nat -> Ext, iters: nat)
    requires forall j :: 0 <= j < iters - 1 ==> !s.StopsAt(measure, j)
    ensures forall j :: 0 <= j && Less(Convergence(measure, j), Fin(s.tol)) ==> iters <= j + 1
    ensures forall j: nat :: s.AcceptableWindow(measure, j) ==> iters <= j + 1
  {
    forall j | 0 <= j && Less(Convergence(measure, j), Fin(s.tol))
      ensures iters <= j + 1
    {
      assert s.StopsAt(measure, j);
    }
    forall j: nat | s.AcceptableWindow(measure, j)
      ensures iters <= j + 1
    {
      AcceptableRunStops(s, measure, j);
    }
  }
}
