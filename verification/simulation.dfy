/** The integration driver (`run`): the sample count, the time grid and one
    integration over it. The numerical integrator is a parameter: given the
    compiled system, the initial vector and the time grid it returns one row per
    grid point. */
module Simulation {
  import opened Outcomes
  import opened Records
  import opened Compositors
  import opened BioSystems
  import opened RateFolding

  /** Python's `int()` on a real: truncation toward zero. */
  function Trunc(x: real): (n: int)
    ensures 0.0 <= x ==> n as real <= x < n as real + 1.0
    ensures x < 0.0 ==> n as real - 1.0 < x <= n as real
  {
    if x >= 0.0 then x.Floor else -((-x).Floor)
  }

  /** Number of grid points for an interval of length `len`: 17 per whole time
      unit of the truncated length, but never fewer than 1000. */
  function SampleCount(len: real): (n: int)
    ensures n >= 1000 && n >= 17 * Trunc(len)
    ensures n == 1000 || n == 17 * Trunc(len)
  {
    if Trunc(len) * 17 > 1000 then Trunc(len) * 17 else 1000
  }

  /** The length is truncated, not rounded: 59.9 time units give 59 * 17 points. */
  lemma SampleCountTruncates()
    ensures SampleCount(59.9) == 1003
    ensures SampleCount(58.99) == 1000
    ensures SampleCount(-100.0) == 1000
  {
    assert Trunc(59.9) == 59;
    assert Trunc(58.99) == 58;
  }

  /** Every interval shorter than 59 time units gets the minimum resolution. */
  lemma ShortIntervalsGetMinimum(len: real)
    requires len < 59.0
    ensures SampleCount(len) == 1000
  {
  }

  /** `n` evenly spaced points from `t0` to `t1`, both included. */
  function Linspace(t0: real, t1: real, n: nat): (r: seq<real>)
    requires n >= 2
    ensures |r| == n && r[0] == t0 && r[n - 1] == t1
  {
    var h := (t1 - t0) / ((n - 1) as real);
    seq(n, k requires 0 <= k < n => if k == n - 1 then t1 else t0 + (k as real) * h)
  }

  lemma LinspaceIncreasing(t0: real, t1: real, n: nat, j: nat, k: nat)
    requires n >= 2 && t0 < t1 && j < k < n
    ensures Linspace(t0, t1, n)[j] < Linspace(t0, t1, n)[k]
  {
    var d := (n - 1) as real;
    var h := (t1 - t0) / d;
    var L := Linspace(t0, t1, n);
    StepSpan(t0, t1, d);
    if k < n - 1 {
      ScaledLess(t0, h, j as real, k as real, L[j], L[k]);
    } else {
      ScaledLess(t0, h, j as real, d, L[j], L[k]);
    }
  }

  lemma StepSpan(t0: real, t1: real, d: real)
    requires d > 0.0 && t0 < t1
    ensures (t1 - t0) / d > 0.0 && t0 + d * ((t1 - t0) / d) == t1
  {
  }

  /** Points `a < b` steps of a positive size `h` away from `t0` are in order. */
  lemma ScaledLess(t0: real, h: real, a: real, b: real, x: real, y: real)
    requires h > 0.0 && a < b && x == t0 + a * h && y == t0 + b * h
    ensures x < y
  {
    assert b * h - a * h == (b - a) * h;
    assert (b - a) * h > 0.0;
  }

  /** The grid is strictly increasing when the interval is non-empty. */
  lemma LinspaceStrictlyIncreasing(t0: real, t1: real, n: nat)
    requires n >= 2 && t0 < t1
    ensures forall j, k :: 0 <= j < k < n ==> Linspace(t0, t1, n)[j] < Linspace(t0, t1, n)[k]
  {
    forall j, k | 0 <= j < k < n ensures Linspace(t0, t1, n)[j] < Linspace(t0, t1, n)[k] {
      LinspaceIncreasing(t0, t1, n, j, k);
    }
  }

  /** The external integrator: (compiled system, initial vector, grid) to value rows. */
  type Integrator = (BioSystem, seq<real>, seq<real>) -> seq<seq<real>>

  ghost predicate IsMatrix(m: seq<seq<real>>, rows: nat, width: nat) {
    |m| == rows && forall r :: 0 <= r < |m| ==> |m[r]| == width
  }

  /** The integrator answers with one row per grid point, each as wide as the initial vector. */
  ghost predicate Shaped(solve: Integrator) {
    forall s, y0, grid :: IsMatrix(solve(s, y0, grid), |grid|, |y0|)
  }

  function Values(cs: seq<Compositor>): (v: seq<real>)
    ensures |v| == |cs| && forall j :: 0 <= j < |cs| ==> v[j] == cs[j].value
  {
    seq(|cs|, j requires 0 <= j < |cs| => cs[j].value)
  }

  datatype RunResult = RunResult(sys: BioSystem, times: seq<real>, rows: seq<seq<real>>)

  /** Every compositor has a compiled rate function. */
  predicate AllCompiled(cs: seq<Compositor>) {
    forall i :: 0 <= i < |cs| ==> cs[i].compiled
  }

  /** The ODE function will find a rate function for every compositor: either
      `run`'s fold is still to come and will compile them all, or every
      compositor already has one. */
  predicate Runnable(s: BioSystem) {
    !s.ratesDetermined || AllCompiled(s.compositors)
  }

  /** The ODE function found a compositor without a rate function. */
  datatype RunError = MissingRateFunction

  /** `run`: determines the rates, starts from the CURRENT values (not the initial
      ones) and integrates over a grid of `SampleCount(t1 - t0)` points. When the
      rates were already determined and a compositor was added since, that
      compositor has no rate function and the integration fails. */
  function Run(s: BioSystem, t0: real, t1: real, solve: Integrator): (r: Result<RunResult, RunError>)
    requires PartsWellFormed(s.parts) && Shaped(solve)
    ensures r.Success? <==> Runnable(s)
    ensures r.Failure? ==> s.ratesDetermined && r.error == MissingRateFunction
    ensures r.Success? ==> r.value.sys == DetermineRates(s)
    ensures r.Success? ==> |r.value.times| == SampleCount(t1 - t0) && r.value.times[0] == t0 && r.value.times[|r.value.times| - 1] == t1
    ensures r.Success? ==> r.value.times == Linspace(t0, t1, SampleCount(t1 - t0))
    ensures r.Success? ==> IsMatrix(r.value.rows, |r.value.times|, |s.compositors|)
    ensures r.Success? ==> r.value.rows == solve(r.value.sys, Values(s.compositors), r.value.times)
  {
    var sys := DetermineRates(s);
    assert Runnable(s) <==> AllCompiled(sys.compositors);
    if !AllCompiled(sys.compositors) then Failure(MissingRateFunction)
    else
      var t := Linspace(t0, t1, SampleCount(t1 - t0));
      Success(RunResult(sys, t, solve(sys, Values(s.compositors), t)))
  }

  /** A system whose rates are not determined yet always runs: the fold compiles every compositor. */
  lemma UndeterminedRuns(s: BioSystem, t0: real, t1: real, solve: Integrator)
    requires PartsWellFormed(s.parts) && Shaped(solve) && !s.ratesDetermined
    ensures Run(s, t0, t1, solve).Success?
  {
  }

  /** A compositor added after the rates were determined never gets a rate
      function (the flag stays set), so the next run fails. */
  lemma AddedAfterFoldFails(s: BioSystem, name: string, v: real, t0: real, t1: real, solve: Integrator)
    requires Valid(s) && PartsWellFormed(s.parts) && Shaped(solve)
    ensures PartsWellFormed(AddNewCompositor(DetermineRates(s), name, v).parts)
    ensures Run(AddNewCompositor(DetermineRates(s), name, v), t0, t1, solve).Failure?
  {
    var a := AddNewCompositor(DetermineRates(s), name, v);
    assert !a.compositors[|a.compositors| - 1].compiled;
  }
}
