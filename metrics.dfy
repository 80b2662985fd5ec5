/** The summary numbers of a hydrograph: accumulated volume, the most recent
    rate of change, the one-week linear forecast and the average band.  All
    readings are discharge in cubic feet per second, one every 15 minutes. */
module Metrics {
  import opened Outcomes
  import opened Numbers

  /** Seconds between two readings (15 * 60). */
  const SampleSeconds: real := 900.0
  /** Cubic feet in one acre-foot. */
  const CubicFeetPerAcreFoot: real := 43560.0
  /** Readings per hour. */
  const SamplesPerHour: real := 4.0

  // ---------------------------------------------------------------------------
  // CalculateVolume

  /** `sum(y_val * delta_t for y_val in y_vals)`: cubic feet. */
  function CubicFeet(ys: seq<real>): real
  {
    if ys == [] then 0.0 else CubicFeet(ys[..|ys| - 1]) + ys[|ys| - 1] * SampleSeconds
  }

  /** CalculateVolume: the accumulated volume, in acre-feet. */
  function CalculateVolume(ys: seq<real>): real
  {
    CubicFeet(ys) / CubicFeetPerAcreFoot
  }

  lemma {:induction false} CubicFeetIsScaledSum(ys: seq<real>)
    ensures CubicFeet(ys) == Sum(ys) * SampleSeconds
  {
    if ys != [] {
      CubicFeetIsScaledSum(ys[..|ys| - 1]);
    }
  }

  /** The volume is the summed readings times 900 seconds over 43560. */
  lemma VolumeIsScaledSum(ys: seq<real>)
    ensures CalculateVolume(ys) == Sum(ys) * SampleSeconds / CubicFeetPerAcreFoot
  {
    CubicFeetIsScaledSum(ys);
  }

  lemma VolumeOfNothing()
    ensures CalculateVolume([]) == 0.0
  {
  }

  lemma {:induction false} CubicFeetScale(ys: seq<real>, c: real)
    ensures CubicFeet(Scale(ys, c)) == c * CubicFeet(ys)
  {
    if ys != [] {
      var init := ys[..|ys| - 1];
      assert forall k :: 0 <= k < |init| ==> Scale(ys, c)[..|ys| - 1][k] == Scale(init, c)[k];
      assert Scale(ys, c)[..|ys| - 1] == Scale(init, c);
      CubicFeetScale(ys[..|ys| - 1], c);
    }
  }

  /** Scaling every reading by c scales the volume by c. */
  lemma VolumeScale(ys: seq<real>, c: real)
    ensures CalculateVolume(Scale(ys, c)) == c * CalculateVolume(ys)
  {
    CubicFeetScale(ys, c);
  }

  /** The volume of two consecutive stretches is the sum of their volumes. */
  lemma VolumeAppend(a: seq<real>, b: seq<real>)
    ensures CalculateVolume(a + b) == CalculateVolume(a) + CalculateVolume(b)
  {
    VolumeIsScaledSum(a + b);
    VolumeIsScaledSum(a);
    VolumeIsScaledSum(b);
    SumAppend(a, b);
  }

  lemma {:induction false} CubicFeetNonNegative(ys: seq<real>)
    requires forall k :: 0 <= k < |ys| ==> ys[k] >= 0.0
    ensures CubicFeet(ys) >= 0.0
  {
    if ys != [] {
      CubicFeetNonNegative(ys[..|ys| - 1]);
    }
  }

  /** Non-negative discharge gives a non-negative volume. */
  lemma VolumeNonNegative(ys: seq<real>)
    requires forall k :: 0 <= k < |ys| ==> ys[k] >= 0.0
    ensures CalculateVolume(ys) >= 0.0
  {
    CubicFeetNonNegative(ys);
  }

  // ---------------------------------------------------------------------------
  // CalculateFlow

  function Abs(x: real): real { if x < 0.0 then -x else x }

  /** j is the latest reading before the last one that differs from the last one. */
  ghost predicate IsLastChange(ys: seq<real>, j: int)
  {
    0 <= j < |ys| - 1 && ys[j] != ys[|ys| - 1]
    && forall k :: j < k < |ys| - 1 ==> ys[k] == ys[|ys| - 1]
  }

  /** What CalculateFlow promises: None for fewer than two readings; 0 when all
      readings are equal; otherwise four times the size of the last change, the
      per-hour rate of 15-minute readings. */
  ghost predicate IsRateOfChange(ys: seq<real>, r: Option<real>)
  {
    && (r.None? <==> |ys| < 2)
    && (r.Some? && (forall k :: 0 <= k < |ys| - 1 ==> ys[k] == ys[|ys| - 1]) ==> r.value == 0.0)
    && (forall j :: IsLastChange(ys, j) ==> r == Some(SamplesPerHour * Abs(ys[|ys| - 1] - ys[j])))
  }

  /** CalculateFlow: scans backwards from the reading before the last. */
  method CalculateFlow(ys: seq<real>) returns (r: Option<real>)
    ensures IsRateOfChange(ys, r)
  {
    if |ys| < 2 {
      return None;
    }
    var last := ys[|ys| - 1];
    var i := |ys| - 1;
    while i > 0
      invariant 0 <= i <= |ys| - 1
      invariant forall k :: i <= k < |ys| - 1 ==> ys[k] == last
    {
      i := i - 1;
      if ys[i] != last {
        var change := (last - ys[i]) * SamplesPerHour;
        assert IsLastChange(ys, i);
        assert forall j :: IsLastChange(ys, j) ==> j == i;
        return Some(Abs(change));
      }
    }
    return Some(0.0);
  }

  /** The rate is never negative, and it is zero only when nothing changed. */
  lemma RateOfChangeSign(ys: seq<real>, r: Option<real>)
    requires IsRateOfChange(ys, r) && r.Some?
    ensures r.value >= 0.0
    ensures r.value == 0.0 <==> forall k :: 0 <= k < |ys| - 1 ==> ys[k] == ys[|ys| - 1]
  {
    if exists k :: 0 <= k < |ys| - 1 && ys[k] != ys[|ys| - 1] {
      var j := LastChange(ys);
      assert IsLastChange(ys, j);
    }
  }

  /** The latest change point, when some reading differs from the last. */
  ghost function LastChange(ys: seq<real>): (j: int)
    requires exists k :: 0 <= k < |ys| - 1 && ys[k] != ys[|ys| - 1]
    ensures IsLastChange(ys, j)
    decreases |ys|
  {
    if ys[|ys| - 2] != ys[|ys| - 1] then |ys| - 2
    else
      var t := ys[..|ys| - 2] + [ys[|ys| - 1]];
      assert forall k :: 0 <= k < |ys| - 2 ==> t[k] == ys[k];
      var j := LastChange(t);
      j
  }

  /** The promise determines the result: there is only one rate of change. */
  lemma RateOfChangeUnique(ys: seq<real>, r1: Option<real>, r2: Option<real>)
    requires IsRateOfChange(ys, r1) && IsRateOfChange(ys, r2)
    ensures r1 == r2
  {
    if |ys| >= 2 && exists k :: 0 <= k < |ys| - 1 && ys[k] != ys[|ys| - 1] {
      var j := LastChange(ys);
    }
  }

  // ---------------------------------------------------------------------------
  // The forecast line

  /** The forecast horizon: one week, in seconds. */
  const WeekSeconds: real := 604800.0
  /** Number of forecast samples (67 * 7). */
  const ForecastSamples: nat := 469

  /** `numpy.linspace(start, stop, n)`: n evenly spaced values, the last one exactly stop. */
  function Linspace(start: real, stop: real, n: nat): (r: seq<real>)
    requires n >= 2
    ensures |r| == n && r[0] == start && r[n - 1] == stop
    ensures forall k :: 0 <= k < n - 1 ==> r[k + 1] - r[k] == (stop - start) / (n - 1) as real
  {
    var step := (stop - start) / (n - 1) as real;
    assert (n - 1) as real * step == stop - start;
    var r := seq(n, k requires 0 <= k < n => if k == n - 1 then stop else start + k as real * step);
    assert forall k :: 0 <= k < n - 1 ==> r[k + 1] - r[k] == step by {
      forall k | 0 <= k < n - 1 ensures r[k + 1] - r[k] == step {
        if k + 1 < n - 1 {
          assert r[k + 1] - r[k] == (k + 1) as real * step - k as real * step;
        } else {
          assert r[k + 1] - r[k] == (n - 1) as real * step - k as real * step;
        }
      }
    }
    r
  }

  /** `numpy.poly1d([slope, intercept])(x)` */
  function Predict(slope: real, intercept: real, x: real): real
  {
    slope * x + intercept
  }

  /** The intercept that puts the line through the last observed reading. */
  function Intercept(xs: seq<real>, ys: seq<real>, slope: real): real
    requires |xs| > 0 && |ys| > 0
  {
    ys[|ys| - 1] - slope * xs[|xs| - 1]
  }

  datatype Line = Line(xs: seq<real>, ys: seq<real>)

  /** The forecast of CreatePlot: 469 evenly spaced POSIX times over the week after
      the last observation, and the fitted line at each of them. */
  function Forecast(xs: seq<real>, ys: seq<real>, slope: real): (f: Line)
    requires |xs| > 0 && |ys| > 0
    ensures |f.xs| == ForecastSamples && |f.ys| == ForecastSamples
    ensures f.xs[0] == xs[|xs| - 1] && f.xs[ForecastSamples - 1] == xs[|xs| - 1] + WeekSeconds
    ensures forall k :: 0 <= k < ForecastSamples - 1 ==>
      f.xs[k + 1] - f.xs[k] == WeekSeconds / (ForecastSamples - 1) as real
  {
    var last := xs[|xs| - 1];
    var fx := Linspace(last, last + WeekSeconds, ForecastSamples);
    var b := Intercept(xs, ys, slope);
    Line(fx, seq(ForecastSamples, k requires 0 <= k < ForecastSamples => Predict(slope, b, fx[k])))
  }

  /** The forecast starts at the last observed reading and then changes by the
      same amount, slope times the sample spacing, from one sample to the next. */
  lemma ForecastAnchored(xs: seq<real>, ys: seq<real>, slope: real)
    requires |xs| > 0 && |ys| > 0
    ensures Forecast(xs, ys, slope).ys[0] == ys[|ys| - 1]
    ensures forall k :: 0 <= k < ForecastSamples - 1 ==>
      Forecast(xs, ys, slope).ys[k + 1] - Forecast(xs, ys, slope).ys[k]
        == slope * (WeekSeconds / (ForecastSamples - 1) as real)
  {
    var f := Forecast(xs, ys, slope);
    var step := WeekSeconds / (ForecastSamples - 1) as real;
    forall k | 0 <= k < ForecastSamples - 1
      ensures f.ys[k + 1] - f.ys[k] == slope * step
    {
      assert f.xs[k + 1] == f.xs[k] + step;
      assert f.ys[k + 1] - f.ys[k] == slope * f.xs[k + 1] - slope * f.xs[k];
    }
  }

  // ---------------------------------------------------------------------------
  // The average band

  /** The gray band of the plot: each average shifted down and up by the spread. */
  function Band(avg: seq<real>, spread: real): (band: (seq<real>, seq<real>))
    ensures |band.0| == |avg| && |band.1| == |avg|
  {
    (seq(|avg|, k requires 0 <= k < |avg| => avg[k] - spread),
     seq(|avg|, k requires 0 <= k < |avg| => avg[k] + spread))
  }

  /** With a non-negative spread the band encloses the average and is twice the spread wide. */
  lemma BandEncloses(avg: seq<real>, spread: real)
    requires spread >= 0.0
    ensures forall k :: 0 <= k < |avg| ==>
      Band(avg, spread).0[k] <= avg[k] <= Band(avg, spread).1[k]
      && Band(avg, spread).1[k] - Band(avg, spread).0[k] == 2.0 * spread
  {
  }
}
