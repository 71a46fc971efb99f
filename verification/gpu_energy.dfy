/** The trapezoidal integration of GPU power samples in tools/energy-meter/meter.py. */
module GpuEnergy {
  import opened Options

  /** A time in seconds and a power in milliwatts. */
  datatype Sample = Sample(time: real, milliwatts: real)

  const SAMPLE_INTERVAL := 0.1

  /** The time step that the integration uses: a clock that stood still counts as
      one sampling interval. */
  function Step(a: Sample, b: Sample): real {
    if b.time > a.time then b.time - a.time else SAMPLE_INTERVAL
  }

  /** The mean power between two samples, in watts. */
  function Mean(a: Sample, b: Sample): real {
    (a.milliwatts + b.milliwatts) / 2.0 / 1000.0
  }

  function Slice(a: Sample, b: Sample): real {
    Mean(a, b) * Step(a, b)
  }

  function Integral(samples: seq<Sample>): real {
    if |samples| < 2 then 0.0
    else Integral(samples[..|samples| - 1]) + Slice(samples[|samples| - 2], samples[|samples| - 1])
  }

  /** What `stop` makes of the samples collected. */
  function Energy(samples: seq<Sample>): Option<real> {
    if |samples| == 0 then None
    else if |samples| == 1 then Some(samples[0].milliwatts / 1000.0 * SAMPLE_INTERVAL)
    else Some(Integral(samples))
  }

  /** The sampler: the polling thread appends under the lock, `stop` integrates. */
  class Sampler {
    var available: bool
    var samples: seq<Sample>

    constructor (available: bool)
      ensures this.available == available && samples == []
    {
      this.available := available;
      samples := [];
    }

    method Start()
      modifies this`samples
      ensures samples == if available then [] else old(samples)
    {
      if !available { return; }
      samples := [];
    }

    method Poll(sample: Sample)
      modifies this`samples
      ensures samples == old(samples) + [sample]
    {
      samples := samples + [sample];
    }

    method Stop() returns (joules: Option<real>)
      ensures joules == if available then Energy(samples) else None
    {
      if !available { return None; }
      if |samples| < 2 {
        if |samples| == 1 { return Some(samples[0].milliwatts / 1000.0 * SAMPLE_INTERVAL); }
        return None;
      }
      var sum := 0.0;
      for i := 1 to |samples|
        invariant sum == Integral(samples[..i])
      {
        var (a, b) := (samples[i - 1], samples[i]);
        assert samples[..i + 1][..i] == samples[..i];
        var avg := (a.milliwatts + b.milliwatts) / 2.0 / 1000.0;
        var dt := if b.time > a.time then b.time - a.time else SAMPLE_INTERVAL;
        sum := sum + avg * dt;
      }
      assert samples[..|samples|] == samples;
      return Some(sum);
    }
  }

  ghost predicate Advances(samples: seq<Sample>) {
    forall i :: 0 <= i < |samples| - 1 ==> Later(samples, i)
  }

  ghost predicate Later(samples: seq<Sample>, i: nat)
    requires i < |samples| - 1
  {
    samples[i].time < samples[i + 1].time
  }

  function Elapsed(samples: seq<Sample>): real {
    if samples == [] then 0.0 else samples[|samples| - 1].time - samples[0].time
  }

  ghost predicate Within(samples: seq<Sample>, low: real, high: real) {
    forall i :: 0 <= i < |samples| ==> low <= samples[i].milliwatts <= high
  }

  /** The energy of a constant power. */
  function EnergyAt(milliwatts: real, seconds: real): real {
    milliwatts / 1000.0 * seconds
  }

  lemma EnergyAtAdds(milliwatts: real, s: real, t: real)
    ensures EnergyAt(milliwatts, s + t) == EnergyAt(milliwatts, s) + EnergyAt(milliwatts, t)
    ensures EnergyAt(milliwatts, 0.0) == 0.0
  {
  }

  lemma AdvancesPrefix(samples: seq<Sample>)
    requires Advances(samples) && |samples| > 1
    ensures Advances(samples[..|samples| - 1])
    ensures samples[|samples| - 2].time < samples[|samples| - 1].time
  {
    var front := samples[..|samples| - 1];
    forall i | 0 <= i < |front| - 1 ensures Later(front, i) { assert Later(samples, i); }
    assert Later(samples, |samples| - 2);
  }

  lemma MulBounds(low: real, x: real, high: real, d: real)
    requires low <= x <= high && d >= 0.0
    ensures low * d <= x * d <= high * d
  {
  }

  lemma SliceIsBounded(a: Sample, b: Sample, low: real, high: real)
    requires a.time < b.time && low <= a.milliwatts <= high && low <= b.milliwatts <= high
    ensures EnergyAt(low, b.time - a.time) <= Slice(a, b) <= EnergyAt(high, b.time - a.time)
  {
    MulBounds(low / 1000.0, Mean(a, b), high / 1000.0, b.time - a.time);
  }

  /** The energy lies between the least and the greatest power times the elapsed time. */
  lemma {:induction false} EnergyIsBounded(samples: seq<Sample>, low: real, high: real)
    requires Advances(samples) && samples != [] && Within(samples, low, high)
    ensures EnergyAt(low, Elapsed(samples)) <= Integral(samples) <= EnergyAt(high, Elapsed(samples))
  {
    hide Slice, EnergyAt;
    if |samples| > 1 {
      var (front, a, b) := (samples[..|samples| - 1], samples[|samples| - 2], samples[|samples| - 1]);
      AdvancesPrefix(samples);
      EnergyIsBounded(front, low, high);
      SliceIsBounded(a, b, low, high);
      EnergyAtAdds(low, Elapsed(front), b.time - a.time);
      EnergyAtAdds(high, Elapsed(front), b.time - a.time);
    } else {
      EnergyAtAdds(low, 0.0, 0.0);
      EnergyAtAdds(high, 0.0, 0.0);
    }
  }

  lemma Distributes(k: real, a: real, b: real)
    ensures k * (a + b) == k * a + k * b
  {
  }

  /** The energy splits at any sample. */
  lemma {:induction false} EnergySplits(samples: seq<Sample>, i: nat)
    requires i < |samples|
    ensures Integral(samples) == Integral(samples[..i + 1]) + Integral(samples[i..])
    decreases |samples|
  {
    hide Slice;
    if i == |samples| - 1 {
      assert samples[..i + 1] == samples;
    } else {
      var (front, tail) := (samples[..|samples| - 1], samples[i..]);
      EnergySplits(front, i);
      FrontOfTail(samples, i);
      assert front[..i + 1] == samples[..i + 1];
      assert tail[|tail| - 2] == samples[|samples| - 2] && tail[|tail| - 1] == samples[|samples| - 1];
    }
  }

  lemma FrontOfTail(samples: seq<Sample>, i: nat)
    requires i < |samples| - 1
    ensures samples[i..][..|samples| - i - 1] == samples[..|samples| - 1][i..]
  {
  }

  /** An antiderivative of the power `a + b * t`. */
  function Primitive(a: real, b: real, t: real): real {
    a * t + b * t * t / 2.0
  }

  lemma AffineSlice(a: real, b: real, s: real, t: real)
    ensures ((a + b * s) + (a + b * t)) / 2.0 * (t - s) == Primitive(a, b, t) - Primitive(a, b, s)
  {
    var (p, q) := (b * s, b * t);
    assert (2.0 * a + p + q) * (t - s) == 2.0 * a * t - 2.0 * a * s + p * t - p * s + q * t - q * s;
    assert p * t == b * s * t && q * s == b * t * s && p * s == b * s * s && q * t == b * t * t;
    assert b * s * t == b * t * s;
  }

  lemma AffineSliceIsExact(x: Sample, y: Sample, a: real, b: real)
    requires x.time < y.time && x.milliwatts == a + b * x.time && y.milliwatts == a + b * y.time
    ensures Slice(x, y) == (Primitive(a, b, y.time) - Primitive(a, b, x.time)) / 1000.0
  {
    hide Primitive;
    AffineSlice(a, b, x.time, y.time);
    Scaled((x.milliwatts + y.milliwatts) / 2.0, y.time - x.time);
  }

  /** Power that changes at a constant rate is integrated without error. */
  lemma {:induction false} AffineIsExact(samples: seq<Sample>, a: real, b: real)
    requires Advances(samples) && samples != []
    requires forall i :: 0 <= i < |samples| ==> samples[i].milliwatts == a + b * samples[i].time
    ensures Integral(samples)
         == (Primitive(a, b, samples[|samples| - 1].time) - Primitive(a, b, samples[0].time)) / 1000.0
  {
    hide Slice, Primitive;
    if |samples| > 1 {
      var (front, x, y) := (samples[..|samples| - 1], samples[|samples| - 2], samples[|samples| - 1]);
      AdvancesPrefix(samples);
      AffineIsExact(front, a, b);
      AffineSliceIsExact(x, y, a, b);
    }
  }

  lemma Scaled(p: real, d: real)
    ensures p / 1000.0 * d == p * d / 1000.0
  {
  }

  /** No sample gives nothing; one counts as one interval at its power, just as if the
      clock had stood still after it; more are integrated. */
  lemma FewSamples(samples: seq<Sample>)
    ensures samples == [] <==> Energy(samples) == None
    ensures |samples| == 1 ==>
              Energy(samples) == Some(EnergyAt(samples[0].milliwatts, 0.1)) == Energy(samples + samples)
    ensures |samples| > 1 ==> Energy(samples) == Some(Integral(samples))
  {
    if |samples| == 1 {
      assert samples + samples == [samples[0], samples[0]];
      StoodStill(samples[0]);
    }
  }

  lemma StoodStill(s: Sample)
    ensures Integral([s, s]) == EnergyAt(s.milliwatts, 0.1)
  {
    assert [s, s][..1] == [s];
    assert Mean(s, s) == s.milliwatts / 1000.0;
    assert Integral([s, s]) == Integral([s]) + Slice(s, s);
  }

  // A clock that stands still.

  /** The time that the integration counts for a pair of samples although it did not
      pass: one interval when the clock stood still. */
  function Overrun(a: Sample, b: Sample): real {
    if b.time > a.time then 0.0 else SAMPLE_INTERVAL + (a.time - b.time)
  }

  function Trapezoid(a: Sample, b: Sample): real {
    Mean(a, b) * (b.time - a.time)
  }

  function Extra(a: Sample, b: Sample): real {
    Mean(a, b) * Overrun(a, b)
  }

  /** The trapezoids over the time that did pass. */
  function Trapezoids(samples: seq<Sample>): real {
    if |samples| < 2 then 0.0
    else Trapezoids(samples[..|samples| - 1]) + Trapezoid(samples[|samples| - 2], samples[|samples| - 1])
  }

  /** What the time that did not pass adds to them. */
  function Excess(samples: seq<Sample>): real {
    if |samples| < 2 then 0.0
    else Excess(samples[..|samples| - 1]) + Extra(samples[|samples| - 2], samples[|samples| - 1])
  }

  function Overtime(samples: seq<Sample>): real {
    if |samples| < 2 then 0.0
    else Overtime(samples[..|samples| - 1]) + Overrun(samples[|samples| - 2], samples[|samples| - 1])
  }

  /** A clock that stands still between two samples adds energy that was not used: the
      pair's mean power over one sampling interval. */
  lemma {:induction false} StallsAreOvercounted(samples: seq<Sample>)
    ensures Integral(samples) == Trapezoids(samples) + Excess(samples)
  {
    hide Slice, Trapezoid, Extra;
    if |samples| > 1 {
      StallsAreOvercounted(samples[..|samples| - 1]);
      SliceSplits(samples[|samples| - 2], samples[|samples| - 1]);
    }
  }

  lemma SliceSplits(a: Sample, b: Sample)
    ensures Slice(a, b) == Trapezoid(a, b) + Extra(a, b)
  {
    var mean := Mean(a, b);
    assert Step(a, b) == (b.time - a.time) + Overrun(a, b);
    Distributes(mean, b.time - a.time, Overrun(a, b));
  }

  /** At constant power the energy is that power over the elapsed and the added time. */
  lemma {:induction false} ConstantPower(samples: seq<Sample>, power: real)
    requires samples != [] && forall i :: 0 <= i < |samples| ==> samples[i].milliwatts == power
    ensures Integral(samples) == EnergyAt(power, Elapsed(samples) + Overtime(samples))
  {
    hide Slice, EnergyAt, Overrun;
    if |samples| > 1 {
      var (front, a, b) := (samples[..|samples| - 1], samples[|samples| - 2], samples[|samples| - 1]);
      ConstantPower(front, power);
      ConstantSlice(a, b, power);
      EnergyAtAdds(power, Elapsed(front) + Overtime(front), (b.time - a.time) + Overrun(a, b));
    } else {
      EnergyAtAdds(power, 0.0, 0.0);
    }
  }

  lemma ConstantSlice(a: Sample, b: Sample, power: real)
    requires a.milliwatts == b.milliwatts == power
    ensures Slice(a, b) == EnergyAt(power, (b.time - a.time) + Overrun(a, b))
  {
    assert Mean(a, b) == power / 1000.0;
    assert Step(a, b) == (b.time - a.time) + Overrun(a, b);
  }

  /** Time is added exactly when the clock does not advance. */
  lemma {:induction false} OvertimeExactly(samples: seq<Sample>)
    ensures Overtime(samples) >= 0.0
    ensures Overtime(samples) == 0.0 <==> Advances(samples)
  {
    if |samples| > 1 {
      var front := samples[..|samples| - 1];
      OvertimeExactly(front);
      if Advances(samples) {
        AdvancesPrefix(samples);
      } else if Advances(front) && Later(samples, |samples| - 2) {
        forall i | 0 <= i < |samples| - 1 ensures Later(samples, i) {
          if i < |samples| - 2 { assert Later(front, i); }
        }
      }
    }
  }

  ghost predicate SameTimes(a: seq<Sample>, b: seq<Sample>) {
    |a| == |b| && forall i :: 0 <= i < |a| ==> a[i].time == b[i].time
  }

  /** For given sample times the energy is always between least and greatest power times
      elapsed time, whatever the power, if and only if the clock advances. */
  lemma BoundedExactly(samples: seq<Sample>)
    requires samples != []
    ensures (forall others, low, high :: SameTimes(samples, others) && Within(others, low, high) ==>
              EnergyAt(low, Elapsed(others)) <= Integral(others) <= EnergyAt(high, Elapsed(others)))
       <==> Advances(samples)
  {
    if Advances(samples) {
      forall others, low, high | SameTimes(samples, others) && Within(others, low, high)
        ensures EnergyAt(low, Elapsed(others)) <= Integral(others) <= EnergyAt(high, Elapsed(others))
      {
        SameAdvances(samples, others);
        EnergyIsBounded(others, low, high);
      }
    } else {
      var others := OneWatt(samples);
      ConstantPower(others, 1000.0);
      OvertimeExactly(others);
      if Advances(others) { SameAdvances(others, samples); }
      assert SameTimes(samples, others) && Within(others, 1000.0, 1000.0);
    }
  }

  lemma SameAdvances(a: seq<Sample>, b: seq<Sample>)
    requires SameTimes(a, b) && Advances(a)
    ensures Advances(b)
  {
    forall i | 0 <= i < |b| - 1 ensures Later(b, i) { assert Later(a, i); }
  }

  /** One watt at the times of `samples`. */
  ghost function OneWatt(samples: seq<Sample>): (r: seq<Sample>)
    ensures SameTimes(samples, r) && Within(r, 1000.0, 1000.0)
  {
    seq(|samples|, i requires 0 <= i < |samples| => samples[i].(milliwatts := 1000.0))
  }
}
