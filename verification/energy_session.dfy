/** The totals of one measurement session in tools/energy-meter/meter.py. */
module EnergySession {
  import opened GpuEnergy
  import opened Options
  import opened RaplEnergy

  datatype Source = RaplCpu | NvmlGpu | RaplPlusNvml

  datatype Report = Report(
    cpu: Option<real>, gpu: Option<real>, total: Option<real>, source: Option<Source>, carbonGrams: Option<real>)

  /** `MeasurementSession.stop`, after the clock was read.  Zones are absent when the
      host shows none; `grid` is the carbon intensity in grams per kilowatt hour. */
  method Stop(raplStart: Option<seq<Zone>>, raplEnd: Option<seq<Zone>>, nvml: Sampler, grid: real)
    returns (r: Report)
    ensures r.cpu == if raplStart.Some? && raplEnd.Some? then Joules(raplStart.value, raplEnd.value) else None
    ensures r.gpu == if nvml.available then Energy(nvml.samples) else None
    ensures r.total == Together(r.cpu, r.gpu)
    ensures r.source.Some? <==> r.total.Some?
    ensures r.source == Some(RaplPlusNvml) <==> r.cpu.Some? && r.gpu.Some?
    ensures r.source == Some(RaplCpu) ==> r.total == r.cpu
    ensures r.source == Some(NvmlGpu) ==> r.total == r.gpu
    ensures r.carbonGrams.Some? <==> r.total.Some?
    ensures r.total.Some? ==> r.carbonGrams.value * 3600000.0 == r.total.value * grid
  {
    var joulesGpu := nvml.Stop();
    var joulesCpu: Option<real> := None;
    if raplStart.Some? && raplEnd.Some? {
      joulesCpu := RaplDeltaJoules(raplStart.value, raplEnd.value);
    }
    var parts := (if joulesCpu.Some? then [joulesCpu.value] else []) + (if joulesGpu.Some? then [joulesGpu.value] else []);
    var joulesTotal: Option<real> := None;
    if parts != [] {
      var sum := 0.0;
      for i := 0 to |parts|
        invariant sum == (if i > 0 then parts[0] else 0.0) + (if i > 1 then parts[1] else 0.0)
      {
        sum := sum + parts[i];
      }
      joulesTotal := Some(sum);
    }
    var sources := (if joulesCpu.Some? then [RaplCpu] else []) + (if joulesGpu.Some? then [NvmlGpu] else []);
    var source :=
      if |sources| == 2 then Some(RaplPlusNvml) else if |sources| == 1 then Some(sources[0]) else None;
    var carbon: Option<real> := None;
    if joulesTotal.Some? {
      carbon := Some(joulesTotal.value * grid / 3600000.0);
    }
    return Report(joulesCpu, joulesGpu, joulesTotal, source, carbon);
  }

  /** The sum of the parts that were measured. */
  function Together(cpu: Option<real>, gpu: Option<real>): Option<real> {
    if cpu.None? then gpu
    else if gpu.None? then cpu
    else Some(cpu.value + gpu.value)
  }

  /** A session reports what was used when every zone can tell what it used and the
      GPU's power changed at a constant rate, whatever the order of the zones. */
  lemma SessionIsExact(
    cs: seq<Counter>, readings: nat, s: nat, t: nat, start: seq<Zone>, end: seq<Zone>, samples: seq<Sample>, a: real,
    b: real)
    requires AreCounters(cs, readings) && cs != [] && s <= t < readings && AllCanTell(cs, s, t)
    requires IsReading(cs, readings, s, start) && IsReading(cs, readings, t, end)
    requires |samples| > 1 && Advances(samples)
    requires forall i :: 0 <= i < |samples| ==> samples[i].milliwatts == a + b * samples[i].time
    ensures Together(Joules(start, end), Energy(samples)) == Some(
              Used(cs, s, t) as real / 1000000.0
              + (Primitive(a, b, samples[|samples| - 1].time) - Primitive(a, b, samples[0].time)) / 1000.0)
  {
    hide Joules, Integral, Primitive, Used, AllCanTell, Advances, IsReading;
    ReadingExactly(cs, readings, s, t, start, end);
    AffineIsExact(samples, a, b);
  }
}
