/** The wrap-around CPU energy counters of tools/energy-meter/meter.py. */
module RaplEnergy {
  import opened Division
  import opened Options
  import opened Sequences

  /** One reading of one zone, in microjoules; `max` is the counter's range. */
  datatype Zone = Zone(name: string, uj: int, max: Option<int>)

  /** The dictionary over the later reading: of zones with one name the last wins. */
  function Named(zones: seq<Zone>, name: string): Option<Zone> {
    if zones == [] then None
    else if zones[|zones| - 1].name == name then Some(zones[|zones| - 1])
    else Named(zones[..|zones| - 1], name)
  }

  /** The wrap-aware difference of one zone. */
  function Delta(start: Zone, end: Zone): int {
    var range := if start.max.Some? then start.max else end.max;
    if end.uj >= start.uj then end.uj - start.uj
    else if range.Some? && range.value > 0 then end.uj - start.uj + range.value
    else 0
  }

  function Contribution(start: Zone, end: seq<Zone>): int {
    var e := Named(end, start.name);
    if e.None? then 0 else Delta(start, e.value)
  }

  function Total(start: seq<Zone>, end: seq<Zone>): int {
    if start == [] then 0 else Total(start[..|start| - 1], end) + Contribution(start[|start| - 1], end)
  }

  function Paired(start: seq<Zone>, end: seq<Zone>): nat {
    if start == [] then 0
    else Paired(start[..|start| - 1], end) + if Named(end, start[|start| - 1].name).Some? then 1 else 0
  }

  /** The total over paired zones, in joules; nothing when no zone is paired. */
  function Joules(start: seq<Zone>, end: seq<Zone>): Option<real> {
    if Paired(start, end) == 0 then None else Some(Total(start, end) as real / 1000000.0)
  }

  /** `rapl_delta_joules` */
  method RaplDeltaJoules(startZones: seq<Zone>, endZones: seq<Zone>) returns (joules: Option<real>)
    ensures joules == Joules(startZones, endZones)
  {
    if startZones == [] || endZones == [] {
      NothingPaired(startZones, endZones);
      return None;
    }
    var endByZone: map<string, Zone> := map[];
    for i := 0 to |endZones|
      invariant forall name :: (name in endByZone <==> Named(endZones[..i], name).Some?)
      invariant forall name :: name in endByZone ==> Named(endZones[..i], name) == Some(endByZone[name])
    {
      assert endZones[..i + 1][..i] == endZones[..i];
      endByZone := endByZone[endZones[i].name := endZones[i]];
    }
    assert endZones[..|endZones|] == endZones;
    var totalUj, paired := 0, 0;
    for i := 0 to |startZones|
      invariant totalUj == Total(startZones[..i], endZones) && paired == Paired(startZones[..i], endZones)
    {
      assert startZones[..i + 1][..i] == startZones[..i];
      var start := startZones[i];
      if start.name !in endByZone { continue; }
      var end := endByZone[start.name];
      var delta := end.uj - start.uj;
      if delta < 0 {
        var range := if start.max.Some? then start.max else end.max;
        delta := if range.Some? && range.value > 0 then delta + range.value else 0;
      }
      totalUj := totalUj + delta;
      paired := paired + 1;
    }
    assert startZones[..|startZones|] == startZones;
    joules := if paired > 0 then Some(totalUj as real / 1000000.0) else None;
  }

  lemma {:induction false} NothingPaired(start: seq<Zone>, end: seq<Zone>)
    requires start == [] || end == []
    ensures Paired(start, end) == 0
  {
    if start != [] { NothingPaired(start[..|start| - 1], end); }
  }

  /** A reading is inside its range: between zero and the range used for wrapping. */
  ghost predicate InRange(start: Zone, end: Zone) {
    var range := if start.max.Some? then start.max else end.max;
    end.uj >= 0 && (range.Some? && range.value > 0 ==> start.uj <= range.value)
  }

  /** With readings inside their range no energy is negative. */
  lemma {:induction false} NeverNegative(start: seq<Zone>, end: seq<Zone>)
    requires forall i :: 0 <= i < |start| && Named(end, start[i].name).Some? ==>
               InRange(start[i], Named(end, start[i].name).value)
    ensures Total(start, end) >= 0
  {
    if start != [] { NeverNegative(start[..|start| - 1], end); }
  }

  // The counters: what they show of the energy really used.

  /** A zone's counter: the range it wraps at, the energy used up to each reading, and
      whether the range could be read along with it. */
  datatype Counter = Counter(name: string, range: nat, energy: seq<nat>, ranged: seq<bool>)

  ghost predicate IsCounter(c: Counter, readings: nat) {
    && c.range > 0 && |c.energy| == |c.ranged| == readings
    && forall t :: 0 <= t < |c.energy| - 1 ==> Grows(c, t)
  }

  ghost predicate Grows(c: Counter, t: nat)
    requires t < |c.energy| - 1
  {
    c.energy[t] <= c.energy[t + 1]
  }

  /** The counter has a reading `t`. */
  predicate IsRead(c: Counter, t: nat) {
    c.range > 0 && t < |c.energy| && t < |c.ranged|
  }

  function Shown(c: Counter, t: nat): Zone
    requires IsRead(c, t)
  {
    Zone(c.name, c.energy[t] % c.range, if c.ranged[t] then Some(c.range) else None)
  }

  /** The energy between two readings can be told from what they show: less than one
      range was used or, when neither knows the range, the counter did not wrap. */
  predicate CanTell(c: Counter, s: nat, t: nat)
    requires IsRead(c, s) && IsRead(c, t)
  {
    if c.ranged[s] || c.ranged[t] then UsedBy(c, s, t) < c.range
    else c.energy[s] / c.range == c.energy[t] / c.range
  }

  function UsedBy(c: Counter, s: nat, t: nat): int
    requires IsRead(c, s) && IsRead(c, t)
  {
    c.energy[t] as int - c.energy[s]
  }

  lemma ModDifference(a: nat, b: nat, r: nat)
    requires r > 0 && a <= b
    ensures var d := b % r - a % r; b - a == (if d < 0 then d + r else d) + r * ((b - a) / r)
  {
    var (qa, qb, q) := (a / r, b / r, (b - a) / r);
    var d := b % r - a % r;
    assert a == r * qa + a % r && b == r * qb + b % r;
    assert b - a == r * (qb - qa) + d;
    var (e, p) := if d < 0 then (d + r, qb - qa - 1) else (d, qb - qa);
    assert b - a == r * p + e && 0 <= e < r by {
      if d < 0 { assert r * (qb - qa) == r * p + r; }
    }
    DivMod(b - a, r, p, e);
  }

  /** Where the range is known, the wrap-aware delta is the energy used less the whole
      ranges that went by; known or not, it is the energy exactly when the readings can
      tell, and never more. */
  lemma DeltaExactly(c: Counter, s: nat, t: nat)
    requires IsRead(c, s) && IsRead(c, t) && c.energy[s] <= c.energy[t]
    ensures var (used, delta) := (UsedBy(c, s, t), Delta(Shown(c, s), Shown(c, t)));
            && (c.ranged[s] || c.ranged[t] ==> delta == used - c.range * (used / c.range))
            && (delta == used <==> CanTell(c, s, t))
            && 0 <= delta <= used
  {
    if c.ranged[s] || c.ranged[t] { KnownRange(c, s, t); } else { UnknownRange(c, s, t); }
  }

  lemma KnownRange(c: Counter, s: nat, t: nat)
    requires IsRead(c, s) && IsRead(c, t) && c.energy[s] <= c.energy[t] && (c.ranged[s] || c.ranged[t])
    ensures var (used, delta) := (UsedBy(c, s, t), Delta(Shown(c, s), Shown(c, t)));
            && delta == used - c.range * (used / c.range)
            && (delta == used <==> used < c.range) && 0 <= delta <= used
  {
    var used := UsedBy(c, s, t);
    ModDifference(c.energy[s], c.energy[t], c.range);
    var q := used / c.range;
    if used < c.range { DivMod(used, c.range, 0, used); }
    else { assert q >= 1 && c.range * q >= c.range by { WholeRange(used, c.range); } }
  }

  lemma UnknownRange(c: Counter, s: nat, t: nat)
    requires IsRead(c, s) && IsRead(c, t) && c.energy[s] <= c.energy[t] && !c.ranged[s] && !c.ranged[t]
    ensures var (used, delta) := (UsedBy(c, s, t), Delta(Shown(c, s), Shown(c, t)));
            (delta == used <==> c.energy[s] / c.range == c.energy[t] / c.range) && 0 <= delta <= used
  {
    Laps(c.energy[s], c.energy[t], c.range);
  }

  lemma Laps(a: nat, b: nat, r: nat)
    requires r > 0 && a <= b
    ensures a / r == b / r ==> b % r - a % r == b - a
    ensures a / r != b / r ==> b % r - a % r + r <= b - a && b % r - a % r + r > 0
  {
    var (p, q) := (a / r, b / r);
    assert a == r * p + a % r && b == r * q + b % r;
    if p < q { OneMore(r, p, q); }
    if q < p { OneMore(r, q, p); }
  }

  lemma WholeRange(n: nat, r: nat)
    requires r > 0 && n >= r
    ensures n / r >= 1 && r * (n / r) >= r
  {
    var q := n / r;
    assert n == r * q + n % r;
    if q < 1 { OneMore(r, q, 1); }
    if q > 1 { OneMore(r, 1, q); }
  }

  // Whole readings.

  function ShownAll(cs: seq<Counter>, t: nat): (r: seq<Zone>)
    requires forall i :: 0 <= i < |cs| ==> IsRead(cs[i], t)
    ensures |r| == |cs| && forall i :: 0 <= i < |r| ==> r[i] == Shown(cs[i], t)
  {
    seq(|cs|, i requires 0 <= i < |cs| => Shown(cs[i], t))
  }

  function Used(cs: seq<Counter>, s: nat, t: nat): int
    requires forall i :: 0 <= i < |cs| ==> IsRead(cs[i], s) && IsRead(cs[i], t)
  {
    if cs == [] then 0
    else Used(cs[..|cs| - 1], s, t) + UsedBy(cs[|cs| - 1], s, t)
  }

  ghost predicate AreCounters(cs: seq<Counter>, readings: nat) {
    && (forall i :: 0 <= i < |cs| ==> IsCounter(cs[i], readings))
    && (forall i, j :: 0 <= i < j < |cs| ==> cs[i].name != cs[j].name)
  }

  ghost predicate DistinctNames(zones: seq<Zone>) {
    forall i, j :: 0 <= i < j < |zones| ==> zones[i].name != zones[j].name
  }

  lemma {:induction false} NamedIs(zones: seq<Zone>, z: Zone)
    requires DistinctNames(zones) && z in zones
    ensures Named(zones, z.name) == Some(z)
  {
    var last := |zones| - 1;
    if zones[last] != z {
      var i :| 0 <= i < |zones| && zones[i] == z;
      assert zones[..last][i] == z;
      NamedIs(zones[..last], z);
    }
  }

  lemma {:induction false} NamedIsIn(zones: seq<Zone>, name: string)
    ensures Named(zones, name).Some? ==> Named(zones, name).value in zones && Named(zones, name).value.name == name
  {
    if zones != [] && zones[|zones| - 1].name != name { NamedIsIn(zones[..|zones| - 1], name); }
  }

  lemma TwiceIn(zones: seq<Zone>, i: nat, j: nat)
    requires i < j < |zones| && zones[i] == zones[j]
    ensures multiset(zones)[zones[i]] >= 2
  {
    assert zones == zones[..j] + zones[j..];
    assert zones[i] in zones[..j] && zones[j] in zones[j..];
  }

  lemma SameZonesDistinct(a: seq<Zone>, b: seq<Zone>)
    requires multiset(a) == multiset(b) && DistinctNames(a)
    ensures DistinctNames(b)
  {
    assert Distinct(a);
    forall i, j | 0 <= i < j < |b| ensures b[i].name != b[j].name {
      OnceEach(a, b[i]);
      if b[i] == b[j] { TwiceIn(b, i, j); }
      assert b[i] in multiset(b) && b[j] in multiset(b);
      var p :| 0 <= p < |a| && a[p] == b[i];
      var q :| 0 <= q < |a| && a[q] == b[j];
    }
  }

  /** The order of the later reading does not matter. */
  lemma {:induction false} EndOrderIrrelevant(start: seq<Zone>, end: seq<Zone>, other: seq<Zone>)
    requires multiset(end) == multiset(other) && DistinctNames(end)
    ensures Total(start, end) == Total(start, other) && Paired(start, end) == Paired(start, other)
  {
    if start != [] {
      EndOrderIrrelevant(start[..|start| - 1], end, other);
      SameZonesDistinct(end, other);
      var name := start[|start| - 1].name;
      SameLookup(end, other, name);
    }
  }

  lemma SameLookup(a: seq<Zone>, b: seq<Zone>, name: string)
    requires multiset(a) == multiset(b) && DistinctNames(a) && DistinctNames(b)
    ensures Named(a, name) == Named(b, name)
  {
    NamedIsIn(a, name);
    NamedIsIn(b, name);
    if Named(a, name).Some? {
      var z := Named(a, name).value;
      assert z in multiset(a) && z in b;
      NamedIs(b, z);
    } else if Named(b, name).Some? {
      var z := Named(b, name).value;
      assert z in multiset(b) && z in a;
      NamedIs(a, z);
    }
  }

  lemma {:induction false} TotalConcat(a: seq<Zone>, b: seq<Zone>, end: seq<Zone>)
    ensures Total(a + b, end) == Total(a, end) + Total(b, end)
    ensures Paired(a + b, end) == Paired(a, end) + Paired(b, end)
    decreases |b|
  {
    if b == [] { assert a + b == a; }
    else {
      assert (a + b)[..|a + b| - 1] == a + b[..|b| - 1];
      TotalConcat(a, b[..|b| - 1], end);
    }
  }

  /** One zone of the earlier reading: nothing when the later one has no zone of that
      name; otherwise the difference to the last such zone, a wrap added when the range
      is known, from the earlier reading if it knows it, and zero when it is not. */
  lemma OneZone(z: Zone, end: seq<Zone>)
    ensures (forall e :: e in end ==> e.name != z.name) ==> Total([z], end) == 0 && Paired([z], end) == 0
    ensures forall i | 0 <= i < |end| && end[i].name == z.name && (forall j :: i < j < |end| ==> end[j].name != z.name) ::
              var range := if z.max == None then end[i].max else z.max;
              && Paired([z], end) == 1
              && Total([z], end) == if z.uj <= end[i].uj then end[i].uj - z.uj
                                    else if range != None && range.value > 0 then end[i].uj + range.value - z.uj
                                    else 0
  {
    assert [z][..0] == [];
    NamedIsIn(end, z.name);
    forall i | 0 <= i < |end| && end[i].name == z.name && (forall j :: i < j < |end| ==> end[j].name != z.name)
      ensures Named(end, z.name) == Some(end[i])
    {
      NamedIsLast(end, i);
    }
  }

  lemma {:induction false} NamedIsLast(zones: seq<Zone>, i: nat)
    requires i < |zones| && forall j :: i < j < |zones| ==> zones[j].name != zones[i].name
    ensures Named(zones, zones[i].name) == Some(zones[i])
    decreases |zones|
  {
    if i < |zones| - 1 { NamedIsLast(zones[..|zones| - 1], i); }
  }

  /** Nor does the order of the earlier one. */
  lemma {:induction false} StartOrderIrrelevant(start: seq<Zone>, other: seq<Zone>, end: seq<Zone>)
    requires multiset(start) == multiset(other)
    ensures Total(start, end) == Total(other, end) && Paired(start, end) == Paired(other, end)
    decreases |start|
  {
    hide Named, Contribution;
    if start == [] {
      assert |multiset(other)| == 0;
    } else {
      var (front, z) := (start[..|start| - 1], start[|start| - 1]);
      assert z in multiset(start) && z in other;
      var i :| 0 <= i < |other| && other[i] == z;
      assert start == front + [z];
      WithoutOne(other, i);
      StartOrderIrrelevant(front, other[..i] + other[i + 1..], end);
      TotalWithout(other, i, end);
    }
  }

  lemma TotalWithout(zones: seq<Zone>, i: nat, end: seq<Zone>)
    requires i < |zones|
    ensures Total(zones, end) == Total(zones[..i] + zones[i + 1..], end) + Contribution(zones[i], end)
    ensures Paired(zones, end)
         == Paired(zones[..i] + zones[i + 1..], end) + if Named(end, zones[i].name).Some? then 1 else 0
  {
    hide Named, Contribution;
    TotalConcat(zones[..i], zones[i + 1..], end);
    TotalConcat(zones[..i + 1], zones[i + 1..], end);
    assert zones == zones[..i + 1] + zones[i + 1..] && zones[..i + 1][..i] == zones[..i];
  }

  /** Between the two readings every zone can tell what was used. */
  ghost predicate AllCanTell(cs: seq<Counter>, s: nat, t: nat)
    requires forall i :: 0 <= i < |cs| ==> IsRead(cs[i], s) && IsRead(cs[i], t)
  {
    forall i :: 0 <= i < |cs| ==> CanTell(cs[i], s, t)
  }

  lemma {:induction false} TotalExactly(cs: seq<Counter>, all: seq<Zone>, s: nat, t: nat)
    requires forall i :: 0 <= i < |cs| ==> IsRead(cs[i], s) && IsRead(cs[i], t) && cs[i].energy[s] <= cs[i].energy[t]
    requires DistinctNames(all) && forall i :: 0 <= i < |cs| ==> Shown(cs[i], t) in all
    ensures Total(ShownAll(cs, s), all) <= Used(cs, s, t)
    ensures Total(ShownAll(cs, s), all) == Used(cs, s, t) <==> AllCanTell(cs, s, t)
    ensures Paired(ShownAll(cs, s), all) == |cs|
  {
    if cs != [] {
      var (front, c) := (cs[..|cs| - 1], cs[|cs| - 1]);
      TotalExactly(front, all, s, t);
      assert ShownAll(cs, s)[..|front|] == ShownAll(front, s);
      NamedIs(all, Shown(c, t));
      DeltaExactly(c, s, t);
      hide Delta, CanTell, Named, DistinctNames;
      assert AllCanTell(cs, s, t) <==> AllCanTell(front, s, t) && CanTell(c, s, t) by {
        assert forall i :: 0 <= i < |front| ==> front[i] == cs[i];
      }
    }
  }

  /** Whatever the order in which the zones are read, the delta between two readings
      is at most the true energy, summed over the zones, and is that energy exactly
      when every zone can tell. */
  lemma ReadingExactly(cs: seq<Counter>, readings: nat, s: nat, t: nat, start: seq<Zone>, end: seq<Zone>)
    requires AreCounters(cs, readings) && cs != [] && s <= t < readings
    requires IsReading(cs, readings, s, start) && IsReading(cs, readings, t, end)
    ensures Joules(start, end).Some?
    ensures Joules(start, end) == Some(Used(cs, s, t) as real / 1000000.0) <==> AllCanTell(cs, s, t)
  {
    TotalOfReadings(cs, readings, s, t, start, end);
  }

  /** The zones as read at `t`, in any order. */
  ghost predicate IsReading(cs: seq<Counter>, readings: nat, t: nat, zones: seq<Zone>)
    requires AreCounters(cs, readings) && t < readings
  {
    multiset(zones) == multiset(ShownAll(cs, t))
  }

  lemma TotalOfReadings(cs: seq<Counter>, readings: nat, s: nat, t: nat, start: seq<Zone>, end: seq<Zone>)
    requires AreCounters(cs, readings) && s <= t < readings
    requires IsReading(cs, readings, s, start) && IsReading(cs, readings, t, end)
    ensures Paired(start, end) == |cs| && Total(start, end) <= Used(cs, s, t)
    ensures Total(start, end) == Used(cs, s, t) <==> AllCanTell(cs, s, t)
  {
    hide Total, Paired, Used, Named, DistinctNames, AllCanTell;
    var (first, last) := (ShownAll(cs, s), ShownAll(cs, t));
    ShownExactly(cs, readings, s, t);
    StartOrderIrrelevant(first, start, end);
    EndOrderIrrelevant(first, last, end);
  }

  /** The same for readings in the order of the counters. */
  lemma ShownExactly(cs: seq<Counter>, readings: nat, s: nat, t: nat)
    requires AreCounters(cs, readings) && s <= t < readings
    ensures DistinctNames(ShownAll(cs, t)) && Paired(ShownAll(cs, s), ShownAll(cs, t)) == |cs|
    ensures Total(ShownAll(cs, s), ShownAll(cs, t)) <= Used(cs, s, t)
    ensures Total(ShownAll(cs, s), ShownAll(cs, t)) == Used(cs, s, t) <==> AllCanTell(cs, s, t)
  {
    hide Total, Paired, Used, Named, AllCanTell, Delta;
    var all := ShownAll(cs, t);
    forall i | 0 <= i < |cs| ensures cs[i].energy[s] <= cs[i].energy[t] { EnergyGrows(cs[i], readings, s, t); }
    forall i | 0 <= i < |cs| ensures Shown(cs[i], t) in all { assert all[i] == Shown(cs[i], t); }
    TotalExactly(cs, all, s, t);
  }

  lemma {:induction false} EnergyGrows(c: Counter, readings: nat, s: nat, t: nat)
    requires IsCounter(c, readings) && s <= t < readings
    ensures c.energy[s] <= c.energy[t]
    decreases t - s
  {
    if s < t {
      EnergyGrows(c, readings, s, t - 1);
      assert Grows(c, t - 1);
    }
  }

  /** The deltas of consecutive readings, added up. */
  function Telescoped(readings: seq<seq<Zone>>, t: nat): int
    requires t < |readings|
  {
    if t == 0 then 0 else Telescoped(readings, t - 1) + Total(readings[t - 1], readings[t])
  }

  lemma {:induction false} UsedAddsUp(cs: seq<Counter>, s: nat, t: nat)
    requires forall i :: 0 <= i < |cs| ==> IsRead(cs[i], 0) && IsRead(cs[i], s) && IsRead(cs[i], t)
    ensures Used(cs, 0, t) == Used(cs, 0, s) + Used(cs, s, t)
  {
    if cs != [] { UsedAddsUp(cs[..|cs| - 1], s, t); }
  }

  /** From one reading to the next every zone can tell. */
  ghost predicate StepCanTell(cs: seq<Counter>, readings: nat, s: nat)
    requires AreCounters(cs, readings) && s + 1 < readings
  {
    AllCanTell(cs, s, s + 1)
  }

  ghost predicate AreReadings(cs: seq<Counter>, readings: seq<seq<Zone>>) {
    && AreCounters(cs, |readings|)
    && forall t | 0 <= t < |readings| :: IsReading(cs, |readings|, t, readings[t])
  }

  /** Deltas over consecutive readings, each in whatever order, telescope to at most the
      energy of the whole run, and to just that exactly when every step can tell; the
      run as a whole may go round the counters many times. */
  lemma {:induction false} DeltasTelescope(cs: seq<Counter>, readings: seq<seq<Zone>>, t: nat)
    requires AreReadings(cs, readings) && t < |readings|
    ensures Telescoped(readings, t) <= Used(cs, 0, t)
    ensures Telescoped(readings, t) == Used(cs, 0, t) <==> forall s :: 0 <= s < t ==> StepCanTell(cs, |readings|, s)
    decreases t
  {
    hide Total, Used, AllCanTell, IsReading, StepCanTell;
    if t == 0 {
      NoTimeNoEnergy(cs);
    } else {
      OneStep(cs, readings, t - 1);
      DeltasTelescope(cs, readings, t - 1);
      hide AreReadings, AreCounters;
    }
  }

  lemma OneStep(cs: seq<Counter>, readings: seq<seq<Zone>>, s: nat)
    requires AreReadings(cs, readings) && s + 1 < |readings|
    ensures Used(cs, 0, s + 1) == Used(cs, 0, s) + Used(cs, s, s + 1)
    ensures Total(readings[s], readings[s + 1]) <= Used(cs, s, s + 1)
    ensures Total(readings[s], readings[s + 1]) == Used(cs, s, s + 1) <==> StepCanTell(cs, |readings|, s)
  {
    hide Total, Used, AllCanTell, IsReading;
    TotalOfReadings(cs, |readings|, s, s + 1, readings[s], readings[s + 1]);
    UsedAddsUp(cs, s, s + 1);
  }

  lemma {:induction false} NoTimeNoEnergy(cs: seq<Counter>)
    requires forall i :: 0 <= i < |cs| ==> IsRead(cs[i], 0)
    ensures Used(cs, 0, 0) == 0
  {
    if cs != [] { NoTimeNoEnergy(cs[..|cs| - 1]); }
  }
}
