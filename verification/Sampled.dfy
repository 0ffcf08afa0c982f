/** Sampled counters that only grow: spectator/monotonic_sampled.cc.

    Any points may be set at any time, also while a measurement is under way; the books say what becomes of the growth.
 */
module Sampled {
  import opened Bytes

  // ---------- the meter ----------

  /** Doubles: numbers, the results of dividing by zero, and NaN. */
  datatype Extended = NaN | Num(value: real) | PosInf | NegInf

  /** (a - b) / t on doubles, where a and b are finite or NaN. */
  function Rate(a: Extended, b: Extended, t: real): Extended {
    if !a.Num? || !b.Num? then NaN
    else if t != 0.0 then Num((a.value - b.value) / t)
    else if a.value == b.value then NaN
    else if a.value > b.value then PosInf
    else NegInf
  }

  predicate Positive(d: Extended) {
    d.PosInf? || (d.Num? && d.value > 0.0)
  }

  datatype SampledState = SampledState(value: Extended, prev: Extended, ts: int, prevTs: int) {
    function Elapsed(): real {
      (ts - prevTs) as real / 1000000000.0
    }
  }

  function AfterSet(s: SampledState, amount: Extended, nanos: int): SampledState {
    if nanos < s.ts then s
    else SampledState(amount, if s.prev.NaN? then s.value else s.prev, nanos, if s.prev.NaN? then s.ts else s.prevTs)
  }

  function RateOf(s: SampledState): Extended {
    Rate(s.value, s.prev, s.Elapsed())
  }

  function AfterRemember(s: SampledState): SampledState {
    SampledState(s.value, s.value, s.ts, s.ts)
  }

  /** updated is the time of the last Set, by which the registry expires the meter. */
  class MonotonicSampled {
    var updated: int
    var value: Extended
    var prev: Extended
    var ts: int
    var prevTs: int

    function State(): SampledState
      reads this
    {
      SampledState(value, prev, ts, prevTs)
    }

    constructor (now: int)
      ensures State() == SampledState(NaN, NaN, 0, 0) && updated == now
    {
      updated, value, prev, ts, prevTs := now, NaN, NaN, 0, 0;
    }

    /** A point that is ignored still refreshes the meter. */
    method Set(amount: Extended, nanos: int, now: int)
      modifies this
      ensures State() == AfterSet(old(State()), amount, nanos) && updated == now
    {
      updated := now;
      if nanos < ts { return; }
      if prev.NaN? {
        prev := value;
        prevTs := ts;
      }
      value := amount;
      ts := nanos;
    }

    method SampledRate() returns (rate: Extended)
      ensures rate == RateOf(State())
    {
      var elapsed := (ts - prevTs) as real / 1000000000.0;
      rate := Rate(value, prev, elapsed);
    }

    /** The rate and the remembered point are taken under the lock separately; between holds the points that other
        threads set in the meantime. */
    method Measure(between: seq<(Extended, int)>) returns (report: Option<Extended>)
      modifies this
      ensures var rate := old(RateOf(State()));
        && State() == (if rate.NaN? then old(State()) else AfterRemember(AfterSets(old(State()), between)))
        && report == (if Positive(rate) then Some(rate) else None)
    {
      var rate := SampledRate();
      if rate.NaN? { return None; }
      for i := 0 to |between|
        invariant State() == AfterSets(old(State()), between[..i])
      {
        Set(between[i].0, between[i].1, updated);
        assert between[..i + 1][..i] == between[..i];
      }
      assert between[..|between|] == between;
      prev := value;
      prevTs := ts;
      return if Positive(rate) then Some(rate) else None;
    }
  }

  function AfterSets(s: SampledState, points: seq<(Extended, int)>): SampledState {
    if points == [] then s
    else
      var last := points[|points| - 1];
      AfterSet(AfterSets(s, points[..|points| - 1]), last.0, last.1)
  }

  // ---------- runs of a sampled counter ----------

  type Point = (real, int)

  datatype SampledEvent = SetSampled(amount: real, nanos: int) | TakeRate | Remember

  /** A measurement takes the rate and, unless it is NaN, remembers the point that is current a moment later; loaded
      is the number of points at the time of a rate whose point is not remembered yet.

      The rest are the books: the points that were accepted; the one that is the previous point; grown, the sum of
      rate times elapsed time; jumps, what the value changed by at rates for which no time had passed; skipped, what
      it changed by between a rate and its remembering; stalls, how many rates were infinite; reported, the sum over
      positive rates. */
  datatype SampledRun = SampledRun(
    state: SampledState, loaded: Option<nat>, points: seq<Point>, base: nat,
    grown: real, jumps: real, skipped: real, stalls: nat, reported: real)

  function Worth(s: SampledState): real {
    if RateOf(s).Num? then RateOf(s).value * s.Elapsed() else 0.0
  }

  function Jump(s: SampledState): real {
    if RateOf(s).PosInf? || RateOf(s).NegInf? then s.value.value - s.prev.value else 0.0
  }

  predicate Infinite(d: Extended) {
    d.PosInf? || d.NegInf?
  }

  function LastIndex(points: seq<Point>): nat {
    if points == [] then 0 else |points| - 1
  }

  function SampledStep(r: SampledRun, e: SampledEvent): SampledRun {
    match e
    case SetSampled(amount, nanos) =>
      r.(state := AfterSet(r.state, Num(amount), nanos),
         points := if nanos < r.state.ts then r.points else r.points + [(amount, nanos)])
    case TakeRate =>
      if r.loaded.Some? then r
      else if RateOf(r.state).NaN? then r.(base := LastIndex(r.points))
      else
        r.(loaded := Some(|r.points|),
           grown := r.grown + Worth(r.state),
           jumps := r.jumps + Jump(r.state),
           stalls := if Infinite(RateOf(r.state)) then r.stalls + 1 else r.stalls,
           reported := r.reported + if Positive(RateOf(r.state)) then Worth(r.state) else 0.0)
    case Remember =>
      if r.loaded.None? || !(0 < r.loaded.value <= |r.points|) then r
      else
        r.(state := AfterRemember(r.state), loaded := None, base := LastIndex(r.points),
           skipped := r.skipped + (r.points[|r.points| - 1].0 - r.points[r.loaded.value - 1].0))
  }

  function RunSampled(events: seq<SampledEvent>): SampledRun {
    if events == [] then SampledRun(SampledState(NaN, NaN, 0, 0), None, [], 0, 0.0, 0.0, 0.0, 0, 0.0)
    else SampledStep(RunSampled(events[..|events| - 1]), events[|events| - 1])
  }

  // ---------- what the state says about the points ----------

  ghost predicate Ordered(points: seq<Point>) {
    forall i, j :: 0 <= i < j < |points| ==> points[i].1 <= points[j].1
  }

  /** The current value is the last point; with two points or more there is a previous one. */
  ghost predicate StateIsPoints(s: SampledState, points: seq<Point>, base: nat) {
    && Ordered(points)
    && (if points == [] then s == SampledState(NaN, NaN, 0, 0) && base == 0
        else s.value == Num(points[|points| - 1].0) && s.ts == points[|points| - 1].1 && base < |points|)
    && (if |points| < 2 then s.prev.NaN?
        else s.prev == Num(points[base].0) && s.prevTs == points[base].1)
  }

  /** The value of the point up to which the books are kept. */
  ghost function Booked(r: SampledRun): real
    requires r.points != [] && r.base < |r.points|
    requires r.loaded.Some? ==> 0 < r.loaded.value <= |r.points|
  {
    if r.loaded.Some? then r.points[r.loaded.value - 1].0 else r.points[r.base].0
  }

  ghost predicate SampledInvariant(r: SampledRun) {
    && StateIsPoints(r.state, r.points, r.base)
    && (r.loaded.Some? ==> 2 <= r.loaded.value <= |r.points| && r.base < r.loaded.value)
    && (if r.points == [] then r.grown + r.jumps + r.skipped == 0.0
        else Booked(r) == r.points[0].0 + r.grown + r.jumps + r.skipped)
  }

  /** A rate is infinite exactly when there is a previous point, no point accepted since has a later timestamp, and the
      value differs. */
  lemma InfiniteExactly(s: SampledState, points: seq<Point>, base: nat)
    requires StateIsPoints(s, points, base)
    ensures Infinite(RateOf(s)) <==>
      && |points| >= 2
      && (forall j :: base < j < |points| ==> points[j].1 <= points[base].1)
      && points[|points| - 1].0 != points[base].0
    ensures |points| >= 2 ==> s.prevTs <= s.ts
  {
    if |points| >= 2 {
      var last := |points| - 1;
      assert base < last ==> points[base].1 <= points[last].1;
      assert forall j :: base < j < last ==> points[j].1 <= points[last].1;
    }
  }

  /** A rate is worth the growth since the previous point, an infinite one is worth nothing. */
  lemma RateIsGrowth(s: SampledState)
    requires s.value.Num? && s.prev.Num?
    ensures Worth(s) + Jump(s) == s.value.value - s.prev.value
    ensures RateOf(s).NaN? <==> s.ts == s.prevTs && s.value == s.prev
  {
    if s.ts != s.prevTs {
      RateTimesElapsed(s.value.value - s.prev.value, s.Elapsed());
    }
  }

  /** The rate is per second: times nanoseconds it is a billion times the growth. */
  lemma RateIsPerSecond(s: SampledState)
    requires s.value.Num? && s.prev.Num? && s.ts != s.prevTs
    ensures RateOf(s).Num?
    ensures RateOf(s).value * (s.ts - s.prevTs) as real == 1000000000.0 * (s.value.value - s.prev.value)
  {
    RateTimesElapsed(s.value.value - s.prev.value, s.Elapsed());
    assert RateOf(s).value * (s.ts - s.prevTs) as real == RateOf(s).value * s.Elapsed() * 1000000000.0;
  }

  /** It is reported exactly when the value has grown. */
  lemma ReportedExactly(s: SampledState)
    requires s.value.Num? && s.prev.Num? && s.prevTs <= s.ts
    ensures Positive(RateOf(s)) <==> s.value.value > s.prev.value
  {
    if s.ts != s.prevTs {
      SignOfQuotient(s.value.value - s.prev.value, s.Elapsed());
    }
  }

  lemma SignOfQuotient(d: real, t: real)
    requires t > 0.0
    ensures d / t > 0.0 <==> d > 0.0
  {
    var q := d / t;
    assert q * t == d;
  }

  lemma RateTimesElapsed(d: real, t: real)
    requires t != 0.0
    ensures d / t * t == d
  {
  }

  lemma SetKeepsState(s: SampledState, points: seq<Point>, base: nat, amount: real, nanos: int)
    requires StateIsPoints(s, points, base) && nanos >= s.ts
    ensures StateIsPoints(AfterSet(s, Num(amount), nanos), points + [(amount, nanos)], base)
  {
  }

  lemma RememberKeepsState(s: SampledState, points: seq<Point>, base: nat)
    requires StateIsPoints(s, points, base) && |points| >= 2
    ensures StateIsPoints(AfterRemember(s), points, |points| - 1)
  {
  }

  lemma SampledStepInvariant(r: SampledRun, e: SampledEvent)
    requires SampledInvariant(r)
    ensures SampledInvariant(SampledStep(r, e))
  {
    match e
    case SetSampled(amount, nanos) =>
      if nanos >= r.state.ts {
        SetKeepsState(r.state, r.points, r.base, amount, nanos);
      }
    case TakeRate =>
      if |r.points| >= 2 {
        RateIsGrowth(r.state);
      }
    case Remember =>
      if r.loaded.Some? {
        RememberKeepsState(r.state, r.points, r.base);
      }
  }

  lemma {:induction false} SampledRunInvariant(events: seq<SampledEvent>)
    ensures SampledInvariant(RunSampled(events))
  {
    if events == [] {
    } else {
      SampledRunInvariant(events[..|events| - 1]);
      SampledStepInvariant(RunSampled(events[..|events| - 1]), events[|events| - 1]);
    }
  }

  /** So it is at every point of every run. */
  lemma InfiniteInRuns(events: seq<SampledEvent>)
    ensures var r := RunSampled(events);
      && (|r.points| >= 2 ==> r.base < |r.points|)
      && (Infinite(RateOf(r.state)) <==>
            && |r.points| >= 2
            && (forall j :: r.base < j < |r.points| ==> r.points[j].1 <= r.points[r.base].1)
            && r.points[|r.points| - 1].0 != r.points[r.base].0)
  {
    SampledRunInvariant(events);
    InfiniteExactly(RunSampled(events).state, RunSampled(events).points, RunSampled(events).base);
  }

  /** In every run, whatever the timestamps: the last remembered value is the first one plus rates times elapsed times,
      plus the jumps at infinite rates, plus what was skipped; so the rates alone telescope exactly when those two
      cancel. */
  lemma SampledTelescopes(events: seq<SampledEvent>)
    requires RunSampled(events).points != [] && RunSampled(events).loaded.None?
    ensures var r := RunSampled(events); r.base < |r.points|
    ensures var r := RunSampled(events);
      r.points[r.base].0 - r.points[0].0 == r.grown + r.jumps + r.skipped
    ensures var r := RunSampled(events);
      r.grown == r.points[r.base].0 - r.points[0].0 <==> r.jumps + r.skipped == 0.0
  {
    SampledRunInvariant(events);
  }

  // ---------- when the rates alone are right ----------

  ghost predicate Growing(points: seq<Point>) {
    forall i, j :: 0 <= i < j < |points| ==> points[i].0 <= points[j].0
  }

  ghost predicate StrictlyLater(points: seq<Point>) {
    forall i, j :: 0 <= i < j < |points| ==> points[i].1 < points[j].1
  }

  /** No point is accepted between a rate and its remembering. */
  ghost predicate Unbroken(events: seq<SampledEvent>) {
    forall i :: 0 <= i < |events| && RunSampled(events[..i]).loaded.Some? ==> !events[i].SetSampled?
  }

  lemma PointsStay(r: SampledRun, e: SampledEvent)
    ensures r.points <= SampledStep(r, e).points
  {
  }

  ghost predicate GrowingBooks(r: SampledRun) {
    && r.jumps >= 0.0 && r.skipped >= 0.0 && r.reported == r.grown
    && (r.jumps == 0.0 <==> r.stalls == 0)
  }

  lemma GrowingStep(r: SampledRun, e: SampledEvent)
    requires SampledInvariant(r) && Growing(r.points) && GrowingBooks(r)
    ensures GrowingBooks(SampledStep(r, e))
  {
    if e.TakeRate? && |r.points| >= 2 {
      assert r.base < |r.points| - 1 ==> r.points[r.base].0 <= r.points[|r.points| - 1].0;
      InfiniteExactly(r.state, r.points, r.base);
      GrowingRate(r.state);
    }
  }

  lemma GrowingRate(s: SampledState)
    requires s.value.Num? && s.prev.Num? && s.prev.value <= s.value.value && s.prevTs <= s.ts
    ensures !Positive(RateOf(s)) ==> Worth(s) == 0.0
    ensures Jump(s) >= 0.0 && (Jump(s) == 0.0 <==> !Infinite(RateOf(s)))
  {
    if s.ts != s.prevTs {
      NonNegativeRate(s.value.value - s.prev.value, s.Elapsed());
    }
  }

  lemma NonNegativeRate(d: real, t: real)
    requires d >= 0.0 && t > 0.0
    ensures d / t >= 0.0
  {
  }

  /** With values that do not decrease, the reported rates alone account for all of the growth exactly when no rate was
      infinite and nothing was skipped. */
  lemma {:induction false} ReportedIsGrown(events: seq<SampledEvent>)
    requires Growing(RunSampled(events).points)
    ensures GrowingBooks(RunSampled(events))
    ensures var r := RunSampled(events);
      r.points != [] && r.loaded.None? && r.base < |r.points| ==>
        (r.reported == r.points[r.base].0 - r.points[0].0 <==> r.stalls == 0 && r.skipped == 0.0)
  {
    if events == [] {
    } else {
      var r, e := RunSampled(events[..|events| - 1]), events[|events| - 1];
      PointsStay(r, e);
      assert forall i :: 0 <= i < |r.points| ==> r.points[i] == RunSampled(events).points[i];
      ReportedIsGrown(events[..|events| - 1]);
      SampledRunInvariant(events[..|events| - 1]);
      GrowingStep(r, e);
    }
    SampledRunInvariant(events);
  }

  lemma StrictStep(r: SampledRun, e: SampledEvent)
    requires SampledInvariant(r) && StrictlyLater(r.points) && r.stalls == 0 && r.jumps == 0.0
    ensures SampledStep(r, e).stalls == 0 && SampledStep(r, e).jumps == 0.0
  {
    if e.TakeRate? {
      InfiniteExactly(r.state, r.points, r.base);
    }
  }

  /** Strictly increasing timestamps suffice for finite rates. */
  lemma {:induction false} StrictTimestamps(events: seq<SampledEvent>)
    requires StrictlyLater(RunSampled(events).points)
    ensures RunSampled(events).stalls == 0 && RunSampled(events).jumps == 0.0
  {
    if events == [] {
    } else {
      var r, e := RunSampled(events[..|events| - 1]), events[|events| - 1];
      PointsStay(r, e);
      assert forall i :: 0 <= i < |r.points| ==> r.points[i] == RunSampled(events).points[i];
      StrictTimestamps(events[..|events| - 1]);
      SampledRunInvariant(events[..|events| - 1]);
      StrictStep(r, e);
    }
  }

  /** Nothing is skipped when measurements are not interrupted. */
  lemma {:induction false} UnbrokenSkipsNothing(events: seq<SampledEvent>)
    requires Unbroken(events)
    ensures var r := RunSampled(events); r.skipped == 0.0 && (r.loaded.Some? ==> r.loaded.value == |r.points|)
  {
    if events == [] {
    } else {
      var n := |events| - 1;
      assert forall i :: 0 <= i < n ==> events[..n][..i] == events[..i];
      UnbrokenSkipsNothing(events[..n]);
      UnbrokenStep(RunSampled(events[..n]), events[n]);
    }
  }

  lemma UnbrokenStep(r: SampledRun, e: SampledEvent)
    requires r.skipped == 0.0 && (r.loaded.Some? ==> r.loaded.value == |r.points| && !e.SetSampled?)
    ensures var t := SampledStep(r, e); t.skipped == 0.0 && (t.loaded.Some? ==> t.loaded.value == |t.points|)
  {
  }

  // ---------- repeated timestamps ----------

  lemma SampledStepOf(events: seq<SampledEvent>, i: nat)
    requires i < |events|
    ensures RunSampled(events[..i + 1]) == SampledStep(RunSampled(events[..i]), events[i])
  {
    assert events[..i + 1][..i] == events[..i];
  }

  /** Two points with one timestamp, before any measurement: the rate is infinite and the growth is in no rate. */
  lemma RepeatedTimestamp(a: real, b: real, nanos: nat)
    requires a < b && nanos > 0
    ensures RateOf(RunSampled([SetSampled(a, nanos), SetSampled(b, nanos)]).state) == PosInf
    ensures var r := RunSampled([SetSampled(a, nanos), SetSampled(b, nanos), TakeRate, Remember]);
      r.state.prev == Num(b) && r.grown == 0.0 && r.jumps == b - a && r.stalls == 1
  {
    var e := [SetSampled(a, nanos), SetSampled(b, nanos), TakeRate, Remember];
    SampledStepOf(e, 0);
    SampledStepOf(e, 1);
    SampledStepOf(e, 2);
    SampledStepOf(e, 3);
    assert RunSampled(e[..2]).state == SampledState(Num(b), Num(a), nanos, nanos);
    assert e[..2] == [SetSampled(a, nanos), SetSampled(b, nanos)] && e[..4] == e;
  }

  /** After a measurement a repeated timestamp does the same. */
  lemma RepeatedAfterMeasurement(a: real, b: real, c: real, first: nat, nanos: nat)
    requires b < c && 0 < first < nanos
    ensures var r := RunSampled([SetSampled(a, first), SetSampled(b, nanos), TakeRate, Remember, SetSampled(c, nanos)]);
      RateOf(r.state) == PosInf
  {
    var e := [SetSampled(a, first), SetSampled(b, nanos), TakeRate, Remember, SetSampled(c, nanos)];
    SampledStepOf(e, 0);
    SampledStepOf(e, 1);
    SampledStepOf(e, 2);
    SampledStepOf(e, 3);
    SampledStepOf(e, 4);
    assert RunSampled(e[..2]).state == SampledState(Num(b), Num(a), nanos, first);
    assert RunSampled(e[..4]).state == SampledState(Num(b), Num(b), nanos, nanos);
    assert e[..5] == e;
  }
}
