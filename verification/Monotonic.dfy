/** Unsigned counters that only grow: spectator/monotonic_counter_uint.cc. */
module Monotonic {
  import opened Bytes

  // ---------- unsigned counters ----------

  const WORD: nat := 0x1_0000_0000_0000_0000

  type Uint64 = n: nat | n < WORD

  const MAX: Uint64 := WORD - 1

  const OVERFLOW: nat := 9223372000000000000  // kOverflow, a little less than 2^63

  datatype UintState = UintState(init: bool, value: Uint64, prev: Uint64)

  /** The delta that Measure sees, None when there was no earlier measurement. */
  function DeltaOf(s: UintState): Option<Uint64> {
    if s.init then Some((s.value - s.prev) % WORD) else None
  }

  /** What Measure reports, if anything. */
  function ReportOf(delta: Option<Uint64>): Option<nat> {
    if delta.None? || delta.value == 0 then None
    else if delta.value > OVERFLOW then Some(0)
    else Some(delta.value)
  }

  /** updated is the time of the last Set, by which the registry expires the meter. */
  class MonotonicCounterUint {
    var updated: int
    var init: bool
    var value: Uint64
    var prev: Uint64

    function State(): UintState
      reads this
    {
      UintState(init, value, prev)
    }

    constructor (now: int)
      ensures State() == UintState(false, 0, 0) && updated == now
    {
      updated, init, value, prev := now, false, 0, 0;
    }

    method Set(amount: Uint64, now: int)
      modifies this
      ensures State() == old(State()).(value := amount) && updated == now
    {
      updated := now;
      value := amount;
    }

    /** Every intermediate result fits into 64 bits. */
    method Delta() returns (delta: Option<Uint64>)
      ensures delta == DeltaOf(State())
    {
      if !init { return None; }
      if value < prev {
        var toMax: Uint64 := MAX - prev;
        var beyond: Uint64 := toMax + value;
        var wrapped: Uint64 := beyond + 1;
        return Some(wrapped);
      } else {
        var grown: Uint64 := value - prev;
        return Some(grown);
      }
    }

    /** Other threads may set the value between its two loads; between is what they leave, if they do. */
    method Measure(between: Option<Uint64>) returns (report: Option<nat>)
      modifies this
      ensures State() == AfterStore(AfterOthers(old(State()), between)) && updated == old(updated)
      ensures report == ReportOf(DeltaOf(old(State())))
    {
      var delta := Delta();
      if between.Some? { value := between.value; }
      prev := value;
      init := true;
      if delta.Some? && delta.value > 0 {
        if delta.value > OVERFLOW {
          return Some(0);
        }
        return Some(delta.value);
      }
      return None;
    }
  }

  function AfterOthers(s: UintState, between: Option<Uint64>): UintState {
    if between.None? then s else s.(value := between.value)
  }

  function AfterStore(s: UintState): UintState {
    UintState(true, s.value, s.value)
  }

  /** Measure loads the value once for the delta and once more to remember it, so it is two events. */
  datatype UintEvent = SetUint(amount: Uint64) | LoadForDelta | LoadAndStore

  /** loaded is the value that a measurement under way has seen; measured holds the remembered values, deltas what
      Measure saw from the second time on, drift the sum of second minus first loads. */
  datatype UintRun =
    UintRun(state: UintState, loaded: Option<Uint64>, measured: seq<Uint64>, deltas: seq<Uint64>, drift: int)

  function UintStep(r: UintRun, e: UintEvent): UintRun {
    match e
    case SetUint(amount) => r.(state := r.state.(value := amount))
    case LoadForDelta =>
      if r.loaded.Some? then r
      else
        r.(loaded := Some(r.state.value),
           deltas := if DeltaOf(r.state).Some? then r.deltas + [DeltaOf(r.state).value] else r.deltas)
    case LoadAndStore =>
      if r.loaded.None? then r
      else
        UintRun(AfterStore(r.state), None, r.measured + [r.state.value], r.deltas,
                if r.state.init then r.drift + (r.state.value - r.loaded.value) else r.drift)
  }

  function RunUint(events: seq<UintEvent>): UintRun {
    if events == [] then UintRun(UintState(false, 0, 0), None, [], [], 0)
    else UintStep(RunUint(events[..|events| - 1]), events[|events| - 1])
  }

  function Total(s: seq<int>): int {
    if s == [] then 0 else Total(s[..|s| - 1]) + s[|s| - 1]
  }

  ghost predicate Congruent(a: int, b: int) {
    (a - b) % WORD == 0
  }

  /** The deltas reach up to the last remembered value, or to the one that a measurement under way has loaded. */
  ghost predicate UintInvariant(r: UintRun) {
    && (r.state.init <==> r.measured != [])
    && |r.deltas| == (if r.measured == [] then 0 else |r.measured| - (if r.loaded.Some? then 0 else 1))
    && (r.state.init ==> r.state.prev == r.measured[|r.measured| - 1])
    && (r.state.init ==> Congruent(Total(r.deltas), Reached(r) - r.measured[0] - r.drift))
    && (!r.state.init ==> r.drift == 0)
  }

  ghost function Reached(r: UintRun): int {
    if r.loaded.Some? then r.loaded.value else r.state.prev
  }

  /** What has been measured: the last minus the first remembered value. */
  ghost function Span(r: UintRun): int
    requires r.measured != []
  {
    r.measured[|r.measured| - 1] as int - r.measured[0] as int
  }

  lemma UintStepInvariant(r: UintRun, e: UintEvent)
    requires UintInvariant(r)
    ensures UintInvariant(UintStep(r, e))
  {
    if e.LoadForDelta? && r.loaded.None? && r.state.init {
      var d := DeltaOf(r.state).value;
      assert (r.deltas + [d])[..|r.deltas|] == r.deltas;
      StepModulo(Total(r.deltas) - (r.state.prev - r.measured[0] - r.drift), r.state.value - r.state.prev);
    }
  }

  /** Over any run, with values set at any time, the deltas add up to the last minus the first remembered value minus
      the drift, modulo 2^64, whether or not they were reported. */
  lemma {:induction false} DeltasTelescope(events: seq<UintEvent>)
    ensures UintInvariant(RunUint(events))
    ensures var r := RunUint(events);
      r.measured != [] && r.loaded.None? ==>
        Congruent(Total(r.deltas), Span(r) - r.drift)
  {
    if events == [] {
    } else {
      DeltasTelescope(events[..|events| - 1]);
      UintStepInvariant(RunUint(events[..|events| - 1]), events[|events| - 1]);
    }
  }

  /** Growth that is set between the loads is in no delta. */
  lemma SetBetweenLoadsIsLost(a: Uint64, b: Uint64)
    requires a < b
    ensures var r := RunUint([SetUint(a), LoadForDelta, LoadAndStore, LoadForDelta, SetUint(b), LoadAndStore]);
      r.measured == [a, b] && r.deltas == [0] && r.drift == b - a
  {
    var e := [SetUint(a), LoadForDelta, LoadAndStore, LoadForDelta, SetUint(b), LoadAndStore];
    assert e[..5][..4] == e[..4] && e[..4][..3] == e[..3] && e[..3][..2] == e[..2] && e[..2][..1] == e[..1];
    assert e[..1][..0] == [];
    assert RunUint(e[..1]) == UintRun(UintState(false, a, 0), None, [], [], 0);
    assert RunUint(e[..3]) == UintRun(UintState(true, a, a), None, [a], [], 0);
    assert RunUint(e[..5]) == UintRun(UintState(true, b, a), Some(a), [a], [0], 0);
  }

  /** Nothing is set between the loads of a measurement. */
  ghost predicate Undisturbed(events: seq<UintEvent>) {
    forall i :: 0 <= i < |events| && RunUint(events[..i]).loaded.Some? ==> !events[i].SetUint?
  }

  /** Then there is no drift: the deltas add up to all that was measured. */
  lemma {:induction false} UndisturbedHasNoDrift(events: seq<UintEvent>)
    requires Undisturbed(events)
    ensures var r := RunUint(events); r.drift == 0 && (r.loaded.Some? ==> r.loaded.value == r.state.value)
  {
    if events == [] {
    } else {
      var n := |events| - 1;
      assert forall i :: 0 <= i < n ==> events[..n][..i] == events[..i];
      UndisturbedHasNoDrift(events[..n]);
    }
  }

  lemma StepModulo(a: int, step: int)
    requires a % WORD == 0
    ensures (a + step % WORD - step) % WORD == 0
  {
  }

  /** A counter that really grew by some amount, seen through 64 bits, is reported as having grown by that amount
      exactly when the growth is not above kOverflow; no report means no growth. */
  lemma GrowthReportedExactly(before: nat, growth: nat)
    ensures var report := ReportOf(DeltaOf(UintState(true, (before + growth) % WORD, before % WORD)));
      (if report.Some? then report.value else 0) == growth <==> growth <= 9223372000000000000
  {
    DifferenceModulo(before, growth);
  }

  /** A delta above kOverflow is reported as zero, no delta and a delta of zero not at all, and others as they are. */
  lemma ReportIs(delta: Option<Uint64>)
    ensures delta.Some? && delta.value > 9223372000000000000 ==> ReportOf(delta) == Some(0)
    ensures ReportOf(delta) == None <==> delta == None || delta == Some(0)
    ensures delta.Some? && 0 < delta.value <= 9223372000000000000 ==> ReportOf(delta) == Some(delta.value)
  {
  }

  lemma DifferenceModulo(before: nat, growth: nat)
    ensures ((before + growth) % WORD - before % WORD) % WORD == growth % WORD
  {
  }
}
