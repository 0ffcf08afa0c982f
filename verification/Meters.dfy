/** Meters that are measured and reset: spectator/counter.cc, spectator/timer.cc, spectator/dist_summary.cc and
    spectator/meter.h.

    The state of a meter is specified as a value; the class has the fields and the methods that update them in place.
    What goes in and what comes out is counted in sums: how often, how much, and the squares.
 */
module Meters {
  import opened Ids

  datatype Kind = Counter | Timer | Summary

  /** A counter uses count only.  Timers hold nanoseconds. */
  datatype MeterState = MeterState(kind: Kind, updated: int, count: real, total: real, totalSq: real, max: real)

  datatype Stat = CountStat | TotalStat | TotalSqStat | MaxStat

  datatype Value = Value(stat: Stat, value: real)

  function Created(kind: Kind, now: int): MeterState {
    MeterState(kind, now, 0.0, 0.0, 0.0, 0.0)
  }

  /** Add or Record: every call refreshes the meter, a negative amount does nothing more. */
  function Recorded(m: MeterState, amount: real, now: int): MeterState {
    if amount < 0.0 then m.(updated := now)
    else if m.kind.Counter? then m.(updated := now, count := m.count + amount)
    else MeterState(m.kind, now, m.count + 1.0, m.total + amount, m.totalSq + amount * amount,
                    if amount > m.max then amount else m.max)
  }

  /** What is left after Measure. */
  function Reset(m: MeterState): MeterState {
    if m.kind.Counter? then m.(count := 0.0)
    else if m.count == 0.0 then m
    else Created(m.kind, m.updated)
  }

  /** What Measure emits. */
  function Emitted(m: MeterState): seq<Value> {
    if m.kind.Counter? then if m.count > 0.0 then [Value(CountStat, m.count)] else []
    else if m.count == 0.0 then []
    else [Value(CountStat, m.count), Value(TotalStat, Shown(m.kind, m.total)),
          Value(TotalSqStat, Shown(m.kind, Shown(m.kind, m.totalSq))), Value(MaxStat, Shown(m.kind, m.max))]
  }

  /** Timers hold nanoseconds and report seconds. */
  function Shown(kind: Kind, x: real): real {
    if kind.Timer? then x / 1000000000.0 else x
  }

  // ---------- sums ----------

  datatype Sums = Sums(count: real, total: real, totalSq: real)

  const Zero := Sums(0.0, 0.0, 0.0)

  function Plus(a: Sums, b: Sums): Sums {
    Sums(a.count + b.count, a.total + b.total, a.totalSq + b.totalSq)
  }

  /** What one call of Add or Record is worth. */
  function Contribution(kind: Kind, amount: real): Sums {
    if amount < 0.0 then Zero
    else if kind.Counter? then Sums(amount, 0.0, 0.0)
    else Sums(1.0, amount, amount * amount)
  }

  function Held(m: MeterState): Sums {
    Sums(m.count, m.total, m.totalSq)
  }

  /** What the emitted values are worth, back in the meter's own unit. */
  function Worth(kind: Kind, values: seq<Value>): Sums {
    if values == [] then Zero
    else Plus(Worth(kind, values[..|values| - 1]), WorthOf(kind, values[|values| - 1]))
  }

  function WorthOf(kind: Kind, v: Value): Sums {
    match v.stat
    case CountStat => Sums(v.value, 0.0, 0.0)
    case TotalStat => Sums(0.0, if kind.Timer? then v.value * 1000000000.0 else v.value, 0.0)
    case TotalSqStat => Sums(0.0, 0.0, if kind.Timer? then v.value * 1000000000.0 * 1000000000.0 else v.value)
    case MaxStat => Zero
  }

  /** An unused meter is empty, a counter keeps no totals. */
  ghost predicate Sound(m: MeterState) {
    && m.count >= 0.0
    && (m.count == 0.0 || m.kind.Counter? ==> m.total == 0.0 && m.totalSq == 0.0 && m.max == 0.0)
  }

  lemma RecordedIsCounted(m: MeterState, amount: real, now: int)
    requires Sound(m)
    ensures Sound(Recorded(m, amount, now))
    ensures Held(Recorded(m, amount, now)) == Plus(Held(m), Contribution(m.kind, amount))
  {
  }

  /** Measuring moves everything that is held into the emitted values. */
  lemma MeasuredIsMoved(m: MeterState)
    requires Sound(m)
    ensures Sound(Reset(m)) && Held(Reset(m)) == Zero
    ensures Worth(m.kind, Emitted(m)) == Held(m)
  {
    var values := Emitted(m);
    if |values| == 4 {
      assert values[..3][..2] == values[..2] && values[..2][..1] == values[..1] && values[..1][..0] == [];
      WorthStep(m.kind, values, 0);
      WorthStep(m.kind, values, 1);
      WorthStep(m.kind, values, 2);
      WorthStep(m.kind, values, 3);
      assert values[..4] == values;
    } else if |values| == 1 {
      assert values[..0] == [];
    }
  }

  lemma WorthStep(kind: Kind, values: seq<Value>, i: nat)
    requires i < |values|
    ensures Worth(kind, values[..i + 1]) == Plus(Worth(kind, values[..i]), WorthOf(kind, values[i]))
  {
    assert values[..i + 1][..i] == values[..i];
  }

  // ---------- the maximum ----------

  /** A meter after a list of amounts, each with its time. */
  function RecordedAll(m: MeterState, amounts: seq<(real, int)>): MeterState {
    if amounts == [] then m
    else Recorded(RecordedAll(m, amounts[..|amounts| - 1]), amounts[|amounts| - 1].0, amounts[|amounts| - 1].1)
  }

  /** r is the greatest of the amounts that are not negative, or zero. */
  ghost predicate IsGreatest(r: real, amounts: seq<(real, int)>) {
    && r >= 0.0
    && (forall i :: 0 <= i < |amounts| ==> amounts[i].0 <= r)
    && (r == 0.0 || exists i :: 0 <= i < |amounts| && amounts[i].0 == r)
  }

  lemma {:induction false} MaximumIsGreatest(m: MeterState, amounts: seq<(real, int)>)
    requires !m.kind.Counter? && m.max == 0.0
    ensures RecordedAll(m, amounts).kind == m.kind && IsGreatest(RecordedAll(m, amounts).max, amounts)
  {
    if amounts == [] {
    } else {
      var n := |amounts| - 1;
      var before := RecordedAll(m, amounts[..n]);
      MaximumIsGreatest(m, amounts[..n]);
      if i :| 0 <= i < n && amounts[..n][i].0 == before.max {
        assert amounts[i].0 == before.max;
      }
    }
  }

  /** The maximum that is reported is the greatest amount since the measurement before, in seconds for a timer. */
  lemma ReportedMaximum(m: MeterState, amounts: seq<(real, int)>)
    requires Sound(m) && !m.kind.Counter?
    ensures var values := Emitted(RecordedAll(Reset(m), amounts));
      values == []
      || (|values| == 4 && values[3].stat == MaxStat
          && IsGreatest(values[3].value * (if m.kind.Timer? then 1000000000.0 else 1.0), amounts))
  {
    MeasuredIsMoved(m);
    MaximumIsGreatest(Reset(m), amounts);
  }

  // ---------- the class ----------

  class Meter {
    const id: Identity
    const kind: Kind
    var updated: int
    var count: real
    var total: real
    var totalSq: real
    var max: real

    function State(): MeterState
      reads this
    {
      MeterState(kind, updated, count, total, totalSq, max)
    }

    constructor (id: Identity, kind: Kind, now: int)
      ensures this.id == id && State() == Created(kind, now)
    {
      this.id, this.kind, updated := id, kind, now;
      count, total, totalSq, max := 0.0, 0.0, 0.0, 0.0;
    }

    /** Counter::Add */
    method Add(delta: real, now: int)
      requires kind.Counter?
      modifies this
      ensures State() == Recorded(old(State()), delta, now)
    {
      updated := now;
      if delta < 0.0 { return; }
      count := count + delta;
    }

    /** Timer::Record and DistributionSummary::Record */
    method Record(amount: real, now: int)
      requires !kind.Counter?
      modifies this
      ensures State() == Recorded(old(State()), amount, now)
    {
      updated := now;
      if amount >= 0.0 {
        count := count + 1.0;
        total := total + amount;
        totalSq := totalSq + amount * amount;
        if amount > max { max := amount; }
      }
    }

    /** Counter::Measure, Timer::Measure and DistributionSummary::Measure: exchange and report. */
    method Measure() returns (values: seq<Value>)
      modifies this
      ensures State() == Reset(old(State()))
      ensures values == Emitted(old(State()))
    {
      var c := count;
      count := 0.0;
      match kind
      case Counter =>
        values := if c > 0.0 then [Value(CountStat, c)] else [];
      case Timer =>
        if c == 0.0 { return []; }
        var t, sq, mx := total / 1000000000.0, totalSq / (1000000000.0 * 1000000000.0), max / 1000000000.0;
        total, totalSq, max := 0.0, 0.0, 0.0;
        values := [Value(CountStat, c), Value(TotalStat, t), Value(TotalSqStat, sq), Value(MaxStat, mx)];
      case Summary =>
        if c == 0.0 { return []; }
        var t, sq, mx := total, totalSq, max;
        total, totalSq, max := 0.0, 0.0, 0.0;
        values := [Value(CountStat, c), Value(TotalStat, t), Value(TotalSqStat, sq), Value(MaxStat, mx)];
    }
  }
}
