/** Lock-free updates of a shared cell: spectator/atomicnumber.h, with the exchanges of the meters that measure it.

    Each call is a small program; a run is any sequence of their atomic steps, in any interleaving, with
    compare_exchange_weak free to fail for no reason.
 */
module AtomicNumber {

  // ---------- add_double ----------

  /** Where a call is: before the first load, after it, after the second load, or returned.  epoch is the number of
      exchanges that had happened at the first load of this attempt. */
  datatype AddPc =
    | Begin
    | LoadedOnce(current: real, epoch: nat)
    | LoadedTwice(current: real, second: real, epoch: nat)
    | Returned

  datatype AddCall = AddCall(delta: real, pc: AddPc)

  datatype AddEvent =
    | Load(call: nat)
    | LoadAgain(call: nat)
    | CompareExchange(call: nat, spurious: bool)
    | Exchange  // Counter::Measure takes the value and leaves zero

  /** taken, drift and clean only record what has happened: the sum of the values exchanged away, the sum of second
      minus current over the successful compare-exchanges, and whether each of those fell in the epoch of its first
      load. */
  datatype AddState = AddState(cell: real, calls: seq<AddCall>, epoch: nat, taken: real, drift: real, clean: bool)

  function AddStart(initial: real, deltas: seq<real>): AddState {
    AddState(initial, seq(|deltas|, i requires 0 <= i < |deltas| => AddCall(deltas[i], Begin)), 0, 0.0, 0.0, true)
  }

  /** One atomic step; an event that does not fit the state changes nothing. */
  function AddStep(s: AddState, e: AddEvent): AddState {
    match e
    case Exchange =>
      s.(cell := 0.0, epoch := s.epoch + 1, taken := s.taken + s.cell)
    case Load(i) =>
      if i < |s.calls| && s.calls[i].pc.Begin?
      then s.(calls := s.calls[i := s.calls[i].(pc := LoadedOnce(s.cell, s.epoch))])
      else s
    case LoadAgain(i) =>
      if i < |s.calls| && s.calls[i].pc.LoadedOnce?
      then s.(calls := s.calls[i := s.calls[i].(pc := LoadedTwice(s.calls[i].pc.current, s.cell, s.calls[i].pc.epoch))])
      else s
    case CompareExchange(i, spurious) =>
      if i < |s.calls| && s.calls[i].pc.LoadedTwice? then
        var pc := s.calls[i].pc;
        if s.cell == pc.current && !spurious then
          s.(cell := pc.second + s.calls[i].delta,
             calls := s.calls[i := s.calls[i].(pc := Returned)],
             drift := s.drift + (pc.second - pc.current),
             clean := s.clean && pc.epoch == s.epoch)
        else
          s.(calls := s.calls[i := s.calls[i].(pc := Begin)])  // round the loop again
      else s
  }

  function AddRun(s: AddState, events: seq<AddEvent>): AddState {
    if events == [] then s else AddStep(AddRun(s, events[..|events| - 1]), events[|events| - 1])
  }

  /** The sum of the deltas whose calls have returned. */
  function Finished(calls: seq<AddCall>): real {
    if calls == [] then 0.0
    else Finished(calls[..|calls| - 1]) + if calls[|calls| - 1].pc.Returned? then calls[|calls| - 1].delta else 0.0
  }

  function Sum(deltas: seq<real>): real {
    if deltas == [] then 0.0 else Sum(deltas[..|deltas| - 1]) + deltas[|deltas| - 1]
  }

  /** What a call has loaded in the current epoch is not above the cell: within an epoch values never decrease. */
  ghost predicate InOrder(s: AddState, pc: AddPc) {
    match pc
    case LoadedOnce(current, epoch) =>
      epoch <= s.epoch && (epoch == s.epoch ==> current <= s.cell)
    case LoadedTwice(current, second, epoch) =>
      epoch <= s.epoch && (epoch == s.epoch ==> current <= second <= s.cell)
    case _ => true
  }

  ghost predicate AddInvariant(s: AddState, initial: real) {
    && s.cell + s.taken == initial + Finished(s.calls) + s.drift
    && (s.clean ==> s.drift == 0.0)
    && (forall i :: 0 <= i < |s.calls| ==> s.calls[i].delta >= 0.0)
    && (s.clean ==> forall i :: 0 <= i < |s.calls| ==> InOrder(s, s.calls[i].pc))
  }

  lemma {:induction false} FinishedUpdate(calls: seq<AddCall>, i: nat, pc: AddPc)
    requires i < |calls| && !calls[i].pc.Returned?
    ensures Finished(calls[i := calls[i].(pc := pc)]) == Finished(calls) + if pc.Returned? then calls[i].delta else 0.0
  {
    var n, t := |calls| - 1, calls[i := calls[i].(pc := pc)];
    if i == n {
      assert t[..n] == calls[..n];
    } else {
      assert t[..n] == calls[..n][i := calls[i].(pc := pc)];
      FinishedUpdate(calls[..n], i, pc);
    }
  }

  lemma AddStepInvariant(s: AddState, e: AddEvent, initial: real)
    requires AddInvariant(s, initial)
    ensures AddInvariant(AddStep(s, e), initial)
  {
    var t := AddStep(s, e);
    if !e.Exchange? && e.call < |s.calls| && t != s {
      FinishedUpdate(s.calls, e.call, t.calls[e.call].pc);
      assert s.clean ==> InOrder(s, s.calls[e.call].pc);
    }
  }

  lemma {:induction false} StartFinished(deltas: seq<real>)
    ensures Finished(AddStart(0.0, deltas).calls) == 0.0
  {
    if deltas == [] {
    } else {
      var n := |deltas| - 1;
      StartFinished(deltas[..n]);
      assert AddStart(0.0, deltas).calls[..n] == AddStart(0.0, deltas[..n]).calls;
    }
  }

  lemma {:induction false} AddRunInvariant(initial: real, deltas: seq<real>, events: seq<AddEvent>)
    requires forall i :: 0 <= i < |deltas| ==> deltas[i] >= 0.0
    ensures AddInvariant(AddRun(AddStart(initial, deltas), events), initial)
  {
    if events == [] {
      StartFinished(deltas);
      assert AddStart(initial, deltas).calls == AddStart(0.0, deltas).calls;
    } else {
      var n := |events| - 1;
      AddRunInvariant(initial, deltas, events[..n]);
      AddStepInvariant(AddRun(AddStart(initial, deltas), events[..n]), events[n], initial);
    }
  }

  /** The calls of a run keep their deltas. */
  lemma {:induction false} DeltasKept(initial: real, deltas: seq<real>, events: seq<AddEvent>)
    ensures var calls := AddRun(AddStart(initial, deltas), events).calls;
      |calls| == |deltas| && forall i :: 0 <= i < |deltas| ==> calls[i].delta == deltas[i]
  {
    if events == [] {
    } else {
      DeltasKept(initial, deltas, events[..|events| - 1]);
    }
  }

  lemma {:induction false} AllFinished(calls: seq<AddCall>, deltas: seq<real>)
    requires |calls| == |deltas|
    requires forall i :: 0 <= i < |calls| ==> calls[i].delta == deltas[i] && calls[i].pc.Returned?
    ensures Finished(calls) == Sum(deltas)
  {
    if calls == [] {
    } else {
      AllFinished(calls[..|calls| - 1], deltas[..|deltas| - 1]);
    }
  }

  ghost predicate AllReturned(s: AddState) {
    forall i :: 0 <= i < |s.calls| ==> s.calls[i].pc.Returned?
  }

  /** Whatever the interleaving, spurious failures and exchanges: once all calls have returned, what was taken and what
      is left miss the sum of the deltas by exactly the drift, and there is none when every successful compare-exchange
      fell in the epoch of its first load. */
  lemma SumExactlyUpToDrift(initial: real, deltas: seq<real>, events: seq<AddEvent>)
    requires forall i :: 0 <= i < |deltas| ==> deltas[i] >= 0.0
    requires AllReturned(AddRun(AddStart(initial, deltas), events))
    ensures var t := AddRun(AddStart(initial, deltas), events);
      && t.taken + t.cell == initial + Sum(deltas) + t.drift
      && (t.clean ==> t.taken + t.cell == initial + Sum(deltas))
  {
    var t := AddRun(AddStart(initial, deltas), events);
    AddRunInvariant(initial, deltas, events);
    DeltasKept(initial, deltas, events);
    AllFinished(t.calls, deltas);
  }

  lemma {:induction false} NoExchangeIsClean(initial: real, deltas: seq<real>, events: seq<AddEvent>)
    requires forall i :: 0 <= i < |events| ==> !events[i].Exchange?
    ensures var t := AddRun(AddStart(initial, deltas), events);
      && t.clean && t.taken == 0.0 && t.epoch == 0
      && forall i :: 0 <= i < |t.calls| ==>
           && (t.calls[i].pc.LoadedOnce? ==> t.calls[i].pc.epoch == 0)
           && (t.calls[i].pc.LoadedTwice? ==> t.calls[i].pc.epoch == 0)
  {
    if events == [] {
    } else {
      NoExchangeIsClean(initial, deltas, events[..|events| - 1]);
    }
  }

  /** Without resets nothing is lost: the quiescent value is the initial one plus all the deltas. */
  lemma QuiescentSum(initial: real, deltas: seq<real>, events: seq<AddEvent>)
    requires forall i :: 0 <= i < |deltas| ==> deltas[i] >= 0.0
    requires forall i :: 0 <= i < |events| ==> !events[i].Exchange?
    requires AllReturned(AddRun(AddStart(initial, deltas), events))
    ensures AddRun(AddStart(initial, deltas), events).cell == initial + Sum(deltas)
  {
    NoExchangeIsClean(initial, deltas, events);
    SumExactlyUpToDrift(initial, deltas, events);
  }

  /** A run through given states. */
  lemma {:induction false} Through(states: seq<AddState>, events: seq<AddEvent>)
    requires |states| == |events| + 1
    requires forall i :: 0 <= i < |events| ==> states[i + 1] == AddStep(states[i], events[i])
    ensures AddRun(states[0], events) == states[|events|]
  {
    if events == [] {
    } else {
      var n := |events| - 1;
      Through(states[..n + 1], events[..n]);
    }
  }

  /** Two calls, under way as given, with nothing yet found amiss. */
  function Two(cell: real, a: AddPc, b: AddPc, epoch: nat, taken: real): AddState {
    AddState(cell, [AddCall(1.0, a), AddCall(5.0, b)], epoch, taken, 0.0, true)
  }

  function ResetInBetween(): seq<AddEvent> {
    [Load(0), Exchange, LoadAgain(0), Load(1), LoadAgain(1), CompareExchange(1, false), CompareExchange(0, false)]
  }

  /** A reset between the two loads can lose an update: here call 0 loads 5, the measurement takes 5, call 0 loads 0,
      call 1 adds 5, and call 0 finds the 5 it expects and stores 0 + 1.  Of 5 + 1 + 5 only 6 are accounted for. */
  lemma ResetLosesAnUpdate()
    ensures var t := AddRun(AddStart(5.0, [1.0, 5.0]), ResetInBetween());
      AllReturned(t) && t.taken + t.cell == 6.0 && !t.clean
  {
    var last := AddState(1.0, [AddCall(1.0, Returned), AddCall(5.0, Returned)], 1, 5.0, -5.0, false);
    var states := [
      Two(5.0, Begin, Begin, 0, 0.0),
      Two(5.0, LoadedOnce(5.0, 0), Begin, 0, 0.0),
      Two(0.0, LoadedOnce(5.0, 0), Begin, 1, 5.0),
      Two(0.0, LoadedTwice(5.0, 0.0, 0), Begin, 1, 5.0),
      Two(0.0, LoadedTwice(5.0, 0.0, 0), LoadedOnce(0.0, 1), 1, 5.0),
      Two(0.0, LoadedTwice(5.0, 0.0, 0), LoadedTwice(0.0, 0.0, 1), 1, 5.0),
      Two(5.0, LoadedTwice(5.0, 0.0, 0), Returned, 1, 5.0),
      last];
    Through(states, ResetInBetween());
    assert states[0] == AddStart(5.0, [1.0, 5.0]);
  }

  function Three(cell: real, a: AddPc, b: AddPc, c: AddPc, epoch: nat, taken: real): AddState {
    AddState(cell, [AddCall(1.0, a), AddCall(1.0, b), AddCall(5.0, c)], epoch, taken, 0.0, true)
  }

  function ResetBeforeExchange(): seq<AddEvent> {
    [Load(0), Load(1), LoadAgain(1), CompareExchange(1, false), LoadAgain(0), Exchange,
     Load(2), LoadAgain(2), CompareExchange(2, false), CompareExchange(0, false)]
  }

  /** A reset between the second load and the exchange can invent one: call 0 loads 5, call 1 adds 1, call 0 loads 6,
      the measurement takes 6, call 2 adds 5, and call 0 finds the 5 it expects and stores 6 + 1.  Of 5 + 1 + 1 + 5
      there are 13. */
  lemma ResetInventsAnUpdate()
    ensures var t := AddRun(AddStart(5.0, [1.0, 1.0, 5.0]), ResetBeforeExchange());
      AllReturned(t) && t.taken + t.cell == 13.0 && !t.clean
  {
    var stale := LoadedTwice(5.0, 6.0, 0);
    var calls := [AddCall(1.0, Returned), AddCall(1.0, Returned), AddCall(5.0, Returned)];
    var states := [
      Three(5.0, Begin, Begin, Begin, 0, 0.0),
      Three(5.0, LoadedOnce(5.0, 0), Begin, Begin, 0, 0.0),
      Three(5.0, LoadedOnce(5.0, 0), LoadedOnce(5.0, 0), Begin, 0, 0.0),
      Three(5.0, LoadedOnce(5.0, 0), LoadedTwice(5.0, 5.0, 0), Begin, 0, 0.0),
      Three(6.0, LoadedOnce(5.0, 0), Returned, Begin, 0, 0.0),
      Three(6.0, stale, Returned, Begin, 0, 0.0),
      Three(0.0, stale, Returned, Begin, 1, 6.0),
      Three(0.0, stale, Returned, LoadedOnce(0.0, 1), 1, 6.0),
      Three(0.0, stale, Returned, LoadedTwice(0.0, 0.0, 1), 1, 6.0),
      Three(5.0, stale, Returned, Returned, 1, 6.0),
      AddState(7.0, calls, 1, 6.0, 1.0, false)];
    Through(states, ResetBeforeExchange());
    assert states[0] == AddStart(5.0, [1.0, 1.0, 5.0]);
  }

  // ---------- update_max ----------

  /** A call that has returned remembers the epoch in which it took effect. */
  datatype MaxPc = MaxBegin | MaxLoaded(current: real) | MaxReturned(epoch: nat)

  datatype MaxCall = MaxCall(value: real, pc: MaxPc)

  datatype MaxEvent =
    | MaxLoad(call: nat)
    | MaxCompareExchange(call: nat, spurious: bool)
    | MaxExchange  // MaxGauge::Measure

  /** reported holds the values exchanged away so far: one epoch each. */
  datatype MaxState = MaxState(cell: real, calls: seq<MaxCall>, reported: seq<real>)

  function MaxStart(lowest: real, values: seq<real>): MaxState {
    MaxState(lowest, seq(|values|, i requires 0 <= i < |values| => MaxCall(values[i], MaxBegin)), [])
  }

  function MaxStep(s: MaxState, e: MaxEvent, lowest: real): MaxState {
    match e
    case MaxExchange =>
      s.(cell := lowest, reported := s.reported + [s.cell])
    case MaxLoad(i) =>
      if i < |s.calls| && s.calls[i].pc.MaxBegin? then
        if s.calls[i].value > s.cell
        then s.(calls := s.calls[i := s.calls[i].(pc := MaxLoaded(s.cell))])
        else s.(calls := s.calls[i := s.calls[i].(pc := MaxReturned(|s.reported|))])
      else s
    case MaxCompareExchange(i, spurious) =>
      if i < |s.calls| && s.calls[i].pc.MaxLoaded? then
        if s.cell == s.calls[i].pc.current && !spurious
        then s.(cell := s.calls[i].value, calls := s.calls[i := s.calls[i].(pc := MaxReturned(|s.reported|))])
        else s.(calls := s.calls[i := s.calls[i].(pc := MaxBegin)])
      else s
  }

  function MaxRun(s: MaxState, events: seq<MaxEvent>, lowest: real): MaxState {
    if events == [] then s else MaxStep(MaxRun(s, events[..|events| - 1], lowest), events[|events| - 1], lowest)
  }

  /** r is the greatest of the updates that took effect in the epoch, or the sentinel if none exceeds it. */
  ghost predicate IsMaxOf(calls: seq<MaxCall>, epoch: nat, r: real, lowest: real) {
    && r >= lowest
    && (forall i :: 0 <= i < |calls| && calls[i].pc == MaxReturned(epoch) ==> calls[i].value <= r)
    && (r == lowest || exists i :: 0 <= i < |calls| && calls[i].pc == MaxReturned(epoch) && calls[i].value == r)
  }

  ghost predicate MaxInvariant(s: MaxState, lowest: real) {
    && IsMaxOf(s.calls, |s.reported|, s.cell, lowest)
    && (forall e :: 0 <= e < |s.reported| ==> IsMaxOf(s.calls, e, s.reported[e], lowest))
    && (forall i :: 0 <= i < |s.calls| ==> EpochSeen(s, s.calls[i].pc))
    && (forall i :: 0 <= i < |s.calls| && s.calls[i].pc.MaxLoaded? ==> s.calls[i].pc.current < s.calls[i].value)
  }

  ghost predicate EpochSeen(s: MaxState, pc: MaxPc) {
    pc.MaxReturned? ==> pc.epoch <= |s.reported|
  }

  /** A call that moves on without taking effect in epoch e leaves the maximum of that epoch. */
  lemma MaxKept(calls: seq<MaxCall>, i: nat, pc: MaxPc, epoch: nat, r: real, lowest: real)
    requires i < |calls| && !calls[i].pc.MaxReturned? && IsMaxOf(calls, epoch, r, lowest)
    requires pc == MaxReturned(epoch) ==> calls[i].value <= r
    ensures IsMaxOf(calls[i := calls[i].(pc := pc)], epoch, r, lowest)
  {
    var t := calls[i := calls[i].(pc := pc)];
    if r != lowest {
      var j :| 0 <= j < |calls| && calls[j].pc == MaxReturned(epoch) && calls[j].value == r;
      assert t[j] == calls[j];
    }
  }

  lemma MaxRaised(calls: seq<MaxCall>, i: nat, epoch: nat, r: real, lowest: real)
    requires i < |calls| && !calls[i].pc.MaxReturned? && IsMaxOf(calls, epoch, r, lowest) && r < calls[i].value
    ensures IsMaxOf(calls[i := calls[i].(pc := MaxReturned(epoch))], epoch, calls[i].value, lowest)
  {
    var t := calls[i := calls[i].(pc := MaxReturned(epoch))];
    assert t[i].pc == MaxReturned(epoch) && t[i].value == calls[i].value;
  }

  lemma MaxStepInvariant(s: MaxState, e: MaxEvent, lowest: real)
    requires MaxInvariant(s, lowest)
    ensures MaxInvariant(MaxStep(s, e, lowest), lowest)
  {
    var t := MaxStep(s, e, lowest);
    if !e.MaxExchange? && e.call < |s.calls| && t != s {
      var i, pc := e.call, t.calls[e.call].pc;
      assert EpochSeen(s, s.calls[i].pc);
      forall k | 0 <= k < |s.reported| ensures IsMaxOf(t.calls, k, t.reported[k], lowest) {
        MaxKept(s.calls, i, pc, k, s.reported[k], lowest);
      }
      if t.cell == s.cell {
        MaxKept(s.calls, i, pc, |s.reported|, s.cell, lowest);
      } else {
        MaxRaised(s.calls, i, |s.reported|, s.cell, lowest);
      }
    } else if e.MaxExchange? {
      assert forall i :: 0 <= i < |s.calls| ==> EpochSeen(s, s.calls[i].pc);
    }
  }

  /** In every run the cell is the maximum of the updates that took effect since the last exchange, and every exchange
      took the maximum of its own epoch. */
  lemma {:induction false} MaxRunInvariant(lowest: real, values: seq<real>, events: seq<MaxEvent>)
    ensures MaxInvariant(MaxRun(MaxStart(lowest, values), events, lowest), lowest)
  {
    if events == [] {
    } else {
      var n := |events| - 1;
      MaxRunInvariant(lowest, values, events[..n]);
      MaxStepInvariant(MaxRun(MaxStart(lowest, values), events[..n], lowest), events[n], lowest);
    }
  }

  lemma {:induction false} ValuesKept(lowest: real, values: seq<real>, events: seq<MaxEvent>)
    ensures var calls := MaxRun(MaxStart(lowest, values), events, lowest).calls;
      |calls| == |values| && forall i :: 0 <= i < |values| ==> calls[i].value == values[i]
  {
    if events == [] {
    } else {
      ValuesKept(lowest, values, events[..|events| - 1]);
    }
  }

  ghost predicate Covered(v: real, reported: seq<real>) {
    exists r :: r in reported && v <= r
  }

  /** Once all updates have returned and a last measurement has been made, every update is covered by some report, and
      every report is the sentinel or one of the updates. */
  lemma ReportsCoverUpdates(lowest: real, values: seq<real>, events: seq<MaxEvent>)
    requires forall c :: c in MaxRun(MaxStart(lowest, values), events, lowest).calls ==> c.pc.MaxReturned?
    ensures var reported := MaxRun(MaxStart(lowest, values), events + [MaxExchange], lowest).reported;
      && (forall v :: v in values ==> Covered(v, reported))
      && (forall r :: r in reported ==> r == lowest || r in values)
  {
    var s := MaxRun(MaxStart(lowest, values), events, lowest);
    assert (events + [MaxExchange])[..|events|] == events;
    MaxRunInvariant(lowest, values, events);
    ValuesKept(lowest, values, events);
    var reported := s.reported + [s.cell];
    forall v | v in values ensures Covered(v, reported) {
      var i :| 0 <= i < |values| && values[i] == v;
      assert s.calls[i] in s.calls && EpochSeen(s, s.calls[i].pc);
      var e := s.calls[i].pc.epoch;
      assert IsMaxOf(s.calls, e, reported[e], lowest);
      assert reported[e] in reported;
    }
    forall r | r in reported ensures r == lowest || r in values {
      var e :| 0 <= e < |reported| && reported[e] == r;
      assert IsMaxOf(s.calls, e, r, lowest);
    }
  }
}
