/** Runs of one registry map under one clock: spectator/registry.h.

    Handles stand for the shared pointers that lookups return: a handle stays usable after its meter has been removed
    from the map, but what is recorded through it is never measured again.
 */
module Expiry {
  import opened Bytes
  import opened Ids
  import opened Meters
  import opened Registry

  datatype Event =
    | Tick(nanos: nat)
    | Lookup(id: Identity)
    | Record(id: Identity, handle: nat, amount: real)  // through a handle from an earlier lookup
    | Update(id: Identity, amount: real)               // lookup and record in one step
    | Measure
    | RemoveExpired

  /** All there is to know about one id: the meter in the map, how many meters there have been (the handle of the
      current one), and the books: what was passed to recording calls, what measure emitted, and what was in meters
      when they were removed or came in through handles of removed meters. */
  datatype Account = Account(meter: Option<MeterState>, generation: nat, recorded: Sums, reported: Sums, lost: Sums) {
    function Kept(): Sums {
      if meter.Some? then Held(meter.value) else Zero
    }
  }

  const Empty := Account(None, 0, Zero, Zero, Zero)

  datatype State = State(now: int, lastMeasure: int, accounts: map<Identity, Account>) {
    function Of(id: Identity): Account {
      if id in accounts then accounts[id] else Empty
    }

    /** The registry's map. */
    function Live(): Live {
      map id | id in accounts && accounts[id].meter.Some? :: accounts[id].meter.value
    }
  }

  // ---------- the steps, for one account ----------

  function Found(a: Account, kind: Kind, now: int): Account {
    if a.meter.Some? then a else a.(meter := Some(Created(kind, now)), generation := a.generation + 1)
  }

  function Noted(a: Account, handle: nat, kind: Kind, amount: real, now: int): Account {
    var x := Contribution(kind, amount);
    if a.meter.Some? && a.generation == handle
    then a.(recorded := Plus(a.recorded, x), meter := Some(Recorded(a.meter.value, amount, now)))
    else a.(recorded := Plus(a.recorded, x), lost := Plus(a.lost, x))
  }

  function Swept(a: Account, kind: Kind, now: int, ttl: int): Account {
    if a.meter.None? then a
    else a.(meter := Some(AfterMeasure(a.meter.value, now, ttl)),
            reported := Plus(a.reported, Worth(kind, EmittedBy(a.meter.value, now, ttl))))
  }

  function Pruned(a: Account, now: int, ttl: int): Account {
    if a.meter.None? || !IsExpired(now, a.meter.value.updated, ttl) then a
    else a.(meter := None, lost := Plus(a.lost, Held(a.meter.value)))
  }

  // ---------- the steps of the map ----------

  function Step(s: State, e: Event, kind: Kind, ttl: int): State {
    match e
    case Tick(nanos) => s.(now := s.now + nanos)
    case Lookup(id) => s.(accounts := s.accounts[id := Found(s.Of(id), kind, s.now)])
    case Record(id, handle, amount) => s.(accounts := s.accounts[id := Noted(s.Of(id), handle, kind, amount, s.now)])
    case Update(id, amount) =>
      var a := Found(s.Of(id), kind, s.now);
      s.(accounts := s.accounts[id := Noted(a, a.generation, kind, amount, s.now)])
    case Measure =>
      s.(accounts := map id | id in s.accounts :: Swept(s.accounts[id], kind, s.now, ttl), lastMeasure := s.now)
    case RemoveExpired =>
      s.(accounts := map id | id in s.accounts :: Pruned(s.accounts[id], s.now, ttl))
  }

  function Run(now: int, events: seq<Event>, kind: Kind, ttl: int): State {
    if events == [] then State(now, now, map[])
    else Step(Run(now, events[..|events| - 1], kind, ttl), events[|events| - 1], kind, ttl)
  }

  /** What a step does to one account. */
  function AccountStep(a: Account, id: Identity, e: Event, kind: Kind, now: int, ttl: int): Account {
    match e
    case Tick(nanos) => a
    case Lookup(x) => if x == id then Found(a, kind, now) else a
    case Record(x, handle, amount) => if x == id then Noted(a, handle, kind, amount, now) else a
    case Update(x, amount) =>
      if x == id then Noted(Found(a, kind, now), Found(a, kind, now).generation, kind, amount, now) else a
    case Measure => Swept(a, kind, now, ttl)
    case RemoveExpired => Pruned(a, now, ttl)
  }

  lemma StepAt(s: State, e: Event, kind: Kind, ttl: int, id: Identity)
    ensures Step(s, e, kind, ttl).Of(id) == AccountStep(s.Of(id), id, e, kind, s.now, ttl)
  {
  }

  /** Looking up does to the map what insert does. */
  lemma LookupIsInsert(s: State, kind: Kind, ttl: int, id: Identity)
    ensures Step(s, Lookup(id), kind, ttl).Live() == Inserted(s.Live(), id, Created(kind, s.now))
  {
  }

  /** Recording through the current handle updates the meter in the map. */
  lemma RecordIsRecord(s: State, kind: Kind, ttl: int, id: Identity, amount: real)
    requires id in s.Live()
    ensures Step(s, Record(id, s.Of(id).generation, amount), kind, ttl).Live()
         == s.Live()[id := Recorded(s.Live()[id], amount, s.now)]
  {
  }

  lemma UpdateIsInsertAndRecord(s: State, kind: Kind, ttl: int, id: Identity, amount: real)
    ensures var l := Inserted(s.Live(), id, Created(kind, s.now));
      Step(s, Update(id, amount), kind, ttl).Live() == l[id := Recorded(l[id], amount, s.now)]
  {
  }

  lemma MeasureIsMeasure(s: State, kind: Kind, ttl: int)
    ensures Step(s, Measure, kind, ttl).Live() == Measured(s.Live(), s.now, ttl)
  {
  }

  lemma RemoveIsRemove(s: State, kind: Kind, ttl: int)
    ensures Step(s, RemoveExpired, kind, ttl).Live() == Remaining(s.Live(), s.now, ttl)
  {
  }

  // ---------- the books always balance ----------

  ghost predicate Balanced(a: Account, kind: Kind) {
    && a.recorded == Plus(Plus(a.reported, a.Kept()), a.lost)
    && (a.meter.Some? ==> Sound(a.meter.value) && a.meter.value.kind == kind)
  }

  lemma FoundBalanced(a: Account, kind: Kind, now: int)
    requires Balanced(a, kind)
    ensures Balanced(Found(a, kind, now), kind)
  {
  }

  lemma NotedBalanced(a: Account, handle: nat, kind: Kind, amount: real, now: int)
    requires Balanced(a, kind)
    ensures Balanced(Noted(a, handle, kind, amount, now), kind)
  {
    if a.meter.Some? {
      RecordedIsCounted(a.meter.value, amount, now);
    }
  }

  lemma SweptBalanced(a: Account, kind: Kind, now: int, ttl: int)
    requires Balanced(a, kind)
    ensures Balanced(Swept(a, kind, now, ttl), kind)
  {
    if a.meter.Some? {
      MeasuredIsMoved(a.meter.value);
    }
  }

  lemma PrunedBalanced(a: Account, kind: Kind, now: int, ttl: int)
    requires Balanced(a, kind)
    ensures Balanced(Pruned(a, now, ttl), kind)
  {
  }

  lemma StepBalanced(a: Account, id: Identity, e: Event, kind: Kind, now: int, ttl: int)
    requires Balanced(a, kind)
    ensures Balanced(AccountStep(a, id, e, kind, now, ttl), kind)
  {
    var f := Found(a, kind, now);
    FoundBalanced(a, kind, now);
    match e
    case Tick(nanos) =>
    case Lookup(x) =>
    case Record(x, handle, amount) => NotedBalanced(a, handle, kind, amount, now);
    case Update(x, amount) => NotedBalanced(f, f.generation, kind, amount, now);
    case Measure => SweptBalanced(a, kind, now, ttl);
    case RemoveExpired => PrunedBalanced(a, kind, now, ttl);
  }

  /** In every run, for every id: recorded = reported + held + lost. */
  lemma {:induction false} BooksBalance(now: int, events: seq<Event>, kind: Kind, ttl: int, id: Identity)
    ensures var a := Run(now, events, kind, ttl).Of(id);
      Balanced(a, kind) && a.recorded == Plus(Plus(a.reported, a.Kept()), a.lost)
  {
    if events == [] {
    } else {
      var s, e := Run(now, events[..|events| - 1], kind, ttl), events[|events| - 1];
      BooksBalance(now, events[..|events| - 1], kind, ttl, id);
      StepAt(s, e, kind, ttl, id);
      StepBalanced(s.Of(id), id, e, kind, s.now, ttl);
    }
  }

  // ---------- when nothing is lost ----------

  /** Meters are measured or removed at most gap after the last measurement. */
  ghost predicate Timely(s: State, e: Event, gap: int) {
    e.Measure? || e.RemoveExpired? ==> s.now - s.lastMeasure <= gap
  }

  /** A handle is used while its meter is still in the map. */
  ghost predicate HandleIsCurrent(s: State, e: Event) {
    e.Record? ==> s.Of(e.id).meter.Some? && s.Of(e.id).generation == e.handle
  }

  ghost predicate AllCareful(now: int, events: seq<Event>, kind: Kind, ttl: int, gap: int) {
    forall i :: 0 <= i < |events| ==>
      && Timely(Run(now, events[..i], kind, ttl), events[i], gap)
      && HandleIsCurrent(Run(now, events[..i], kind, ttl), events[i])
  }

  /** Nothing is lost so far, and a meter that holds something was updated after the last measurement. */
  ghost predicate NothingLost(a: Account, lastMeasure: int) {
    a.lost == Zero && (a.meter.Some? && a.meter.value.count > 0.0 ==> a.meter.value.updated >= lastMeasure)
  }

  lemma NotedKeeps(a: Account, handle: nat, kind: Kind, amount: real, now: int, lastMeasure: int)
    requires NothingLost(a, lastMeasure) && lastMeasure <= now && a.meter.Some? && a.generation == handle
    ensures NothingLost(Noted(a, handle, kind, amount, now), lastMeasure)
  {
  }

  lemma SweptKeeps(a: Account, kind: Kind, now: int, ttl: int, lastMeasure: int)
    requires Balanced(a, kind) && NothingLost(a, lastMeasure) && lastMeasure <= now && now - lastMeasure <= ttl
    ensures NothingLost(Swept(a, kind, now, ttl), now)
  {
    if a.meter.Some? {
      MeasuredIsMoved(a.meter.value);
    }
  }

  lemma PrunedKeeps(a: Account, kind: Kind, now: int, ttl: int, lastMeasure: int)
    requires Balanced(a, kind) && NothingLost(a, lastMeasure) && now - lastMeasure <= ttl
    ensures NothingLost(Pruned(a, now, ttl), lastMeasure)
  {
  }

  lemma CarefulStep(a: Account, id: Identity, e: Event, kind: Kind, now: int, ttl: int, lastMeasure: int)
    requires Balanced(a, kind) && NothingLost(a, lastMeasure) && lastMeasure <= now
    requires e.Measure? || e.RemoveExpired? ==> now - lastMeasure <= ttl
    requires e.Record? && e.id == id ==> a.meter.Some? && a.generation == e.handle
    ensures NothingLost(AccountStep(a, id, e, kind, now, ttl), if e.Measure? then now else lastMeasure)
  {
    var f := Found(a, kind, now);
    assert NothingLost(f, lastMeasure);
    match e
    case Tick(nanos) =>
    case Lookup(x) =>
    case Record(x, handle, amount) => if x == id { NotedKeeps(a, handle, kind, amount, now, lastMeasure); }
    case Update(x, amount) => NotedKeeps(f, f.generation, kind, amount, now, lastMeasure);
    case Measure => SweptKeeps(a, kind, now, ttl, lastMeasure);
    case RemoveExpired => PrunedKeeps(a, kind, now, ttl, lastMeasure);
  }

  lemma CarefulBefore(now: int, events: seq<Event>, kind: Kind, ttl: int, gap: int)
    requires AllCareful(now, events, kind, ttl, gap) && events != []
    ensures var n := |events| - 1;
      AllCareful(now, events[..n], kind, ttl, gap)
      && Timely(Run(now, events[..n], kind, ttl), events[n], gap)
      && HandleIsCurrent(Run(now, events[..n], kind, ttl), events[n])
  {
    var n := |events| - 1;
    assert forall i :: 0 <= i < n ==> events[..n][..i] == events[..i];
  }

  lemma StepClock(s: State, e: Event, kind: Kind, ttl: int)
    ensures var t := Step(s, e, kind, ttl);
      t.lastMeasure == (if e.Measure? then s.now else s.lastMeasure) && t.now >= s.now
  {
  }

  lemma {:induction false} CarefulRun(now: int, events: seq<Event>, kind: Kind, ttl: int, gap: int, id: Identity)
    requires AllCareful(now, events, kind, ttl, gap) && gap <= ttl
    ensures var s := Run(now, events, kind, ttl); NothingLost(s.Of(id), s.lastMeasure) && s.lastMeasure <= s.now
  {
    if events == [] {
    } else {
      var n := |events| - 1;
      var s, e := Run(now, events[..n], kind, ttl), events[n];
      CarefulBefore(now, events, kind, ttl, gap);
      CarefulRun(now, events[..n], kind, ttl, gap, id);
      BooksBalance(now, events[..n], kind, ttl, id);
      StepAt(s, e, kind, ttl, id);
      StepClock(s, e, kind, ttl);
      CarefulStep(s.Of(id), id, e, kind, s.now, ttl, s.lastMeasure);
    }
  }

  /** Expiry loses nothing: for every id what was recorded is what was reported plus what the live meter holds, across
      any number of removals and re-creations. */
  lemma ExpiryLosesNothing(now: int, events: seq<Event>, kind: Kind, ttl: int, gap: int, id: Identity)
    requires AllCareful(now, events, kind, ttl, gap) && gap <= ttl
    ensures var a := Run(now, events, kind, ttl).Of(id); a.recorded == Plus(a.reported, a.Kept())
  {
    BooksBalance(now, events, kind, ttl, id);
    CarefulRun(now, events, kind, ttl, gap, id);
  }

  /** The bound is exact: with a gap above the ttl there is a run that loses what it recorded. */
  lemma LargerGapLoses(kind: Kind, id: Identity, amount: real, ttl: nat, gap: nat)
    requires ttl < gap && amount > 0.0
    ensures var events := [Update(id, amount), Tick(gap), Measure, RemoveExpired];
      && AllCareful(0, events, kind, ttl, gap)
      && Run(0, events, kind, ttl).Of(id)
         == Account(None, 1, Contribution(kind, amount), Zero, Contribution(kind, amount))
  {
    var events := [Update(id, amount), Tick(gap), Measure, RemoveExpired];
    RunSteps(0, events, kind, ttl);
    assert Run(0, events[..2], kind, ttl).Of(id).meter == Some(Recorded(Created(kind, 0), amount, 0));
    assert events[..4] == events;
  }

  /** A handle that outlives its meter loses what is recorded through it, even when measurements are in time. */
  lemma StaleHandleLoses(kind: Kind, id: Identity, amount: real, ttl: nat)
    requires amount > 0.0 && ttl > 0
    ensures var events := [Lookup(id), Tick(1), Measure, Tick(ttl), RemoveExpired];
      && AllCareful(0, events, kind, ttl, ttl)
      && Run(0, events + [Record(id, 1, amount)], kind, ttl).Of(id)
         == Account(None, 1, Contribution(kind, amount), Zero, Contribution(kind, amount))
  {
    var events := [Lookup(id), Tick(1), Measure, Tick(ttl), RemoveExpired];
    RunSteps(0, events, kind, ttl);
    assert Run(0, events[..3], kind, ttl).Of(id) == Account(Some(Created(kind, 0)), 1, Zero, Zero, Zero);
    assert Run(0, events[..5], kind, ttl).Of(id) == Account(None, 1, Zero, Zero, Zero);
    assert (events + [Record(id, 1, amount)])[..5] == events == events[..5];
  }

  lemma RunSteps(now: int, e: seq<Event>, kind: Kind, ttl: int)
    ensures Run(now, e[..0], kind, ttl) == State(now, now, map[])
    ensures forall i :: 0 <= i < |e| ==>
      Run(now, e[..i + 1], kind, ttl) == Step(Run(now, e[..i], kind, ttl), e[i], kind, ttl)
  {
    forall i | 0 <= i < |e|
      ensures Run(now, e[..i + 1], kind, ttl) == Step(Run(now, e[..i], kind, ttl), e[i], kind, ttl)
    {
      assert e[..i + 1][..i] == e[..i];
    }
  }
}
