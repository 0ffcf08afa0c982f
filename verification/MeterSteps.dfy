/** Recording and measuring at the same time: the fields of spectator/timer.cc and spectator/dist_summary.cc are updated
    one by one, so a measurement can fall between the updates of one call, and inside an update as well.

    The count, and a timer's total, are added to by fetch_add: one step.  The sums of doubles are added to by the
    compare-and-swap loop of spectator/atomicnumber.h: two loads and an exchange that may fail.  The maximum is left to
    AtomicNumber.
 */
module MeterSteps {
  import opened Meters

  // ---------- one sum of doubles ----------

  /** epoch counts the exchanges by measurements; drift and clean record what the loops have done: the sum of second
      minus first loads over the successful attempts, and whether each fell in the epoch of its first load. */
  datatype Cell = Cell(value: real, epoch: nat, drift: real, clean: bool)

  datatype Attempt =
    | Fresh
    | LoadedOnce(current: real, epoch: nat)
    | LoadedTwice(current: real, second: real, epoch: nat)

  const EmptyCell := Cell(0.0, 0, 0.0, true)

  function Exchanged(c: Cell): Cell {
    c.(value := 0.0, epoch := c.epoch + 1)
  }

  predicate Succeeds(c: Cell, a: Attempt, spurious: bool) {
    a.LoadedTwice? && c.value == a.current && !spurious
  }

  function CellAfter(c: Cell, a: Attempt, delta: real, spurious: bool): Cell {
    if Succeeds(c, a, spurious)
    then Cell(a.second + delta, c.epoch, c.drift + (a.second - a.current), c.clean && a.epoch == c.epoch)
    else c
  }

  function AttemptAfter(c: Cell, a: Attempt): Attempt {
    match a
    case Fresh => LoadedOnce(c.value, c.epoch)
    case LoadedOnce(current, epoch) => LoadedTwice(current, c.value, epoch)
    case LoadedTwice(_, _, _) => Fresh  // round the loop again
  }

  /** What has been loaded in the current epoch is not above the value. */
  ghost predicate InOrder(c: Cell, a: Attempt) {
    match a
    case Fresh => true
    case LoadedOnce(current, epoch) =>
      epoch <= c.epoch && (epoch == c.epoch ==> current <= c.value)
    case LoadedTwice(current, second, epoch) =>
      epoch <= c.epoch && (epoch == c.epoch ==> current <= second <= c.value)
  }

  /** The value changes by the delta and the drift; in a clean cell there is none, and the value does not decrease. */
  lemma OneTry(c: Cell, a: Attempt, delta: real, spurious: bool)
    requires delta >= 0.0 && (c.clean ==> c.drift == 0.0 && InOrder(c, a))
    ensures var t := CellAfter(c, a, delta, spurious);
      && t.epoch == c.epoch && (t.clean ==> c.clean && t.drift == 0.0 && c.value <= t.value)
      && t.value - c.value == (if Succeeds(c, a, spurious) then delta else 0.0) + (t.drift - c.drift)
    ensures c.clean ==> InOrder(c, AttemptAfter(c, a))
  {
  }

  // ---------- the meter ----------

  /** How far a call of Record has got; a negative amount is ignored. */
  datatype RecordPc = Begin | AddTotal(total: Attempt) | AddSquare(square: Attempt) | Finished | Ignored

  datatype Call = Call(amount: real, square: real, pc: RecordPc)

  /** What a measurement has taken so far: each exchange is one step, and none follows when the count is zero. */
  datatype MeasurePc = Idle | TookCount(count: real) | TookTotal(count: real, total: real)

  datatype State =
    State(count: real, total: Cell, totalSq: Cell, calls: seq<Call>, measuring: MeasurePc, reported: Sums)

  datatype Event = RecordStep(call: nat, spurious: bool) | MeasureStep

  function Start(amounts: seq<real>): State {
    State(0.0, EmptyCell, EmptyCell, seq(|amounts|, i requires 0 <= i < |amounts| => NewCall(amounts[i])), Idle, Zero)
  }

  function NewCall(amount: real): Call {
    Call(amount, amount * amount, Begin)
  }

  function NextPc(s: State, c: Call, kind: Kind, spurious: bool): RecordPc {
    match c.pc
    case Begin => if c.amount < 0.0 then Ignored else AddTotal(Fresh)
    case AddTotal(a) =>
      if kind.Timer? || Succeeds(s.total, a, spurious) then AddSquare(Fresh) else AddTotal(AttemptAfter(s.total, a))
    case AddSquare(a) =>
      if Succeeds(s.totalSq, a, spurious) then Finished else AddSquare(AttemptAfter(s.totalSq, a))
    case _ => c.pc
  }

  function NextCount(s: State, c: Call): real {
    if c.pc.Begin? && c.amount >= 0.0 then s.count + 1.0 else s.count
  }

  function NextTotal(s: State, c: Call, kind: Kind, spurious: bool): Cell {
    if !c.pc.AddTotal? then s.total
    else if kind.Timer? then s.total.(value := s.total.value + c.amount)  // fetch_add
    else CellAfter(s.total, c.pc.total, c.amount, spurious)
  }

  function NextSquare(s: State, c: Call, spurious: bool): Cell {
    if c.pc.AddSquare? then CellAfter(s.totalSq, c.pc.square, c.square, spurious) else s.totalSq
  }

  function Step(s: State, e: Event, kind: Kind): State {
    match e
    case RecordStep(i, spurious) =>
      if i < |s.calls| then
        var c := s.calls[i];
        s.(count := NextCount(s, c),
           total := NextTotal(s, c, kind, spurious),
           totalSq := NextSquare(s, c, spurious),
           calls := s.calls[i := c.(pc := NextPc(s, c, kind, spurious))])
      else s
    case MeasureStep =>
      match s.measuring
      case Idle =>
        if s.count == 0.0 then s else s.(count := 0.0, measuring := TookCount(s.count))
      case TookCount(c) =>
        s.(total := Exchanged(s.total), measuring := TookTotal(c, s.total.value))
      case TookTotal(c, t) =>
        s.(totalSq := Exchanged(s.totalSq), measuring := Idle,
           reported := Plus(s.reported, Sums(c, t, s.totalSq.value)))
  }

  function Run(amounts: seq<real>, events: seq<Event>, kind: Kind): State {
    if events == [] then Start(amounts)
    else Step(Run(amounts, events[..|events| - 1], kind), events[|events| - 1], kind)
  }

  // ---------- the books ----------

  function HeldBy(s: State): Sums {
    Sums(s.count, s.total.value, s.totalSq.value)
  }

  /** What a measurement under way has taken and not yet reported. */
  function InHand(pc: MeasurePc): Sums {
    match pc
    case Idle => Zero
    case TookCount(c) => Sums(c, 0.0, 0.0)
    case TookTotal(c, t) => Sums(c, t, 0.0)
  }

  /** The count has no drift. */
  function Drift(s: State): Sums {
    Sums(0.0, s.total.drift, s.totalSq.drift)
  }

  /** What a call has added so far. */
  function Added(c: Call): Sums {
    match c.pc
    case Begin => Zero
    case AddTotal(_) => Sums(1.0, 0.0, 0.0)
    case AddSquare(_) => Sums(1.0, c.amount, 0.0)
    case Finished => Sums(1.0, c.amount, c.square)
    case Ignored => Zero
  }

  function Contributions(calls: seq<Call>): seq<Sums> {
    seq(|calls|, i requires 0 <= i < |calls| => Added(calls[i]))
  }

  function SumOf(s: seq<Sums>): Sums {
    if s == [] then Zero else Plus(SumOf(s[..|s| - 1]), s[|s| - 1])
  }

  function Minus(a: Sums, b: Sums): Sums {
    Sums(a.count - b.count, a.total - b.total, a.totalSq - b.totalSq)
  }

  function AddedByAll(s: State): Sums {
    SumOf(Contributions(s.calls))
  }

  ghost predicate Balanced(s: State) {
    Plus(Plus(s.reported, InHand(s.measuring)), HeldBy(s)) == Plus(AddedByAll(s), Drift(s))
  }

  /** Clean cells have no drift, and in them all attempts are in order; a timer's total is always clean. */
  ghost predicate Ordered(s: State, kind: Kind) {
    && (kind.Timer? ==> s.total.clean)
    && (s.total.clean ==> s.total.drift == 0.0)
    && (s.totalSq.clean ==> s.totalSq.drift == 0.0)
    && (forall i :: 0 <= i < |s.calls| ==> CallOk(s, s.calls[i]))
  }

  ghost predicate CallOk(s: State, c: Call) {
    && c.square >= 0.0
    && (c.pc.AddTotal? || c.pc.AddSquare? || c.pc.Finished? ==> c.amount >= 0.0)
    && (c.pc.AddTotal? && s.total.clean ==> InOrder(s.total, c.pc.total))
    && (c.pc.AddSquare? && s.totalSq.clean ==> InOrder(s.totalSq, c.pc.square))
  }

  lemma {:induction false} SumUpdate(s: seq<Sums>, i: nat, x: Sums)
    requires i < |s|
    ensures SumOf(s[i := x]) == Plus(SumOf(s), Minus(x, s[i]))
  {
    var n, t := |s| - 1, s[i := x];
    if i == n {
      assert t[..n] == s[..n];
    } else {
      assert t[..n] == s[..n][i := x];
      SumUpdate(s[..n], i, x);
    }
  }

  lemma AddedUpdate(calls: seq<Call>, i: nat, c: Call)
    requires i < |calls|
    ensures SumOf(Contributions(calls[i := c])) == Plus(SumOf(Contributions(calls)), Minus(Added(c), Added(calls[i])))
  {
    assert Contributions(calls[i := c]) == Contributions(calls)[i := Added(c)];
    SumUpdate(Contributions(calls), i, Added(c));
  }

  // ---------- every step keeps them ----------

  lemma TotalMoves(s: State, c: Call, kind: Kind, spurious: bool)
    requires CallOk(s, c) && (s.total.clean ==> s.total.drift == 0.0)
    ensures var t, c' := NextTotal(s, c, kind, spurious), c.(pc := NextPc(s, c, kind, spurious));
      t.value - s.total.value == Added(c').total - Added(c).total + (t.drift - s.total.drift)
  {
    if c.pc.AddTotal? {
      OneTry(s.total, c.pc.total, c.amount, spurious);
    }
  }

  lemma SquareMoves(s: State, c: Call, kind: Kind, spurious: bool)
    requires CallOk(s, c) && (s.totalSq.clean ==> s.totalSq.drift == 0.0)
    ensures var t, c' := NextSquare(s, c, spurious), c.(pc := NextPc(s, c, kind, spurious));
      t.value - s.totalSq.value == Added(c').totalSq - Added(c).totalSq + (t.drift - s.totalSq.drift)
  {
    if c.pc.AddSquare? {
      OneTry(s.totalSq, c.pc.square, c.square, spurious);
    }
  }

  lemma CountMoves(s: State, c: Call, kind: Kind, spurious: bool)
    ensures var c' := c.(pc := NextPc(s, c, kind, spurious));
      NextCount(s, c) - s.count == Added(c').count - Added(c).count
  {
  }

  /** Each field changes by what is added and by the drift. */
  ghost predicate Moved(held: Sums, held': Sums, more: Sums, drift: Sums, drift': Sums) {
    && held'.count - held.count == more.count + (drift'.count - drift.count)
    && held'.total - held.total == more.total + (drift'.total - drift.total)
    && held'.totalSq - held.totalSq == more.totalSq + (drift'.totalSq - drift.totalSq)
  }

  lemma BooksMoved(reported: Sums, inHand: Sums, held: Sums, all: Sums, drift: Sums, more: Sums, held': Sums,
                   drift': Sums)
    requires Plus(Plus(reported, inHand), held) == Plus(all, drift) && Moved(held, held', more, drift, drift')
    ensures Plus(Plus(reported, inHand), held') == Plus(Plus(all, more), drift')
  {
  }

  lemma RecordMoves(s: State, i: nat, kind: Kind, spurious: bool)
    requires Ordered(s, kind) && i < |s.calls|
    ensures var t := Step(s, RecordStep(i, spurious), kind);
      Moved(HeldBy(s), HeldBy(t), Minus(Added(t.calls[i]), Added(s.calls[i])), Drift(s), Drift(t))
  {
    var c := s.calls[i];
    CountMoves(s, c, kind, spurious);
    TotalMoves(s, c, kind, spurious);
    SquareMoves(s, c, kind, spurious);
  }

  lemma RecordBalanced(s: State, i: nat, kind: Kind, spurious: bool)
    requires Balanced(s) && Ordered(s, kind) && i < |s.calls|
    ensures Balanced(Step(s, RecordStep(i, spurious), kind))
  {
    var t := Step(s, RecordStep(i, spurious), kind);
    RecordMoves(s, i, kind, spurious);
    AddedUpdate(s.calls, i, t.calls[i]);
    BooksMoved(s.reported, InHand(s.measuring), HeldBy(s), AddedByAll(s), Drift(s),
               Minus(Added(t.calls[i]), Added(s.calls[i])), HeldBy(t), Drift(t));
  }

  /** After a step a cell is what it was before, only further: same epoch, not below while clean. */
  ghost predicate Further(c: Cell, t: Cell) {
    t.epoch == c.epoch && (t.clean ==> c.clean && t.drift == 0.0 && c.value <= t.value)
  }

  lemma RecordFurther(s: State, c: Call, kind: Kind, spurious: bool)
    requires Ordered(s, kind) && CallOk(s, c)
    ensures Further(s.total, NextTotal(s, c, kind, spurious)) && Further(s.totalSq, NextSquare(s, c, spurious))
    ensures var t := s.(total := NextTotal(s, c, kind, spurious), totalSq := NextSquare(s, c, spurious));
      CallOk(t, c.(pc := NextPc(s, c, kind, spurious)))
    ensures kind.Timer? ==> NextTotal(s, c, kind, spurious).clean
  {
    match c.pc
    case AddTotal(a) => OneTry(s.total, a, c.amount, spurious);
    case AddSquare(a) => OneTry(s.totalSq, a, c.square, spurious);
    case _ =>
  }

  lemma StaysOk(s: State, t: State, c: Call)
    requires CallOk(s, c) && Further(s.total, t.total) && Further(s.totalSq, t.totalSq)
    ensures CallOk(t, c)
  {
  }

  lemma RecordOrdered(s: State, i: nat, kind: Kind, spurious: bool)
    requires Ordered(s, kind) && i < |s.calls|
    ensures Ordered(Step(s, RecordStep(i, spurious), kind), kind)
  {
    var t := Step(s, RecordStep(i, spurious), kind);
    RecordFurther(s, s.calls[i], kind, spurious);
    forall j | 0 <= j < |t.calls| ensures CallOk(t, t.calls[j]) {
      if j != i { StaysOk(s, t, s.calls[j]); }
    }
  }

  lemma MeasureKeeps(s: State, kind: Kind)
    requires Balanced(s) && Ordered(s, kind)
    ensures Balanced(Step(s, MeasureStep, kind)) && Ordered(Step(s, MeasureStep, kind), kind)
  {
    var t := Step(s, MeasureStep, kind);
    forall j | 0 <= j < |t.calls| ensures CallOk(t, t.calls[j]) {
      assert CallOk(s, s.calls[j]);
    }
  }

  lemma StartOrdered(amounts: seq<real>, kind: Kind)
    ensures Ordered(Start(amounts), kind)
  {
    forall i | 0 <= i < |amounts| ensures NewCall(amounts[i]).square >= 0.0 { NotNegative(amounts[i]); }
  }

  lemma NotNegative(x: real)
    ensures x * x >= 0.0
  {
  }

  lemma {:induction false} StartSums(amounts: seq<real>)
    ensures AddedByAll(Start(amounts)) == Zero
  {
    if amounts == [] {
    } else {
      var n := |amounts| - 1;
      StartSums(amounts[..n]);
      assert Contributions(Start(amounts).calls)[..n] == Contributions(Start(amounts[..n]).calls);
    }
  }

  /** In every interleaving, for every field: reported + taken + held is what has been added, plus the drift.  The count
      has no drift, a timer's total has none, and a sum of doubles has none while every successful attempt to add to it
      fell in the epoch of its first load. */
  lemma {:induction false} EveryFieldBalances(amounts: seq<real>, events: seq<Event>, kind: Kind)
    ensures Balanced(Run(amounts, events, kind)) && Ordered(Run(amounts, events, kind), kind)
    ensures var s := Run(amounts, events, kind);
      && (kind.Timer? || s.total.clean ==> s.total.drift == 0.0)
      && (s.totalSq.clean ==> s.totalSq.drift == 0.0)
  {
    if events == [] {
      StartSums(amounts);
      StartOrdered(amounts, kind);
    } else {
      var s, e := Run(amounts, events[..|events| - 1], kind), events[|events| - 1];
      EveryFieldBalances(amounts, events[..|events| - 1], kind);
      match e
      case RecordStep(i, spurious) =>
        if i < |s.calls| {
          RecordBalanced(s, i, kind, spurious);
          RecordOrdered(s, i, kind, spurious);
        }
      case MeasureStep => MeasureKeeps(s, kind);
    }
  }

  // ---------- once the calls are done ----------

  predicate Done(c: Call) {
    c.pc.Finished? || c.pc.Ignored?
  }

  ghost predicate AllDone(s: State) {
    forall i :: 0 <= i < |s.calls| ==> Done(s.calls[i])
  }

  /** What the calls are worth. */
  function Worths(amounts: seq<real>, kind: Kind): seq<Sums> {
    seq(|amounts|, i requires 0 <= i < |amounts| => Contribution(kind, amounts[i]))
  }

  /** The calls keep their amounts, and only negative amounts are ignored. */
  ghost predicate CallsOf(s: State, amounts: seq<real>) {
    && |s.calls| == |amounts|
    && forall i :: 0 <= i < |amounts| ==> IsCallOf(s.calls[i], amounts[i])
  }

  ghost predicate IsCallOf(c: Call, amount: real) {
    && c.amount == amount && c.square == amount * amount
    && (c.pc.Ignored? ==> amount < 0.0)
    && (!c.pc.Begin? && !c.pc.Ignored? ==> amount >= 0.0)
  }

  lemma {:induction false} CallsKept(amounts: seq<real>, events: seq<Event>, kind: Kind)
    ensures CallsOf(Run(amounts, events, kind), amounts)
  {
    if events == [] {
    } else {
      var s, e := Run(amounts, events[..|events| - 1], kind), events[|events| - 1];
      CallsKept(amounts, events[..|events| - 1], kind);
      if e.RecordStep? && e.call < |s.calls| {
        assert IsCallOf(s.calls[e.call], amounts[e.call]);
      }
    }
  }

  lemma DoneIsWorth(s: State, amounts: seq<real>, kind: Kind)
    requires CallsOf(s, amounts) && AllDone(s) && !kind.Counter?
    ensures AddedByAll(s) == SumOf(Worths(amounts, kind))
  {
    forall i | 0 <= i < |amounts| ensures Added(s.calls[i]) == Contribution(kind, amounts[i]) {
      assert IsCallOf(s.calls[i], amounts[i]) && Done(s.calls[i]);
    }
    assert Contributions(s.calls) == Worths(amounts, kind);
  }

  /** When all calls are done and no measurement is under way: reported + held is what the calls are worth, plus the
      drift. */
  lemma QuiescentBooks(amounts: seq<real>, events: seq<Event>, kind: Kind)
    requires AllDone(Run(amounts, events, kind)) && Run(amounts, events, kind).measuring.Idle? && !kind.Counter?
    ensures var s := Run(amounts, events, kind);
      Plus(s.reported, HeldBy(s)) == Plus(SumOf(Worths(amounts, kind)), Drift(s))
  {
    var s := Run(amounts, events, kind);
    EveryFieldBalances(amounts, events, kind);
    CallsKept(amounts, events, kind);
    DoneIsWorth(s, amounts, kind);
    assert Plus(s.reported, InHand(s.measuring)) == s.reported;
  }

  // ---------- what stays behind ----------

  /** A meter whose count is zero is not measured, whatever its other fields hold. */
  ghost predicate Stuck(s: State) {
    s.measuring.Idle? && s.count == 0.0 && (s.total.value != 0.0 || s.totalSq.value != 0.0)
  }

  function Measured(s: State, kind: Kind): State {
    Step(Step(Step(s, MeasureStep, kind), MeasureStep, kind), MeasureStep, kind)
  }

  /** Such a meter stays as it is, however often it is measured. */
  lemma StuckStays(s: State, kind: Kind)
    requires Stuck(s)
    ensures Step(s, MeasureStep, kind) == s && Measured(s, kind) == s
  {
  }

  /** One more measurement that nothing disturbs leaves nothing unreported exactly when the meter is not stuck. */
  lemma MeasuredWholeExactly(s: State, kind: Kind)
    requires Balanced(s) && s.measuring.Idle?
    ensures Measured(s, kind).reported == Plus(AddedByAll(s), Drift(s)) <==> !Stuck(s)
    ensures !Stuck(s) ==> HeldBy(Measured(s, kind)) == Zero
  {
    if s.count == 0.0 {
      NothingHeld(s.reported, HeldBy(s), Plus(AddedByAll(s), Drift(s)));
      assert Plus(s.reported, InHand(s.measuring)) == s.reported;
    } else {
      assert Plus(s.reported, InHand(s.measuring)) == s.reported;
      assert Measured(s, kind).reported == Plus(s.reported, HeldBy(s));
    }
  }

  lemma NothingHeld(reported: Sums, held: Sums, all: Sums)
    requires Plus(reported, held) == all
    ensures reported == all <==> held == Zero
  {
  }

  // ---------- measurements between calls ----------

  ghost predicate UnderWay(c: Call) {
    c.pc.AddTotal? || c.pc.AddSquare?
  }

  ghost predicate NoneUnderWay(s: State) {
    forall i :: 0 <= i < |s.calls| ==> !UnderWay(s.calls[i])
  }

  /** No step of a measurement falls inside a call of Record. */
  ghost predicate Whole(amounts: seq<real>, events: seq<Event>, kind: Kind) {
    forall i :: 0 <= i < |events| && events[i].MeasureStep? ==> NoneUnderWay(Run(amounts, events[..i], kind))
  }

  /** A call under way has counted and has loaded in the current epoch; without a count nothing is left that a
      measurement would pass over. */
  ghost predicate Tidy(s: State) {
    && s.count >= 0.0 && s.total.clean && s.totalSq.clean
    && (forall i :: 0 <= i < |s.calls| && UnderWay(s.calls[i]) ==> s.count > 0.0 && IsCurrent(s, s.calls[i]))
    && (s.count == 0.0 && !s.measuring.TookCount? ==> s.total.value == 0.0)
    && (s.count == 0.0 && s.measuring.Idle? ==> s.totalSq.value == 0.0)
  }

  ghost predicate InEpoch(a: Attempt, epoch: nat) {
    !a.Fresh? ==> a.epoch == epoch
  }

  ghost predicate IsCurrent(s: State, c: Call) {
    && (c.pc.AddTotal? ==> InEpoch(c.pc.total, s.total.epoch))
    && (c.pc.AddSquare? ==> InEpoch(c.pc.square, s.totalSq.epoch))
  }

  lemma RecordTidy(s: State, i: nat, kind: Kind, spurious: bool)
    requires Tidy(s) && i < |s.calls|
    ensures Tidy(Step(s, RecordStep(i, spurious), kind))
  {
    var c, t := s.calls[i], Step(s, RecordStep(i, spurious), kind);
    assert t.total.epoch == s.total.epoch && t.totalSq.epoch == s.totalSq.epoch;
    assert UnderWay(c) ==> IsCurrent(s, c);
    forall j | 0 <= j < |t.calls| && UnderWay(t.calls[j]) ensures t.count > 0.0 && IsCurrent(t, t.calls[j]) {
      if j != i { assert UnderWay(s.calls[j]) && IsCurrent(s, s.calls[j]); }
    }
  }

  lemma MeasureTidy(s: State, kind: Kind)
    requires Tidy(s) && NoneUnderWay(s)
    ensures Tidy(Step(s, MeasureStep, kind))
  {
  }

  lemma {:induction false} WholeIsTidy(amounts: seq<real>, events: seq<Event>, kind: Kind)
    requires Whole(amounts, events, kind)
    ensures Tidy(Run(amounts, events, kind))
  {
    if events == [] {
    } else {
      var n := |events| - 1;
      var s := Run(amounts, events[..n], kind);
      assert forall i :: 0 <= i < n ==> events[..n][..i] == events[..i];
      WholeIsTidy(amounts, events[..n], kind);
      match events[n]
      case RecordStep(i, spurious) => if i < |s.calls| { RecordTidy(s, i, kind, spurious); }
      case MeasureStep => MeasureTidy(s, kind);
    }
  }

  /** Then, once all calls are done, one more measurement has reported all that they are worth: nothing is stuck and
      nothing has drifted. */
  lemma WholeReportsAll(amounts: seq<real>, events: seq<Event>, kind: Kind)
    requires Whole(amounts, events, kind) && !kind.Counter?
    requires AllDone(Run(amounts, events, kind)) && Run(amounts, events, kind).measuring.Idle?
    ensures !Stuck(Run(amounts, events, kind))
    ensures Measured(Run(amounts, events, kind), kind).reported == SumOf(Worths(amounts, kind))
  {
    var s := Run(amounts, events, kind);
    WholeIsTidy(amounts, events, kind);
    EveryFieldBalances(amounts, events, kind);
    TidyIsReported(s, kind);
    CallsKept(amounts, events, kind);
    DoneIsWorth(s, amounts, kind);
  }

  lemma TidyIsReported(s: State, kind: Kind)
    requires Tidy(s) && Balanced(s) && Ordered(s, kind) && s.measuring.Idle?
    ensures !Stuck(s) && Measured(s, kind).reported == AddedByAll(s)
  {
    TidyIsNotStuck(s, kind);
    MeasuredWholeExactly(s, kind);
    PlusNothing(AddedByAll(s), Drift(s));
  }

  lemma TidyIsNotStuck(s: State, kind: Kind)
    requires Tidy(s) && Ordered(s, kind)
    ensures !Stuck(s) && Drift(s) == Zero
  {
  }

  lemma PlusNothing(a: Sums, b: Sums)
    requires b == Zero
    ensures Plus(a, b) == a
  {
  }

  // ---------- inputs that fail ----------

  /** A run through given states. */
  lemma {:induction false} Through(amounts: seq<real>, states: seq<State>, events: seq<Event>, kind: Kind)
    requires |states| == |events| + 1 && states[0] == Start(amounts)
    requires forall i :: 0 <= i < |events| ==> states[i + 1] == Step(states[i], events[i], kind)
    ensures Run(amounts, events, kind) == states[|events|]
  {
    if events == [] {
    } else {
      var n := |events| - 1;
      Through(amounts, states[..n + 1], events[..n], kind);
    }
  }

  function CutShort(): seq<Event> {
    var r := RecordStep(0, false);
    [r, MeasureStep, MeasureStep, MeasureStep, r, r, r, r]
  }

  /** A measurement between the first two updates of a timer's call reports the count without the amount, and leaves the
      amount stuck. */
  lemma CutShortIsStuck(amount: real)
    requires amount > 0.0
    ensures var s := Run([amount], CutShort(), Timer);
      && Stuck(s) && AllDone(s) && s.reported == Sums(1.0, 0.0, 0.0) && HeldBy(s) == Sums(0.0, amount, amount * amount)
  {
    var sq, one, e := amount * amount, Sums(1.0, 0.0, 0.0), Cell(0.0, 1, 0.0, true);
    var begun := [Call(amount, sq, AddTotal(Fresh))];
    var full := Cell(amount, 1, 0.0, true);
    var states := [
      State(0.0, EmptyCell, EmptyCell, [Call(amount, sq, Begin)], Idle, Zero),
      State(1.0, EmptyCell, EmptyCell, begun, Idle, Zero),
      State(0.0, EmptyCell, EmptyCell, begun, TookCount(1.0), Zero),
      State(0.0, e, EmptyCell, begun, TookTotal(1.0, 0.0), Zero),
      State(0.0, e, e, begun, Idle, one),
      State(0.0, full, e, [Call(amount, sq, AddSquare(Fresh))], Idle, one),
      State(0.0, full, e, [Call(amount, sq, AddSquare(LoadedOnce(0.0, 1)))], Idle, one),
      State(0.0, full, e, [Call(amount, sq, AddSquare(LoadedTwice(0.0, 0.0, 1)))], Idle, one),
      State(0.0, full, Cell(sq, 1, 0.0, true), [Call(amount, sq, Finished)], Idle, one)];
    assert Start([amount]).calls == [NewCall(amount)];
    Through([amount], states, CutShort(), Timer);
  }

  function ResetInside(): seq<Event> {
    var a, b, c := RecordStep(0, false), RecordStep(1, false), RecordStep(2, false);
    [a, a, a, a, b, b, MeasureStep, MeasureStep, b, c, c, c, c, b]
  }

  function ThreeCalls(a: RecordPc, b: RecordPc, c: RecordPc): seq<Call> {
    [Call(5.0, 25.0, a), Call(1.0, 1.0, b), Call(5.0, 25.0, c)]
  }

  /** The states of that run. */
  function LosingStates(): seq<State> {
    var sq, once, twice := AddSquare(Fresh), AddTotal(LoadedOnce(5.0, 0)), AddTotal(LoadedTwice(5.0, 0.0, 0));
    var five, empty, again := Cell(5.0, 0, 0.0, true), Cell(0.0, 1, 0.0, true), Cell(5.0, 1, 0.0, true);
    var m, none := TookTotal(2.0, 5.0), EmptyCell;
    [ State(0.0, none, none, ThreeCalls(Begin, Begin, Begin), Idle, Zero),
      State(1.0, none, none, ThreeCalls(AddTotal(Fresh), Begin, Begin), Idle, Zero),
      State(1.0, none, none, ThreeCalls(AddTotal(LoadedOnce(0.0, 0)), Begin, Begin), Idle, Zero),
      State(1.0, none, none, ThreeCalls(AddTotal(LoadedTwice(0.0, 0.0, 0)), Begin, Begin), Idle, Zero),
      State(1.0, five, none, ThreeCalls(sq, Begin, Begin), Idle, Zero),
      State(2.0, five, none, ThreeCalls(sq, AddTotal(Fresh), Begin), Idle, Zero),
      State(2.0, five, none, ThreeCalls(sq, once, Begin), Idle, Zero),
      State(0.0, five, none, ThreeCalls(sq, once, Begin), TookCount(2.0), Zero),
      State(0.0, empty, none, ThreeCalls(sq, once, Begin), m, Zero),
      State(0.0, empty, none, ThreeCalls(sq, twice, Begin), m, Zero),
      State(1.0, empty, none, ThreeCalls(sq, twice, AddTotal(Fresh)), m, Zero),
      State(1.0, empty, none, ThreeCalls(sq, twice, AddTotal(LoadedOnce(0.0, 1))), m, Zero),
      State(1.0, empty, none, ThreeCalls(sq, twice, AddTotal(LoadedTwice(0.0, 0.0, 1))), m, Zero),
      State(1.0, again, none, ThreeCalls(sq, twice, sq), m, Zero),
      State(1.0, Cell(1.0, 1, -5.0, false), none, ThreeCalls(sq, sq, sq), m, Zero) ]
  }

  lemma LosingStepsBefore()
    ensures forall i :: 0 <= i < 8 ==> LosingStates()[i + 1] == Step(LosingStates()[i], ResetInside()[i], Summary)
  {
  }

  lemma LosingStepsAfter()
    ensures forall i :: 8 <= i < 14 ==> LosingStates()[i + 1] == Step(LosingStates()[i], ResetInside()[i], Summary)
  {
  }

  /** A summary loses an amount when its total is reset between the two loads of an addition: of 5 + 1 + 5 the
      measurement has 5 in hand and the cell holds 1. */
  lemma SummaryLosesAnAmount()
    ensures var s := Run([5.0, 1.0, 5.0], ResetInside(), Summary);
      AddedByAll(s).total == 11.0 && s.measuring == TookTotal(2.0, 5.0) && s.total.value == 1.0 && s.total.drift == -5.0
  {
    LosingStepsBefore();
    LosingStepsAfter();
    assert Start([5.0, 1.0, 5.0]).calls == ThreeCalls(Begin, Begin, Begin);
    Through([5.0, 1.0, 5.0], LosingStates(), ResetInside(), Summary);
    ThreeTotals();
  }

  lemma ThreeTotals()
    ensures var sq := AddSquare(Fresh); SumOf(Contributions(ThreeCalls(sq, sq, sq))).total == 11.0
  {
    ThreeSums(Contributions(ThreeCalls(AddSquare(Fresh), AddSquare(Fresh), AddSquare(Fresh))));
  }

  lemma ThreeSums(s: seq<Sums>)
    requires |s| == 3
    ensures SumOf(s) == Plus(Plus(s[0], s[1]), s[2])
  {
    assert s[..2][..1] == s[..1] && s[..1][..0] == [];
    assert SumOf(s[..1]) == s[0];
  }
}
