/** The sending side of spectator/publisher.h: one send_metrics call as a concurrent protocol.

    The measurements are cut into batches, one task a batch is posted to a pool of N worker threads, the tasks
    share N payload buffers and a response list, and a blocking counter releases the caller.  Every mutex section
    is one step; the steps of different workers interleave in any order.
 */
module Sender {

  /** What the aggregator answers; the JSON body only matters for a status between 201 and 499. */
  datatype Body = Unparsable | NoErrorCount | ErrorCount(count: int)
  datatype HttpResponse = HttpResponse(status: int, body: Body)

  // ---------- batches ----------

  function Sum(sizes: seq<nat>): nat {
    if sizes == [] then 0 else Sum(sizes[..|sizes| - 1]) + sizes[|sizes| - 1]
  }

  lemma SumSnoc(sizes: seq<nat>, n: nat)
    ensures Sum(sizes + [n]) == Sum(sizes) + n
  {
    assert (sizes + [n])[..|sizes|] == sizes;
  }

  /** Consecutive ranges from 0 to `to`, none empty, all but the last one full. */
  ghost predicate AreBatches(batches: seq<(nat, nat)>, batchSize: nat, to: nat) {
    && (forall i :: 0 <= i < |batches| ==> batches[i].0 < batches[i].1 <= batches[i].0 + batchSize)
    && (forall i :: 0 < i < |batches| ==> batches[i - 1].1 == batches[i].0 == batches[i - 1].0 + batchSize)
    && (batches == [] <==> to == 0)
    && (batches != [] ==> batches[0].0 == 0 && batches[|batches| - 1].1 == to)
  }

  lemma AppendBatch(batches: seq<(nat, nat)>, batchSize: nat, from: nat, to: nat)
    requires AreBatches(batches, batchSize, from) && from < to <= from + batchSize
    requires batches != [] ==> from == batches[|batches| - 1].0 + batchSize
    ensures AreBatches(batches + [(from, to)], batchSize, to)
    ensures Sum(Sizes(batches + [(from, to)])) == Sum(Sizes(batches)) + (to - from)
  {
    SizesSnoc(batches, from, to);
    AppendRange(batches, batchSize, from, to);
  }

  lemma AppendRange(batches: seq<(nat, nat)>, batchSize: nat, from: nat, to: nat)
    requires AreBatches(batches, batchSize, from) && from < to <= from + batchSize
    requires batches != [] ==> from == batches[|batches| - 1].0 + batchSize
    ensures AreBatches(batches + [(from, to)], batchSize, to)
  {
    var more := batches + [(from, to)];
    assert forall i :: 0 <= i < |batches| ==> more[i] == batches[i];
    assert more[|batches|] == (from, to);
  }

  lemma SizesSnoc(batches: seq<(nat, nat)>, from: nat, to: nat)
    requires from < to
    ensures Sum(Sizes(batches + [(from, to)])) == Sum(Sizes(batches)) + (to - from)
  {
    assert Sizes(batches + [(from, to)]) == Sizes(batches) + [to - from];
    SumSnoc(Sizes(batches), to - from);
  }

  /** The batching loop covers the measurements. */
  method MakeBatches(measurements: nat, batchSize: nat) returns (batches: seq<(nat, nat)>)
    requires batchSize > 0
    ensures AreBatches(batches, batchSize, measurements)
    ensures Sum(Sizes(batches)) == measurements
  {
    batches := [];
    var from := 0;
    while from != measurements
      invariant from <= measurements && AreBatches(batches, batchSize, from)
      invariant batches != [] && from < measurements ==> from == batches[|batches| - 1].0 + batchSize
      invariant Sum(Sizes(batches)) == from
      decreases measurements - from
    {
      var toEnd := measurements - from;
      var toAdvance := if batchSize < toEnd then batchSize else toEnd;
      var to := from + toAdvance;
      AppendBatch(batches, batchSize, from, to);
      batches := batches + [(from, to)];
      from := to;
    }
  }

  function Sizes(batches: seq<(nat, nat)>): seq<nat> {
    seq(|batches|, i requires 0 <= i < |batches| =>
      if batches[i].0 <= batches[i].1 then batches[i].1 - batches[i].0 else 0)
  }

  // ---------- the protocol ----------

  /** A worker thread: idle, or at some point of the task it runs. */
  datatype Worker =
    | Idle
    | Started(task: nat)
    | Holding(task: nat, buffer: nat)
    | Answered(task: nat, buffer: nat, response: HttpResponse)
    | Recorded(task: nat, buffer: nat)
    | Returned(task: nat)

  /** posted, queue: tasks handed to the pool, and those not yet started.  recorded and finished are history: the
      tasks in the order of their responses, and those that have decremented the counter. */
  datatype State = State(
    posted: nat,
    queue: multiset<nat>,
    workers: seq<Worker>,
    avail: seq<nat>,
    responses: seq<(nat, HttpResponse)>,
    recorded: seq<nat>,
    finished: multiset<nat>,
    todo: int,
    crashed: bool)

  function UpTo(n: nat): seq<nat> {
    seq(n, i => i)
  }

  ghost predicate Init(s: State, sizes: seq<nat>, n: nat) {
    s == State(0, multiset{}, seq(n, _ => Idle), UpTo(n), [], [], multiset{}, |sizes|, false)
  }

  datatype Step =
    | Post
    | Start(w: nat, task: nat)
    | PopBuffer(w: nat)
    | Send(w: nat, response: HttpResponse)
    | Record(w: nat)
    | ReturnBuffer(w: nat)
    | Decrement(w: nat)

  predicate Enabled(s: State, sizes: seq<nat>, step: Step) {
    match step
    case Post => s.posted < |sizes|
    case Start(w, task) => w < |s.workers| && s.workers[w].Idle? && task in s.queue
    case PopBuffer(w) => w < |s.workers| && s.workers[w].Started?
    case Send(w, _) => w < |s.workers| && s.workers[w].Holding?
    case Record(w) => w < |s.workers| && s.workers[w].Answered? && s.workers[w].task < |sizes|
    case ReturnBuffer(w) => w < |s.workers| && s.workers[w].Recorded?
    case Decrement(w) => w < |s.workers| && s.workers[w].Returned?
  }

  /** The effect of a step.  `back` and `pop_back` on an empty buffer list are undefined: the model crashes. */
  function After(s: State, sizes: seq<nat>, step: Step): State
    requires Enabled(s, sizes, step)
  {
    match step
    case Post => s.(posted := s.posted + 1, queue := s.queue + multiset{s.posted})
    case Start(w, task) => s.(queue := s.queue - multiset{task}, workers := s.workers[w := Started(task)])
    case PopBuffer(w) =>
      if s.avail == [] then s.(crashed := true)
      else
        var last := |s.avail| - 1;
        s.(avail := s.avail[..last], workers := s.workers[w := Holding(s.workers[w].task, s.avail[last])])
    case Send(w, r) => s.(workers := s.workers[w := Answered(s.workers[w].task, s.workers[w].buffer, r)])
    case Record(w) =>
      var Answered(task, buffer, r) := s.workers[w];
      s.(responses := s.responses + [(sizes[task], r)], recorded := s.recorded + [task],
         workers := s.workers[w := Recorded(task, buffer)])
    case ReturnBuffer(w) =>
      s.(avail := s.avail + [s.workers[w].buffer], workers := s.workers[w := Returned(s.workers[w].task)])
    case Decrement(w) =>
      s.(todo := s.todo - 1, finished := s.finished + multiset{s.workers[w].task}, workers := s.workers[w := Idle])
  }

  // ---------- what the workers hold ----------

  /** The ways of counting workers: those that hold a buffer (or buffer k), run a task (task k), have recorded the
      response of their task (of task k); and the steps they still have to take. */
  datatype Count = Holders | HoldersOf(k: nat) | Runners | RunnersOf(k: nat) | Late | LateOf(k: nat) | StepsLeft

  predicate HasBuffer(w: Worker) {
    w.Holding? || w.Answered? || w.Recorded?
  }

  function One(b: bool): nat {
    if b then 1 else 0
  }

  function Value(c: Count, w: Worker): nat {
    match c
    case Holders => One(HasBuffer(w))
    case HoldersOf(k) => One(HasBuffer(w) && w.buffer == k)
    case Runners => One(!w.Idle?)
    case RunnersOf(k) => One(!w.Idle? && w.task == k)
    case Late => One(w.Recorded? || w.Returned?)
    case LateOf(k) => One((w.Recorded? || w.Returned?) && w.task == k)
    case StepsLeft => Remaining(w)
  }

  function Remaining(w: Worker): nat {
    match w
    case Idle => 0
    case Started(_) => 5
    case Holding(_, _) => 4
    case Answered(_, _, _) => 3
    case Recorded(_, _) => 2
    case Returned(_) => 1
  }

  function Total(c: Count, workers: seq<Worker>): nat {
    if workers == [] then 0 else Value(c, workers[0]) + Total(c, workers[1..])
  }

  lemma {:induction false} TotalUpdate(c: Count, workers: seq<Worker>, w: nat, x: Worker)
    requires w < |workers|
    ensures Total(c, workers[w := x]) == Total(c, workers) - Value(c, workers[w]) + Value(c, x)
  {
    if w == 0 {
      assert workers[0 := x][1..] == workers[1..];
    } else {
      TotalUpdate(c, workers[1..], w - 1, x);
      assert workers[w := x][1..] == workers[1..][w - 1 := x];
    }
  }

  lemma {:induction false} TotalAtLeast(c: Count, workers: seq<Worker>, w: nat)
    requires w < |workers|
    ensures Value(c, workers[w]) <= Total(c, workers)
  {
    if w == 0 {
    } else {
      TotalAtLeast(c, workers[1..], w - 1);
    }
  }

  lemma {:induction false} TotalOfTwo(c: Count, workers: seq<Worker>, v: nat, w: nat)
    requires v < w < |workers|
    ensures Value(c, workers[v]) + Value(c, workers[w]) <= Total(c, workers)
  {
    if v > 0 {
      TotalOfTwo(c, workers[1..], v - 1, w - 1);
    } else {
      TotalAtLeast(c, workers[1..], w - 1);
    }
  }

  lemma {:induction false} TotalIdle(c: Count, workers: seq<Worker>)
    requires forall i :: 0 <= i < |workers| ==> workers[i].Idle?
    ensures Total(c, workers) == 0
  {
    if workers == [] {
    } else {
      TotalIdle(c, workers[1..]);
    }
  }

  /** A worker without a buffer leaves room: fewer buffers are held than there are workers. */
  lemma {:induction false} HoldersBounded(workers: seq<Worker>)
    ensures Total(Holders, workers) <= |workers|
    ensures (exists w :: 0 <= w < |workers| && !HasBuffer(workers[w])) ==> Total(Holders, workers) < |workers|
  {
    if workers == [] {
    } else {
      HoldersBounded(workers[1..]);
      if w :| 0 <= w < |workers| && !HasBuffer(workers[w]) {
        assert w > 0 ==> workers[1..][w - 1] == workers[w];
      }
    }
  }

  // ---------- the invariant ----------

  /** Every buffer is in exactly one place. */
  ghost predicate BuffersOk(s: State, n: nat) {
    && |s.workers| == n
    && |s.avail| + Total(Holders, s.workers) == n
    && forall k: nat :: multiset(s.avail)[k] + Total(HoldersOf(k), s.workers) == One(k < n)
  }

  /** Every posted task is in exactly one place. */
  ghost predicate TasksOk(s: State, sizes: seq<nat>) {
    && s.posted <= |sizes|
    && s.todo == |sizes| - |s.finished|
    && |s.queue| + Total(Runners, s.workers) + |s.finished| == s.posted
    && forall k: nat :: s.queue[k] + Total(RunnersOf(k), s.workers) + s.finished[k] == One(k < s.posted)
  }

  /** There is one response, of the right size, for every task that has got that far. */
  ghost predicate ResponsesOk(s: State, sizes: seq<nat>) {
    && |s.responses| == |s.recorded| == Total(Late, s.workers) + |s.finished|
    && (forall k: nat :: multiset(s.recorded)[k] == Total(LateOf(k), s.workers) + s.finished[k])
    && forall i :: 0 <= i < |s.recorded| ==> s.recorded[i] < |sizes| && s.responses[i].0 == sizes[s.recorded[i]]
  }

  ghost predicate Inv(s: State, sizes: seq<nat>, n: nat) {
    !s.crashed && BuffersOk(s, n) && TasksOk(s, sizes) && ResponsesOk(s, sizes)
  }

  lemma {:induction false} UpToCounts(n: nat, k: nat)
    ensures multiset(UpTo(n))[k] == One(k < n)
  {
    if n == 0 {
    } else {
      UpToCounts(n - 1, k);
      assert UpTo(n) == UpTo(n - 1) + [n - 1];
    }
  }

  lemma InitInv(s: State, sizes: seq<nat>, n: nat)
    requires Init(s, sizes, n)
    ensures Inv(s, sizes, n)
  {
    forall c: Count ensures Total(c, s.workers) == 0 {
      TotalIdle(c, s.workers);
    }
    forall k: nat ensures multiset(s.avail)[k] == One(k < n) {
      UpToCounts(n, k);
    }
  }

  /** No task ever finds the buffer list empty. */
  lemma BufferAvailable(s: State, n: nat, w: nat)
    requires BuffersOk(s, n) && w < n && s.workers[w].Started?
    ensures s.avail != []
  {
    HoldersBounded(s.workers);
    assert !HasBuffer(s.workers[w]);
  }

  /** No buffer is held by two tasks, or is held while it is on the list. */
  lemma BuffersExclusive(s: State, n: nat, v: nat, w: nat)
    requires BuffersOk(s, n) && v < w < n && HasBuffer(s.workers[v]) && HasBuffer(s.workers[w])
    ensures s.workers[v].buffer != s.workers[w].buffer
    ensures s.workers[v].buffer !in s.avail && s.workers[v].buffer < n
  {
    var b := s.workers[v].buffer;
    TotalOfTwo(HoldersOf(b), s.workers, v, w);
    assert multiset(s.avail)[b] + Total(HoldersOf(b), s.workers) == One(b < n);
    assert b in s.avail ==> b in multiset(s.avail);
  }

  /** A step other than Post changes one worker and moves a buffer, a task or a response along with it. */
  ghost predicate Moves(s: State, s': State, w: nat, x: Worker, y: Worker) {
    && w < |s.workers| && s.workers[w] == x && s'.workers == s.workers[w := y]
    && s'.posted == s.posted && s'.crashed == s.crashed
    && s'.todo + |s'.finished| == s.todo + |s.finished|
    && |s'.avail| + Value(Holders, y) == |s.avail| + Value(Holders, x)
    && |s'.queue| + Value(Runners, y) + |s'.finished| == |s.queue| + Value(Runners, x) + |s.finished|
    && |s'.recorded| + Value(Late, x) + |s.finished| == |s.recorded| + Value(Late, y) + |s'.finished|
    && |s'.responses| - |s'.recorded| == |s.responses| - |s.recorded|
  }

  ghost predicate MovesOf(s: State, s': State, x: Worker, y: Worker, k: nat) {
    && multiset(s'.avail)[k] + Value(HoldersOf(k), y) == multiset(s.avail)[k] + Value(HoldersOf(k), x)
    && s'.queue[k] + Value(RunnersOf(k), y) + s'.finished[k] == s.queue[k] + Value(RunnersOf(k), x) + s.finished[k]
    && multiset(s'.recorded)[k] + Value(LateOf(k), x) + s.finished[k]
       == multiset(s.recorded)[k] + Value(LateOf(k), y) + s'.finished[k]
  }

  lemma StepMoves(s: State, sizes: seq<nat>, step: Step)
    requires Enabled(s, sizes, step) && !step.Post?
    requires step.PopBuffer? ==> s.avail != []
    ensures var s' := After(s, sizes, step);
            |s'.workers| == |s.workers| && step.w < |s.workers|
            && Moves(s, s', step.w, s.workers[step.w], s'.workers[step.w])
  {
    if step.Start? {
      assert |s.queue - multiset{step.task}| == |s.queue| - 1;
    }
  }

  lemma StepMovesOf(s: State, sizes: seq<nat>, step: Step, k: nat)
    requires Enabled(s, sizes, step) && !step.Post?
    requires step.PopBuffer? ==> s.avail != []
    ensures var s' := After(s, sizes, step);
            |s'.workers| == |s.workers| && step.w < |s.workers|
            && MovesOf(s, s', s.workers[step.w], s'.workers[step.w], k)
  {
    BufferMoves(s, sizes, step, k);
    TaskMoves(s, sizes, step, k);
    RecordMoves(s, sizes, step, k);
  }

  lemma BufferMoves(s: State, sizes: seq<nat>, step: Step, k: nat)
    requires Enabled(s, sizes, step) && !step.Post?
    requires step.PopBuffer? ==> s.avail != []
    ensures var s' := After(s, sizes, step);
            step.w < |s.workers| == |s'.workers|
            && multiset(s'.avail)[k] + Value(HoldersOf(k), s'.workers[step.w])
               == multiset(s.avail)[k] + Value(HoldersOf(k), s.workers[step.w])
  {
    if step.PopBuffer? {
      PopCount(s.avail, k);
    } else if step.ReturnBuffer? {
      PushCount(s.avail, s.workers[step.w].buffer, k);
    } else {
      assert After(s, sizes, step).avail == s.avail;
    }
  }

  lemma TaskMoves(s: State, sizes: seq<nat>, step: Step, k: nat)
    requires Enabled(s, sizes, step) && !step.Post?
    requires step.PopBuffer? ==> s.avail != []
    ensures var s' := After(s, sizes, step);
            step.w < |s.workers| == |s'.workers|
            && s'.queue[k] + Value(RunnersOf(k), s'.workers[step.w]) + s'.finished[k]
               == s.queue[k] + Value(RunnersOf(k), s.workers[step.w]) + s.finished[k]
  {
    var s' := After(s, sizes, step);
    if step.Start? {
      assert s'.queue[k] + One(step.task == k) == s.queue[k];
    } else if step.Decrement? {
      assert s'.finished[k] == s.finished[k] + One(s.workers[step.w].task == k);
    } else {
      assert s'.queue == s.queue && s'.finished == s.finished;
    }
  }

  lemma RecordMoves(s: State, sizes: seq<nat>, step: Step, k: nat)
    requires Enabled(s, sizes, step) && !step.Post?
    requires step.PopBuffer? ==> s.avail != []
    ensures var s' := After(s, sizes, step);
            step.w < |s.workers| == |s'.workers|
            && multiset(s'.recorded)[k] + Value(LateOf(k), s.workers[step.w]) + s.finished[k]
               == multiset(s.recorded)[k] + Value(LateOf(k), s'.workers[step.w]) + s'.finished[k]
  {
    var s' := After(s, sizes, step);
    if step.Record? {
      PushCount(s.recorded, s.workers[step.w].task, k);
    } else if step.Decrement? {
      assert s'.finished[k] == s.finished[k] + One(s.workers[step.w].task == k);
    } else {
      assert s'.recorded == s.recorded && s'.finished == s.finished;
    }
  }

  lemma PushCount(a: seq<nat>, x: nat, k: nat)
    ensures multiset(a + [x])[k] == multiset(a)[k] + One(x == k)
  {
  }

  lemma PopCount(a: seq<nat>, k: nat)
    requires a != []
    ensures multiset(a)[k] == multiset(a[..|a| - 1])[k] + One(a[|a| - 1] == k)
  {
    assert a == a[..|a| - 1] + [a[|a| - 1]];
  }

  lemma MovesKeepPlaces(s: State, s': State, sizes: seq<nat>, n: nat, w: nat, x: Worker, y: Worker)
    requires Moves(s, s', w, x, y) && forall k: nat :: MovesOf(s, s', x, y, k)
    requires BuffersOk(s, n) && TasksOk(s, sizes)
    ensures BuffersOk(s', n) && TasksOk(s', sizes)
  {
    TotalUpdate(Holders, s.workers, w, y);
    TotalUpdate(Runners, s.workers, w, y);
    forall k: nat
      ensures multiset(s'.avail)[k] + Total(HoldersOf(k), s'.workers) == One(k < n)
      ensures s'.queue[k] + Total(RunnersOf(k), s'.workers) + s'.finished[k] == One(k < s'.posted)
    {
      assert MovesOf(s, s', x, y, k);
      TotalUpdate(HoldersOf(k), s.workers, w, y);
      TotalUpdate(RunnersOf(k), s.workers, w, y);
    }
  }

  lemma MovesKeepRecorded(s: State, s': State, w: nat, x: Worker, y: Worker)
    requires Moves(s, s', w, x, y) && forall k: nat :: MovesOf(s, s', x, y, k)
    requires |s.responses| == |s.recorded| == Total(Late, s.workers) + |s.finished|
    requires forall k: nat :: multiset(s.recorded)[k] == Total(LateOf(k), s.workers) + s.finished[k]
    ensures |s'.responses| == |s'.recorded| == Total(Late, s'.workers) + |s'.finished|
    ensures forall k: nat :: multiset(s'.recorded)[k] == Total(LateOf(k), s'.workers) + s'.finished[k]
  {
    TotalUpdate(Late, s.workers, w, y);
    forall k: nat ensures multiset(s'.recorded)[k] == Total(LateOf(k), s'.workers) + s'.finished[k] {
      assert MovesOf(s, s', x, y, k);
      TotalUpdate(LateOf(k), s.workers, w, y);
    }
  }

  lemma ResponsesStay(s: State, sizes: seq<nat>, step: Step)
    requires Enabled(s, sizes, step) && |s.responses| == |s.recorded|
    requires forall i :: 0 <= i < |s.recorded| ==> s.recorded[i] < |sizes| && s.responses[i].0 == sizes[s.recorded[i]]
    ensures var s' := After(s, sizes, step);
            |s'.responses| == |s'.recorded|
            && forall i :: 0 <= i < |s'.recorded| ==>
                 s'.recorded[i] < |sizes| && s'.responses[i].0 == sizes[s'.recorded[i]]
  {
  }

  lemma PostKeepsInv(s: State, sizes: seq<nat>, n: nat)
    requires Inv(s, sizes, n) && s.posted < |sizes|
    ensures Inv(After(s, sizes, Post), sizes, n)
  {
    var s' := After(s, sizes, Post);
    forall k: nat ensures s'.queue[k] + Total(RunnersOf(k), s'.workers) + s'.finished[k] == One(k < s'.posted) {
      assert s'.queue[k] == s.queue[k] + One(k == s.posted);
    }
    assert BuffersOk(s', n) && ResponsesOk(s', sizes);
  }

  /** Every step of every interleaving keeps the invariant. */
  lemma StepInv(s: State, sizes: seq<nat>, n: nat, step: Step)
    requires Inv(s, sizes, n) && Enabled(s, sizes, step)
    ensures Inv(After(s, sizes, step), sizes, n)
  {
    if step.Post? {
      PostKeepsInv(s, sizes, n);
    } else {
      var s', w := After(s, sizes, step), step.w;
      if step.PopBuffer? {
        BufferAvailable(s, n, w);
      }
      StepMoves(s, sizes, step);
      forall k: nat ensures MovesOf(s, s', s.workers[w], s'.workers[w], k) {
        StepMovesOf(s, sizes, step, k);
      }
      MovesKeepPlaces(s, s', sizes, n, w, s.workers[w], s'.workers[w]);
      MovesKeepRecorded(s, s', w, s.workers[w], s'.workers[w]);
      ResponsesStay(s, sizes, step);
    }
  }

  // ---------- runs ----------

  /** The state after a list of steps, each enabled when it is taken. */
  ghost predicate Run(s: State, sizes: seq<nat>, steps: seq<Step>, t: State)
    decreases |steps|
  {
    if steps == [] then s == t
    else Enabled(s, sizes, steps[0]) && Run(After(s, sizes, steps[0]), sizes, steps[1..], t)
  }

  lemma {:induction false} RunInv(s: State, sizes: seq<nat>, n: nat, steps: seq<Step>, t: State)
    requires Inv(s, sizes, n) && Run(s, sizes, steps, t)
    ensures Inv(t, sizes, n)
    decreases |steps|
  {
    if steps == [] {
    } else {
      StepInv(s, sizes, n, steps[0]);
      RunInv(After(s, sizes, steps[0]), sizes, n, steps[1..], t);
    }
  }

  /** The caller goes on: everything is posted and the counter is down to zero. */
  ghost predicate WaitReturns(s: State, sizes: seq<nat>) {
    s.posted == |sizes| && s.todo == 0
  }

  /** Then every task has recorded one response: recorded is a permutation of the tasks. */
  lemma AllRecorded(s: State, sizes: seq<nat>, n: nat)
    requires Inv(s, sizes, n) && WaitReturns(s, sizes)
    ensures multiset(s.recorded) == multiset(UpTo(|sizes|)) && |s.responses| == |sizes|
  {
    assert |s.queue| == 0 && Total(Runners, s.workers) == 0;
    NoRunners(s.workers);
    TotalIdle(Late, s.workers);
    forall k: nat ensures multiset(s.recorded)[k] == multiset(UpTo(|sizes|))[k] {
      TotalIdle(LateOf(k), s.workers);
      TotalIdle(RunnersOf(k), s.workers);
      assert s.queue[k] + Total(RunnersOf(k), s.workers) + s.finished[k] == One(k < s.posted);
      UpToCounts(|sizes|, k);
    }
  }

  lemma {:induction false} NoRunners(workers: seq<Worker>)
    requires Total(Runners, workers) == 0
    ensures forall i :: 0 <= i < |workers| ==> workers[i].Idle?
  {
    if workers == [] {
    } else {
      NoRunners(workers[1..]);
      assert forall i :: 1 <= i < |workers| ==> workers[i] == workers[1..][i - 1];
    }
  }

  predicate InRange(sizes: seq<int>, tasks: seq<nat>) {
    forall i :: 0 <= i < |tasks| ==> tasks[i] < |sizes|
  }

  function SumOf(sizes: seq<int>, tasks: seq<nat>): int
    requires InRange(sizes, tasks)
  {
    if tasks == [] then 0 else SumOf(sizes, tasks[..|tasks| - 1]) + sizes[tasks[|tasks| - 1]]
  }

  /** A sum over tasks does not depend on their order. */
  lemma {:induction false} SumOfPermutation(sizes: seq<int>, a: seq<nat>, b: seq<nat>)
    requires InRange(sizes, a) && InRange(sizes, b)
    requires multiset(a) == multiset(b)
    ensures SumOf(sizes, a) == SumOf(sizes, b)
    decreases |a|
  {
    assert |a| == |multiset(a)| == |multiset(b)| == |b|;
    if a == [] {
    } else {
      var last := |a| - 1;
      assert a == a[..last] + [a[last]];
      assert a[last] in multiset(b);
      var k :| 0 <= k < |b| && b[k] == a[last];
      SumOfRemove(sizes, b, k);
      var b' := b[..k] + b[k + 1..];
      RemoveOne(a, b, k);
      SumOfPermutation(sizes, a[..last], b');
    }
  }

  lemma RemoveOne(a: seq<nat>, b: seq<nat>, k: nat)
    requires a != [] && k < |b| && b[k] == a[|a| - 1] && multiset(a) == multiset(b)
    ensures multiset(a[..|a| - 1]) == multiset(b[..k] + b[k + 1..])
  {
    WithoutElement(a, |a| - 1);
    WithoutElement(b, k);
    assert a[..|a| - 1] + a[|a|..] == a[..|a| - 1];
  }

  lemma WithoutElement(b: seq<nat>, k: nat)
    requires k < |b|
    ensures multiset(b[..k] + b[k + 1..]) == multiset(b) - multiset{b[k]}
  {
    assert b == b[..k] + [b[k]] + b[k + 1..];
  }

  lemma {:induction false} SumOfRemove(sizes: seq<int>, b: seq<nat>, k: nat)
    requires InRange(sizes, b) && k < |b|
    ensures InRange(sizes, b[..k] + b[k + 1..])
    ensures SumOf(sizes, b) == SumOf(sizes, b[..k] + b[k + 1..]) + sizes[b[k]]
    decreases |b|
  {
    var last := |b| - 1;
    if k == last {
      assert b[..k] + b[k + 1..] == b[..last];
    } else {
      SumOfRemove(sizes, b[..last], k);
      var c := b[..k] + b[k + 1..];
      assert c[..|c| - 1] == b[..last][..k] + b[..last][k + 1..];
      assert c[|c| - 1] == b[last];
    }
  }

  lemma {:induction false} SumOfAll(sizes: seq<nat>, k: nat)
    requires k <= |sizes|
    ensures InRange(sizes, UpTo(k))
    ensures SumOf(sizes, UpTo(k)) == Sum(sizes[..k])
  {
    if k == 0 {
    } else {
      SumOfAll(sizes, k - 1);
      assert UpTo(k)[..k - 1] == UpTo(k - 1);
      assert sizes[..k][..k - 1] == sizes[..k - 1];
    }
  }

  function ResponseSizes(responses: seq<(nat, HttpResponse)>): seq<nat> {
    seq(|responses|, i requires 0 <= i < |responses| => responses[i].0)
  }

  lemma {:induction false} ResponseSum(sizes: seq<nat>, responses: seq<(nat, HttpResponse)>, recorded: seq<nat>)
    requires |responses| == |recorded|
    requires forall i :: 0 <= i < |recorded| ==> recorded[i] < |sizes| && responses[i].0 == sizes[recorded[i]]
    ensures Sum(ResponseSizes(responses)) == SumOf(sizes, recorded)
  {
    if responses == [] {
    } else {
      var last := |responses| - 1;
      ResponseSum(sizes, responses[..last], recorded[..last]);
      assert ResponseSizes(responses)[..last] == ResponseSizes(responses[..last]);
    }
  }

  // ---------- what was answered ----------

  /** The answers that the steps of a run have given, read from the steps: for each task the response of its Send. */
  function Answers(s: State, sizes: seq<nat>, steps: seq<Step>, before: map<nat, HttpResponse>): map<nat, HttpResponse>
    decreases |steps|
  {
    if steps == [] || !Enabled(s, sizes, steps[0]) then before
    else Answers(After(s, sizes, steps[0]), sizes, steps[1..], AfterSend(s, steps[0], before))
  }

  function AfterSend(s: State, step: Step, before: map<nat, HttpResponse>): map<nat, HttpResponse> {
    match step
    case Send(w, r) => if w < |s.workers| && !s.workers[w].Idle? then before[s.workers[w].task := r] else before
    case _ => before
  }

  /** Every recorded response is the one that its task was answered with. */
  ghost predicate AnswersKept(s: State, answers: map<nat, HttpResponse>) {
    && |s.responses| == |s.recorded|
    && forall i :: 0 <= i < |s.recorded| ==> s.recorded[i] in answers && s.responses[i].1 == answers[s.recorded[i]]
  }

  /** So is every response that a worker still has to record. */
  ghost predicate AnswersCarried(s: State, answers: map<nat, HttpResponse>) {
    forall w :: 0 <= w < |s.workers| && s.workers[w].Answered? ==>
      s.workers[w].task in answers && s.workers[w].response == answers[s.workers[w].task]
  }

  lemma {:induction false} LateAreRunners(workers: seq<Worker>, k: nat, w: nat)
    requires w < |workers| && workers[w].Holding? && workers[w].task == k
    ensures Total(LateOf(k), workers) + 1 <= Total(RunnersOf(k), workers)
  {
    if w == 0 {
      LateBelow(workers[1..], k);
    } else {
      LateAreRunners(workers[1..], k, w - 1);
    }
  }

  lemma {:induction false} LateBelow(workers: seq<Worker>, k: nat)
    ensures Total(LateOf(k), workers) <= Total(RunnersOf(k), workers)
  {
    if workers == [] {
    } else {
      LateBelow(workers[1..], k);
    }
  }

  /** A task that is about to be sent has no response yet, and no other worker runs it. */
  lemma SentOnce(s: State, sizes: seq<nat>, n: nat, w: nat)
    requires Inv(s, sizes, n) && w < n && s.workers[w].Holding?
    ensures s.workers[w].task !in s.recorded
    ensures forall v :: 0 <= v < n && v != w && !s.workers[v].Idle? ==> s.workers[v].task != s.workers[w].task
  {
    var k := s.workers[w].task;
    LateAreRunners(s.workers, k, w);
    assert s.queue[k] + Total(RunnersOf(k), s.workers) + s.finished[k] == One(k < s.posted);
    assert multiset(s.recorded)[k] == Total(LateOf(k), s.workers) + s.finished[k];
    assert k in s.recorded ==> k in multiset(s.recorded);
    forall v | 0 <= v < n && v != w && !s.workers[v].Idle? ensures s.workers[v].task != k {
      if v < w { TotalOfTwo(RunnersOf(k), s.workers, v, w); } else { TotalOfTwo(RunnersOf(k), s.workers, w, v); }
    }
  }

  lemma StepKeepsAnswers(s: State, sizes: seq<nat>, n: nat, step: Step, answers: map<nat, HttpResponse>)
    requires Inv(s, sizes, n) && Enabled(s, sizes, step)
    requires AnswersKept(s, answers) && AnswersCarried(s, answers)
    ensures var s', answers' := After(s, sizes, step), AfterSend(s, step, answers);
      AnswersKept(s', answers') && AnswersCarried(s', answers')
  {
    if step.Send? {
      SentOnce(s, sizes, n, step.w);
      SendKeepsAnswers(s, sizes, step.w, step.response, answers);
    } else if !step.Post? {
      OtherKeepsAnswers(s, sizes, step, answers);
    }
  }

  lemma SendKeepsAnswers(s: State, sizes: seq<nat>, w: nat, r: HttpResponse, answers: map<nat, HttpResponse>)
    requires w < |s.workers| && s.workers[w].Holding? && s.workers[w].task !in s.recorded
    requires forall v :: 0 <= v < |s.workers| && v != w && !s.workers[v].Idle? ==>
      s.workers[v].task != s.workers[w].task
    requires AnswersKept(s, answers) && AnswersCarried(s, answers)
    ensures AnswersKept(After(s, sizes, Send(w, r)), answers[s.workers[w].task := r])
    ensures AnswersCarried(After(s, sizes, Send(w, r)), answers[s.workers[w].task := r])
  {
    assert forall i :: 0 <= i < |s.recorded| ==> s.recorded[i] in s.recorded;
  }

  lemma OtherKeepsAnswers(s: State, sizes: seq<nat>, step: Step, answers: map<nat, HttpResponse>)
    requires Enabled(s, sizes, step) && !step.Send? && !step.Post?
    requires AnswersKept(s, answers) && AnswersCarried(s, answers)
    ensures AnswersKept(After(s, sizes, step), answers) && AnswersCarried(After(s, sizes, step), answers)
  {
    if step.Record? {
      assert s.workers[step.w].task in answers;
    }
  }

  lemma {:induction false} RunKeepsAnswers(s: State, sizes: seq<nat>, n: nat, steps: seq<Step>, t: State,
                                           answers: map<nat, HttpResponse>)
    requires Inv(s, sizes, n) && Run(s, sizes, steps, t)
    requires AnswersKept(s, answers) && AnswersCarried(s, answers)
    ensures AnswersKept(t, Answers(s, sizes, steps, answers))
    decreases |steps|
  {
    if steps == [] {
    } else {
      StepInv(s, sizes, n, steps[0]);
      StepKeepsAnswers(s, sizes, n, steps[0], answers);
      RunKeepsAnswers(After(s, sizes, steps[0]), sizes, n, steps[1..], t, AfterSend(s, steps[0], answers));
    }
  }

  /** The protocol theorem.  In every interleaving of N >= 1 workers: nothing crashed, and when the caller goes on
      there is exactly one response for each batch, and the sizes add up to all the measurements.  At any point each
      response is the one that the run's Send step gave for its task. */
  lemma EveryBatchAnswered(s: State, sizes: seq<nat>, n: nat, steps: seq<Step>, t: State)
    requires n >= 1 && Init(s, sizes, n) && Run(s, sizes, steps, t)
    ensures !t.crashed
    ensures WaitReturns(t, sizes) ==>
              && multiset(t.recorded) == multiset(UpTo(|sizes|))
              && |t.responses| == |t.recorded|
              && (forall i :: 0 <= i < |t.recorded| ==>
                    t.recorded[i] < |sizes| && t.responses[i].0 == sizes[t.recorded[i]])
              && Sum(ResponseSizes(t.responses)) == Sum(sizes)
    ensures AnswersKept(t, Answers(s, sizes, steps, map[]))
  {
    InitInv(s, sizes, n);
    RunInv(s, sizes, n, steps, t);
    RunKeepsAnswers(s, sizes, n, steps, t, map[]);
    if WaitReturns(t, sizes) {
      AllRecorded(t, sizes, n);
      ResponseSum(sizes, t.responses, t.recorded);
      SumOfAll(sizes, |sizes|);
      assert sizes[..|sizes|] == sizes;
      SumOfPermutation(sizes, t.recorded, UpTo(|sizes|));
    }
  }

  // ---------- the caller always goes on ----------

  function Work(s: State, sizes: seq<nat>): int {
    7 * (|sizes| - s.posted) + 6 * |s.queue| + Total(StepsLeft, s.workers)
  }

  /** Every step brings the end nearer by one. */
  lemma StepWork(s: State, sizes: seq<nat>, n: nat, step: Step)
    requires Inv(s, sizes, n) && Enabled(s, sizes, step)
    ensures Work(After(s, sizes, step), sizes) == Work(s, sizes) - 1
  {
    var s' := After(s, sizes, step);
    if step.Post? {
      assert |s'.queue| == |s.queue| + 1;
    } else {
      if step.PopBuffer? {
        BufferAvailable(s, n, step.w);
      }
      OneStepLess(s, sizes, step);
      TotalUpdate(StepsLeft, s.workers, step.w, s'.workers[step.w]);
    }
  }

  lemma OneStepLess(s: State, sizes: seq<nat>, step: Step)
    requires Enabled(s, sizes, step) && !step.Post?
    requires step.PopBuffer? ==> s.avail != []
    ensures var s' := After(s, sizes, step);
            step.w < |s.workers| == |s'.workers| && s'.posted == s.posted
            && s'.workers == s.workers[step.w := s'.workers[step.w]]
            && 6 * |s'.queue| + Remaining(s'.workers[step.w]) == 6 * |s.queue| + Remaining(s.workers[step.w]) - 1
  {
    if step.Start? {
      assert |s.queue - multiset{step.task}| == |s.queue| - 1;
    }
  }

  /** No deadlock: until the caller goes on, some step is enabled. */
  lemma Progress(s: State, sizes: seq<nat>, n: nat) returns (step: Step)
    requires n >= 1 && Inv(s, sizes, n) && !WaitReturns(s, sizes)
    ensures Enabled(s, sizes, step)
  {
    if s.posted < |sizes| {
      step := Post;
    } else if w :| 0 <= w < n && !s.workers[w].Idle? {
      match s.workers[w]
      case Started(_) => step := PopBuffer(w);
      case Holding(_, _) => step := Send(w, HttpResponse(-1, Unparsable));
      case Answered(task, _, _) =>
        RunningTaskPosted(s, sizes, w);
        step := Record(w);
      case Recorded(_, _) => step := ReturnBuffer(w);
      case Returned(_) => step := Decrement(w);
    } else {
      TotalIdle(Runners, s.workers);
      assert |s.queue| > 0;
      var task :| task in s.queue;
      step := Start(0, task);
    }
  }

  /** The tasks that workers run are tasks that were posted. */
  lemma RunningTaskPosted(s: State, sizes: seq<nat>, w: nat)
    requires TasksOk(s, sizes) && w < |s.workers| && !s.workers[w].Idle?
    ensures s.workers[w].task < s.posted
  {
    var t := s.workers[w].task;
    TotalAtLeast(RunnersOf(t), s.workers, w);
    assert s.queue[t] + Total(RunnersOf(t), s.workers) + s.finished[t] == One(t < s.posted);
  }

  /** Every run takes at most seven steps a batch, and one that has taken them all has released the caller. */
  lemma {:induction false} RunsEnd(s: State, sizes: seq<nat>, n: nat, steps: seq<Step>, t: State)
    requires Inv(s, sizes, n) && Run(s, sizes, steps, t)
    ensures Work(t, sizes) == Work(s, sizes) - |steps| && Work(t, sizes) >= 0
    ensures Work(t, sizes) == 0 ==> WaitReturns(t, sizes)
    decreases |steps|
  {
    if steps == [] {
      if Work(t, sizes) == 0 {
        NoStepsLeft(t.workers);
        TotalIdle(Runners, t.workers);
      }
    } else {
      StepInv(s, sizes, n, steps[0]);
      StepWork(s, sizes, n, steps[0]);
      RunsEnd(After(s, sizes, steps[0]), sizes, n, steps[1..], t);
    }
  }

  lemma {:induction false} NoStepsLeft(workers: seq<Worker>)
    requires Total(StepsLeft, workers) == 0
    ensures forall i :: 0 <= i < |workers| ==> workers[i].Idle?
  {
    if workers == [] {
    } else {
      NoStepsLeft(workers[1..]);
      assert forall i :: 1 <= i < |workers| ==> workers[i] == workers[1..][i - 1];
    }
  }
}
