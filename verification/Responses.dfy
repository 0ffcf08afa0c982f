/** What send_metrics does with the responses: handle_aggr_response, the status counters and the final sums.

    Sizes are size_t, the final sums are unsigned int, and both wrap around as in the code.
 */
module Responses {
  import opened Sender

  const SIZE_T: nat := 0x1_0000_0000_0000_0000
  const UNSIGNED: nat := 0x1_0000_0000

  /** How many measurements of a batch were sent and how many failed. */
  function Outcome(response: HttpResponse, num: nat): (nat, nat) {
    if response.status == 200 then (num, 0)
    else if 200 < response.status < 500 && response.body.ErrorCount? then
      ((num - response.body.count) % SIZE_T, response.body.count % SIZE_T)
    else (0, num)
  }

  /** Counter::Add ignores negative amounts. */
  function Added(amount: int): real {
    if amount < 0 then 0.0 else amount as real
  }

  // ---------- what the aggregator said ----------

  /** The size of a batch and the answer to it. */
  type Reply = (nat, HttpResponse)

  /** The answer came with an error count. */
  predicate Counted(response: HttpResponse) {
    200 < response.status < 500 && response.body.ErrorCount?
  }

  /** How many measurements of the batch were refused: none with status 200, as many as the error count says, and all
      of them otherwise. */
  function Refused(reply: Reply): int {
    if reply.1.status == 200 then 0 else if Counted(reply.1) then reply.1.body.count else reply.0
  }

  function Accepted(reply: Reply): int {
    reply.0 - Refused(reply)
  }

  function Reported(reply: Reply): int {
    if Counted(reply.1) then reply.1.body.count else 0
  }

  /** Dropped with an HTTP error: below 200, but for the -1 of a failed connection, or from 500 on. */
  function HttpDropped(reply: Reply): int {
    if reply.1.status >= 500 || (reply.1.status < 200 && reply.1.status != -1) then reply.0 else 0
  }

  /** Dropped otherwise: no connection, or an answer without an error count. */
  function OtherDropped(reply: Reply): int {
    if reply.1.status == -1 || (200 < reply.1.status < 500 && !reply.1.body.ErrorCount?) then reply.0 else 0
  }

  function SumBy(replies: seq<Reply>, f: Reply -> int): int {
    if replies == [] then 0 else SumBy(replies[..|replies| - 1], f) + f(replies[|replies| - 1])
  }

  lemma SumByStep(replies: seq<Reply>, f: Reply -> int, i: nat)
    requires i < |replies|
    ensures SumBy(replies[..i + 1], f) == SumBy(replies[..i], f) + f(replies[i])
  {
    assert replies[..i + 1][..i] == replies[..i];
  }

  // ---------- one response ----------

  /** The four status counters. */
  datatype Counters = Counters(sent: real, invalid: real, droppedHttp: real, droppedOther: real) {
    function Total(): real {
      sent + invalid + droppedHttp + droppedOther
    }
  }

  function Charged(c: Counters, response: HttpResponse, num: nat): Counters {
    if response.status == 200 then c.(sent := c.sent + Added(num))
    else if 200 < response.status < 500 then
      match response.body {
        case Unparsable => c.(droppedOther := c.droppedOther + Added(num))
        case NoErrorCount => c.(droppedOther := c.droppedOther + Added(num))
        case ErrorCount(count) =>
          c.(invalid := c.invalid + Added(count), sent := c.sent + Added((num - count) % SIZE_T))
      }
    else if response.status == -1 then c.(droppedOther := c.droppedOther + Added(num))
    else c.(droppedHttp := c.droppedHttp + Added(num))
  }

  /** The aggregator reports no more errors than it was sent measurements. */
  predicate Honest(response: HttpResponse, num: nat) {
    200 < response.status < 500 && response.body.ErrorCount? ==> 0 <= response.body.count <= num
  }

  /** Every measurement of the batch is sent or failed, and charged to a counter, exactly when the response is
      honest; modulo the word size the first part always holds. */
  lemma BatchConserved(response: HttpResponse, num: nat, c: Counters)
    requires num < 0x8000_0000
    requires response.body.ErrorCount? ==> -0x8000_0000 <= response.body.count < 0x8000_0000
    ensures var (sent, err) := Outcome(response, num); (sent + err) % SIZE_T == num
    ensures var (sent, err) := Outcome(response, num);
            sent + err == num && Charged(c, response, num).Total() == c.Total() + num as real <==> Honest(response, num)
  {
    var (sent, err) := Outcome(response, num);
    if 200 < response.status < 500 && response.body.ErrorCount? {
      var count := response.body.count;
      if count < 0 {
        assert err == count + SIZE_T && sent == num - count;
      } else if num < count {
        assert sent == num - count + SIZE_T;
      }
    }
  }

  /** What failed is what was refused and what was sent is the rest, on words. */
  lemma OutcomeIsRefused(response: HttpResponse, num: nat)
    requires num < SIZE_T
    ensures Outcome(response, num).1 == Refused((num, response)) % SIZE_T
    ensures Outcome(response, num).0 == Accepted((num, response)) % SIZE_T
  {
  }

  /** Each counter grows by its own part. */
  lemma ChargedApart(c: Counters, response: HttpResponse, num: nat)
    requires num < SIZE_T && Honest(response, num)
    ensures var reply := (num, response); var d := Charged(c, response, num);
      && d.sent == c.sent + Accepted(reply) as real && d.invalid == c.invalid + Reported(reply) as real
      && d.droppedHttp == c.droppedHttp + HttpDropped(reply) as real
      && d.droppedOther == c.droppedOther + OtherDropped(reply) as real
  {
  }

  ghost predicate AllHonest(responses: seq<Reply>) {
    forall i :: 0 <= i < |responses| ==> Honest(responses[i].1, responses[i].0)
  }

  /** Batch sizes and error counts are ints. */
  ghost predicate AllInts(responses: seq<Reply>) {
    forall i :: 0 <= i < |responses| ==>
      responses[i].0 < 0x8000_0000
      && (responses[i].1.body.ErrorCount? ==> -0x8000_0000 <= responses[i].1.body.count < 0x8000_0000)
  }

  class Publisher {
    const statusMetricsEnabled: bool
    var counters: Counters

    constructor (statusMetricsEnabled: bool)
      ensures this.statusMetricsEnabled == statusMetricsEnabled && counters == Counters(0.0, 0.0, 0.0, 0.0)
    {
      this.statusMetricsEnabled := statusMetricsEnabled;
      this.counters := Counters(0.0, 0.0, 0.0, 0.0);
    }

    method HandleAggrResponse(response: HttpResponse, numMeasurements: nat) returns (numSent: nat, numErr: nat)
      requires numMeasurements < SIZE_T
      modifies this
      ensures (numSent, numErr) == Outcome(response, numMeasurements)
      ensures counters ==
        if statusMetricsEnabled then Charged(old(counters), response, numMeasurements) else old(counters)
    {
      numSent, numErr := 0, 0;
      var code := response.status;
      if code == 200 {
        numSent := numMeasurements;
        if statusMetricsEnabled {
          counters := counters.(sent := counters.sent + Added(numSent));
        }
      } else if code > 200 && code < 500 {
        match response.body
        case Unparsable =>
          numErr := numMeasurements;
          if statusMetricsEnabled {
            counters := counters.(droppedOther := counters.droppedOther + Added(numMeasurements));
          }
        case ErrorCount(errCount) =>
          numErr := errCount % SIZE_T;
          numSent := (numMeasurements - errCount) % SIZE_T;
          if statusMetricsEnabled {
            counters := counters.(invalid := counters.invalid + Added(errCount));
            counters := counters.(sent := counters.sent + Added(numSent));
          }
        case NoErrorCount =>
          if statusMetricsEnabled {
            counters := counters.(droppedOther := counters.droppedOther + Added(numMeasurements));
          }
          numErr := numMeasurements;
      } else if code == -1 {
        numErr := numMeasurements;
        if statusMetricsEnabled {
          counters := counters.(droppedOther := counters.droppedOther + Added(numMeasurements));
        }
      } else {
        if statusMetricsEnabled {
          counters := counters.(droppedHttp := counters.droppedHttp + Added(numMeasurements));
        }
        numErr := numMeasurements;
      }
    }

    /** The loop over the responses: what failed is what was refused and what was sent is the rest, modulo 2^32
        whatever the aggregator answers.  When it is honest each counter grows by its own part. */
    method SumResponses(responses: seq<Reply>) returns (numSent: nat, numErr: nat)
      requires AllInts(responses)
      modifies this
      ensures numErr == SumBy(responses, Refused) % UNSIGNED
      ensures numSent == SumBy(responses, Accepted) % UNSIGNED
      ensures !statusMetricsEnabled ==> counters == old(counters)
      ensures statusMetricsEnabled && AllHonest(responses) ==> counters == Grown(old(counters), responses)
      ensures (numSent + numErr) % UNSIGNED == Sum(ResponseSizes(responses)) % UNSIGNED
      ensures AllHonest(responses) && Sum(ResponseSizes(responses)) < UNSIGNED ==>
                numSent == SumBy(responses, Accepted) && numErr == SumBy(responses, Refused)
      ensures AllHonest(responses) && Sum(ResponseSizes(responses)) < UNSIGNED ==>
                numSent + numErr == Sum(ResponseSizes(responses))
      ensures statusMetricsEnabled && AllHonest(responses) ==>
                counters.Total() == old(counters).Total() + Sum(ResponseSizes(responses)) as real
    {
      numErr, numSent := 0, 0;
      for i := 0 to |responses|
        invariant numErr == SumBy(responses[..i], Refused) % UNSIGNED
        invariant numSent == SumBy(responses[..i], Accepted) % UNSIGNED
        invariant !statusMetricsEnabled ==> counters == old(counters)
        invariant statusMetricsEnabled && AllHonest(responses) ==> counters == Grown(old(counters), responses[..i])
      {
        numSent, numErr := CountReply(responses, i, numSent, numErr);
        if AllHonest(responses) {
          GrownStep(old(counters), responses, i);
        }
      }
      assert responses[..|responses|] == responses;
      Conserved(old(counters), responses, numSent, numErr);
    }

    /** One turn of the loop. */
    method CountReply(responses: seq<Reply>, i: nat, sent: nat, err: nat) returns (numSent: nat, numErr: nat)
      requires AllInts(responses) && i < |responses|
      requires sent == SumBy(responses[..i], Accepted) % UNSIGNED && err == SumBy(responses[..i], Refused) % UNSIGNED
      modifies this
      ensures numSent == SumBy(responses[..i + 1], Accepted) % UNSIGNED
      ensures numErr == SumBy(responses[..i + 1], Refused) % UNSIGNED
      ensures counters ==
        if statusMetricsEnabled then Charged(old(counters), responses[i].1, responses[i].0) else old(counters)
    {
      var (size, response) := responses[i];
      var batchSent, batchErr := HandleAggrResponse(response, size);
      OutcomeIsRefused(response, size);
      AddWord(SumBy(responses[..i], Accepted), Accepted(responses[i]));
      AddWord(SumBy(responses[..i], Refused), Refused(responses[i]));
      SumByStep(responses, Refused, i);
      SumByStep(responses, Accepted, i);
      numSent := (sent + batchSent) % UNSIGNED;
      numErr := (err + batchErr) % UNSIGNED;
    }

    /** After `Wait`, in every interleaving: each measurement is counted as sent or as failed, by the answer that its
        own batch was given. */
    method AfterWait(t: State, ghost s: State, ghost sizes: seq<nat>, ghost n: nat, ghost steps: seq<Step>)
      returns (numSent: nat, numErr: nat)
      requires n >= 1 && Init(s, sizes, n) && Run(s, sizes, steps, t) && WaitReturns(t, sizes)
      requires AllInts(t.responses)
      modifies this
      ensures var answers := Answers(s, sizes, steps, map[]);
        && AllAnswered(sizes, answers)
        && numErr == SumBy(Replies(sizes, answers), Refused) % UNSIGNED
        && numSent == SumBy(Replies(sizes, answers), Accepted) % UNSIGNED
        && (statusMetricsEnabled && AllHonest(t.responses) ==>
              counters == Grown(old(counters), Replies(sizes, answers)))
      ensures (numSent + numErr) % UNSIGNED == Sum(sizes) % UNSIGNED
      ensures AllHonest(t.responses) && Sum(sizes) < UNSIGNED ==> numSent + numErr == Sum(sizes)
      ensures AllHonest(t.responses) && statusMetricsEnabled ==>
                counters.Total() == old(counters).Total() + Sum(sizes) as real
    {
      EveryBatchAnswered(s, sizes, n, steps, t);
      ghost var answers := Answers(s, sizes, steps, map[]);
      EveryTaskAnswered(t, sizes, answers);
      numSent, numErr := SumResponses(t.responses);
      RepliesSum(t, sizes, answers, Accepted);
      RepliesSum(t, sizes, answers, Refused);
      RepliesSum(t, sizes, answers, Reported);
      RepliesSum(t, sizes, answers, HttpDropped);
      RepliesSum(t, sizes, answers, OtherDropped);
    }
  }

  /** Each counter with its own part of all the replies. */
  function Grown(c: Counters, replies: seq<Reply>): Counters {
    Counters(c.sent + SumBy(replies, Accepted) as real, c.invalid + SumBy(replies, Reported) as real,
             c.droppedHttp + SumBy(replies, HttpDropped) as real, c.droppedOther + SumBy(replies, OtherDropped) as real)
  }

  lemma GrownStep(c: Counters, replies: seq<Reply>, i: nat)
    requires i < |replies| && Honest(replies[i].1, replies[i].0) && replies[i].0 < SIZE_T
    ensures Grown(c, replies[..i + 1]) == Charged(Grown(c, replies[..i]), replies[i].1, replies[i].0)
  {
    SumByStep(replies, Accepted, i);
    SumByStep(replies, Reported, i);
    SumByStep(replies, HttpDropped, i);
    SumByStep(replies, OtherDropped, i);
    ChargedApart(Grown(c, replies[..i]), replies[i].1, replies[i].0);
  }

  // ---------- every batch once ----------

  predicate AllAnswered(sizes: seq<nat>, answers: map<nat, HttpResponse>) {
    forall k :: 0 <= k < |sizes| ==> k in answers
  }

  /** The batches in order, each with its answer. */
  function Replies(sizes: seq<nat>, answers: map<nat, HttpResponse>): seq<Reply>
    requires AllAnswered(sizes, answers)
  {
    seq(|sizes|, k requires 0 <= k < |sizes| => (sizes[k], answers[k]))
  }

  ghost predicate RecordedIs(t: State, sizes: seq<nat>, answers: map<nat, HttpResponse>) {
    && multiset(t.recorded) == multiset(UpTo(|sizes|)) && |t.responses| == |t.recorded|
    && (forall i :: 0 <= i < |t.recorded| ==> t.recorded[i] < |sizes| && t.responses[i].0 == sizes[t.recorded[i]])
    && AnswersKept(t, answers)
  }

  lemma EveryTaskAnswered(t: State, sizes: seq<nat>, answers: map<nat, HttpResponse>)
    requires RecordedIs(t, sizes, answers)
    ensures AllAnswered(sizes, answers)
  {
    forall k | 0 <= k < |sizes| ensures k in answers {
      assert UpTo(|sizes|)[k] == k && k in multiset(UpTo(|sizes|)) && k in multiset(t.recorded);
    }
  }

  function Weights(replies: seq<Reply>, f: Reply -> int): seq<int> {
    seq(|replies|, k requires 0 <= k < |replies| => f(replies[k]))
  }

  /** The order of the responses does not matter to a sum. */
  lemma RepliesSum(t: State, sizes: seq<nat>, answers: map<nat, HttpResponse>, f: Reply -> int)
    requires RecordedIs(t, sizes, answers) && AllAnswered(sizes, answers)
    ensures SumBy(t.responses, f) == SumBy(Replies(sizes, answers), f)
  {
    var w := Weights(Replies(sizes, answers), f);
    assert forall k :: 0 <= k < |sizes| ==> w[k] == f((sizes[k], answers[k]));
    RecordedWeights(t.responses, t.recorded, w, f);
    SumOfPermutation(w, t.recorded, UpTo(|sizes|));
    InOrderWeights(Replies(sizes, answers), w, f, |sizes|);
  }

  lemma {:induction false} RecordedWeights(responses: seq<Reply>, recorded: seq<nat>, w: seq<int>, f: Reply -> int)
    requires |responses| == |recorded| && InRange(w, recorded)
    requires forall i :: 0 <= i < |recorded| ==> f(responses[i]) == w[recorded[i]]
    ensures SumBy(responses, f) == SumOf(w, recorded)
  {
    if responses == [] {
    } else {
      var n := |responses| - 1;
      RecordedWeights(responses[..n], recorded[..n], w, f);
    }
  }

  lemma {:induction false} InOrderWeights(replies: seq<Reply>, w: seq<int>, f: Reply -> int, n: nat)
    requires n <= |replies| == |w| && forall k :: 0 <= k < n ==> w[k] == f(replies[k])
    ensures InRange(w, UpTo(n)) && SumOf(w, UpTo(n)) == SumBy(replies[..n], f)
    ensures n == |replies| ==> SumBy(replies[..n], f) == SumBy(replies, f)
  {
    if n == 0 {
    } else {
      InOrderWeights(replies, w, f, n - 1);
      assert UpTo(n)[..n - 1] == UpTo(n - 1);
      SumByStep(replies, f, n - 1);
    }
    assert n == |replies| ==> replies[..n] == replies;
  }

  // ---------- the parts and the whole ----------

  lemma {:induction false} PartsAreSizes(replies: seq<Reply>)
    ensures SumBy(replies, Accepted) + SumBy(replies, Refused) == Sum(ResponseSizes(replies))
  {
    if replies == [] {
    } else {
      var n := |replies| - 1;
      PartsAreSizes(replies[..n]);
      assert ResponseSizes(replies)[..n] == ResponseSizes(replies[..n]);
    }
  }

  lemma {:induction false} HonestParts(replies: seq<Reply>)
    requires AllHonest(replies)
    ensures SumBy(replies, Accepted) >= 0 && SumBy(replies, Refused) >= 0
  {
    if replies == [] {
    } else {
      var n := |replies| - 1;
      HonestParts(replies[..n]);
      assert Honest(replies[n].1, replies[n].0);
    }
  }

  /** Each measurement is in exactly one of the four counters. */
  lemma {:induction false} FourParts(replies: seq<Reply>)
    ensures SumBy(replies, Accepted) + SumBy(replies, Reported) + SumBy(replies, HttpDropped)
            + SumBy(replies, OtherDropped) == Sum(ResponseSizes(replies))
  {
    if replies == [] {
    } else {
      var n := |replies| - 1;
      FourParts(replies[..n]);
      assert ResponseSizes(replies)[..n] == ResponseSizes(replies[..n]);
    }
  }

  /** What follows for the numbers and the counters. */
  lemma Conserved(c: Counters, replies: seq<Reply>, numSent: nat, numErr: nat)
    requires numErr == SumBy(replies, Refused) % UNSIGNED && numSent == SumBy(replies, Accepted) % UNSIGNED
    ensures (numSent + numErr) % UNSIGNED == Sum(ResponseSizes(replies)) % UNSIGNED
    ensures AllHonest(replies) && Sum(ResponseSizes(replies)) < UNSIGNED ==>
              numSent == SumBy(replies, Accepted) && numErr == SumBy(replies, Refused)
    ensures AllHonest(replies) && Sum(ResponseSizes(replies)) < UNSIGNED ==>
              numSent + numErr == Sum(ResponseSizes(replies))
    ensures Grown(c, replies).Total() == c.Total() + Sum(ResponseSizes(replies)) as real
  {
    PartsAreSizes(replies);
    FourParts(replies);
    SumResidues(SumBy(replies, Accepted), SumBy(replies, Refused));
    if AllHonest(replies) {
      HonestParts(replies);
    }
  }

  // ---------- words ----------

  /** Adding a 64-bit word to a 32-bit sum. */
  lemma AddWord(sum: int, x: int)
    ensures (sum % UNSIGNED + x % SIZE_T) % UNSIGNED == (sum + x) % UNSIGNED
  {
    var q := x / SIZE_T;
    assert x % SIZE_T == x - q * UNSIGNED * UNSIGNED;
    SameResidue(sum % UNSIGNED + x, -q * UNSIGNED);
    SumResidues(sum % UNSIGNED, x);
    SumResidues(sum, x);
  }

  lemma SameResidue(a: int, t: int)
    ensures (a + t * UNSIGNED) % UNSIGNED == a % UNSIGNED
  {
  }

  lemma SumResidues(a: int, b: int)
    ensures (a % UNSIGNED + b % UNSIGNED) % UNSIGNED == (a + b) % UNSIGNED
  {
  }
}
