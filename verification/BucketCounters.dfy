/** The counters that percentile meters increment, and the percentiles computed from them: spectator/percentile_timer.h
    and spectator/percentile_distribution_summary.h with spectator/percentile_buckets.cc.
 */
module BucketCounters {
  import opened Bytes
  import opened StringPool
  import opened Ids
  import opened BucketTable
  import opened PercentileBuckets
  import opened PercentileAccuracy
  import Percentiles
  import Meters
  import opened Expiry
  import opened PercentileCache

  /** The bounds that amounts are clamped to: a nanosecond and a day for timers, none for distribution summaries. */
  ghost predicate IsClamped(kind: PercentileKind, amount: int, v: int) {
    if kind.PercentileSummary? then v == amount
    else
      && (amount < 1 ==> v == 1)
      && (amount > 86400000000000 ==> v == 86400000000000)
      && (1 <= amount <= 86400000000000 ==> v == amount)
  }

  ghost predicate AreClamped(kind: PercentileKind, amounts: seq<Int64>, values: seq<int>) {
    |values| == |amounts| && forall k :: 0 <= k < |amounts| ==> IsClamped(kind, amounts[k], values[k])
  }

  /** Distribution summaries are given no negative amounts. */
  ghost predicate AreEffective(kind: PercentileKind, amounts: seq<Int64>) {
    kind.PercentileSummary? ==> forall k :: 0 <= k < |amounts| ==> amounts[k] >= 0
  }

  /** Different buckets have different tags. */
  ghost predicate TellsApart(refs: TagRefs) {
    forall i, j :: 0 <= i < j < BUCKETS ==> refs.bucket(i) != refs.bucket(j)
  }

  function Samples(id: Identity, amounts: seq<Int64>): seq<Op> {
    seq(|amounts|, k requires 0 <= k < |amounts| => Sample(id, amounts[k]))
  }

  /** The counter's id of a bucket: the meter's own, with statistic -> percentile and percentile -> the bucket's tag. */
  function BucketId(refs: TagRefs, id: Identity, i: nat): Identity {
    Identity(id.name, id.tags[refs.statistic := refs.percentile][refs.percentile := refs.bucket(i)])
  }

  lemma ClampedAreSamples(kind: PercentileKind, amounts: seq<Int64>, values: seq<int>)
    requires AreClamped(kind, amounts, values) && AreEffective(kind, amounts)
    ensures AreSamples(values)
  {
    forall k | 0 <= k < |values| ensures 0 <= values[k] <= INT64_MAX {
      assert IsClamped(kind, amounts[k], values[k]);
    }
  }

  /** A sample counts in the bucket of its clamped amount. */
  lemma CounterIsBucket(refs: TagRefs, kind: PercentileKind, id: Identity, amount: Int64, v: Int64)
    requires IsClamped(kind, amount, v)
    ensures CounterId(refs, kind, id, amount) == BucketId(refs, id, IndexOf(v))
  {
    assert Clamp(amount, kind.Min(), kind.Max()) == v;
  }

  lemma BucketIdsApart(refs: TagRefs, id: Identity, i: nat, j: nat)
    requires TellsApart(refs) && i < BUCKETS && j < BUCKETS && BucketId(refs, id, i) == BucketId(refs, id, j)
    ensures i == j
  {
    assert BucketId(refs, id, i).tags[refs.percentile] == refs.bucket(i);
    assert BucketId(refs, id, j).tags[refs.percentile] == refs.bucket(j);
  }

  // ---------- what is counted under an id ----------

  /** How many samples count under x. */
  function HowMany(refs: TagRefs, kind: PercentileKind, id: Identity, amounts: seq<Int64>, x: Identity): nat {
    if amounts == [] then 0
    else
      var n := |amounts| - 1;
      HowMany(refs, kind, id, amounts[..n], x) + (if CounterId(refs, kind, id, amounts[n]) == x then 1 else 0)
  }

  /** An account that has counted n increments and nothing else. */
  ghost predicate HasCounted(a: Account, n: nat) {
    if n == 0 then a == Empty
    else a.meter.Some? && a.meter.value.kind.Counter? && a.meter.value.count == n as real
  }

  lemma OneIncrement(a: Account, x: Identity, now: int, ttl: int, n: nat)
    requires HasCounted(a, n)
    ensures HasCounted(AccountStep(a, x, Update(x, 1.0), Meters.Counter, now, ttl), n + 1)
  {
  }

  lemma SampleCounts(r: Registries, kind: PercentileKind, refs: TagRefs, id: Identity, amount: Int64, ttl: int,
                     x: Identity, n: nat)
    requires HasCounted(r.counters.Of(x), n) && (kind.PercentileSummary? ==> amount >= 0)
    ensures HasCounted(SampleFresh(r, kind, refs, id, amount, ttl).counters.Of(x),
                       n + if CounterId(refs, kind, id, amount) == x then 1 else 0)
  {
    var e := Update(CounterId(refs, kind, id, amount), 1.0);
    assert SampleFresh(r, kind, refs, id, amount, ttl).counters == Step(r.counters, e, Meters.Counter, ttl);
    StepAt(r.counters, e, Meters.Counter, ttl, x);
    if e.id == x {
      OneIncrement(r.counters.Of(x), x, r.counters.now, ttl, n);
    }
  }

  lemma {:induction false} RunCounts(now: int, id: Identity, amounts: seq<Int64>, kind: PercentileKind, refs: TagRefs,
                                     ttl: int, x: Identity)
    requires AreEffective(kind, amounts)
    ensures HasCounted(RunFresh(now, Samples(id, amounts), kind, refs, ttl).counters.Of(x),
                       HowMany(refs, kind, id, amounts, x))
  {
    if amounts == [] {
    } else {
      var n := |amounts| - 1;
      RunCounts(now, id, amounts[..n], kind, refs, ttl, x);
      assert Samples(id, amounts)[..n] == Samples(id, amounts[..n]);
      SampleCounts(RunFresh(now, Samples(id, amounts[..n]), kind, refs, ttl), kind, refs, id, amounts[n], ttl, x,
                   HowMany(refs, kind, id, amounts[..n], x));
    }
  }

  // ---------- the buckets ----------

  lemma {:induction false} TallySnoc(values: seq<int>, i: nat)
    requires AreSamples(values) && values != []
    ensures var n := |values| - 1;
      Tally(values, i) == Tally(values[..n], i) + if IndexOf(values[n]) == i then 1 else 0
  {
    var n := |values| - 1;
    if n == 0 {
    } else {
      TallySnoc(values[1..], i);
      assert values[1..][..n - 1] == values[..n][1..];
    }
  }

  lemma {:induction false} BucketTally(refs: TagRefs, kind: PercentileKind, id: Identity, amounts: seq<Int64>,
                                       values: seq<int>, i: nat)
    requires AreClamped(kind, amounts, values) && AreSamples(values) && TellsApart(refs) && i < BUCKETS
    ensures HowMany(refs, kind, id, amounts, BucketId(refs, id, i)) == Tally(values, i)
  {
    if amounts == [] {
    } else {
      var n := |amounts| - 1;
      assert IsClamped(kind, amounts[n], values[n]);
      BucketTally(refs, kind, id, amounts[..n], values[..n], i);
      TallySnoc(values, i);
      BucketMatches(refs, kind, id, amounts[n], values[n], i);
    }
  }

  lemma BucketMatches(refs: TagRefs, kind: PercentileKind, id: Identity, amount: Int64, v: Int64, i: nat)
    requires IsClamped(kind, amount, v) && TellsApart(refs) && i < BUCKETS
    ensures CounterId(refs, kind, id, amount) == BucketId(refs, id, i) <==> IndexOf(v) == i
  {
    CounterIsBucket(refs, kind, id, amount, v);
    if BucketId(refs, id, IndexOf(v)) == BucketId(refs, id, i) {
      BucketIdsApart(refs, id, IndexOf(v), i);
    }
  }

  lemma {:induction false} NotABucket(refs: TagRefs, kind: PercentileKind, id: Identity, amounts: seq<Int64>,
                                      values: seq<int>, x: Identity)
    requires AreClamped(kind, amounts, values) && AreSamples(values)
    requires forall i :: 0 <= i < BUCKETS ==> BucketId(refs, id, i) != x
    ensures HowMany(refs, kind, id, amounts, x) == 0
  {
    if amounts == [] {
    } else {
      var n := |amounts| - 1;
      assert IsClamped(kind, amounts[n], values[n]);
      NotABucket(refs, kind, id, amounts[..n], values[..n], x);
      CounterIsBucket(refs, kind, id, amounts[n], values[n]);
    }
  }

  /** After any samples of one id: the counter with the id's name and its tags plus statistic -> percentile and
      percentile -> the tag of bucket i holds how many of the clamped amounts are in bucket i, for every i. */
  lemma BucketsAreCounted(now: int, id: Identity, amounts: seq<Int64>, values: seq<int>, kind: PercentileKind,
                          refs: TagRefs, ttl: int, i: nat)
    requires AreClamped(kind, amounts, values) && AreEffective(kind, amounts) && TellsApart(refs) && i < BUCKETS
    ensures AreSamples(values)
    ensures var counters := RunFresh(now, Samples(id, amounts), kind, refs, ttl).counters;
            var counter := Identity(id.name,
                                    id.tags[refs.statistic := refs.percentile][refs.percentile := refs.bucket(i)]);
      HasCounted(counters.Of(counter), Tally(values, i))
  {
    ClampedAreSamples(kind, amounts, values);
    RunCounts(now, id, amounts, kind, refs, ttl, BucketId(refs, id, i));
    BucketTally(refs, kind, id, amounts, values, i);
  }

  /** No other counter is touched. */
  lemma OthersUntouched(now: int, id: Identity, amounts: seq<Int64>, values: seq<int>, kind: PercentileKind,
                        refs: TagRefs, ttl: int, x: Identity)
    requires AreClamped(kind, amounts, values) && AreEffective(kind, amounts)
    requires forall i :: 0 <= i < BUCKETS ==>
      x != Identity(id.name, id.tags[refs.statistic := refs.percentile][refs.percentile := refs.bucket(i)])
    ensures RunFresh(now, Samples(id, amounts), kind, refs, ttl).counters.Of(x) == Empty
  {
    ClampedAreSamples(kind, amounts, values);
    RunCounts(now, id, amounts, kind, refs, ttl, x);
    NotABucket(refs, kind, id, amounts, values, x);
  }

  /** With the cache in between the counters are the same. */
  lemma CachedCounters(now: int, id: Identity, amounts: seq<Int64>, kind: PercentileKind, refs: TagRefs, ttl: int)
    requires AreEffective(kind, amounts)
    ensures RunCached(now, Samples(id, amounts), kind, refs, ttl).reg.counters
         == RunFresh(now, Samples(id, amounts), kind, refs, ttl).counters
  {
    CacheIsInvisible(now, Samples(id, amounts), kind, refs, ttl, ttl - EXPIRE_AFTER);
  }

  // ---------- percentiles of the counters ----------

  function CountOf(a: Account): int {
    if a.meter.Some? then a.meter.value.count.Floor else 0
  }

  /** The counts of all buckets, read from the counters. */
  function CountsOf(counters: State, refs: TagRefs, id: Identity): seq<int> {
    seq(BUCKETS, i requires 0 <= i < BUCKETS => CountOf(counters.Of(BucketId(refs, id, i))))
  }

  lemma CountsAreRead(now: int, id: Identity, amounts: seq<Int64>, values: seq<int>, kind: PercentileKind,
                      refs: TagRefs, ttl: int)
    requires AreClamped(kind, amounts, values) && AreEffective(kind, amounts) && TellsApart(refs) && AreSamples(values)
    ensures CountsOf(RunFresh(now, Samples(id, amounts), kind, refs, ttl).counters, refs, id) == Counts(values)
  {
    var counters := RunFresh(now, Samples(id, amounts), kind, refs, ttl).counters;
    forall i | 0 <= i < BUCKETS ensures CountsOf(counters, refs, id)[i] == Counts(values)[i] {
      BucketsAreCounted(now, id, amounts, values, kind, refs, ttl, i);
    }
  }

  /** From the samples to a percentile of the registry's counters: it differs from the clamped amount of that rank by at
      most the width of its bucket plus three. */
  lemma CountersAreAccurate(now: int, id: Identity, amounts: seq<Int64>, values: seq<int>, kind: PercentileKind,
                            refs: TagRefs, ttl: int, p: real, q: int)
    requires AreClamped(kind, amounts, values) && AreEffective(kind, amounts) && TellsApart(refs) && AreSamples(values)
    requires values != [] && 0.0 < p <= 100.0
    requires Rank(p, |values|) >= 0 && IsKthSmallest(values, Rank(p, |values|), q)
    ensures var counts := CountsOf(RunFresh(now, Samples(id, amounts), kind, refs, ttl).counters, refs, id);
      Percentiles.IsCounts(counts) && Percentiles.PercentileOf(counts, p).Num?
    ensures var r := Percentiles.PercentileOf(
              CountsOf(RunFresh(now, Samples(id, amounts), kind, refs, ttl).counters, refs, id), p);
            var width := Bounds()[IndexOf(q)] - Percentiles.Lower(IndexOf(q)) + 3;
      r.Num? && -(width as real) <= r.x - q as real <= width as real
  {
    CountsAreRead(now, id, amounts, values, kind, refs, ttl);
    Accuracy(values, p, q);
  }
}
