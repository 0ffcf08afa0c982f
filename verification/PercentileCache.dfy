/** The cache of percentile meters: server/expiring_cache.h, spectator/percentile_timer.h and
    spectator/percentile_distribution_summary.h.

    A percentile meter holds a handle of a timer (or distribution summary) and looks up a counter for each sample.  The
    server keeps percentile meters in a cache that expires by itself, while the registry removes meters by their own
    age.  A run with the cache is compared with a run that makes a new percentile meter for every sample.
 */
module PercentileCache {
  import opened Bytes
  import opened StringPool
  import opened Ids
  import opened BucketTable
  import PercentileBuckets
  import Meters
  import Registry
  import opened Expiry

  type Int64 = v: int | INT64_MIN <= v <= INT64_MAX

  datatype PercentileKind = PercentileTimer | PercentileSummary {
    function Underlying(): Meters.Kind {
      if PercentileTimer? then Meters.Timer else Meters.Summary
    }

    /** The range that samples are clamped to before their bucket is chosen: 1 ns to 24 h for timers. */
    function Min(): Int64 {
      if PercentileTimer? then 1 else INT64_MIN
    }

    function Max(): Int64 {
      if PercentileTimer? then 24 * 60 * 60 * 1000000000 else INT64_MAX
    }
  }

  /** The interned tag strings: refs().statistic(), refs().percentile() and the table of bucket tags. */
  datatype TagRefs = TagRefs(statistic: StrRef, percentile: StrRef, bucket: nat -> StrRef)

  const EXPIRE_AFTER: int := 120 * 1000000000  // kExpireAfter in nanoseconds

  function Clamp(v: Int64, lo: Int64, hi: Int64): Int64 {
    if v < lo then lo else if hi < v then hi else v
  }

  /** The counter of the bucket that a sample falls into. */
  function CounterId(refs: TagRefs, kind: PercentileKind, id: Identity, amount: Int64): Identity {
    var index := PercentileBuckets.IndexOf(Clamp(amount, kind.Min(), kind.Max()));
    Identity(id.name, id.tags[refs.statistic := refs.percentile][refs.percentile := refs.bucket(index)])
  }

  // ---------- the two systems ----------

  /** The registry's map of timers or distribution summaries, and its map of counters. */
  datatype Registries = Registries(meters: State, counters: State)

  datatype Entry = Entry(updated: int, handle: nat)

  datatype System = System(reg: Registries, cache: map<Identity, Entry>, lastExpire: int)

  datatype Op =
    | Sample(id: Identity, amount: Int64)
    | OnMeters(event: Event)               // someone else uses the registry's meters
    | Count(id: Identity, delta: real)     // or its counters
    | Pass(nanos: nat)
    | MeasureAll
    | RemoveAllExpired
    | ExpireCache

  predicate IsUse(e: Event) {
    e.Lookup? || e.Record? || e.Update?
  }

  function Both(r: Registries, e: Event, kind: PercentileKind, ttl: int): Registries {
    Registries(Step(r.meters, e, kind.Underlying(), ttl), Step(r.counters, e, Meters.Counter, ttl))
  }

  /** PercentileTimer::Record or PercentileDistributionSummary::Record, with the meter that the constructor
      looked up. */
  function RecordThrough(r: Registries, kind: PercentileKind, refs: TagRefs, id: Identity, handle: nat,
                         amount: Int64, ttl: int): Registries {
    if kind.PercentileSummary? && amount < 0 then r
    else
      Registries(Step(r.meters, Record(id, handle, amount as real), kind.Underlying(), ttl),
                 Step(r.counters, Update(CounterId(refs, kind, id, amount), 1.0), Meters.Counter, ttl))
  }

  /** The constructor looks up the underlying meter. */
  function Construct(r: Registries, kind: PercentileKind, id: Identity, ttl: int): Registries {
    r.(meters := Step(r.meters, Lookup(id), kind.Underlying(), ttl))
  }

  /** A new percentile meter for one sample. */
  function SampleFresh(r: Registries, kind: PercentileKind, refs: TagRefs, id: Identity, amount: Int64,
                       ttl: int): Registries {
    var c := Construct(r, kind, id, ttl);
    RecordThrough(c, kind, refs, id, c.meters.Of(id).generation, amount, ttl)
  }

  /** get_or_create, and Record on what it returns. */
  function SampleCached(s: System, kind: PercentileKind, refs: TagRefs, id: Identity, amount: Int64, ttl: int): System {
    var now := s.reg.meters.now;
    if id in s.cache then
      s.(cache := s.cache[id := s.cache[id].(updated := now)],
         reg := RecordThrough(s.reg, kind, refs, id, s.cache[id].handle, amount, ttl))
    else
      var c := Construct(s.reg, kind, id, ttl);
      var handle := c.meters.Of(id).generation;
      s.(cache := s.cache[id := Entry(now, handle)],
         reg := RecordThrough(c, kind, refs, id, handle, amount, ttl))
  }

  /** expire */
  function Kept(cache: map<Identity, Entry>, now: int): map<Identity, Entry> {
    map id | id in cache && now - cache[id].updated <= EXPIRE_AFTER :: cache[id]
  }

  function FreshStep(r: Registries, op: Op, kind: PercentileKind, refs: TagRefs, ttl: int): Registries {
    match op
    case Sample(id, amount) => SampleFresh(r, kind, refs, id, amount, ttl)
    case OnMeters(e) =>
      if IsUse(e) then r.(meters := Step(r.meters, e, kind.Underlying(), ttl)) else r
    case Count(id, delta) => r.(counters := Step(r.counters, Update(id, delta), Meters.Counter, ttl))
    case Pass(nanos) => Both(r, Tick(nanos), kind, ttl)
    case MeasureAll => Both(r, Measure, kind, ttl)
    case RemoveAllExpired => Both(r, RemoveExpired, kind, ttl)
    case ExpireCache => r
  }

  function CachedStep(s: System, op: Op, kind: PercentileKind, refs: TagRefs, ttl: int): System {
    match op
    case Sample(id, amount) => SampleCached(s, kind, refs, id, amount, ttl)
    case ExpireCache => s.(cache := Kept(s.cache, s.reg.meters.now), lastExpire := s.reg.meters.now)
    case _ => s.(reg := FreshStep(s.reg, op, kind, refs, ttl))
  }

  function Start(now: int): Registries {
    Registries(State(now, now, map[]), State(now, now, map[]))
  }

  function RunFresh(now: int, ops: seq<Op>, kind: PercentileKind, refs: TagRefs, ttl: int): Registries {
    if ops == [] then Start(now)
    else FreshStep(RunFresh(now, ops[..|ops| - 1], kind, refs, ttl), ops[|ops| - 1], kind, refs, ttl)
  }

  function RunCached(now: int, ops: seq<Op>, kind: PercentileKind, refs: TagRefs, ttl: int): System {
    if ops == [] then System(Start(now), map[], now)
    else CachedStep(RunCached(now, ops[..|ops| - 1], kind, refs, ttl), ops[|ops| - 1], kind, refs, ttl)
  }

  // ---------- cached meters are the registered ones ----------

  /** The cached handle is the one of the meter in the registry, which is at least as fresh as the cache entry, and the
      entry survived the last expiry. */
  ghost predicate Linked(a: Account, entry: Entry, now: int, lastExpire: int) {
    && a.meter.Some? && a.generation == entry.handle
    && entry.updated <= a.meter.value.updated
    && lastExpire - EXPIRE_AFTER <= entry.updated <= now
  }

  ghost predicate AllLinked(s: System) {
    && s.lastExpire <= s.reg.meters.now
    && forall id :: id in s.cache ==> Linked(s.reg.meters.Of(id), s.cache[id], s.reg.meters.now, s.lastExpire)
  }

  /** A sample that reaches its meter: distribution summaries ignore negative amounts. */
  ghost predicate Effective(op: Op, kind: PercentileKind) {
    op.Sample? && kind.PercentileSummary? ==> op.amount >= 0
  }

  /** The registry removes meters at most gap after the cache was last expired. */
  ghost predicate InTime(s: System, op: Op, gap: int) {
    op.RemoveAllExpired? ==> s.reg.meters.now - s.lastExpire <= gap
  }

  lemma LinkedAfter(a: Account, entry: Entry, id: Identity, e: Event, kind: Meters.Kind, now: int, ttl: int,
                    lastExpire: int, gap: int)
    requires Linked(a, entry, now, lastExpire) && EXPIRE_AFTER + gap <= ttl
    requires e.RemoveExpired? ==> now - lastExpire <= gap
    ensures Linked(AccountStep(a, id, e, kind, now, ttl), entry, if e.Tick? then now + e.nanos else now, lastExpire)
  {
  }

  lemma LinkedRecord(a: Account, id: Identity, handle: nat, amount: real, kind: Meters.Kind, now: int, lastExpire: int)
    requires a.meter.Some? && a.generation == handle && lastExpire <= now
    ensures Linked(AccountStep(a, id, Record(id, handle, amount), kind, now, 0), Entry(now, handle), now, lastExpire)
  {
  }

  /** Looking up a registered meter changes nothing. */
  lemma LookupRegistered(s: State, id: Identity, kind: Meters.Kind, ttl: int)
    requires s.Of(id).meter.Some?
    ensures Step(s, Lookup(id), kind, ttl) == s
  {
    assert s.accounts[id := s.Of(id)] == s.accounts;
  }

  /** A sample through a linked entry is a sample through a new percentile meter. */
  lemma SampleSame(s: System, kind: PercentileKind, refs: TagRefs, id: Identity, amount: Int64, ttl: int)
    requires id in s.cache ==> Linked(s.reg.meters.Of(id), s.cache[id], s.reg.meters.now, s.lastExpire)
    ensures SampleCached(s, kind, refs, id, amount, ttl).reg == SampleFresh(s.reg, kind, refs, id, amount, ttl)
  {
    if id in s.cache {
      LookupRegistered(s.reg.meters, id, kind.Underlying(), ttl);
    }
  }

  lemma SampleLinked(s: System, kind: PercentileKind, refs: TagRefs, id: Identity, amount: Int64, ttl: int)
    requires AllLinked(s) && (kind.PercentileSummary? ==> amount >= 0)
    ensures AllLinked(SampleCached(s, kind, refs, id, amount, ttl))
  {
    var t := SampleCached(s, kind, refs, id, amount, ttl);
    var k, now := kind.Underlying(), s.reg.meters.now;
    var c := if id in s.cache then s.reg.meters else Step(s.reg.meters, Lookup(id), k, ttl);
    var e := Record(id, t.cache[id].handle, amount as real);
    assert t.reg.meters == Step(c, e, k, ttl) && c.now == now;
    forall x | x in t.cache ensures Linked(t.reg.meters.Of(x), t.cache[x], now, t.lastExpire) {
      StepAt(s.reg.meters, Lookup(id), k, ttl, x);
      StepAt(c, e, k, ttl, x);
      if x == id {
        LinkedRecord(c.Of(id), id, e.handle, e.amount, k, now, s.lastExpire);
      }
    }
  }

  lemma MetersLinked(s: System, t: System, e: Event, kind: PercentileKind, ttl: int, gap: int)
    requires AllLinked(s) && EXPIRE_AFTER + gap <= ttl
    requires e.RemoveExpired? ==> s.reg.meters.now - s.lastExpire <= gap
    requires t.cache == s.cache && t.lastExpire == s.lastExpire
    requires t.reg.meters == Step(s.reg.meters, e, kind.Underlying(), ttl)
    ensures AllLinked(t)
  {
    forall x | x in t.cache ensures Linked(t.reg.meters.Of(x), t.cache[x], t.reg.meters.now, t.lastExpire) {
      StepAt(s.reg.meters, e, kind.Underlying(), ttl, x);
      LinkedAfter(s.reg.meters.Of(x), s.cache[x], x, e, kind.Underlying(), s.reg.meters.now, ttl, s.lastExpire, gap);
    }
  }

  lemma StepSame(s: System, op: Op, kind: PercentileKind, refs: TagRefs, ttl: int, gap: int)
    requires AllLinked(s) && Effective(op, kind) && InTime(s, op, gap) && EXPIRE_AFTER + gap <= ttl
    ensures CachedStep(s, op, kind, refs, ttl).reg == FreshStep(s.reg, op, kind, refs, ttl)
    ensures AllLinked(CachedStep(s, op, kind, refs, ttl))
  {
    var t := CachedStep(s, op, kind, refs, ttl);
    match op
    case Sample(id, amount) =>
      SampleSame(s, kind, refs, id, amount, ttl);
      SampleLinked(s, kind, refs, id, amount, ttl);
    case OnMeters(e) => if IsUse(e) { MetersLinked(s, t, e, kind, ttl, gap); }
    case Count(id, delta) =>
    case Pass(nanos) => MetersLinked(s, t, Tick(nanos), kind, ttl, gap);
    case MeasureAll => MetersLinked(s, t, Measure, kind, ttl, gap);
    case RemoveAllExpired => MetersLinked(s, t, RemoveExpired, kind, ttl, gap);
    case ExpireCache =>
  }

  ghost predicate AllInTime(now: int, ops: seq<Op>, kind: PercentileKind, refs: TagRefs, ttl: int, gap: int) {
    forall i :: 0 <= i < |ops| ==> InTime(RunCached(now, ops[..i], kind, refs, ttl), ops[i], gap)
  }

  lemma InTimeBefore(now: int, ops: seq<Op>, kind: PercentileKind, refs: TagRefs, ttl: int, gap: int)
    requires AllInTime(now, ops, kind, refs, ttl, gap) && ops != []
    ensures var n := |ops| - 1;
      AllInTime(now, ops[..n], kind, refs, ttl, gap) && InTime(RunCached(now, ops[..n], kind, refs, ttl), ops[n], gap)
  {
    var n := |ops| - 1;
    assert forall i :: 0 <= i < n ==> ops[..n][..i] == ops[..i];
  }

  /** The cache cannot be seen: when the ttl covers the cache's own 120 seconds and the largest gap between its expiry
      runs, every run leaves the registry, its meters and its books, as the run without the cache. */
  lemma {:induction false} CacheIsInvisible(now: int, ops: seq<Op>, kind: PercentileKind, refs: TagRefs, ttl: int,
                                            gap: int)
    requires AllInTime(now, ops, kind, refs, ttl, gap) && 120 * 1000000000 + gap <= ttl
    requires forall i :: 0 <= i < |ops| ==> Effective(ops[i], kind)
    ensures RunCached(now, ops, kind, refs, ttl).reg == RunFresh(now, ops, kind, refs, ttl)
    ensures AllLinked(RunCached(now, ops, kind, refs, ttl))
  {
    if ops == [] {
    } else {
      var n := |ops| - 1;
      InTimeBefore(now, ops, kind, refs, ttl, gap);
      CacheIsInvisible(now, ops[..n], kind, refs, ttl, gap);
      StepSame(RunCached(now, ops[..n], kind, refs, ttl), ops[n], kind, refs, ttl, gap);
    }
  }

  // ---------- the bound is exact ----------

  lemma RunStep(now: int, ops: seq<Op>, i: nat, kind: PercentileKind, refs: TagRefs, ttl: int)
    requires i < |ops|
    ensures RunCached(now, ops[..i + 1], kind, refs, ttl)
         == CachedStep(RunCached(now, ops[..i], kind, refs, ttl), ops[i], kind, refs, ttl)
    ensures RunFresh(now, ops[..i + 1], kind, refs, ttl)
         == FreshStep(RunFresh(now, ops[..i], kind, refs, ttl), ops[i], kind, refs, ttl)
  {
    assert ops[..i + 1][..i] == ops[..i];
  }

  /** A wait during which a cache entry is only just kept while the registry removes what is old. */
  function Wait(gap: nat): seq<Op> {
    [Pass(EXPIRE_AFTER), ExpireCache, Pass(gap), RemoveAllExpired]
  }

  /** The entry is fresh, its meter will be too old after the wait, and the runs agree so far. */
  ghost predicate Before(s: System, r: Registries, id: Identity, ttl: int, gap: nat) {
    && s.reg == r && s.cache == map[id := Entry(s.reg.meters.now, 1)]
    && s.reg.meters.Of(id).meter.Some?
    && s.reg.meters.now + EXPIRE_AFTER + gap - s.reg.meters.Of(id).meter.value.updated > ttl
  }

  ghost predicate After(s: System, r: Registries, id: Identity) {
    s.reg == r && id in s.cache && s.reg.meters.Of(id).meter.None?
  }

  lemma Waited(s: System, r: Registries, kind: PercentileKind, refs: TagRefs, id: Identity, ttl: int, gap: nat)
    requires Before(s, r, id, ttl, gap)
    ensures var a := CachedStep(CachedStep(s, Pass(EXPIRE_AFTER), kind, refs, ttl), ExpireCache, kind, refs, ttl);
            var b := FreshStep(FreshStep(r, Pass(EXPIRE_AFTER), kind, refs, ttl), ExpireCache, kind, refs, ttl);
            var c := CachedStep(a, Pass(gap), kind, refs, ttl);
      && c.reg.meters.now - c.lastExpire == gap
      && After(CachedStep(c, RemoveAllExpired, kind, refs, ttl),
               FreshStep(FreshStep(b, Pass(gap), kind, refs, ttl), RemoveAllExpired, kind, refs, ttl), id)
  {
    var a := CachedStep(CachedStep(s, Pass(EXPIRE_AFTER), kind, refs, ttl), ExpireCache, kind, refs, ttl);
    assert a.cache == s.cache;
    var c := CachedStep(a, Pass(gap), kind, refs, ttl);
    StepAt(s.reg.meters, Tick(EXPIRE_AFTER), kind.Underlying(), ttl, id);
    StepAt(a.reg.meters, Tick(gap), kind.Underlying(), ttl, id);
    StepAt(c.reg.meters, RemoveExpired, kind.Underlying(), ttl, id);
  }

  /** After such a wait the next sample is lost with the cache and kept without. */
  lemma WaitLoses(start: seq<Op>, kind: PercentileKind, refs: TagRefs, id: Identity, ttl: int, gap: nat)
    requires Before(RunCached(0, start, kind, refs, ttl), RunFresh(0, start, kind, refs, ttl), id, ttl, gap)
    requires forall op :: op in start ==> !op.RemoveAllExpired?
    ensures var ops := start + Wait(gap) + [Sample(id, 1)];
      && AllInTime(0, ops, kind, refs, ttl, gap)
      && RunCached(0, ops, kind, refs, ttl).reg.meters.Of(id).meter.None?
      && RunFresh(0, ops, kind, refs, ttl).meters.Of(id).meter.Some?
  {
    var ops, n := start + Wait(gap) + [Sample(id, 1)], |start|;
    assert ops[..n] == start && ops[n..n + 4] == Wait(gap) && ops[..n + 5] == ops;
    assert ops[n] == Pass(EXPIRE_AFTER) && ops[n + 1] == ExpireCache;
    assert ops[n + 2] == Pass(gap) && ops[n + 3] == RemoveAllExpired;
    WaitRuns(ops, n, kind, refs, id, ttl, gap);
    LastRuns(ops, n + 4, kind, refs, id, ttl);
    OnlyRemoval(start, gap, id);
    InTimeAt(ops, n + 3, kind, refs, ttl, gap);
  }

  lemma WaitRuns(ops: seq<Op>, n: nat, kind: PercentileKind, refs: TagRefs, id: Identity, ttl: int, gap: nat)
    requires n + 4 <= |ops| && ops[n] == Pass(EXPIRE_AFTER) && ops[n + 1] == ExpireCache
    requires ops[n + 2] == Pass(gap) && ops[n + 3] == RemoveAllExpired
    requires Before(RunCached(0, ops[..n], kind, refs, ttl), RunFresh(0, ops[..n], kind, refs, ttl), id, ttl, gap)
    ensures InTime(RunCached(0, ops[..n + 3], kind, refs, ttl), ops[n + 3], gap)
    ensures After(RunCached(0, ops[..n + 4], kind, refs, ttl), RunFresh(0, ops[..n + 4], kind, refs, ttl), id)
  {
    RunStep(0, ops, n, kind, refs, ttl);
    RunStep(0, ops, n + 1, kind, refs, ttl);
    RunStep(0, ops, n + 2, kind, refs, ttl);
    RunStep(0, ops, n + 3, kind, refs, ttl);
    Waited(RunCached(0, ops[..n], kind, refs, ttl), RunFresh(0, ops[..n], kind, refs, ttl), kind, refs, id, ttl, gap);
  }

  lemma LastRuns(ops: seq<Op>, n: nat, kind: PercentileKind, refs: TagRefs, id: Identity, ttl: int)
    requires n < |ops| && ops[n] == Sample(id, 1)
    requires After(RunCached(0, ops[..n], kind, refs, ttl), RunFresh(0, ops[..n], kind, refs, ttl), id)
    ensures RunCached(0, ops[..n + 1], kind, refs, ttl).reg.meters.Of(id).meter.None?
    ensures RunFresh(0, ops[..n + 1], kind, refs, ttl).meters.Of(id).meter.Some?
  {
    RunStep(0, ops, n, kind, refs, ttl);
    LastSample(RunCached(0, ops[..n], kind, refs, ttl), kind, refs, id, ttl);
  }

  lemma OnlyRemoval(start: seq<Op>, gap: nat, id: Identity)
    requires forall op :: op in start ==> !op.RemoveAllExpired?
    ensures var ops := start + Wait(gap) + [Sample(id, 1)];
      forall i :: 0 <= i < |ops| && i != |start| + 3 ==> !ops[i].RemoveAllExpired?
  {
    var ops := start + Wait(gap) + [Sample(id, 1)];
    forall i | 0 <= i < |ops| && i != |start| + 3 ensures !ops[i].RemoveAllExpired? {
      if i < |start| { assert ops[i] == start[i]; }
    }
  }

  lemma InTimeAt(ops: seq<Op>, n: nat, kind: PercentileKind, refs: TagRefs, ttl: int, gap: int)
    requires n < |ops| && InTime(RunCached(0, ops[..n], kind, refs, ttl), ops[n], gap)
    requires forall i :: 0 <= i < |ops| && i != n ==> !ops[i].RemoveAllExpired?
    ensures AllInTime(0, ops, kind, refs, ttl, gap)
  {
  }

  lemma LastSample(s: System, kind: PercentileKind, refs: TagRefs, id: Identity, ttl: int)
    requires id in s.cache && s.reg.meters.Of(id).meter.None?
    ensures SampleCached(s, kind, refs, id, 1, ttl).reg.meters.Of(id).meter.None?
    ensures SampleFresh(s.reg, kind, refs, id, 1, ttl).meters.Of(id).meter.Some?
  {
  }

  lemma FirstSample(kind: PercentileKind, refs: TagRefs, id: Identity, ttl: int)
    ensures var t := RunCached(0, [Sample(id, 1)], kind, refs, ttl);
      && t.cache == map[id := Entry(0, 1)] && t.lastExpire == 0 && t.reg.meters.now == 0
      && t.reg.meters.Of(id).meter.Some? && t.reg.meters.Of(id).meter.value.updated == 0
      && t.reg == RunFresh(0, [Sample(id, 1)], kind, refs, ttl)
  {
    assert [Sample(id, 1)][..0] == [];
  }

  /** With any smaller ttl there is a run in which a cached meter outlives the registered one and its samples are
      lost. */
  lemma SmallerTtlShows(kind: PercentileKind, refs: TagRefs, id: Identity, ttl: nat, gap: nat)
    requires ttl < 120 * 1000000000 + gap
    ensures var ops := [Sample(id, 1)] + Wait(gap) + [Sample(id, 1)];
      && AllInTime(0, ops, kind, refs, ttl, gap)
      && RunCached(0, ops, kind, refs, ttl).reg.meters.Of(id).meter.None?
      && RunFresh(0, ops, kind, refs, ttl).meters.Of(id).meter.Some?
  {
    FirstSample(kind, refs, id, ttl);
    WaitLoses([Sample(id, 1)], kind, refs, id, ttl, gap);
  }

  /** One sample, and then a negative one every 120 seconds. */
  function Negatives(id: Identity, k: nat): seq<Op> {
    if k == 0 then [Sample(id, 1)] else Negatives(id, k - 1) + [Pass(EXPIRE_AFTER)] + [Sample(id, -1)]
  }

  /** The meter has not been updated since time 0, and the runs agree. */
  ghost predicate Aged(s: System, r: Registries, id: Identity, now: int) {
    && s.reg == r && s.reg.meters.now == now && s.cache == map[id := Entry(now, 1)]
    && s.reg.meters.Of(id).meter.Some? && s.reg.meters.Of(id).meter.value.updated == 0
  }

  lemma {:induction false} NegativesAge(refs: TagRefs, id: Identity, ttl: nat, k: nat)
    ensures Aged(RunCached(0, Negatives(id, k), PercentileSummary, refs, ttl),
                 RunFresh(0, Negatives(id, k), PercentileSummary, refs, ttl), id, k * EXPIRE_AFTER)
  {
    if k == 0 {
      FirstSample(PercentileSummary, refs, id, ttl);
    } else {
      var before := Negatives(id, k - 1);
      NegativesAge(refs, id, ttl, k - 1);
      OneMoreRuns(before, refs, id, ttl, (k - 1) * EXPIRE_AFTER);
      assert k * EXPIRE_AFTER == (k - 1) * EXPIRE_AFTER + EXPIRE_AFTER;
    }
  }

  lemma OneMoreRuns(ops: seq<Op>, refs: TagRefs, id: Identity, ttl: nat, now: int)
    requires Aged(RunCached(0, ops, PercentileSummary, refs, ttl), RunFresh(0, ops, PercentileSummary, refs, ttl),
                  id, now)
    ensures var more := ops + [Pass(EXPIRE_AFTER)] + [Sample(id, -1)];
      Aged(RunCached(0, more, PercentileSummary, refs, ttl), RunFresh(0, more, PercentileSummary, refs, ttl), id,
           now + EXPIRE_AFTER)
  {
    RunAppend(ops, Pass(EXPIRE_AFTER), PercentileSummary, refs, ttl);
    RunAppend(ops + [Pass(EXPIRE_AFTER)], Sample(id, -1), PercentileSummary, refs, ttl);
    OneMore(RunCached(0, ops, PercentileSummary, refs, ttl), RunFresh(0, ops, PercentileSummary, refs, ttl),
            refs, id, ttl, now);
  }

  lemma {:induction false} NoRemovals(id: Identity, k: nat)
    ensures forall op :: op in Negatives(id, k) ==> !op.RemoveAllExpired?
  {
    if k == 0 {
    } else {
      NoRemovals(id, k - 1);
    }
  }

  lemma AgedIsBefore(s: System, r: Registries, id: Identity, ttl: nat, gap: nat)
    requires Aged(s, r, id, ttl * EXPIRE_AFTER)
    ensures Before(s, r, id, ttl, gap)
  {
  }

  lemma RunAppend(ops: seq<Op>, op: Op, kind: PercentileKind, refs: TagRefs, ttl: int)
    ensures RunCached(0, ops + [op], kind, refs, ttl)
         == CachedStep(RunCached(0, ops, kind, refs, ttl), op, kind, refs, ttl)
    ensures RunFresh(0, ops + [op], kind, refs, ttl)
         == FreshStep(RunFresh(0, ops, kind, refs, ttl), op, kind, refs, ttl)
  {
    assert (ops + [op])[..|ops|] == ops;
  }

  /** A negative amount refreshes the cache entry of a distribution summary but not its meter. */
  lemma OneMore(s: System, r: Registries, refs: TagRefs, id: Identity, ttl: nat, now: int)
    requires Aged(s, r, id, now)
    ensures Aged(CachedStep(CachedStep(s, Pass(EXPIRE_AFTER), PercentileSummary, refs, ttl),
                            Sample(id, -1), PercentileSummary, refs, ttl),
                 FreshStep(FreshStep(r, Pass(EXPIRE_AFTER), PercentileSummary, refs, ttl),
                           Sample(id, -1), PercentileSummary, refs, ttl), id, now + EXPIRE_AFTER)
  {
    var later := FreshStep(r, Pass(EXPIRE_AFTER), PercentileSummary, refs, ttl);
    StepAt(r.meters, Tick(EXPIRE_AFTER), Meters.Summary, ttl, id);
    LookupRegistered(later.meters, id, Meters.Summary, ttl);
  }

  /** So with negative amounts no ttl suffices, whatever the gap: a meter that is kept in the cache by them grows older
      than any ttl. */
  lemma NegativeAmountsShow(refs: TagRefs, id: Identity, ttl: nat, gap: nat)
    ensures var ops := Negatives(id, ttl) + Wait(gap) + [Sample(id, 1)];
      && AllInTime(0, ops, PercentileSummary, refs, ttl, gap)
      && RunCached(0, ops, PercentileSummary, refs, ttl).reg.meters.Of(id).meter.None?
      && RunFresh(0, ops, PercentileSummary, refs, ttl).meters.Of(id).meter.Some?
  {
    var start := Negatives(id, ttl);
    NegativesAge(refs, id, ttl, ttl);
    NoRemovals(id, ttl);
    AgedIsBefore(RunCached(0, start, PercentileSummary, refs, ttl), RunFresh(0, start, PercentileSummary, refs, ttl),
                 id, ttl, gap);
    WaitLoses(start, PercentileSummary, refs, id, ttl, gap);
  }
}
