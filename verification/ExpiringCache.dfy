/** The objects behind the percentile cache: server/expiring_cache.h and the percentile meters that it holds. */
module ExpiringCache {
  import opened Ids
  import opened Meters
  import opened Registry
  import opened PercentileCache
  import Expiry
  import PercentileBuckets

  /** The maps of the registry that a percentile meter uses. */
  class Meterings {
    const meters: MeterMap
    const counters: MeterMap

    constructor (kind: PercentileKind)
      ensures Valid(kind) && meters.Live() == map[] && counters.Live() == map[]
    {
      meters := new MeterMap(kind.Underlying());
      counters := new MeterMap(Counter);
    }

    ghost predicate Valid(kind: PercentileKind)
      reads this, meters, meters.meters.Values, counters, counters.meters.Values
    {
      meters.Valid() && counters.Valid() && meters.kind == kind.Underlying() && counters.kind == Counter
    }

    /** GetTimer or GetDistributionSummary: makes a meter and inserts it, or finds the one that is there. */
    method GetMeter(id: Identity, now: int, kind: PercentileKind) returns (m: Meter)
      requires Valid(kind)
      modifies meters
      ensures Valid(kind) && m.kind == kind.Underlying() && meters.meters == old(meters.meters)[id := m]
      ensures if id in old(meters.meters) then m == old(meters.meters)[id] else fresh(m)
      ensures meters.Live() == Inserted(old(meters.Live()), id, Created(kind.Underlying(), now))
    {
      var made := new Meter(id, kind.Underlying(), now);
      m := meters.Insert(made);
    }

    /** GetCounter and Increment. */
    method Increment(id: Identity, now: int, kind: PercentileKind)
      requires Valid(kind)
      modifies counters, counters.meters.Values
      ensures Valid(kind)
      ensures counters.Live() == Incremented(old(counters.Live()), id, now)
    {
      var made := new Meter(id, Counter, now);
      var c := counters.Insert(made);
      AddOne(c, now, kind);
    }

    method AddOne(c: Meter, now: int, kind: PercentileKind)
      requires Valid(kind) && c.id in counters.meters && counters.meters[c.id] == c
      modifies c
      ensures Valid(kind)
      ensures counters.Live() == old(counters.Live())[c.id := Recorded(old(c.State()), 1.0, now)]
    {
      ghost var l := counters.Live();
      c.Add(1.0, now);
      OneChanged(l, counters.Live(), c.id);
    }
  }

  function Incremented(live: Live, id: Identity, now: int): Live {
    var l := Inserted(live, id, Created(Counter, now));
    l[id := Recorded(l[id], 1.0, now)]
  }

  class Percentile {
    const kind: PercentileKind
    const id: Identity
    const meter: Meter

    constructor (registry: Meterings, id: Identity, kind: PercentileKind, now: int)
      requires registry.Valid(kind)
      modifies registry.meters
      ensures registry.Valid(kind) && this.kind == kind && this.id == id && meter.kind == kind.Underlying()
      ensures registry.meters.meters == old(registry.meters.meters)[id := meter]
      ensures if id in old(registry.meters.meters) then meter == old(registry.meters.meters)[id] else fresh(meter)
      ensures registry.meters.Live() == Inserted(old(registry.meters.Live()), id, Created(kind.Underlying(), now))
    {
      var m := registry.GetMeter(id, now, kind);
      this.kind, this.id, meter := kind, id, m;
    }

    /** A distribution summary drops negative amounts, a timer only refreshes itself and counts their bucket. */
    method Record(registry: Meterings, refs: TagRefs, amount: Int64, now: int)
      requires registry.Valid(kind) && meter.kind == kind.Underlying()
      modifies meter, registry.counters, registry.counters.meters.Values
      ensures registry.Valid(kind)
      ensures kind.PercentileSummary? && amount < 0 ==> meter.State() == old(meter.State())
      ensures !(kind.PercentileSummary? && amount < 0) ==>
        meter.State() == Recorded(old(meter.State()), amount as real, now)
      ensures registry.counters.Live() ==
        if kind.PercentileSummary? && amount < 0 then old(registry.counters.Live())
        else Incremented(old(registry.counters.Live()), CounterId(refs, kind, id, amount), now)
    {
      if kind.PercentileSummary? && amount < 0 { return; }
      meter.Record(amount as real, now);
      registry.Increment(CounterId(refs, kind, id, amount), now, kind);
    }
  }

  datatype CacheEntry = CacheEntry(updated: int, v: Percentile)

  function Unexpired(cache: map<Identity, CacheEntry>, now: int): map<Identity, CacheEntry> {
    map id | id in cache && now - cache[id].updated <= EXPIRE_AFTER :: cache[id]
  }

  /** Every cached percentile meter holds the meter that the registry has under its id, which was updated no earlier
      than the entry. */
  ghost predicate AllRegistered(cache: map<Identity, CacheEntry>, meters: map<Identity, Meter>, live: Live) {
    forall id :: id in cache ==>
      && id in meters && cache[id].v.meter == meters[id]
      && id in live && cache[id].updated <= live[id].updated
  }

  lemma StillRegistered(cache: map<Identity, CacheEntry>, meters: map<Identity, Meter>, live: Live,
                        kind: PercentileKind, id: Identity, v: Percentile, amount: Int64, now: int)
    requires AllRegistered(cache, meters, live)
    ensures AllRegistered(cache[id := CacheEntry(now, v)], meters[id := v.meter],
                          SampledLive(live, kind, id, amount, now))
  {
  }

  /** Removing expired meters leaves the cached ones alone as long as no entry is older than the ttl. */
  lemma RemovalKeepsRegistered(cache: map<Identity, CacheEntry>, meters: map<Identity, Meter>, live: Live,
                               now: int, ttl: int)
    requires AllRegistered(cache, meters, live)
    requires forall id :: id in cache ==> now - cache[id].updated <= ttl
    ensures var left := Remaining(live, now, ttl);
      AllRegistered(cache, map id | id in meters && id in left :: meters[id], left)
  {
  }

  class Cache {
    const kind: PercentileKind
    var cache: map<Identity, CacheEntry>

    constructor (kind: PercentileKind)
      ensures this.kind == kind && cache == map[]
    {
      this.kind, cache := kind, map[];
    }

    ghost predicate Valid()
      reads this
    {
      forall id :: id in cache ==>
        cache[id].v.id == id && cache[id].v.kind == kind && cache[id].v.meter.kind == kind.Underlying()
    }

    ghost predicate Registered(registry: Meterings)
      reads this, registry.meters, registry.meters.meters.Values
    {
      AllRegistered(cache, registry.meters.meters, registry.meters.Live())
    }

    method GetOrCreate(registry: Meterings, k: Identity, now: int) returns (v: Percentile)
      requires Valid() && registry.Valid(kind)
      modifies this, registry.meters
      ensures Valid() && registry.Valid(kind) && v.id == k && v.kind == kind && v.meter.kind == kind.Underlying()
      ensures cache == old(cache)[k := CacheEntry(now, v)]
      ensures k in old(cache) ==>
        v == old(cache)[k].v && registry.meters.meters == old(registry.meters.meters)
      ensures k !in old(cache) ==>
        && registry.meters.meters == old(registry.meters.meters)[k := v.meter]
        && (if k in old(registry.meters.meters) then v.meter == old(registry.meters.meters)[k] else fresh(v.meter))
        && registry.meters.Live() == Inserted(old(registry.meters.Live()), k, Created(kind.Underlying(), now))
    {
      if k in cache {
        cache := cache[k := cache[k].(updated := now)];
        return cache[k].v;
      }
      v := new Percentile(registry, k, kind, now);
      cache := cache[k := CacheEntry(now, v)];
    }

    method Expire(now: int) returns (size: nat, expired: nat)
      requires Valid()
      modifies this
      ensures Valid()
      ensures cache == Unexpired(old(cache), now)
      ensures size == |old(cache)| && expired == |old(cache)| - |cache|
    {
      ghost var start := cache;
      size, expired := |cache|, 0;
      var todo := cache.Keys;
      while todo != {}
        invariant todo <= cache.Keys <= start.Keys
        invariant forall id :: id in cache ==> cache[id] == start[id]
        invariant forall id :: id in start && id !in cache ==> now - start[id].updated > EXPIRE_AFTER
        invariant forall id :: id in cache && id !in todo ==> now - start[id].updated <= EXPIRE_AFTER
        invariant expired == |start| - |cache|
      {
        var id :| id in todo;
        if now - cache[id].updated > EXPIRE_AFTER {
          SizeWithoutEntry(cache, id);
          cache := cache - {id};
          expired := expired + 1;
        }
        todo := todo - {id};
      }
    }

    /** While every cached meter is the registered one, a hit does to the registry what a miss would. */
    method GetRegistered(registry: Meterings, k: Identity, now: int) returns (v: Percentile)
      requires Valid() && registry.Valid(kind) && Registered(registry)
      modifies this, registry.meters
      ensures Valid() && registry.Valid(kind) && v.id == k && v.kind == kind
      ensures cache == old(cache)[k := CacheEntry(now, v)]
      ensures registry.meters.meters == old(registry.meters.meters)[k := v.meter]
      ensures if k in old(registry.meters.meters) then v.meter == old(registry.meters.meters)[k] else fresh(v.meter)
      ensures registry.meters.Live() == Inserted(old(registry.meters.Live()), k, Created(kind.Underlying(), now))
    {
      v := GetOrCreate(registry, k, now);
    }

    /** One percentile line of the protocol.  While every cached meter is the registered one, the registry gets what a
        percentile meter made for this one sample would have given it, and that stays so. */
    method Sample(registry: Meterings, refs: TagRefs, id: Identity, amount: Int64, now: int)
      requires Valid() && registry.Valid(kind) && Registered(registry)
      requires kind.PercentileSummary? ==> amount >= 0
      modifies this, registry.meters, registry.meters.meters.Values, registry.counters, registry.counters.meters.Values
      ensures Valid() && registry.Valid(kind) && Registered(registry)
      ensures registry.meters.Live() == SampledLive(old(registry.meters.Live()), kind, id, amount, now)
      ensures registry.counters.Live()
           == Incremented(old(registry.counters.Live()), CounterId(refs, kind, id, amount), now)
    {
      ghost var c, m, l, counts := cache, registry.meters.meters, registry.meters.Live(), registry.counters.Live();
      var v := GetRegistered(registry, id, now);
      assert registry.counters.Live() == counts;
      RecordRegistered(v, registry, refs, amount, now);
      StillRegistered(c, m, l, kind, id, v, amount, now);
    }

    /** Record through a percentile meter whose meter is the registered one. */
    static method RecordRegistered(v: Percentile, registry: Meterings, refs: TagRefs, amount: Int64, now: int)
      requires registry.Valid(v.kind) && v.id in registry.meters.meters && v.meter == registry.meters.meters[v.id]
      requires v.kind.PercentileSummary? ==> amount >= 0
      modifies v.meter, registry.counters, registry.counters.meters.Values
      ensures registry.Valid(v.kind) && registry.meters.meters == old(registry.meters.meters)
      ensures registry.meters.Live() == RecordedLive(old(registry.meters.Live()), v.id, amount, now)
      ensures registry.counters.Live()
           == Incremented(old(registry.counters.Live()), CounterId(refs, v.kind, v.id, amount), now)
    {
      ghost var l := registry.meters.Live();
      v.Record(registry, refs, amount, now);
      OneChanged(l, registry.meters.Live(), v.id);
    }
  }

  function RecordedLive(live: Live, id: Identity, amount: Int64, now: int): Live
    requires id in live
  {
    live[id := Recorded(live[id], amount as real, now)]
  }

  /** What a lookup and a record leave in the registry's map. */
  function SampledLive(live: Live, kind: PercentileKind, id: Identity, amount: Int64, now: int): Live {
    RecordedLive(Inserted(live, id, Created(kind.Underlying(), now)), id, amount, now)
  }

  lemma SizeWithoutEntry(m: map<Identity, CacheEntry>, id: Identity)
    requires id in m
    ensures |m - {id}| == |m| - 1
  {
    assert (m - {id}).Keys == m.Keys - {id};
  }

  // ---------- the run model does the same ----------

  /** The cache as the run model sees it; handles number the meters. */
  function EntriesOf(cache: map<Identity, CacheEntry>, handles: map<Identity, nat>): map<Identity, Entry>
    requires cache.Keys <= handles.Keys
  {
    map id | id in cache :: Entry(cache[id].updated, handles[id])
  }

  lemma ExpireIsKept(cache: map<Identity, CacheEntry>, handles: map<Identity, nat>, now: int)
    requires cache.Keys <= handles.Keys
    ensures EntriesOf(Unexpired(cache, now), handles) == Kept(EntriesOf(cache, handles), now)
  {
  }

  /** An effective sample through a new percentile meter changes the maps as Sample does. */
  lemma SampleIsSample(r: Registries, kind: PercentileKind, refs: TagRefs, id: Identity, amount: Int64, ttl: int)
    requires kind.PercentileSummary? ==> amount >= 0
    ensures var t := SampleFresh(r, kind, refs, id, amount, ttl);
      && t.meters.Live() == SampledLive(r.meters.Live(), kind, id, amount, r.meters.now)
      && t.counters.Live() == Incremented(r.counters.Live(), CounterId(refs, kind, id, amount), r.counters.now)
  {
    var k := kind.Underlying();
    var c := Construct(r, kind, id, ttl);
    Expiry.LookupIsInsert(r.meters, k, ttl, id);
    Expiry.RecordIsRecord(c.meters, k, ttl, id, amount as real);
    Expiry.UpdateIsInsertAndRecord(r.counters, Counter, ttl, CounterId(refs, kind, id, amount), 1.0);
  }
}
