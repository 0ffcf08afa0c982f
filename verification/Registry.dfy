/** The registry's maps of meters: spectator/registry.h.

    The class iterates over its map, measures, and erases what has expired; each operation is proved against a function
    on finite maps.  A run of the registry is then any sequence of those operations under one clock.
 */
module Registry {
  import opened Ids
  import opened Meters

  type Live = map<Identity, MeterState>

  predicate IsExpired(now: int, updated: int, ttl: int) {
    now - updated > ttl
  }

  /** insert: an existing meter stays. */
  function Inserted(live: Live, id: Identity, m: MeterState): Live {
    if id in live then live else live[id := m]
  }

  /** measure: every meter that has not expired is reset. */
  function Measured(live: Live, now: int, ttl: int): Live {
    map id | id in live :: AfterMeasure(live[id], now, ttl)
  }

  function AfterMeasure(m: MeterState, now: int, ttl: int): MeterState {
    if IsExpired(now, m.updated, ttl) then m else Reset(m)
  }

  /** The values measure emits for one id. */
  function EmittedFor(live: Live, id: Identity, now: int, ttl: int): seq<Value> {
    if id in live then EmittedBy(live[id], now, ttl) else []
  }

  function EmittedBy(m: MeterState, now: int, ttl: int): seq<Value> {
    if IsExpired(now, m.updated, ttl) then [] else Emitted(m)
  }

  function Remaining(live: Live, now: int, ttl: int): Live {
    map id | id in live && !IsExpired(now, live[id].updated, ttl) :: live[id]
  }

  // ---------- the class ----------

  type Measurement = (Identity, Value)

  /** The values of one id in a list of measurements. */
  function Only(res: seq<Measurement>, id: Identity): seq<Value> {
    if res == [] then []
    else Only(res[..|res| - 1], id) + if res[|res| - 1].0 == id then [res[|res| - 1].1] else []
  }

  function Labelled(id: Identity, values: seq<Value>): seq<Measurement> {
    seq(|values|, i requires 0 <= i < |values| => (id, values[i]))
  }

  lemma {:induction false} OnlyLabelled(res: seq<Measurement>, own: Identity, values: seq<Value>, id: Identity)
    ensures Only(res + Labelled(own, values), id) == Only(res, id) + if id == own then values else []
  {
    var all := res + Labelled(own, values);
    if values == [] {
      assert all == res;
    } else {
      var n := |values| - 1;
      OnlyLabelled(res, own, values[..n], id);
      assert all[..|all| - 1] == res + Labelled(own, values[..n]);
      assert values[..n] + [values[n]] == values;
    }
  }

  class MeterMap {
    const kind: Kind
    var meters: map<Identity, Meter>

    ghost predicate Valid()
      reads this, meters.Values
    {
      forall id :: id in meters ==> meters[id].id == id && meters[id].kind == kind
    }

    ghost function Live(): Live
      reads this, meters.Values
    {
      map id | id in meters :: meters[id].State()
    }

    constructor (kind: Kind)
      ensures Valid() && this.kind == kind && meters == map[] && Live() == map[]
    {
      this.kind, meters := kind, map[];
    }

    /** Only inserts if there is none yet, and returns the meter that is there. */
    method Insert(meter: Meter) returns (m: Meter)
      requires Valid() && meter.kind == kind
      modifies this
      ensures Valid()
      ensures m == (if meter.id in old(meters) then old(meters[meter.id]) else meter)
      ensures meters == old(meters)[meter.id := m]
      ensures Live() == Inserted(old(Live()), meter.id, meter.State())
    {
      if meter.id !in meters {
        meters := meters[meter.id := meter];
      }
      m := meters[meter.id];
    }

    static method MeasureOne(m: Meter, res: seq<Measurement>, now: int, ttl: int) returns (all: seq<Measurement>)
      modifies m
      ensures m.State() == AfterMeasure(old(m.State()), now, ttl)
      ensures forall id :: id != m.id ==> Only(all, id) == Only(res, id)
      ensures Only(res, m.id) == [] ==> Only(all, m.id) == EmittedBy(old(m.State()), now, ttl)
    {
      if IsExpired(now, m.updated, ttl) { return res; }
      var values := m.Measure();
      all := res + Labelled(m.id, values);
      forall id ensures Only(all, id) == Only(res, id) + if id == m.id then values else [] {
        OnlyLabelled(res, m.id, values, id);
      }
    }

    /** The hash table yields its entries in any order. */
    method Measure(now: int, ttl: int) returns (res: seq<Measurement>)
      requires Valid()
      modifies meters.Values
      ensures Valid() && Live() == Measured(old(Live()), now, ttl)
      ensures forall id :: Only(res, id) == EmittedFor(old(Live()), id, now, ttl)
    {
      res := MeasureEach(Live(), now, ttl);
    }

    method MeasureEach(ghost live: Live, now: int, ttl: int) returns (res: seq<Measurement>)
      requires Valid() && meters.Keys == live.Keys
      requires forall id :: id in meters ==> meters[id].State() == live[id]
      modifies meters.Values
      ensures Valid()
      ensures forall id :: id in meters ==> meters[id].State() == AfterMeasure(live[id], now, ttl)
      ensures forall id :: Only(res, id) == EmittedFor(live, id, now, ttl)
    {
      var todo := meters.Keys;
      res := [];
      while todo != {}
        invariant Valid() && todo <= meters.Keys
        invariant forall id :: id in todo ==> meters[id].State() == live[id] && Only(res, id) == []
        invariant forall id :: id in meters && id !in todo ==> meters[id].State() == AfterMeasure(live[id], now, ttl)
        invariant forall id :: id in meters && id !in todo ==> Only(res, id) == EmittedBy(live[id], now, ttl)
        invariant forall id :: id !in meters ==> Only(res, id) == []
      {
        var id :| id in todo;
        res := MeasureOne(meters[id], res, now, ttl);
        todo := todo - {id};
      }
    }

    method RemoveExpired(now: int, ttl: int) returns (expired: nat, total: nat)
      requires Valid()
      modifies this
      ensures Valid() && Live() == Remaining(old(Live()), now, ttl)
      ensures total == |old(meters)| && expired == |old(meters)| - |meters|
    {
      ghost var start := meters;
      var todo := meters.Keys;
      expired, total := 0, 0;
      while todo != {}
        invariant Valid() && todo <= meters.Keys <= start.Keys
        invariant forall id :: id in meters ==> meters[id] == start[id]
        invariant forall id :: id in start && id !in meters ==> IsExpired(now, start[id].updated, ttl)
        invariant forall id :: id in meters && id !in todo ==> !IsExpired(now, start[id].updated, ttl)
        invariant total + |todo| == |start| && expired == |start| - |meters|
      {
        var id :| id in todo;
        total := total + 1;
        if IsExpired(now, meters[id].updated, ttl) {
          SizeWithout(meters, id);
          meters := meters - {id};
          expired := expired + 1;
        }
        todo := todo - {id};
      }
      ghost var remaining := Remaining(old(Live()), now, ttl);
      assert forall id :: id in meters <==> id in remaining;
      assert forall id :: id in meters ==> meters[id].State() == remaining[id];
    }
  }

  lemma OneChanged(before: Live, after: Live, id: Identity)
    requires after.Keys == before.Keys && id in after
    requires forall x :: x in after && x != id ==> after[x] == before[x]
    ensures after == before[id := after[id]]
  {
  }

  lemma SizeWithout(m: map<Identity, Meter>, id: Identity)
    requires id in m
    ensures |m - {id}| == |m| - 1
  {
    assert (m - {id}).Keys == m.Keys - {id};
  }
}
