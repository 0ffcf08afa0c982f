/** The payload builder of spectator/publisher.h, and a reader that gets every measurement back.

    Interned strings are represented by their texts: the string table is keyed by pointers, and pointers are
    equal exactly when the texts are (module StringPool).  A double is its 64-bit pattern.
 */
module Payload {
  import opened Bytes
  import opened Smile

  datatype TextTag = TextTag(key: Text, value: Text)

  datatype Measurement = Measurement(name: Text, tags: seq<TextTag>, bits: nat)

  const NAME := Ascii("name")
  const STATISTIC := Ascii("statistic")
  /** The statistics that are sums. */
  predicate IsAdditive(stat: Text) {
    stat == Ascii("count") || stat == Ascii("totalAmount") || stat == Ascii("totalTime")
    || stat == Ascii("totalOfSquares") || stat == Ascii("percentile")
  }

  // ---------- what the aggregator is to see ----------

  datatype Op = Add | Max

  function OpNumber(op: Op): nat {
    if op == Add then 0 else 10
  }

  /** Tags::at on the tag array; None is the null reference. */
  function At(tags: seq<TextTag>, key: Text): Option<Text> {
    if tags == [] then None
    else if tags[0].key == key then Some(tags[0].value)
    else At(tags[1..], key)
  }

  /** op_from_tags: sums are added up by the aggregator, everything else is a maximum. */
  function OpFromTags(tags: seq<TextTag>): Op {
    match At(tags, STATISTIC)
    case Some(stat) => if IsAdditive(stat) then Add else Max
    case None => Max
  }

  datatype Record = Record(tags: seq<TextTag>, op: int, bits: nat)

  /** A measurement as the reader has to see it: common tags, its own tags, then its name as one more tag. */
  function RecordOf(common: seq<TextTag>, m: Measurement): Record {
    Record(AllTags(common, m), OpNumber(OpFromTags(m.tags)), m.bits)
  }

  function AllTags(common: seq<TextTag>, m: Measurement): seq<TextTag> {
    common + m.tags + [TextTag(NAME, m.name)]
  }

  function RecordsOf(common: seq<TextTag>, batch: seq<Measurement>): seq<Record> {
    seq(|batch|, i requires 0 <= i < |batch| => RecordOf(common, batch[i]))
  }

  // ---------- the reader ----------

  /** k pairs of string-table indices. */
  function ReadPairs(tokens: seq<Token>, k: nat, table: seq<Text>): (r: Option<(seq<TextTag>, seq<Token>)>)
    ensures r.Some? ==> |r.value.1| <= |tokens|
    decreases k
  {
    if k == 0 then Some(([], tokens))
    else if |tokens| < 2 || !IsIndex(tokens[0], table) || !IsIndex(tokens[1], table) then None
    else match ReadPairs(tokens[2..], k - 1, table) {
      case None => None
      case Some((tags, rest)) => Some(([TextTag(table[tokens[0].n], table[tokens[1].n])] + tags, rest))
    }
  }

  predicate IsIndex(t: Token, table: seq<Text>) {
    t.Int? && 0 <= t.n < |table|
  }

  function ReadRecord(tokens: seq<Token>, table: seq<Text>): (r: Option<(Record, seq<Token>)>)
    ensures r.Some? ==> |r.value.1| < |tokens|
  {
    if tokens == [] || !tokens[0].Int? || tokens[0].n < 0 then None
    else match ReadPairs(tokens[1..], tokens[0].n, table) {
      case None => None
      case Some((tags, rest)) =>
        if |rest| < 2 || !rest[0].Int? || !rest[1].Double? then None
        else Some((Record(tags, rest[0].n, rest[1].bits), rest[2..]))
    }
  }

  function ReadRecords(tokens: seq<Token>, table: seq<Text>): Option<seq<Record>>
    decreases |tokens|
  {
    if tokens == [] then Some([])
    else match ReadRecord(tokens, table) {
      case None => None
      case Some((record, rest)) =>
        match ReadRecords(rest, table) {
          case None => None
          case Some(records) => Some([record] + records)
        }
    }
  }

  /** n strings. */
  function ReadStrings(tokens: seq<Token>, n: nat): Option<(seq<Text>, seq<Token>)>
    decreases n
  {
    if n == 0 then Some(([], tokens))
    else if tokens == [] || !tokens[0].Str? then None
    else match ReadStrings(tokens[1..], n - 1) {
      case None => None
      case Some((strings, rest)) => Some(([tokens[0].s] + strings, rest))
    }
  }

  function ReadPayloadTokens(tokens: seq<Token>): Option<seq<Record>> {
    if tokens == [] || !tokens[0].Int? || tokens[0].n < 0 then None
    else match ReadStrings(tokens[1..], tokens[0].n) {
      case None => None
      case Some((table, rest)) => ReadRecords(rest, table)
    }
  }

  function ReadPayload(bytes: seq<byte>): Option<seq<Record>> {
    match ReadDocument(bytes)
    case None => None
    case Some(tokens) => ReadPayloadTokens(tokens)
  }

  // ---------- what the builder writes ----------

  type StrTable = map<Text, nat>

  /** Every string of the tags has an index. */
  ghost predicate Mapped(table: StrTable, tags: seq<TextTag>) {
    forall i :: 0 <= i < |tags| ==> tags[i].key in table && tags[i].value in table
  }

  /** order lists the keys of the table, each at the index the table gives it. */
  ghost predicate Numbers(table: StrTable, order: seq<Text>) {
    && (forall s :: s in table ==> table[s] < |order| && order[table[s]] == s)
    && (forall i :: 0 <= i < |order| ==> order[i] in table && table[order[i]] == i)
  }

  function Ids(table: StrTable, tags: seq<TextTag>): seq<nat>
    requires Mapped(table, tags)
  {
    if tags == [] then [] else [table[tags[0].key], table[tags[0].value]] + Ids(table, tags[1..])
  }

  function IntTokens(ids: seq<nat>): seq<Token> {
    seq(|ids|, i requires 0 <= i < |ids| => Int(ids[i]))
  }

  function StrTokens(order: seq<Text>): seq<Token> {
    seq(|order|, i requires 0 <= i < |order| => Str(order[i]))
  }

  function TableTokens(order: seq<Text>): seq<Token> {
    [Int(|order|)] + StrTokens(order)
  }

  /** One record: how many tags, their index pairs, the operation and the value. */
  function RecordTokens(table: StrTable, tags: seq<TextTag>, op: nat, bits: nat): seq<Token>
    requires Mapped(table, tags)
  {
    [Int(|tags|)] + IntTokens(Ids(table, tags)) + [Int(op), Double(bits)]
  }

  ghost predicate MappedAll(table: StrTable, common: seq<TextTag>, batch: seq<Measurement>) {
    forall i :: 0 <= i < |batch| ==> Mapped(table, AllTags(common, batch[i]))
  }

  function MeasurementTokens(table: StrTable, common: seq<TextTag>, m: Measurement): seq<Token>
    requires Mapped(table, AllTags(common, m))
  {
    RecordTokens(table, AllTags(common, m), OpNumber(OpFromTags(m.tags)), m.bits)
  }

  function BatchTokens(table: StrTable, common: seq<TextTag>, batch: seq<Measurement>): seq<Token>
    requires MappedAll(table, common, batch)
  {
    if batch == [] then []
    else MeasurementTokens(table, common, batch[0]) + BatchTokens(table, common, batch[1..])
  }

  function PayloadTokens(order: seq<Text>, table: StrTable, common: seq<TextTag>, batch: seq<Measurement>): seq<Token>
    requires MappedAll(table, common, batch)
  {
    TableTokens(order) + BatchTokens(table, common, batch)
  }

  // ---------- the reader reads back what the builder writes ----------

  lemma {:induction false} PairsReadBack(table: StrTable, order: seq<Text>, tags: seq<TextTag>, rest: seq<Token>)
    requires Numbers(table, order) && Mapped(table, tags)
    ensures ReadPairs(IntTokens(Ids(table, tags)) + rest, |tags|, order) == Some((tags, rest))
  {
    var tokens := IntTokens(Ids(table, tags)) + rest;
    if tags == [] {
      assert tokens == rest;
    } else {
      PairsReadBack(table, order, tags[1..], rest);
      assert tokens[2..] == IntTokens(Ids(table, tags[1..])) + rest;
      assert tokens[0] == Int(table[tags[0].key]) && tokens[1] == Int(table[tags[0].value]);
      assert [tags[0]] + tags[1..] == tags;
    }
  }

  lemma RecordReadsBack(table: StrTable, order: seq<Text>, tags: seq<TextTag>, op: nat, bits: nat, rest: seq<Token>)
    requires Numbers(table, order) && Mapped(table, tags)
    ensures ReadRecord(RecordTokens(table, tags, op, bits) + rest, order) == Some((Record(tags, op, bits), rest))
  {
    var tail := [Int(op), Double(bits)] + rest;
    var tokens := RecordTokens(table, tags, op, bits) + rest;
    assert tokens[1..] == IntTokens(Ids(table, tags)) + tail;
    PairsReadBack(table, order, tags, tail);
    assert tail[2..] == rest;
  }

  lemma {:induction false} BatchReadsBack(table: StrTable, order: seq<Text>, common: seq<TextTag>,
                                          batch: seq<Measurement>)
    requires Numbers(table, order) && MappedAll(table, common, batch)
    ensures ReadRecords(BatchTokens(table, common, batch), order) == Some(RecordsOf(common, batch))
  {
    if batch == [] {
      assert RecordsOf(common, batch) == [];
    } else {
      var m := batch[0];
      RecordReadsBack(table, order, AllTags(common, m), OpNumber(OpFromTags(m.tags)), m.bits,
                      BatchTokens(table, common, batch[1..]));
      BatchReadsBack(table, order, common, batch[1..]);
      assert RecordsOf(common, batch) == [RecordOf(common, batch[0])] + RecordsOf(common, batch[1..]);
    }
  }

  lemma {:induction false} StringsReadBack(order: seq<Text>, rest: seq<Token>)
    ensures ReadStrings(StrTokens(order) + rest, |order|) == Some((order, rest))
  {
    if order == [] {
      assert StrTokens(order) + rest == rest;
    } else {
      StringsReadBack(order[1..], rest);
      assert (StrTokens(order) + rest)[1..] == StrTokens(order[1..]) + rest;
      assert [order[0]] + order[1..] == order;
    }
  }

  lemma PayloadTokensReadBack(order: seq<Text>, table: StrTable, common: seq<TextTag>, batch: seq<Measurement>)
    requires Numbers(table, order) && MappedAll(table, common, batch)
    ensures ReadPayloadTokens(PayloadTokens(order, table, common, batch)) == Some(RecordsOf(common, batch))
  {
    var rest := BatchTokens(table, common, batch);
    StringsReadBack(order, rest);
    assert PayloadTokens(order, table, common, batch)[1..] == StrTokens(order) + rest;
    BatchReadsBack(table, order, common, batch);
  }

  // ---------- which tokens are encodable ----------

  ghost predicate InRange(common: seq<TextTag>, batch: seq<Measurement>) {
    forall i :: 0 <= i < |batch| ==>
      batch[i].bits < 0x1_0000_0000_0000_0000 && |AllTags(common, batch[i])| < 0x8000_0000
  }

  lemma {:induction false} IdsInRange(table: StrTable, order: seq<Text>, tags: seq<TextTag>)
    requires Numbers(table, order) && Mapped(table, tags)
    ensures |Ids(table, tags)| == 2 * |tags|
    ensures forall i :: 0 <= i < |Ids(table, tags)| ==> Ids(table, tags)[i] < |order|
  {
    if tags == [] {
    } else {
      IdsInRange(table, order, tags[1..]);
    }
  }

  /** What one record's tokens need: an encodable tag count and encodable indices. */
  ghost predicate RecordEncodable(table: StrTable, tags: seq<TextTag>)
    requires Mapped(table, tags)
  {
    Encodable(|tags|) && forall i :: 0 <= i < |Ids(table, tags)| ==> Encodable(Ids(table, tags)[i])
  }

  lemma RecordWritable(table: StrTable, order: seq<Text>, tags: seq<TextTag>, op: nat, bits: nat)
    requires Numbers(table, order) && Mapped(table, tags) && |order| < 0x8000_0000
    requires |tags| < 0x8000_0000 && op <= 10 && bits < 0x1_0000_0000_0000_0000
    ensures AllWritable(RecordTokens(table, tags, op, bits)) && SmallInts(RecordTokens(table, tags, op, bits))
    ensures AllEncodable(RecordTokens(table, tags, op, bits)) <==> RecordEncodable(table, tags)
  {
    var ids := Ids(table, tags);
    IdsInRange(table, order, tags);
    var ts := RecordTokens(table, tags, op, bits);
    assert forall i :: 0 <= i < |ids| ==> ts[1 + i] == Int(ids[i]);
    assert ts[0] == Int(|tags|);
  }

  ghost predicate RecordsEncodable(table: StrTable, common: seq<TextTag>, batch: seq<Measurement>)
    requires MappedAll(table, common, batch)
  {
    forall i :: 0 <= i < |batch| ==> RecordEncodable(table, AllTags(common, batch[i]))
  }

  lemma RecordsEncodableSplit(table: StrTable, common: seq<TextTag>, batch: seq<Measurement>)
    requires MappedAll(table, common, batch) && batch != []
    ensures RecordsEncodable(table, common, batch)
       <==> RecordEncodable(table, AllTags(common, batch[0])) && RecordsEncodable(table, common, batch[1..])
  {
    if RecordEncodable(table, AllTags(common, batch[0])) && RecordsEncodable(table, common, batch[1..]) {
      forall i | 0 <= i < |batch| ensures RecordEncodable(table, AllTags(common, batch[i])) {
        if i > 0 {
          assert batch[1..][i - 1] == batch[i];
        }
      }
    }
    if RecordsEncodable(table, common, batch) {
      forall i | 0 <= i < |batch[1..]| ensures RecordEncodable(table, AllTags(common, batch[1..][i])) {
        assert batch[1..][i] == batch[i + 1];
      }
    }
  }

  lemma AllOfConcat(ts: seq<Token>, us: seq<Token>)
    ensures AllWritable(ts + us) <==> AllWritable(ts) && AllWritable(us)
    ensures SmallInts(ts + us) <==> SmallInts(ts) && SmallInts(us)
    ensures AllEncodable(ts + us) <==> AllEncodable(ts) && AllEncodable(us)
  {
    assert forall i :: 0 <= i < |ts| ==> (ts + us)[i] == ts[i];
    assert forall i :: 0 <= i < |us| ==> (ts + us)[|ts| + i] == us[i];
  }

  lemma {:induction false} BatchWritable(table: StrTable, order: seq<Text>, common: seq<TextTag>,
                                         batch: seq<Measurement>)
    requires Numbers(table, order) && MappedAll(table, common, batch) && |order| < 0x8000_0000 && InRange(common, batch)
    ensures AllWritable(BatchTokens(table, common, batch)) && SmallInts(BatchTokens(table, common, batch))
    ensures AllEncodable(BatchTokens(table, common, batch)) <==> RecordsEncodable(table, common, batch)
  {
    if batch == [] {
    } else {
      var m := batch[0];
      RecordWritable(table, order, AllTags(common, m), OpNumber(OpFromTags(m.tags)), m.bits);
      BatchWritable(table, order, common, batch[1..]);
      RecordsEncodableSplit(table, common, batch);
      AllOfConcat(MeasurementTokens(table, common, m), BatchTokens(table, common, batch[1..]));
    }
  }

  lemma PayloadWritable(order: seq<Text>, table: StrTable, common: seq<TextTag>, batch: seq<Measurement>)
    requires Numbers(table, order) && MappedAll(table, common, batch) && |order| < 0x8000_0000 && InRange(common, batch)
    requires forall i :: 0 <= i < |order| ==> IsAscii(order[i])
    ensures AllWritable(PayloadTokens(order, table, common, batch))
    ensures SmallInts(PayloadTokens(order, table, common, batch))
    ensures AllEncodable(PayloadTokens(order, table, common, batch))
       <==> Encodable(|order|) && RecordsEncodable(table, common, batch)
  {
    BatchWritable(table, order, common, batch);
    AllOfConcat([Int(|order|)], StrTokens(order));
    AllOfConcat(TableTokens(order), BatchTokens(table, common, batch));
    assert AllEncodable([Int(|order|)]) <==> TokenEncodable([Int(|order|)][0]);
  }

  // ---------- what a record says ----------

  /** The first tag with the key has the value. */
  ghost predicate ValueUnder(tags: seq<TextTag>, key: Text, value: Text) {
    exists i :: 0 <= i < |tags| && IsFirst(tags, key, i) && tags[i].value == value
  }

  ghost predicate IsFirst(tags: seq<TextTag>, key: Text, i: nat)
    requires i < |tags|
  {
    tags[i].key == key && forall j :: 0 <= j < i ==> tags[j].key != key
  }

  /** A record gives the common tags, then the measurement's own, then its name, in that order, key for key and value
      for value; the operation is 0 for the five statistics that are sums and 10 for everything else. */
  ghost predicate IsRecord(r: Record, common: seq<TextTag>, m: Measurement) {
    var own, statistic := m.tags, Ascii("statistic");
    && |r.tags| == |common| + |own| + 1
    && (forall j :: 0 <= j < |common| ==> r.tags[j].key == common[j].key && r.tags[j].value == common[j].value)
    && (forall j :: 0 <= j < |own| ==>
          r.tags[|common| + j].key == own[j].key && r.tags[|common| + j].value == own[j].value)
    && r.tags[|common| + |own|].key == Ascii("name") && r.tags[|common| + |own|].value == m.name
    && (r.op == 0 || r.op == 10)
    && (r.op == 0 <==> (ValueUnder(own, statistic, Ascii("count")) || ValueUnder(own, statistic, Ascii("totalAmount"))
                        || ValueUnder(own, statistic, Ascii("totalTime"))
                        || ValueUnder(own, statistic, Ascii("totalOfSquares"))
                        || ValueUnder(own, statistic, Ascii("percentile"))))
    && r.bits == m.bits
  }

  /** One record for each measurement, in order. */
  ghost predicate AreRecords(records: seq<Record>, common: seq<TextTag>, batch: seq<Measurement>) {
    |records| == |batch| && forall i :: 0 <= i < |batch| ==> IsRecord(records[i], common, batch[i])
  }

  /** The tokens of a record: how many tags, the index of each key and then of its value, the operation, the value. */
  lemma RecordLayout(table: StrTable, common: seq<TextTag>, m: Measurement, j: nat)
    requires Mapped(table, AllTags(common, m)) && j <= |common| + |m.tags|
    ensures var t, n := MeasurementTokens(table, common, m), |common| + |m.tags| + 1;
            var tag := if j < |common| then common[j]
                       else if j < n - 1 then m.tags[j - |common|] else TextTag(Ascii("name"), m.name);
      && |t| == 2 * n + 3 && t[0] == Int(n)
      && tag.key in table && t[2 * j + 1] == Int(table[tag.key])
      && tag.value in table && t[2 * j + 2] == Int(table[tag.value])
      && t[2 * n + 2] == Double(m.bits)
  {
    assert AllTags(common, m)[j].key in table;
    IdsAt(table, AllTags(common, m), j);
  }

  lemma {:induction false} AtIsFirst(tags: seq<TextTag>, key: Text, value: Text)
    ensures At(tags, key) == Some(value) <==> ValueUnder(tags, key, value)
  {
    if tags == [] {
    } else if tags[0].key == key {
      assert IsFirst(tags, key, 0);
    } else {
      AtIsFirst(tags[1..], key, value);
      if i :| 0 <= i < |tags| && IsFirst(tags, key, i) && tags[i].value == value {
        assert IsFirst(tags[1..], key, i - 1);
      }
      if i :| 0 <= i < |tags[1..]| && IsFirst(tags[1..], key, i) && tags[1..][i].value == value {
        assert IsFirst(tags, key, i + 1) by {
          assert forall j :: 1 <= j < i + 1 ==> tags[j] == tags[1..][j - 1];
        }
      }
    }
  }

  lemma RecordsSay(common: seq<TextTag>, batch: seq<Measurement>)
    ensures AreRecords(RecordsOf(common, batch), common, batch)
  {
    forall i | 0 <= i < |batch| ensures IsRecord(RecordOf(common, batch[i]), common, batch[i]) {
      RecordSays(common, batch[i]);
    }
  }

  lemma RecordSays(common: seq<TextTag>, m: Measurement)
    ensures IsRecord(RecordOf(common, m), common, m)
  {
    AtIsFirst(m.tags, Ascii("statistic"), Ascii("count"));
    AtIsFirst(m.tags, Ascii("statistic"), Ascii("totalAmount"));
    AtIsFirst(m.tags, Ascii("statistic"), Ascii("totalTime"));
    AtIsFirst(m.tags, Ascii("statistic"), Ascii("totalOfSquares"));
    AtIsFirst(m.tags, Ascii("statistic"), Ascii("percentile"));
  }

  // ---------- the round trip ----------

  /** For every batch and every order of the string table, the reader gets back exactly the measurements, with all
      their tags, when every integer written is encodable, and rejects the payload when not. */
  lemma PayloadRoundTripExactly(order: seq<Text>, table: StrTable, common: seq<TextTag>, batch: seq<Measurement>)
    requires Numbers(table, order) && MappedAll(table, common, batch) && |order| < 0x8000_0000 && InRange(common, batch)
    requires forall i :: 0 <= i < |order| ==> IsAscii(order[i])
    ensures AllWritable(PayloadTokens(order, table, common, batch))
    ensures ReadPayload(HEADER + [START_ARRAY] + Encode(PayloadTokens(order, table, common, batch)) + [END_ARRAY])
         == if AllEncodable(PayloadTokens(order, table, common, batch)) then Some(RecordsOf(common, batch)) else None
    ensures AreRecords(RecordsOf(common, batch), common, batch)
  {
    RecordsSay(common, batch);
    PayloadWritable(order, table, common, batch);
    var tokens := PayloadTokens(order, table, common, batch);
    var bytes := HEADER + [START_ARRAY] + Encode(tokens) + [END_ARRAY];
    assert bytes[|HEADER| + 1..] == Encode(tokens) + [END_ARRAY];
    StreamRoundTripExactly(tokens);
    PayloadTokensReadBack(order, table, common, batch);
  }

  // ---------- the strings of a payload ----------

  ghost function TagStrings(tags: seq<TextTag>): set<Text> {
    (set i | 0 <= i < |tags| :: tags[i].key) + (set i | 0 <= i < |tags| :: tags[i].value)
  }

  ghost function MeasurementStrings(m: Measurement): set<Text> {
    TagStrings(m.tags) + {m.name}
  }

  ghost function BatchStrings(batch: seq<Measurement>): set<Text> {
    set i, s | 0 <= i < |batch| && s in MeasurementStrings(batch[i]) :: s
  }

  /** Every string that a payload refers to. */
  ghost function Strings(common: seq<TextTag>, batch: seq<Measurement>): set<Text> {
    TagStrings(common) + {NAME} + BatchStrings(batch)
  }

  lemma MappedIsSubset(table: StrTable, tags: seq<TextTag>)
    ensures Mapped(table, tags) <==> TagStrings(tags) <= table.Keys
  {
    if TagStrings(tags) <= table.Keys {
      assert forall i :: 0 <= i < |tags| ==> tags[i].key in TagStrings(tags) && tags[i].value in TagStrings(tags);
    }
  }

  lemma TagStringsOfConcat(ts: seq<TextTag>, us: seq<TextTag>)
    ensures TagStrings(ts + us) == TagStrings(ts) + TagStrings(us)
  {
    forall s ensures s in TagStrings(ts) + TagStrings(us) <==> s in TagStrings(ts + us) {
      if s in TagStrings(ts) {
        var i :| 0 <= i < |ts| && (ts[i].key == s || ts[i].value == s);
        assert (ts + us)[i] == ts[i];
      } else if s in TagStrings(us) {
        var i :| 0 <= i < |us| && (us[i].key == s || us[i].value == s);
        assert (ts + us)[|ts| + i] == us[i];
      }
    }
  }

  lemma StringsOfRecord(common: seq<TextTag>, m: Measurement)
    ensures TagStrings(AllTags(common, m)) == TagStrings(common) + MeasurementStrings(m) + {NAME}
  {
    TagStringsOfConcat(common, m.tags);
    TagStringsOfConcat(common + m.tags, [TextTag(NAME, m.name)]);
    assert [TextTag(NAME, m.name)][0] == TextTag(NAME, m.name);
    assert TagStrings([TextTag(NAME, m.name)]) == {NAME, m.name};
  }

  lemma InBatchStrings(batch: seq<Measurement>, i: nat)
    requires i < |batch|
    ensures MeasurementStrings(batch[i]) <= BatchStrings(batch)
  {
    forall s | s in MeasurementStrings(batch[i]) ensures s in BatchStrings(batch) {
    }
  }

  lemma StringsAreMapped(table: StrTable, common: seq<TextTag>, batch: seq<Measurement>)
    requires Strings(common, batch) <= table.Keys
    ensures MappedAll(table, common, batch) && Mapped(table, common)
  {
    MappedIsSubset(table, common);
    forall i | 0 <= i < |batch| ensures Mapped(table, AllTags(common, batch[i])) {
      StringsOfRecord(common, batch[i]);
      InBatchStrings(batch, i);
      MappedIsSubset(table, AllTags(common, batch[i]));
    }
  }

  /** Every string of the table is used by some record. */
  lemma EveryStringIsUsed(common: seq<TextTag>, batch: seq<Measurement>, s: Text) returns (i: nat)
    requires s in Strings(common, batch) && batch != []
    ensures i < |batch| && s in TagStrings(AllTags(common, batch[i]))
  {
    if s in BatchStrings(batch) {
      i :| 0 <= i < |batch| && s in MeasurementStrings(batch[i]);
    } else {
      i := 0;
    }
    StringsOfRecord(common, batch[i]);
  }

  lemma {:induction false} IdsContain(table: StrTable, tags: seq<TextTag>, s: Text)
    requires Mapped(table, tags) && s in TagStrings(tags)
    ensures s in table && table[s] in Ids(table, tags)
  {
    var i :| 0 <= i < |tags| && (tags[i].key == s || tags[i].value == s);
    IdsAt(table, tags, i);
  }

  lemma {:induction false} IdsAt(table: StrTable, tags: seq<TextTag>, i: nat)
    requires Mapped(table, tags) && i < |tags|
    ensures |Ids(table, tags)| == 2 * |tags|
    ensures Ids(table, tags)[2 * i] == table[tags[i].key] && Ids(table, tags)[2 * i + 1] == table[tags[i].value]
  {
    if i > 0 {
      IdsAt(table, tags[1..], i - 1);
    } else if |tags| > 1 {
      IdsAt(table, tags[1..], 0);
    } else {
      assert Ids(table, tags[1..]) == [];
    }
  }

  /** For a non-empty batch: exactly when the table has fewer than 2^19 strings and no tag count is in the bad range. */
  lemma EncodableExactly(order: seq<Text>, table: StrTable, common: seq<TextTag>, batch: seq<Measurement>)
    requires Numbers(table, order) && table.Keys == Strings(common, batch) && batch != []
    requires |order| < 0x8000_0000 && InRange(common, batch)
    requires forall i :: 0 <= i < |order| ==> IsAscii(order[i])
    ensures MappedAll(table, common, batch)
    ensures AllEncodable(PayloadTokens(order, table, common, batch))
       <==> |order| < 0x8_0000 && forall i :: 0 <= i < |batch| ==> Encodable(|AllTags(common, batch[i])|)
  {
    StringsAreMapped(table, common, batch);
    PayloadWritable(order, table, common, batch);
    if |order| < 0x8_0000 {
      forall i | 0 <= i < |batch|
        ensures RecordEncodable(table, AllTags(common, batch[i])) <==> Encodable(|AllTags(common, batch[i])|)
      {
        IdsInRange(table, order, AllTags(common, batch[i]));
      }
    } else if Encodable(|order|) {
      var s := order[0x8_0000];
      var i := EveryStringIsUsed(common, batch, s);
      IdsContain(table, AllTags(common, batch[i]), s);
      assert !RecordEncodable(table, AllTags(common, batch[i]));
    }
  }

  // ---------- small tables ----------

  ghost predicate DistinctKeys(tags: seq<TextTag>) {
    forall i, j :: 0 <= i < j < |tags| ==> tags[i].key != tags[j].key
  }

  lemma {:induction false} KeysFit(tags: seq<TextTag>, strings: set<Text>)
    requires DistinctKeys(tags) && forall i :: 0 <= i < |tags| ==> tags[i].key in strings
    ensures |tags| <= |strings|
  {
    if tags == [] {
    } else {
      var last := |tags| - 1;
      KeysFit(tags[..last], strings - {tags[last].key});
    }
  }

  ghost predicate Distinct(order: seq<Text>) {
    forall i, j :: 0 <= i < j < |order| ==> order[i] != order[j]
  }

  lemma DistinctSnoc(order: seq<Text>, s: Text)
    requires Distinct(order) && s !in order
    ensures Distinct(order + [s])
  {
  }

  lemma {:induction false} SizeOfListing(keys: set<Text>, order: seq<Text>)
    requires forall s :: s in keys <==> s in order
    requires Distinct(order)
    ensures |keys| == |order|
  {
    if order == [] {
      assert keys == {};
    } else {
      var last := |order| - 1;
      assert order[..last] + [order[last]] == order;
      SizeOfListing(keys - {order[last]}, order[..last]);
    }
  }

  lemma TableSize(table: StrTable, order: seq<Text>)
    requires Numbers(table, order)
    ensures |table.Keys| == |order|
  {
    SizeOfListing(table.Keys, order);
  }

  lemma TagCountFits(order: seq<Text>, table: StrTable, common: seq<TextTag>, m: Measurement)
    requires Numbers(table, order) && Mapped(table, AllTags(common, m))
    requires DistinctKeys(common) && DistinctKeys(m.tags)
    ensures |AllTags(common, m)| <= 2 * |order| + 1
  {
    var tags := AllTags(common, m);
    TableSize(table, order);
    assert forall i :: 0 <= i < |common| ==> tags[i] == common[i];
    assert forall i :: 0 <= i < |m.tags| ==> tags[|common| + i] == m.tags[i];
    KeysFit(common, table.Keys);
    KeysFit(m.tags, table.Keys);
  }

  /** Tag sets have distinct keys, so fewer than 2^18 strings are always few enough: every such payload is read
      back. */
  lemma SmallTablesAreRead(order: seq<Text>, table: StrTable, common: seq<TextTag>, batch: seq<Measurement>)
    requires Numbers(table, order) && table.Keys == Strings(common, batch) && batch != []
    requires |order| < 0x4_0000 && forall i :: 0 <= i < |order| ==> IsAscii(order[i])
    requires DistinctKeys(common)
    requires forall i :: 0 <= i < |batch| ==> DistinctKeys(batch[i].tags) && batch[i].bits < 0x1_0000_0000_0000_0000
    ensures MappedAll(table, common, batch) && AllWritable(PayloadTokens(order, table, common, batch))
    ensures ReadPayload(HEADER + [START_ARRAY] + Encode(PayloadTokens(order, table, common, batch)) + [END_ARRAY])
         == Some(RecordsOf(common, batch))
  {
    StringsAreMapped(table, common, batch);
    forall i | 0 <= i < |batch| ensures |AllTags(common, batch[i])| < 0x8_0000 {
      TagCountFits(order, table, common, batch[i]);
    }
    EncodableExactly(order, table, common, batch);
    PayloadRoundTripExactly(order, table, common, batch);
  }

  // ---------- the builder ----------

  /** What the builder is given: interned, hence ASCII, strings; 64-bit values; int-sized counts. */
  ghost predicate Buildable(common: seq<TextTag>, batch: seq<Measurement>) {
    && (forall s :: s in Strings(common, batch) ==> IsAscii(s))
    && |Strings(common, batch)| < 0x8000_0000
    && InRange(common, batch)
  }

  lemma TagStringsNext(tags: seq<TextTag>, i: nat)
    requires i < |tags|
    ensures TagStrings(tags[..i + 1]) == TagStrings(tags[..i]) + {tags[i].key, tags[i].value}
  {
    assert tags[..i + 1] == tags[..i] + [tags[i]];
    TagStringsOfConcat(tags[..i], [tags[i]]);
    assert [tags[i]][0] == tags[i];
    assert TagStrings([tags[i]]) == {tags[i].key, tags[i].value};
  }

  lemma BatchStringsNext(batch: seq<Measurement>, i: nat)
    requires i < |batch|
    ensures BatchStrings(batch[..i + 1]) == BatchStrings(batch[..i]) + MeasurementStrings(batch[i])
  {
    var b := batch[..i + 1];
    InBatchStrings(b, i);
    forall s | s in BatchStrings(batch[..i]) ensures s in BatchStrings(b) {
      var j :| 0 <= j < i && s in MeasurementStrings(batch[..i][j]);
      InBatchStrings(b, j);
    }
    forall s | s in BatchStrings(b) ensures s in BatchStrings(batch[..i]) + MeasurementStrings(batch[i]) {
      var j :| 0 <= j < |b| && s in MeasurementStrings(b[j]);
      if j < i {
        InBatchStrings(batch[..i], j);
      }
    }
  }

  lemma MappedConcat(table: StrTable, ts: seq<TextTag>, us: seq<TextTag>)
    ensures Mapped(table, ts + us) <==> Mapped(table, ts) && Mapped(table, us)
  {
    assert forall i :: 0 <= i < |ts| ==> (ts + us)[i] == ts[i];
    assert forall i :: 0 <= i < |us| ==> (ts + us)[|ts| + i] == us[i];
  }

  lemma {:induction false} IdsConcat(table: StrTable, ts: seq<TextTag>, us: seq<TextTag>)
    requires Mapped(table, ts) && Mapped(table, us) && Mapped(table, ts + us)
    ensures Ids(table, ts + us) == Ids(table, ts) + Ids(table, us)
  {
    if ts == [] {
      assert ts + us == us;
    } else {
      assert (ts + us)[1..] == ts[1..] + us && (ts + us)[0] == ts[0];
      IdsConcat(table, ts[1..], us);
      Associate([table[ts[0].key], table[ts[0].value]], Ids(table, ts[1..]), Ids(table, us));
    }
  }

  lemma IdsOfOne(table: StrTable, t: TextTag)
    requires Mapped(table, [t])
    ensures t.key in table && t.value in table && Ids(table, [t]) == [table[t.key], table[t.value]]
  {
    assert [t][0] == t && Ids(table, [t][1..]) == [];
  }

  /** The indices of the first i + 1 tags. */
  lemma IdsNext(table: StrTable, tags: seq<TextTag>, i: nat)
    requires Mapped(table, tags) && i < |tags|
    ensures tags[i].key in table && tags[i].value in table
    ensures Ids(table, tags[..i + 1]) == Ids(table, tags[..i]) + [table[tags[i].key], table[tags[i].value]]
    ensures IntTokens(Ids(table, tags[..i + 1]))
         == IntTokens(Ids(table, tags[..i])) + [Int(table[tags[i].key]), Int(table[tags[i].value])]
  {
    assert tags[..i] + [tags[i]] == tags[..i + 1];
    IdsOfOne(table, tags[i]);
    IdsConcat(table, tags[..i], [tags[i]]);
  }

  lemma IntTokensConcat(a: seq<nat>, b: seq<nat>)
    ensures IntTokens(a + b) == IntTokens(a) + IntTokens(b)
  {
  }

  /** A record's tokens piece by piece, as the builder appends them: common tags, own tags, the name. */
  lemma RecordPieces(table: StrTable, common: seq<TextTag>, own: seq<TextTag>, last: TextTag, op: nat, bits: nat)
    requires Mapped(table, common + own + [last])
    ensures Mapped(table, common) && Mapped(table, own) && last.key in table && last.value in table
    ensures RecordTokens(table, common + own + [last], op, bits)
         == [Int(|common| + |own| + 1)] + (IntTokens(Ids(table, common)) + (IntTokens(Ids(table, own))
          + [Int(table[last.key]), Int(table[last.value]), Int(op), Double(bits)]))
  {
    MappedConcat(table, common + own, [last]);
    MappedConcat(table, common, own);
    IdsOfOne(table, last);
    IdsConcat(table, common + own, [last]);
    IdsConcat(table, common, own);
    TokensOfIds(|common| + |own| + 1, Ids(table, common), Ids(table, own), table[last.key], table[last.value],
                op, bits);
  }

  lemma TokensOfIds(k: nat, a: seq<nat>, b: seq<nat>, n: nat, v: nat, op: nat, bits: nat)
    ensures [Int(k)] + IntTokens(a + b + [n, v]) + [Int(op), Double(bits)]
         == [Int(k)] + (IntTokens(a) + (IntTokens(b) + [Int(n), Int(v), Int(op), Double(bits)]))
  {
    IntTokensConcat(a + b, [n, v]);
    IntTokensConcat(a, b);
    assert IntTokens([n, v]) == [Int(n), Int(v)];
    Regroup([Int(k)], IntTokens(a), IntTokens(b), [Int(n), Int(v)], [Int(op), Double(bits)]);
    assert [Int(n), Int(v)] + [Int(op), Double(bits)] == [Int(n), Int(v), Int(op), Double(bits)];
  }

  lemma Regroup<T>(h: seq<T>, a: seq<T>, b: seq<T>, c: seq<T>, d: seq<T>)
    ensures h + (a + b + c) + d == h + (a + (b + (c + d)))
    ensures h + a + b + c + d == h + (a + (b + (c + d)))
  {
  }

  lemma IntTokensNext(ids: seq<nat>, i: nat)
    requires i < |ids|
    ensures IntTokens(ids[..i + 1]) == IntTokens(ids[..i]) + [Int(ids[i])]
  {
  }

  lemma StrTokensNext(order: seq<Text>, i: nat)
    requires i < |order|
    ensures StrTokens(order[..i + 1]) == StrTokens(order[..i]) + [Str(order[i])]
  {
  }

  lemma Associate<T>(a: seq<T>, b: seq<T>, c: seq<T>)
    ensures a + b + c == a + (b + c)
    ensures [] + a == a
  {
  }

  lemma {:induction false} BatchTokensSnoc(table: StrTable, common: seq<TextTag>, batch: seq<Measurement>, i: nat)
    requires MappedAll(table, common, batch) && i < |batch|
    ensures BatchTokens(table, common, batch[..i + 1])
         == BatchTokens(table, common, batch[..i]) + MeasurementTokens(table, common, batch[i])
  {
    if i > 0 {
      BatchTokensSnoc(table, common, batch[1..], i - 1);
      assert batch[..i + 1][1..] == batch[1..][..i] && batch[..i][1..] == batch[1..][..i - 1];
    } else {
      assert batch[..1][1..] == [];
    }
  }

  lemma StringsNext(common: seq<TextTag>, batch: seq<Measurement>, i: nat)
    requires i < |batch|
    ensures Strings(common, batch[..i + 1])
         == Strings(common, batch[..i]) + {batch[i].name} + TagStrings(batch[i].tags)
  {
    BatchStringsNext(batch, i);
  }

  class Publisher {
    const commonTags: seq<TextTag>

    constructor (commonTags: seq<TextTag>)
      ensures this.commonTags == commonTags
    {
      this.commonTags := commonTags;
    }

    /** The order in which the hash table visits its keys: any order at all. */
    static method IterationOrder(keys: set<Text>) returns (order: seq<Text>)
      ensures forall s :: s in keys <==> s in order
      ensures Distinct(order)
    {
      order := [];
      var left := keys;
      while left != {}
        invariant left <= keys && forall s :: s in order <==> s in keys - left
        invariant Distinct(order)
        decreases left
      {
        var s :| s in left;
        DistinctSnoc(order, s);
        order := order + [s];
        left := left - {s};
      }
    }

    /** Collects the strings, numbers them in iteration order and writes the table. */
    method BuildStrTable(payload: SmilePayload, batch: seq<Measurement>)
      returns (strings: StrTable, ghost order: seq<Text>)
      requires payload.Valid() && Buildable(commonTags, batch)
      modifies payload
      ensures payload.Valid() && payload.tokens == old(payload.tokens) + TableTokens(order)
      ensures strings.Keys == Strings(commonTags, batch) && Numbers(strings, order)
    {
      strings := CollectStrings(batch);
      var visited := IterationOrder(strings.Keys);
      strings := NumberStrings(strings, visited);
      SizeOfListing(strings.Keys, visited);
      WriteTable(payload, visited);
      order := visited;
    }

    method CollectStrings(batch: seq<Measurement>) returns (strings: StrTable)
      ensures strings.Keys == Strings(commonTags, batch)
    {
      strings := CollectTags(map[], commonTags);
      strings := strings[NAME := 0];
      for i := 0 to |batch|
        invariant strings.Keys == Strings(commonTags, batch[..i])
      {
        StringsNext(commonTags, batch, i);
        strings := strings[batch[i].name := 0];
        strings := CollectTags(strings, batch[i].tags);
      }
      assert batch[..|batch|] == batch;
    }

    static method CollectTags(strings0: StrTable, tags: seq<TextTag>) returns (strings: StrTable)
      ensures strings.Keys == strings0.Keys + TagStrings(tags)
    {
      strings := strings0;
      for i := 0 to |tags|
        invariant strings.Keys == strings0.Keys + TagStrings(tags[..i])
      {
        TagStringsNext(tags, i);
        strings := strings[tags[i].key := 0];
        strings := strings[tags[i].value := 0];
      }
      assert tags[..|tags|] == tags;
    }

    static method NumberStrings(collected: StrTable, visited: seq<Text>) returns (strings: StrTable)
      requires forall s :: s in collected.Keys <==> s in visited
      requires Distinct(visited)
      ensures strings.Keys == collected.Keys && Numbers(strings, visited)
    {
      strings := collected;
      for idx := 0 to |visited|
        invariant strings.Keys == collected.Keys
        invariant forall i :: 0 <= i < idx ==> strings[visited[i]] == i
      {
        strings := strings[visited[idx] := idx];
      }
    }

    static method WriteTable(payload: SmilePayload, visited: seq<Text>)
      requires payload.Valid()
      requires |visited| < 0x8000_0000 && forall i :: 0 <= i < |visited| ==> IsAscii(visited[i])
      modifies payload
      ensures payload.Valid() && payload.tokens == old(payload.tokens) + TableTokens(visited)
    {
      payload.AppendSize(|visited|);
      ghost var start := payload.tokens;
      for i := 0 to |visited|
        invariant payload.Valid() && payload.tokens == start + StrTokens(visited[..i])
      {
        payload.AppendString(visited[i]);
        StrTokensNext(visited, i);
        Associate(start, StrTokens(visited[..i]), [Str(visited[i])]);
      }
      assert visited[..|visited|] == visited;
      Associate(old(payload.tokens), [Int(|visited|)], StrTokens(visited));
    }

    /** The common tags' indices, computed once for the batch. */
    method GetCommonIds(strings: StrTable) returns (ids: seq<nat>)
      requires Mapped(strings, commonTags)
      ensures ids == Ids(strings, commonTags)
    {
      ids := [];
      for i := 0 to |commonTags|
        invariant ids == Ids(strings, commonTags[..i])
      {
        IdsNext(strings, commonTags, i);
        ids := ids + [strings[commonTags[i].key]];
        ids := ids + [strings[commonTags[i].value]];
      }
      assert commonTags[..|commonTags|] == commonTags;
    }

    /** Writes the index pair of every tag. */
    static method AddTags(payload: SmilePayload, strings: StrTable, ghost order: seq<Text>, tags: seq<TextTag>)
      requires payload.Valid() && Numbers(strings, order) && |order| < 0x8000_0000 && Mapped(strings, tags)
      modifies payload
      ensures payload.Valid() && payload.tokens == old(payload.tokens) + IntTokens(Ids(strings, tags))
    {
      for i := 0 to |tags|
        invariant payload.Valid() && payload.tokens == old(payload.tokens) + IntTokens(Ids(strings, tags[..i]))
      {
        IdsNext(strings, tags, i);
        AddPair(payload, strings[tags[i].key], strings[tags[i].value]);
        Associate(old(payload.tokens), IntTokens(Ids(strings, tags[..i])),
                  [Int(strings[tags[i].key]), Int(strings[tags[i].value])]);
      }
      assert tags[..|tags|] == tags;
    }

    static method AddPair(payload: SmilePayload, key: nat, value: nat)
      requires payload.Valid() && key < 0x8000_0000 && value < 0x8000_0000
      modifies payload
      ensures payload.Valid() && payload.tokens == old(payload.tokens) + [Int(key), Int(value)]
    {
      payload.AppendInt(key);
      payload.AppendInt(value);
    }

    /** Writes one record: the tag count, the common indices, its own pairs, its name, the operation, the value. */
    method AppendMeasurement(payload: SmilePayload, strings: StrTable, ghost order: seq<Text>, commonIds: seq<nat>,
                             m: Measurement)
      requires payload.Valid() && Numbers(strings, order) && |order| < 0x8000_0000
      requires Mapped(strings, AllTags(commonTags, m)) && Mapped(strings, commonTags)
      requires commonIds == Ids(strings, commonTags)
      requires m.bits < 0x1_0000_0000_0000_0000 && |AllTags(commonTags, m)| < 0x8000_0000
      modifies payload
      ensures payload.Valid() && payload.tokens == old(payload.tokens) + MeasurementTokens(strings, commonTags, m)
    {
      var op := OpFromTags(m.tags);
      AppendRecord(payload, strings, order, commonIds, m.tags, TextTag(NAME, m.name), OpNumber(op), m.bits);
    }

    method AppendRecord(payload: SmilePayload, strings: StrTable, ghost order: seq<Text>, commonIds: seq<nat>,
                        own: seq<TextTag>, last: TextTag, opNum: nat, bits: nat)
      requires payload.Valid() && Numbers(strings, order) && |order| < 0x8000_0000
      requires Mapped(strings, commonTags + own + [last]) && Mapped(strings, commonTags)
      requires commonIds == Ids(strings, commonTags)
      requires opNum <= 10 && bits < 0x1_0000_0000_0000_0000 && |commonTags| + |own| + 1 < 0x8000_0000
      modifies payload
      ensures payload.Valid()
      ensures payload.tokens == old(payload.tokens) + RecordTokens(strings, commonTags + own + [last], opNum, bits)
    {
      RecordPieces(strings, commonTags, own, last, opNum, bits);
      IdsInRange(strings, order, commonTags);
      AppendTagPairs(payload, strings, order, commonIds, own);
      AddValue(payload, strings[last.key], strings[last.value], opNum, bits);
      Regroup(old(payload.tokens), [Int(|own| + 1 + |commonIds| / 2)], IntTokens(commonIds),
              IntTokens(Ids(strings, own)),
              [Int(strings[last.key]), Int(strings[last.value]), Int(opNum), Double(bits)]);
    }

    static method AppendTagPairs(payload: SmilePayload, strings: StrTable, ghost order: seq<Text>, commonIds: seq<nat>,
                                 own: seq<TextTag>)
      requires payload.Valid() && Numbers(strings, order) && |order| < 0x8000_0000 && Mapped(strings, own)
      requires forall i :: 0 <= i < |commonIds| ==> commonIds[i] < 0x8000_0000
      requires |commonIds| / 2 + |own| + 1 < 0x8000_0000
      modifies payload
      ensures payload.Valid()
      ensures payload.tokens
           == old(payload.tokens) + [Int(|own| + 1 + |commonIds| / 2)] + IntTokens(commonIds)
              + IntTokens(Ids(strings, own))
    {
      var commonTagsSize := |commonIds| / 2;
      var totalTags := |own| + 1 + commonTagsSize;
      payload.AppendSize(totalTags);
      AddIds(payload, commonIds);
      AddTags(payload, strings, order, own);
    }

    static method AddIds(payload: SmilePayload, ids: seq<nat>)
      requires payload.Valid() && forall i :: 0 <= i < |ids| ==> ids[i] < 0x8000_0000
      modifies payload
      ensures payload.Valid() && payload.tokens == old(payload.tokens) + IntTokens(ids)
    {
      for i := 0 to |ids|
        invariant payload.Valid() && payload.tokens == old(payload.tokens) + IntTokens(ids[..i])
      {
        payload.AppendInt(ids[i]);
        IntTokensNext(ids, i);
        Associate(old(payload.tokens), IntTokens(ids[..i]), [Int(ids[i])]);
      }
      assert ids[..|ids|] == ids;
    }

    static method AddValue(payload: SmilePayload, nameIdx: nat, nameValueIdx: nat, opNum: nat, bits: nat)
      requires payload.Valid() && nameIdx < 0x8000_0000 && nameValueIdx < 0x8000_0000 && opNum < 0x8000_0000
      requires bits < 0x1_0000_0000_0000_0000
      modifies payload
      ensures payload.Valid()
      ensures payload.tokens == old(payload.tokens) + [Int(nameIdx), Int(nameValueIdx), Int(opNum), Double(bits)]
    {
      payload.AppendInt(nameIdx);
      payload.AppendInt(nameValueIdx);
      payload.AppendInt(opNum);
      payload.AppendDouble(bits);
    }

    /** The whole payload, for some iteration order of the string table. */
    method MeasurementsToJson(payload: SmilePayload, batch: seq<Measurement>)
      returns (ghost order: seq<Text>, ghost table: StrTable)
      requires Buildable(commonTags, batch)
      modifies payload
      ensures table.Keys == Strings(commonTags, batch) && Numbers(table, order) && MappedAll(table, commonTags, batch)
      ensures payload.Valid() && payload.tokens == PayloadTokens(order, table, commonTags, batch)
    {
      payload.Init();
      var strings;
      strings, order := BuildStrTable(payload, batch);
      table := strings;
      StringsAreMapped(strings, commonTags, batch);
      TableSize(strings, order);
      var commonIds := GetCommonIds(strings);
      AppendAll(payload, strings, order, commonIds, batch);
      Associate(TableTokens(order), [], []);
    }

    method AppendAll(payload: SmilePayload, strings: StrTable, ghost order: seq<Text>, commonIds: seq<nat>,
                     batch: seq<Measurement>)
      requires payload.Valid() && Numbers(strings, order) && |order| < 0x8000_0000
      requires MappedAll(strings, commonTags, batch) && Mapped(strings, commonTags) && InRange(commonTags, batch)
      requires commonIds == Ids(strings, commonTags)
      modifies payload
      ensures payload.Valid() && payload.tokens == old(payload.tokens) + BatchTokens(strings, commonTags, batch)
    {
      for i := 0 to |batch|
        invariant payload.Valid()
        invariant payload.tokens == old(payload.tokens) + BatchTokens(strings, commonTags, batch[..i])
      {
        AppendMeasurement(payload, strings, order, commonIds, batch[i]);
        BatchTokensSnoc(strings, commonTags, batch, i);
        Associate(old(payload.tokens), BatchTokens(strings, commonTags, batch[..i]),
                  MeasurementTokens(strings, commonTags, batch[i]));
      }
      assert batch[..|batch|] == batch;
    }

    /** One batch, from the measurements to the bytes that are posted: the reader gets it back, or rejects it. */
    method PayloadOf(payload: SmilePayload, batch: seq<Measurement>) returns (bytes: seq<byte>)
      requires Buildable(commonTags, batch) && batch != []
      modifies payload
      ensures Readable(commonTags, batch) ==> ReadPayload(bytes) == Some(RecordsOf(commonTags, batch))
      ensures Readable(commonTags, batch) ==>
        ReadPayload(bytes).Some? && AreRecords(ReadPayload(bytes).value, commonTags, batch)
      ensures !Readable(commonTags, batch) ==> ReadPayload(bytes) == None
    {
      ghost var order, table := MeasurementsToJson(payload, batch);
      bytes := payload.Result();
      TableSize(table, order);
      EncodableExactly(order, table, commonTags, batch);
      PayloadRoundTripExactly(order, table, commonTags, batch);
    }
  }

  /** The exact condition for a payload to be readable. */
  ghost predicate Readable(common: seq<TextTag>, batch: seq<Measurement>) {
    |Strings(common, batch)| < 0x8_0000 && forall i :: 0 <= i < |batch| ==> Encodable(|AllTags(common, batch[i])|)
  }
}
