/** The sorted small-vector map of tags: spectator/tags.h.

    The specification is a sequence of tags and the finite map it stands for; the class keeps the array, the inline
    storage and the union, and every operation is proved against the specification.
 */
module Tags {
  import opened Bytes
  import opened StringPool

  datatype Tag = Tag(key: StrRef, value: StrRef)

  // ---------- sequences of tags ----------

  /** Every key and value is one of the interned strings. */
  ghost predicate Within(s: seq<Tag>, refs: set<StrRef>) {
    forall i :: 0 <= i < |s| ==> s[i].key in refs && s[i].value in refs
  }

  predicate Keyed(s: seq<Tag>) {
    forall i :: 0 <= i < |s| ==> s[i].key.Ref?
  }

  ghost predicate Sorted(s: seq<Tag>)
    requires Keyed(s)
  {
    forall i, j :: 0 <= i < j < |s| ==> Less(s[i].key, s[j].key)
  }

  /** A key-sorted sequence over interned strings. */
  ghost predicate Ordered(s: seq<Tag>, refs: set<StrRef>) {
    Canonical(refs) && Within(s, refs) && Sorted(s)
  }

  /** std::lower_bound: the first position whose key is not less than k. */
  function LowerBound(s: seq<Tag>, k: StrRef): (i: nat)
    requires k.Ref? && Keyed(s)
    ensures i <= |s|
    ensures forall j :: 0 <= j < i ==> Less(s[j].key, k)
    ensures i < |s| ==> !Less(s[i].key, k)
  {
    if s == [] || !Less(s[0].key, k) then 0 else 1 + LowerBound(s[1..], k)
  }

  /** What insert makes of the contents. */
  function Inserted(s: seq<Tag>, k: StrRef, v: StrRef): seq<Tag>
    requires k.Ref? && Keyed(s)
  {
    var i := LowerBound(s, k);
    if i < |s| && Same(s[i].key, k) then s[i := Tag(s[i].key, v)] else s[..i] + [Tag(k, v)] + s[i..]
  }

  // ---------- the finite map ----------

  /** Later entries win, as in a sequence of updates. */
  function AsMap(s: seq<Tag>): map<StrRef, StrRef> {
    if s == [] then map[]
    else AsMap(s[..|s| - 1])[s[|s| - 1].key := s[|s| - 1].value]
  }

  lemma {:induction false} KeysOf(s: seq<Tag>, k: StrRef)
    ensures k in AsMap(s) <==> exists i :: 0 <= i < |s| && s[i].key == k
  {
    if s == [] {
    } else {
      KeysOf(s[..|s| - 1], k);
      if i :| 0 <= i < |s| && s[i].key == k {
        assert i < |s| - 1 ==> s[..|s| - 1][i].key == k;
      }
    }
  }

  /** In a sequence without repeated keys every entry is what its key maps to. */
  lemma {:induction false} EntryAt(s: seq<Tag>, i: nat)
    requires i < |s| && forall j :: i < j < |s| ==> s[j].key != s[i].key
    ensures s[i].key in AsMap(s) && AsMap(s)[s[i].key] == s[i].value
  {
    if i < |s| - 1 {
      EntryAt(s[..|s| - 1], i);
    }
  }

  /** Keys strictly sorted are distinct. */
  lemma Distinct(s: seq<Tag>, refs: set<StrRef>, i: nat, j: nat)
    requires Ordered(s, refs) && i < j < |s|
    ensures s[i].key != s[j].key
  {
    CanonicalOrder(refs, s[i].key, s[j].key);
  }

  lemma EntriesOf(s: seq<Tag>, refs: set<StrRef>)
    requires Ordered(s, refs)
    ensures forall i :: 0 <= i < |s| ==> s[i].key in AsMap(s) && AsMap(s)[s[i].key] == s[i].value
  {
    forall i | 0 <= i < |s| ensures s[i].key in AsMap(s) && AsMap(s)[s[i].key] == s[i].value {
      forall j | i < j < |s| ensures s[j].key != s[i].key { Distinct(s, refs, i, j); }
      EntryAt(s, i);
    }
  }

  /** Lookup by lower_bound and pointer comparison is lookup in the map. */
  lemma LookupIsMap(s: seq<Tag>, k: StrRef, refs: set<StrRef>)
    requires Ordered(s, refs) && k in refs
    ensures var i := LowerBound(s, k); (i < |s| && Same(s[i].key, k)) <==> k in AsMap(s)
    ensures var i := LowerBound(s, k); k in AsMap(s) ==> AsMap(s)[k] == s[i].value
  {
    var i := LowerBound(s, k);
    if k in AsMap(s) {
      PresentAtLowerBound(s, k, refs);
    }
    EntriesOf(s, refs);
    if i < |s| { CanonicalOrder(refs, s[i].key, k); }
  }

  lemma PresentAtLowerBound(s: seq<Tag>, k: StrRef, refs: set<StrRef>)
    requires Ordered(s, refs) && k in refs && k in AsMap(s)
    ensures LowerBound(s, k) < |s| && s[LowerBound(s, k)].key == k
  {
    KeysOf(s, k);
    var j :| 0 <= j < |s| && s[j].key == k;
    CanonicalOrder(refs, k, k);
    assert j >= LowerBound(s, k);
  }

  lemma {:induction false} AsMapUpdate(s: seq<Tag>, i: nat, v: StrRef)
    requires i < |s| && forall j :: i < j < |s| ==> s[j].key != s[i].key
    ensures AsMap(s[i := Tag(s[i].key, v)]) == AsMap(s)[s[i].key := v]
  {
    var m, t := |s| - 1, s[i := Tag(s[i].key, v)];
    if i == m {
      assert t[..m] == s[..m];
    } else {
      AsMapUpdate(s[..m], i, v);
      assert t[..m] == s[..m][i := Tag(s[i].key, v)] && t[m] == s[m];
      UpdatesCommute(AsMap(s[..m]), s[i].key, v, s[m].key, s[m].value);
    }
  }

  lemma {:induction false} AsMapInsert(s: seq<Tag>, i: nat, k: StrRef, v: StrRef)
    requires i <= |s| && forall j :: i <= j < |s| ==> s[j].key != k
    ensures AsMap(s[..i] + [Tag(k, v)] + s[i..]) == AsMap(s)[k := v]
  {
    var t := s[..i] + [Tag(k, v)] + s[i..];
    if i == |s| {
      assert t[..|s|] == s;
    } else {
      var m := |s| - 1;
      AsMapInsert(s[..m], i, k, v);
      assert t[..|s|] == s[..m][..i] + [Tag(k, v)] + s[..m][i..] && t[|s|] == s[m];
      UpdatesCommute(AsMap(s[..m]), k, v, s[m].key, s[m].value);
    }
  }

  lemma UpdatesCommute(m: map<StrRef, StrRef>, k: StrRef, v: StrRef, k': StrRef, v': StrRef)
    requires k != k'
    ensures m[k := v][k' := v'] == m[k' := v'][k := v]
  {
  }

  /** insert keeps the order and is an update of the map. */
  lemma InsertedIsUpdate(s: seq<Tag>, k: StrRef, v: StrRef, refs: set<StrRef>)
    requires Ordered(s, refs) && k in refs && v in refs
    ensures Ordered(Inserted(s, k, v), refs)
    ensures AsMap(Inserted(s, k, v)) == AsMap(s)[k := v]
  {
    InsertedOrdered(s, k, v, refs);
    var i := LowerBound(s, k);
    if i < |s| && Same(s[i].key, k) {
      CanonicalOrder(refs, s[i].key, k);
      forall j | i < j < |s| ensures s[j].key != s[i].key { Distinct(s, refs, i, j); }
      AsMapUpdate(s, i, v);
    } else {
      forall j | i <= j < |s| ensures s[j].key != k {
        CanonicalOrder(refs, s[j].key, k);
        CanonicalOrder(refs, s[i].key, k);
      }
      AsMapInsert(s, i, k, v);
    }
  }

  lemma InsertedOrdered(s: seq<Tag>, k: StrRef, v: StrRef, refs: set<StrRef>)
    requires Ordered(s, refs) && k in refs && v in refs
    ensures Ordered(Inserted(s, k, v), refs)
  {
    var i := LowerBound(s, k);
    if i < |s| {
      CanonicalOrder(refs, s[i].key, k);
      if !Same(s[i].key, k) {
        forall j | i <= j < |s| ensures Less(k, s[j].key) {
          if i < j { LessTransitive(k, s[i].key, s[j].key); }
        }
        PlacedSorted(s, i, k, v);
      }
    } else {
      PlacedSorted(s, i, k, v);
    }
  }

  lemma PlacedSorted(s: seq<Tag>, i: nat, k: StrRef, v: StrRef)
    requires i <= |s| && k.Ref? && Keyed(s)
    requires Sorted(s)
    requires forall j :: 0 <= j < i ==> Less(s[j].key, k)
    requires forall j :: i <= j < |s| ==> Less(k, s[j].key)
    ensures var t := s[..i] + [Tag(k, v)] + s[i..];
      Keyed(t) && Sorted(t)
  {
  }

  // ---------- insertion of many tags, in any order ----------

  function InsertedAll(s: seq<Tag>, added: seq<Tag>): (t: seq<Tag>)
    requires Keyed(s)
    requires Keyed(added)
    ensures Keyed(t)
  {
    if added == [] then s
    else
      var last := added[|added| - 1];
      Inserted(InsertedAll(s, added[..|added| - 1]), last.key, last.value)
  }

  lemma InsertedAllStep(s: seq<Tag>, added: seq<Tag>, i: nat)
    requires Keyed(s)
    requires i < |added| && Keyed(added)
    ensures InsertedAll(s, added[..i + 1]) == Inserted(InsertedAll(s, added[..i]), added[i].key, added[i].value)
  {
    assert added[..i + 1][..i] == added[..i];
  }

  lemma {:induction false} InsertedAllIsMerge(s: seq<Tag>, added: seq<Tag>, refs: set<StrRef>)
    requires Ordered(s, refs) && Within(added, refs)
    ensures Ordered(InsertedAll(s, added), refs)
    ensures AsMap(InsertedAll(s, added)) == AsMap(s) + AsMap(added)
  {
    if added == [] {
    } else {
      var last := added[|added| - 1];
      var front := InsertedAll(s, added[..|added| - 1]);
      InsertedAllIsMerge(s, added[..|added| - 1], refs);
      InsertedIsUpdate(front, last.key, last.value, refs);
      MergeUpdate(AsMap(s), AsMap(added[..|added| - 1]), last.key, last.value);
    }
  }

  lemma MergeUpdate(m: map<StrRef, StrRef>, n: map<StrRef, StrRef>, k: StrRef, v: StrRef)
    ensures m + n[k := v] == (m + n)[k := v]
  {
  }

  /** A map has one key-sorted sequence. */
  lemma {:induction false} SortedUnique(s: seq<Tag>, t: seq<Tag>, refs: set<StrRef>)
    requires Ordered(s, refs) && Ordered(t, refs) && AsMap(s) == AsMap(t)
    ensures s == t
  {
    if s == [] || t == [] {
      if s != [] { KeysOf(s, s[0].key); }
      if t != [] { KeysOf(t, t[0].key); }
      assert s == [] && t == [];
    } else {
      var m, n := |s| - 1, |t| - 1;
      LastKeys(s, t, refs);
      EntriesOf(s, refs);
      EntriesOf(t, refs);
      ButLast(s, refs);
      ButLast(t, refs);
      SortedUnique(s[..m], t[..n], refs);
      assert s == s[..m] + [s[m]] && t == t[..n] + [t[n]];
    }
  }

  /** Both sequences end with the greatest key. */
  lemma LastKeys(s: seq<Tag>, t: seq<Tag>, refs: set<StrRef>)
    requires Ordered(s, refs) && Ordered(t, refs) && AsMap(s) == AsMap(t) && s != [] && t != []
    ensures s[|s| - 1].key == t[|t| - 1].key
  {
    var a, b := s[|s| - 1].key, t[|t| - 1].key;
    KeysOf(s, a);
    KeysOf(t, b);
    LastIsGreatest(s, refs, b);
    LastIsGreatest(t, refs, a);
    CanonicalOrder(refs, a, b);
  }

  lemma LastIsGreatest(s: seq<Tag>, refs: set<StrRef>, k: StrRef)
    requires Ordered(s, refs) && k in AsMap(s) && k.Ref?
    ensures s != [] && (k == s[|s| - 1].key || Less(k, s[|s| - 1].key))
  {
    KeysOf(s, k);
  }

  lemma ButLast(s: seq<Tag>, refs: set<StrRef>)
    requires Ordered(s, refs) && s != []
    ensures Ordered(s[..|s| - 1], refs)
    ensures AsMap(s[..|s| - 1]) == AsMap(s) - {s[|s| - 1].key}
  {
    var m := |s| - 1;
    if s[m].key in AsMap(s[..m]) {
      KeysOf(s[..m], s[m].key);
      var i :| 0 <= i < |s[..m]| && s[..m][i].key == s[m].key;
      Distinct(s, refs, i, m);
      assert false;
    }
    WithoutUpdated(AsMap(s[..m]), s[m].key, s[m].value);
  }

  lemma WithoutUpdated(m: map<StrRef, StrRef>, k: StrRef, v: StrRef)
    requires k !in m
    ensures m[k := v] - {k} == m
  {
  }

  /** The order in which distinct keys are inserted leaves no trace in the array. */
  lemma InsertionOrder(s: seq<Tag>, added: seq<Tag>, other: seq<Tag>, refs: set<StrRef>)
    requires Ordered(s, refs) && Within(added, refs) && Within(other, refs)
    ensures AsMap(s) + AsMap(added) == AsMap(s) + AsMap(other) <==> InsertedAll(s, added) == InsertedAll(s, other)
  {
    InsertedAllIsMerge(s, added, refs);
    InsertedAllIsMerge(s, other, refs);
    if AsMap(s) + AsMap(added) == AsMap(s) + AsMap(other) {
      SortedUnique(InsertedAll(s, added), InsertedAll(s, other), refs);
    }
  }

  /** memcmp on two arrays of tags of the same length compares their pointers. */
  predicate SameBytes(s: seq<Tag>, t: seq<Tag>)
    requires |s| == |t|
  {
    forall i :: 0 <= i < |s| ==> Same(s[i].key, t[i].key) && Same(s[i].value, t[i].value)
  }

  lemma MemcmpIsMapEquality(s: seq<Tag>, t: seq<Tag>, refs: set<StrRef>)
    requires Ordered(s, refs) && Ordered(t, refs)
    ensures |s| == |t| && SameBytes(s, t) <==> AsMap(s) == AsMap(t)
  {
    if AsMap(s) == AsMap(t) {
      SortedUnique(s, t, refs);
    }
    if |s| == |t| && SameBytes(s, t) {
      forall i | 0 <= i < |s| ensures s[i] == t[i] {
        CanonicalOrder(refs, s[i].key, t[i].key);
        CanonicalOrder(refs, s[i].value, t[i].value);
      }
      assert s == t;
    }
  }

  lemma DistinctKeys(s: seq<Tag>, refs: set<StrRef>)
    requires Ordered(s, refs)
    ensures forall i, j :: 0 <= i < |s| && 0 <= j < |s| && i != j ==> s[i].key != s[j].key
  {
    forall i, j | 0 <= i < j < |s| ensures s[i].key != s[j].key { Distinct(s, refs, i, j); }
  }

  /** Inserting what is already there changes nothing. */
  lemma InsertedSelf(s: seq<Tag>, i: nat, refs: set<StrRef>)
    requires Ordered(s, refs) && i < |s| && Keyed(s)
    ensures Inserted(s, s[i].key, s[i].value) == s
  {
    EntriesOf(s, refs);
    PresentAtLowerBound(s, s[i].key, refs);
    var j := LowerBound(s, s[i].key);
    DistinctKeys(s, refs);
    CanonicalOrder(refs, s[j].key, s[j].key);
  }

  // ---------- from texts ----------

  /** Different addresses that no string of the pool has. */
  ghost predicate AllUnused(blocks: seq<nat>, from: nat, table: map<Text, StrRef>) {
    && (forall i, j :: 0 <= i < j < |blocks| ==> blocks[i] != blocks[j])
    && (forall i :: from <= i < |blocks| ==> Unused(table, blocks[i]))
  }

  ghost predicate Extends(before: map<Text, StrRef>, after: map<Text, StrRef>) {
    forall t :: t in before ==> t in after && after[t] == before[t]
  }

  /** The strings that are new are at one of the two addresses. */
  ghost predicate NewAt(before: map<Text, StrRef>, after: map<Text, StrRef>, a: nat, b: nat) {
    forall t :: t in after && t !in before ==> after[t].Ref? && (after[t].addr == a || after[t].addr == b)
  }

  /** The first tags are those that the pool makes of pairs of texts. */
  ghost predicate Interned(list: seq<(Text, Text)>, tags: seq<Tag>, table: map<Text, StrRef>) {
    && |tags| <= |list|
    && forall i :: 0 <= i < |tags| ==> IsInterned(list[i], tags[i], table)
  }

  ghost predicate IsInterned(pair: (Text, Text), tag: Tag, table: map<Text, StrRef>) {
    && Sanitize(pair.0) in table && tag.key == table[Sanitize(pair.0)]
    && Sanitize(pair.1) in table && tag.value == table[Sanitize(pair.1)]
  }

  lemma OneMoreInterned(list: seq<(Text, Text)>, tags: seq<Tag>, tag: Tag, before: map<Text, StrRef>,
                        after: map<Text, StrRef>)
    requires |tags| < |list| && Interned(list, tags, before) && Extends(before, after)
    requires IsInterned(list[|tags|], tag, after)
    ensures Interned(list, tags + [tag], after)
  {
    forall i | 0 <= i < |tags| ensures IsInterned(list[i], tags[i], after) {
      assert IsInterned(list[i], tags[i], before);
    }
  }

  ghost predicate AllIn(list: seq<(Text, Text)>, table: map<Text, StrRef>) {
    forall i :: 0 <= i < |list| ==> Sanitize(list[i].0) in table && Sanitize(list[i].1) in table
  }

  /** The tags that the pool makes of pairs of texts. */
  ghost function RefsOf(list: seq<(Text, Text)>, table: map<Text, StrRef>): seq<Tag>
    requires AllIn(list, table)
  {
    seq(|list|, i requires 0 <= i < |list| => Tag(table[Sanitize(list[i].0)], table[Sanitize(list[i].1)]))
  }

  lemma AllInterned(list: seq<(Text, Text)>, tags: seq<Tag>, table: map<Text, StrRef>)
    requires Interned(list, tags, table) && |tags| == |list|
    ensures AllIn(list, table) && RefsOf(list, table) == tags
  {
    forall i | 0 <= i < |list|
      ensures Sanitize(list[i].0) in table && Sanitize(list[i].1) in table
      ensures tags[i] == Tag(table[Sanitize(list[i].0)], table[Sanitize(list[i].1)])
    {
      assert IsInterned(list[i], tags[i], table);
    }
  }

  lemma StillUnused(blocks: seq<nat>, i: nat, before: map<Text, StrRef>, after: map<Text, StrRef>)
    requires i + 2 <= |blocks| && AllUnused(blocks, i, before)
    requires Extends(before, after) && NewAt(before, after, blocks[i], blocks[i + 1])
    ensures AllUnused(blocks, i + 2, after)
  {
    forall j | i + 2 <= j < |blocks| ensures Unused(after, blocks[j]) {
      assert Unused(before, blocks[j]);
    }
  }

  /** What Intern does to the table, and to another address. */
  lemma InternExtends(before: map<Text, StrRef>, after: map<Text, StrRef>, s: Text, block: nat, other: nat)
    requires after == if s in before then before else before[s := Ref(block, s)]
    ensures Extends(before, after) && NewAt(before, after, block, block) && before.Values <= after.Values
    ensures Unused(before, other) && other != block ==> Unused(after, other)
  {
  }

  lemma BothExtend(before: map<Text, StrRef>, between: map<Text, StrRef>, after: map<Text, StrRef>, a: nat, b: nat)
    requires Extends(before, between) && NewAt(before, between, a, a)
    requires Extends(between, after) && NewAt(between, after, b, b)
    ensures Extends(before, after) && NewAt(before, after, a, b)
  {
  }

  lemma InsertedAllSnoc(s: seq<Tag>, added: seq<Tag>, tag: Tag)
    requires Keyed(s) && Keyed(added) && tag.key.Ref?
    ensures InsertedAll(s, added + [tag]) == Inserted(InsertedAll(s, added), tag.key, tag.value)
  {
    assert (added + [tag])[..|added|] == added;
  }

  lemma InternedWithin(list: seq<(Text, Text)>, tags: seq<Tag>, table: map<Text, StrRef>)
    requires Interned(list, tags, table)
    ensures Within(tags, table.Values)
  {
    forall i | 0 <= i < |tags| ensures tags[i].key in table.Values && tags[i].value in table.Values {
      assert IsInterned(list[i], tags[i], table);
    }
  }

  // ---------- the hash ----------

  const WORD: nat := 0x1_0000_0000_0000_0000  // size_t has 64 bits

  /** Bitwise exclusive or. */
  function Xor(a: nat, b: nat): nat {
    if a == 0 && b == 0 then 0 else (a + b) % 2 + 2 * Xor(a / 2, b / 2)
  }

  /** One summand of the hash; pointerHash is std::hash on pointers. */
  function EntryHash(pointerHash: StrRef -> nat, t: Tag): nat {
    Xor(2 * pointerHash(t.key) % WORD, pointerHash(t.value))
  }

  /** Sums of 64-bit words wrap around. */
  function HashOf(pointerHash: StrRef -> nat, s: seq<Tag>): nat {
    if s == [] then 0
    else (HashOf(pointerHash, s[..|s| - 1]) + EntryHash(pointerHash, s[|s| - 1])) % WORD
  }

  /** The i-th binary digit. */
  function Bit(x: nat, i: nat): nat {
    if i == 0 then x % 2 else Bit(x / 2, i - 1)
  }

  lemma {:induction false} XorBits(a: nat, b: nat, i: nat)
    ensures Bit(Xor(a, b), i) == (Bit(a, i) + Bit(b, i)) % 2
  {
    if i == 0 {
    } else {
      XorBits(a / 2, b / 2, i - 1);
      assert Xor(a, b) / 2 == Xor(a / 2, b / 2);
    }
  }

  /** A set of one tag hashes to twice the key's hash, exclusive-or the value's. */
  lemma HashOfOne(pointerHash: StrRef -> nat, t: Tag)
    ensures HashOf(pointerHash, [t]) == Xor(2 * pointerHash(t.key) % WORD, pointerHash(t.value)) % WORD
  {
  }

  /** What the sets of one tag each hash to, added up without wrap-around. */
  ghost function SumOfHashes(pointerHash: StrRef -> nat, s: seq<Tag>): nat {
    if s == [] then 0 else SumOfHashes(pointerHash, s[..|s| - 1]) + HashOf(pointerHash, [s[|s| - 1]])
  }

  /** The hash of a set is the sum of its tags' hashes as a 64-bit word. */
  lemma {:induction false} HashIsSum(pointerHash: StrRef -> nat, s: seq<Tag>)
    ensures HashOf(pointerHash, s) == SumOfHashes(pointerHash, s) % WORD
  {
    if s == [] {
    } else {
      var init, last := s[..|s| - 1], s[|s| - 1];
      HashIsSum(pointerHash, init);
      HashOfOne(pointerHash, last);
      AddWords(SumOfHashes(pointerHash, init), EntryHash(pointerHash, last));
    }
  }

  lemma AddWords(a: nat, b: nat)
    ensures (a % WORD + b) % WORD == (a + b % WORD) % WORD
  {
  }

  lemma HashOfStep(pointerHash: StrRef -> nat, s: seq<Tag>, i: nat)
    requires i < |s|
    ensures HashOf(pointerHash, s[..i + 1]) == (HashOf(pointerHash, s[..i]) + EntryHash(pointerHash, s[i])) % WORD
  {
    assert s[..i + 1][..i] == s[..i];
  }

  // ---------- the class ----------

  const SMALL_TAGS := 8

  class TagSet {
    var size: nat
    const entries: array<Tag>  // U.entries_: part of the object
    var capacity: nat          // U.capacity_: the same bytes as entries[0]
    var begin: array?<Tag>

    ghost predicate Shape()
      reads this
    {
      && entries.Length == SMALL_TAGS
      && begin != null
      && size <= begin.Length
      && (size <= SMALL_TAGS ==> begin == entries)
      && (size > SMALL_TAGS ==> begin != entries && begin.Length == capacity)
    }

    ghost function Repr(): set<object?>
      reads this
    {
      {this, entries, begin}
    }

    function Contents(): seq<Tag>
      requires begin != null && size <= begin.Length
      reads this, begin
    {
      begin[..size]
    }

    /** The storage is right for the size, and the tags are in strict key order. */
    ghost predicate Valid(refs: set<StrRef>)
      reads this, begin
    {
      Shape() && Ordered(Contents(), refs)
    }

    predicate IsLarge()
      reads this
    {
      size > SMALL_TAGS
    }

    function Capacity(): nat
      reads this
    {
      if IsLarge() then capacity else SMALL_TAGS
    }

    constructor ()
      ensures Shape() && Contents() == [] && fresh(Repr())
    {
      var inside := new Tag[SMALL_TAGS];
      entries, begin, size := inside, inside, 0;
    }

    constructor Copy(o: TagSet)
      requires o.Shape()
      ensures Shape() && Contents() == o.Contents() && fresh(Repr())
    {
      var inside := new Tag[SMALL_TAGS];
      var block := inside;
      size := o.size;
      entries := inside;
      if o.size > SMALL_TAGS {
        block := new Tag[o.size];
        capacity := o.size;
      }
      begin := block;
      new;
      CopyForward(o.begin, o.size, block);
      assert Contents() == o.Contents();
    }

    /** The source is left empty-handed when it was large, and unchanged when it was small. */
    constructor Move(o: TagSet)
      requires o.Shape()
      modifies o
      ensures Shape() && Contents() == old(o.Contents())
      ensures fresh(Repr() - {old(o.begin)})
      ensures begin == old(o.begin) <==> old(o.IsLarge())
      ensures o.size == old(o.size) && o.begin == if old(o.IsLarge()) then null else old(o.begin)
    {
      var inside := new Tag[SMALL_TAGS];
      size := o.size;
      entries := inside;
      begin := o.begin;
      new;
      if IsLarge() {
        o.begin := null;
        capacity := o.capacity;
        entries[0] := *;
      } else {
        begin := inside;
        CopyForward(o.begin, o.size, inside);
        capacity := *;
      }
    }

    /** From an initializer list of texts.  blocks are the addresses malloc has to give for new strings. */
    constructor Of(list: seq<(Text, Text)>, pool: Pool, blocks: seq<nat>)
      requires pool.Valid() && AllUnused(blocks, 0, pool.table) && |blocks| == 2 * |list|
      modifies pool
      ensures pool.Valid() && AllIn(list, pool.table) && Valid(pool.table.Values)
      ensures fresh(entries) && fresh(begin)
      ensures Contents() == InsertedAll([], RefsOf(list, pool.table))
      ensures AsMap(Contents()) == AsMap(RefsOf(list, pool.table))
    {
      var inside := new Tag[SMALL_TAGS];
      entries, begin, size := inside, inside, 0;
      new;
      PoolIsCanonical(pool);
      assert Contents() == [];
      ghost var added := AddTexts(list, pool, blocks);
      AllInterned(list, added, pool.table);
    }

    /** The first texts have been interned and added, and there are addresses for the others. */
    ghost predicate AddingTexts(list: seq<(Text, Text)>, added: seq<Tag>, pool: Pool, blocks: seq<nat>)
      reads this, begin, pool
    {
      && pool.Valid() && |blocks| == 2 * |list| && AllUnused(blocks, 2 * |added|, pool.table)
      && Interned(list, added, pool.table) && Valid(pool.table.Values)
      && Keyed(added) && Contents() == InsertedAll([], added)
    }

    /** The loop over the list. */
    method AddTexts(list: seq<(Text, Text)>, pool: Pool, blocks: seq<nat>) returns (ghost added: seq<Tag>)
      requires AddingTexts(list, [], pool, blocks)
      modifies this, entries, begin, pool
      ensures AddingTexts(list, added, pool, blocks) && |added| == |list|
      ensures AsMap(Contents()) == AsMap(added)
      ensures begin == old(begin) || fresh(begin)
    {
      added := [];
      for i := 0 to |list|
        invariant AddingTexts(list, added, pool, blocks) && |added| == i
        invariant begin == old(begin) || fresh(begin)
      {
        ghost var tag := AddText(list, i, added, pool, blocks);
        added := added + [tag];
      }
      InternedWithin(list, added, pool.table);
      InsertedAllIsMerge([], added, pool.table.Values);
    }

    method AddText(list: seq<(Text, Text)>, i: nat, ghost added: seq<Tag>, pool: Pool, blocks: seq<nat>)
      returns (ghost tag: Tag)
      requires AddingTexts(list, added, pool, blocks) && |added| == i < |list|
      modifies this, entries, begin, pool
      ensures AddingTexts(list, added + [tag], pool, blocks)
      ensures begin == old(begin) || fresh(begin)
    {
      ghost var before := pool.table;
      tag := Add(list[i].0, list[i].1, pool, blocks[2 * i], blocks[2 * i + 1]);
      OneMoreInterned(list, added, tag, before, pool.table);
      StillUnused(blocks, 2 * i, before, pool.table);
      InsertedAllSnoc([], added, tag);
    }

    /** add(string_view, string_view): interns both texts and inserts. */
    method Add(k: Text, v: Text, pool: Pool, kBlock: nat, vBlock: nat) returns (ghost tag: Tag)
      requires pool.Valid() && Valid(pool.table.Values)
      requires kBlock != vBlock && Unused(pool.table, kBlock) && Unused(pool.table, vBlock)
      modifies this, entries, begin, pool
      ensures pool.Valid() && Valid(pool.table.Values)
      ensures Extends(old(pool.table), pool.table) && NewAt(old(pool.table), pool.table, kBlock, vBlock)
      ensures IsInterned((k, v), tag, pool.table) && tag.key.Ref?
      ensures Contents() == Inserted(old(Contents()), tag.key, tag.value)
      ensures begin == old(begin) || fresh(begin)
    {
      ghost var refs := pool.table.Values;
      var key, value := InternPair(k, v, pool, kBlock, vBlock);
      PoolGrows(this, refs, pool.table.Values);
      Insert(key, value, pool.table.Values);
      tag := Tag(key, value);
    }

    static method InternPair(k: Text, v: Text, pool: Pool, kBlock: nat, vBlock: nat) returns (key: StrRef,
                             value: StrRef)
      requires pool.Valid() && kBlock != vBlock && Unused(pool.table, kBlock) && Unused(pool.table, vBlock)
      modifies pool
      ensures pool.Valid() && Canonical(pool.table.Values) && old(pool.table).Values <= pool.table.Values
      ensures key.Ref? && key in pool.table.Values && value in pool.table.Values
      ensures Extends(old(pool.table), pool.table) && NewAt(old(pool.table), pool.table, kBlock, vBlock)
      ensures IsInterned((k, v), Tag(key, value), pool.table)
    {
      ghost var before := pool.table;
      key := pool.Intern(k, kBlock);
      ghost var between := pool.table;
      InternExtends(before, between, Sanitize(k), kBlock, vBlock);
      value := pool.Intern(v, vBlock);
      InternExtends(between, pool.table, Sanitize(v), vBlock, vBlock);
      BothExtend(before, between, pool.table, kBlock, vBlock);
      PoolIsCanonical(pool);
    }

    /** std::copy of the first n elements. */
    static method CopyForward(from: array<Tag>, n: nat, to: array<Tag>)
      requires n <= from.Length && n <= to.Length && from != to
      modifies to
      ensures to[..n] == from[..n]
    {
      for i := 0 to n
        invariant to[..i] == from[..i]
      {
        to[i] := from[i];
      }
    }

    /** std::copy_backward(begin + i, end, end + 1). */
    static method CopyBackward(a: array<Tag>, i: nat, n: nat)
      requires i <= n < a.Length
      modifies a
      ensures a[..i] == old(a[..i]) && a[i + 1..n + 1] == old(a[i..n])
    {
      var j := n;
      while j > i
        invariant i <= j <= n
        invariant a[..j] == old(a[..j]) && a[j + 1..n + 1] == old(a[j..n])
      {
        a[j] := a[j - 1];
        j := j - 1;
      }
    }

    /** Grows the storage by four.  Called on a full inline set it leaves begin on the heap while size is still 8. */
    method Reallocate()
      requires Shape() && size == Capacity()
      modifies this, entries
      ensures size == old(size) && begin != null && fresh(begin)
      ensures begin.Length == capacity == old(Capacity()) + 4
      ensures Contents() == old(Contents())
    {
      var c := Capacity();
      if !IsLarge() {
        var block := new Tag[c + 4];
        CopyForward(entries, size, block);
        begin := block;
        capacity := c + 4;
        entries[0] := *;
      } else {
        var block := new Tag[c + 4];  // realloc: the old contents move along
        CopyForward(begin, size, block);
        begin := block;
        capacity := capacity + 4;
        entries[0] := *;
      }
    }

    /** The end of insert: make room at position it and write there. */
    method Place(it: nat, k: StrRef, v: StrRef)
      requires begin != null && it <= size < begin.Length && entries.Length == SMALL_TAGS
      requires if size < SMALL_TAGS then begin == entries else begin != entries && begin.Length == capacity
      modifies this, begin
      ensures Shape() && begin == old(begin)
      ensures Contents() == old(Contents()[..it]) + [Tag(k, v)] + old(Contents()[it..])
    {
      CopyBackward(begin, it, size);
      begin[it] := Tag(k, v);
      if begin == entries { capacity := *; }
      size := size + 1;
    }

    method Insert(k: StrRef, v: StrRef, ghost refs: set<StrRef>)
      requires Valid(refs) && k in refs && v in refs
      modifies this, entries, begin
      ensures Valid(refs)
      ensures Contents() == Inserted(old(Contents()), k, v)
      ensures AsMap(Contents()) == old(AsMap(Contents()))[k := v]
      ensures begin == old(begin) || fresh(begin)
    {
      InsertedIsUpdate(Contents(), k, v, refs);
      var it := LowerBound(Contents(), k);
      if it != size && Same(begin[it].key, k) {
        begin[it] := begin[it].(value := v);
        if begin == entries { capacity := *; }
        return;
      }
      if size == Capacity() {
        Reallocate();
      }
      Place(it, k, v);
    }

    /** Distinct objects share no storage. */
    ghost predicate Apart(source: TagSet)
      reads this, source
    {
      source == this || Repr() !! source.Repr()
    }

    /** it tags of the source have been added to s, and the source is as it was, also when it is the receiver. */
    ghost predicate Adding(source: TagSet, s: seq<Tag>, added: seq<Tag>, it: nat, refs: set<StrRef>)
      reads this, begin, source, source.begin
    {
      && Valid(refs) && source.Shape() && Apart(source) && source.Contents() == added
      && it <= |added| && Keyed(s) && Keyed(added) && Contents() == InsertedAll(s, added[..it])
    }

    /** The source may be the receiver itself. */
    method AddAll(source: TagSet, ghost refs: set<StrRef>)
      requires Valid(refs) && source.Valid(refs) && Apart(source)
      modifies this, entries, begin
      ensures Valid(refs) && source.Contents() == old(source.Contents())
      ensures Contents() == InsertedAll(old(Contents()), source.Contents())
      ensures AsMap(Contents()) == old(AsMap(Contents())) + AsMap(source.Contents())
      ensures begin == old(begin) || fresh(begin)
    {
      ghost var s, added := Contents(), source.Contents();
      var it := 0;
      while it != source.size
        invariant it <= source.size && Adding(source, s, added, it, refs)
        invariant begin == old(begin) || fresh(begin)
      {
        AddEntry(source, it, s, added, refs);
        it := it + 1;
      }
      assert added[..it] == added;
      InsertedAllIsMerge(s, added, refs);
    }

    /** One turn of the loop. */
    method AddEntry(source: TagSet, it: nat, ghost s: seq<Tag>, ghost added: seq<Tag>, ghost refs: set<StrRef>)
      requires Adding(source, s, added, it, refs) && it < |added| && Within(added, refs)
      modifies this, entries, begin
      ensures Adding(source, s, added, it + 1, refs)
      ensures begin == old(begin) || fresh(begin)
    {
      InsertedAllStep(s, added, it);
      if source == this {
        InsertedSelf(added, it, refs);
      }
      var entry := source.begin[it];
      assert entry == added[it];
      Insert(entry.key, entry.value, refs);
    }

    method At(key: StrRef, ghost refs: set<StrRef>) returns (value: StrRef)
      requires Valid(refs) && key in refs
      ensures value == if key in AsMap(Contents()) then AsMap(Contents())[key] else Null
    {
      LookupIsMap(Contents(), key, refs);
      var it := LowerBound(Contents(), key);
      if it == size || !Same(begin[it].key, key) { return Null; }
      return begin[it].value;
    }

    method Has(key: StrRef, ghost refs: set<StrRef>) returns (found: bool)
      requires Valid(refs) && key in refs
      ensures found <==> key in AsMap(Contents())
    {
      LookupIsMap(Contents(), key, refs);
      var it := LowerBound(Contents(), key);
      found := it != size && Same(begin[it].key, key);
    }

    /** operator==: sizes, then memcmp. */
    method Equals(that: TagSet, ghost refs: set<StrRef>) returns (eq: bool)
      requires Valid(refs) && that.Valid(refs)
      ensures eq <==> AsMap(Contents()) == AsMap(that.Contents())
    {
      MemcmpIsMapEquality(Contents(), that.Contents(), refs);
      if size != that.size { return false; }
      if size == 0 { return true; }
      eq := SameBytes(Contents(), that.Contents());
    }

    method Hash(pointerHash: StrRef -> nat) returns (h: nat)
      requires Shape()
      ensures h == HashOf(pointerHash, Contents())
    {
      h := 0;
      var it := 0;
      while it != size
        invariant it <= size && h == HashOf(pointerHash, begin[..it])
      {
        HashOfStep(pointerHash, begin[..], it);
        assert begin[..][..it] == begin[..it] && begin[..][..it + 1] == begin[..it + 1];
        h := (h + EntryHash(pointerHash, begin[it])) % WORD;
        it := it + 1;
      }
    }
  }

  /** Equal maps hash alike, whatever the order of insertion. */
  lemma EqualMapsHashAlike(pointerHash: StrRef -> nat, s: seq<Tag>, t: seq<Tag>, refs: set<StrRef>)
    requires Ordered(s, refs) && Ordered(t, refs) && AsMap(s) == AsMap(t)
    ensures HashOf(pointerHash, s) == HashOf(pointerHash, t)
  {
    SortedUnique(s, t, refs);
  }

  /** Interning more strings keeps every tag set valid. */
  lemma PoolGrows(tags: TagSet, refs: set<StrRef>, more: set<StrRef>)
    requires tags.Valid(refs) && refs <= more && Canonical(more)
    ensures tags.Valid(more)
  {
  }
}
