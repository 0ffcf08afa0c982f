/** Interned strings: spectator/string_pool.cc and spectator/string_intern.h.

    A reference is a pointer together with the text it points at, which never changes while the pool lives.  Two
    references are compared by address and ordered by text; the pool makes the two agree.
 */
module StringPool {
  import opened Bytes

  // ---------- references ----------

  datatype StrRef = Null | Ref(addr: nat, text: Text)

  /** operator==: the pointers are equal. */
  predicate Same(a: StrRef, b: StrRef) {
    if a.Null? || b.Null? then a.Null? && b.Null? else a.addr == b.addr
  }

  /** The byte that a C string function sees at the front of a NUL-terminated text. */
  function First(a: Text): int {
    if a == [] then 0 else a[0] as int
  }

  /** strcmp on NUL-terminated memory, comparing bytes as unsigned. */
  function Strcmp(a: Text, b: Text): int {
    if First(a) != First(b) then First(a) - First(b)
    else if First(a) == 0 then 0
    else Strcmp(a[1..], b[1..])
  }

  /** operator<: by content. */
  predicate Less(a: StrRef, b: StrRef)
    requires a.Ref? && b.Ref?
  {
    Strcmp(a.text, b.text) < 0
  }

  /** What strcmp can see of a text: the part before the first NUL. */
  function CString(a: Text): Text {
    if First(a) == 0 then [] else [a[0]] + CString(a[1..])
  }

  ghost predicate NoNul(a: Text) {
    forall i :: 0 <= i < |a| ==> a[i] != 0
  }

  lemma {:induction false} CStringWhole(a: Text)
    ensures CString(a) == a <==> NoNul(a)
  {
    if First(a) != 0 {
      CStringWhole(a[1..]);
      assert a == [a[0]] + a[1..];
      assert NoNul(a) <==> NoNul(a[1..]) by {
        assert forall i :: 1 <= i < |a| ==> a[i] == a[1..][i - 1];
      }
    }
  }

  /** strcmp tells texts apart exactly as far as their first NUL. */
  lemma {:induction false} StrcmpZero(a: Text, b: Text)
    ensures Strcmp(a, b) == 0 <==> CString(a) == CString(b)
    decreases |a|
  {
    if First(a) == First(b) != 0 {
      StrcmpZero(a[1..], b[1..]);
      assert CString(a)[1..] == CString(a[1..]) && CString(b)[1..] == CString(b[1..]);
    } else if First(a) != First(b) {
      if First(a) != 0 && First(b) != 0 {
        assert CString(a)[0] != CString(b)[0];
      }
    }
  }

  lemma {:induction false} StrcmpFlip(a: Text, b: Text)
    ensures Strcmp(a, b) == -Strcmp(b, a)
    decreases |a|
  {
    if First(a) == First(b) != 0 {
      StrcmpFlip(a[1..], b[1..]);
    }
  }

  lemma {:induction false} StrcmpTransitive(a: Text, b: Text, c: Text)
    requires Strcmp(a, b) < 0 && Strcmp(b, c) < 0
    ensures Strcmp(a, c) < 0
    decreases |a|
  {
    if First(a) == First(b) == First(c) {
      StrcmpTransitive(a[1..], b[1..], c[1..]);
    }
  }

  // ---------- the Atlas character set ----------

  /** kAtlasChars: letters, digits and a few signs are kept, everything else becomes an underscore. */
  function AtlasChar(c: byte): byte {
    if ('0' as byte <= c <= '9' as byte) || ('a' as byte <= c <= 'z' as byte) || ('A' as byte <= c <= 'Z' as byte)
       || c == '.' as byte || c == '-' as byte || c == '~' as byte || c == '^' as byte
    then c else '_' as byte
  }

  function Sanitize(s: Text): (t: Text)
    ensures |t| == |s| && NoNul(t)
    ensures forall i :: 0 <= i < |t| ==> t[i] < 0x80
  {
    seq(|s|, i requires 0 <= i < |s| => AtlasChar(s[i]))
  }

  /** Digits, letters and the five signs - . ^ _ ~ are kept, every other byte becomes an underscore. */
  lemma SanitizeIs(s: Text, i: nat)
    requires i < |s|
    ensures var c := s[i] as int;
      Sanitize(s)[i] as int ==
        if 48 <= c <= 57 || 65 <= c <= 90 || 97 <= c <= 122 || c in {45, 46, 94, 95, 126} then c else 95
  {
  }

  lemma SanitizeTwice(s: Text)
    ensures Sanitize(Sanitize(s)) == Sanitize(s)
  {
  }

  // ---------- what the pool guarantees ----------

  /** References to NUL-free texts, one address for each text. */
  ghost predicate Canonical(refs: set<StrRef>) {
    && (forall r :: r in refs ==> r.Ref? && NoNul(r.text))
    && (forall a, b {:trigger Same(a, b)} :: a in refs && b in refs ==> (Same(a, b) <==> a.text == b.text))
  }

  /** On canonical references pointer equality is equality of texts, and content order is a strict total order
      that agrees with it. */
  lemma CanonicalOrder(refs: set<StrRef>, a: StrRef, b: StrRef)
    requires Canonical(refs) && a in refs && b in refs
    ensures Same(a, b) <==> a == b
    ensures Same(a, b) <==> !Less(a, b) && !Less(b, a)
    ensures !(Less(a, b) && Less(b, a))
  {
    StrcmpZero(a.text, b.text);
    StrcmpFlip(a.text, b.text);
    CStringWhole(a.text);
    CStringWhole(b.text);
  }

  lemma LessTransitive(a: StrRef, b: StrRef, c: StrRef)
    requires a.Ref? && b.Ref? && c.Ref? && Less(a, b) && Less(b, c)
    ensures Less(a, c)
  {
    StrcmpTransitive(a.text, b.text, c.text);
  }

  // ---------- the pool ----------

  datatype Stats = Stats(allocSize: nat, tableSize: nat, hits: nat, misses: nat) {
    function Calls(): nat { hits + misses }

    function Hit(): Stats { this.(hits := hits + 1) }

    function Miss(len: nat): Stats { Stats(allocSize + len + 1, tableSize + 1, hits, misses + 1) }
  }

  function AllocSize(texts: seq<Text>): nat {
    if texts == [] then 0 else AllocSize(texts[..|texts| - 1]) + |texts[|texts| - 1]| + 1
  }

  /** The keys are sanitised texts with an address each, the results so far are what the table still says, and the
      statistics count the calls: hits and misses together, misses and the table's size alike. */
  ghost predicate Consistent(table: map<Text, StrRef>, stats: Stats, history: seq<(Text, StrRef)>, added: seq<Text>) {
    && (forall t :: t in table ==> table[t].Ref? && table[t].text == t && Sanitize(t) == t)
    && (forall t, u :: t in table && u in table && table[t].addr == table[u].addr ==> t == u)
    && (forall i :: 0 <= i < |history| ==>
          Sanitize(history[i].0) in table && history[i].1 == table[Sanitize(history[i].0)])
    && stats.Calls() == |history|
    && stats.misses == stats.tableSize == |table| == |added|
    && stats.allocSize == AllocSize(added)
    && (forall i :: 0 <= i < |added| ==> added[i] in table)
    && (forall i, j :: 0 <= i < j < |added| ==> added[i] != added[j])
  }

  /** No string of the table is at this address. */
  ghost predicate Unused(table: map<Text, StrRef>, block: nat) {
    forall t :: t in table && table[t].Ref? ==> table[t].addr != block
  }

  lemma EmptyConsistent()
    ensures Consistent(map[], Stats(0, 0, 0, 0), [], [])
  {
  }

  lemma KeptByHit(table: map<Text, StrRef>, stats: Stats, history: seq<(Text, StrRef)>, added: seq<Text>, s: Text)
    requires Consistent(table, stats, history, added) && Sanitize(s) in table
    ensures Consistent(table, stats.Hit(), history + [(s, table[Sanitize(s)])], added)
  {
  }

  lemma KeptByMiss(table: map<Text, StrRef>, stats: Stats, history: seq<(Text, StrRef)>, added: seq<Text>, s: Text,
                   block: nat)
    requires Consistent(table, stats, history, added) && Sanitize(s) !in table
    requires Unused(table, block)
    ensures Consistent(table[Sanitize(s) := Ref(block, Sanitize(s))],
                       stats.Miss(|s|),
                       history + [(s, Ref(block, Sanitize(s)))], added + [Sanitize(s)])
  {
    SanitizeTwice(s);
    assert (added + [Sanitize(s)])[..|added|] == added;
  }

  class Pool {
    var table: map<Text, StrRef>
    var stats: Stats
    ghost var history: seq<(Text, StrRef)>  // every call so far: the argument and the result
    ghost var added: seq<Text>              // the keys in the order they were added

    ghost predicate Valid()
      reads this
    {
      Consistent(table, stats, history, added)
    }

    constructor ()
      ensures Valid() && history == [] && table == map[]
    {
      table, stats, history, added := map[], Stats(0, 0, 0, 0), [], [];
      new;
      EmptyConsistent();
    }

    /** Intern.  block is the address malloc returns if it is called: one that no live string has. */
    method Intern(s: Text, block: nat) returns (ref: StrRef)
      requires Valid()
      requires Unused(table, block)
      modifies this
      ensures Valid()
      ensures history == old(history) + [(s, ref)]
      ensures table ==
        if Sanitize(s) in old(table) then old(table) else old(table)[Sanitize(s) := Ref(block, Sanitize(s))]
      ensures ref == table[Sanitize(s)]
      ensures stats == if Sanitize(s) in old(table) then old(stats).Hit() else old(stats).Miss(|s|)
      ensures stats.hits == old(stats.hits) + (if Sanitize(s) in old(table) then 1 else 0)
      ensures stats.misses == old(stats.misses) + (if Sanitize(s) in old(table) then 0 else 1)
      ensures stats.allocSize == old(stats.allocSize) + (if Sanitize(s) in old(table) then 0 else |s| + 1)
    {
      if s in table {
        KeptByHit(table, stats, history, added, s);
        stats := stats.Hit();
        history := history + [(s, table[s])];
        return table[s];
      }
      var copy := CopySanitized(s);
      if copy !in table {
        KeptByMiss(table, stats, history, added, s, block);
        ref := Ref(block, copy);
        table := table[copy := ref];
        stats := stats.Miss(|s|);
        added := added + [copy];
      } else {
        // a hit after all: invalid characters made the first lookup fail; the copy is freed
        KeptByHit(table, stats, history, added, s);
        stats := stats.Hit();
        ref := table[copy];
      }
      history := history + [(s, ref)];
    }

    /** The loop that fills the copy, and its terminator. */
    static method CopySanitized(s: Text) returns (text: Text)
      ensures text == Sanitize(s)
    {
      var len := |s|;
      var copy := new byte[len + 1];
      for i := 0 to len
        invariant forall j :: 0 <= j < i ==> copy[j] == AtlasChar(s[j])
      {
        copy[i] := AtlasChar(s[i]);
      }
      copy[len] := 0;
      text := copy[..len];
    }
  }

  /** Over every history of calls: two results are the same pointer exactly when the sanitised texts are equal. */
  lemma PointersAreTexts(pool: Pool, i: nat, j: nat)
    requires pool.Valid() && i < |pool.history| && j < |pool.history|
    ensures Same(pool.history[i].1, pool.history[j].1)
       <==> Sanitize(pool.history[i].0) == Sanitize(pool.history[j].0)
  {
    assert pool.table[Sanitize(pool.history[i].0)].text == Sanitize(pool.history[i].0);
  }

  /** All the references the pool has handed out are canonical together. */
  lemma PoolIsCanonical(pool: Pool)
    requires pool.Valid()
    ensures Canonical(pool.table.Values)
    ensures forall i :: 0 <= i < |pool.history| ==> pool.history[i].1 in pool.table.Values
  {
    forall r | r in pool.table.Values
      ensures r.Ref? && NoNul(r.text) && r.text in pool.table && pool.table[r.text] == r
    {
      var t :| t in pool.table && pool.table[t] == r;
      assert Sanitize(t) == t;
    }
  }
}
