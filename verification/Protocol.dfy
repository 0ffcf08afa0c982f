/** The line protocols: server/spectatord.cc (lines, measurements and StatsD tags) and parse_id of
    admin/admin_server.cc.

    Tags are kept as the list of pairs that the parsers add, in order; what adding makes of them is the business of the
    tag map.
 */
module Protocol {
  import opened Bytes

  type Pair = (Text, Text)

  const NUL: byte := 0
  const NEWLINE: byte := 10
  const COMMA: byte := ',' as byte
  const COLON: byte := ':' as byte
  const EQUALS: byte := '=' as byte

  /** Free of the two bytes. */
  ghost predicate Free(t: Text, a: byte, b: byte) {
    forall i :: 0 <= i < |t| ==> t[i] != a && t[i] != b
  }

  // ---------- StatsD tags ----------

  /** The byte that a pointer into NUL-terminated text sees. */
  function At(t: Text, p: nat): byte {
    if p < |t| then t[p] else NUL
  }

  /** add_tag.  colon is where the key ends and the value begins; without one the value reads "1".  Empty keys and
      values are refused. */
  function AddTag(t: Text, beginKey: nat, colon: Option<nat>, end: nat): Option<Pair>
    requires beginKey <= end <= |t| && (colon.Some? ==> beginKey <= colon.value < end)
  {
    var key := t[beginKey..if colon.Some? then colon.value else end];
    var value := if colon.Some? then t[colon.value + 1..end] else ['1' as byte];
    if key == [] || value == [] then None else Some((key, value))
  }

  ghost predicate Positions(t: Text, p: nat, beginKey: nat, colon: Option<nat>) {
    beginKey <= p <= |t| && (colon.Some? ==> beginKey <= colon.value < p)
  }

  /** The tag loop from position p on, with what it has added so far; None is the error. */
  function TagLoop(t: Text, p: nat, beginKey: nat, colon: Option<nat>, added: seq<Pair>): Option<seq<Pair>>
    requires Positions(t, p, beginKey, colon)
    decreases |t| - p
  {
    if p == |t| then
      var last := AddTag(t, beginKey, colon, p);
      if last.None? then None else Some(added + [last.value])
    else
      var isColon := At(t, p + 1) == COLON;
      var q := if isColon then p + 2 else p + 1;
      var colon' := if isColon then Some(p + 1) else colon;
      if At(t, q) == COMMA then
        var tag := AddTag(t, beginKey, colon', q);
        if tag.None? then None else TagLoop(t, q + 1, q + 1, None, added + [tag.value])
      else TagLoop(t, q, beginKey, colon', added)
  }

  /** The end of the C string that starts at p. */
  ghost predicate EndsAt(buffer: array<byte>, p: nat, n: nat)
    reads buffer
  {
    p <= n < buffer.Length && buffer[n] == NUL && forall i :: p <= i < n ==> buffer[i] != NUL
  }

  /** What the two pointers endKey and beginValue say together. */
  ghost function Colon(endKey: nat, beginValue: Option<nat>): Option<nat> {
    if beginValue.None? then None else Some(endKey)
  }

  /** The loop on the buffer.  It never reads past the NUL. */
  method ParseTags(buffer: array<byte>, start: nat, ghost n: nat) returns (tags: Option<seq<Pair>>)
    requires EndsAt(buffer, start, n)
    ensures tags == TagLoop(buffer[..n], start, start, None, [])
  {
    var p: nat, beginKey: nat, endKey: nat := start, start, 0;
    var beginValue: Option<nat> := None;
    var added := [];
    ghost var goal := TagLoop(buffer[..n], start, start, None, []);
    while buffer[p] != NUL
      invariant start <= p <= n
      invariant beginValue.Some? ==> beginValue.value == endKey + 1
      invariant Positions(buffer[..n], p, beginKey, Colon(endKey, beginValue))
      invariant goal == TagLoop(buffer[..n], p, beginKey, Colon(endKey, beginValue), added)
      decreases n - p
    {
      p := p + 1;
      if buffer[p] == COLON {
        endKey := p;
        p := p + 1;
        beginValue := Some(p);
      }
      if buffer[p] == COMMA {
        var tag := MakeTag(buffer, beginKey, endKey, beginValue, p, n);
        if tag.None? { return None; }
        added := added + [tag.value];
        beginValue := None;
        p := p + 1;
        beginKey := p;
      }
    }
    var last := MakeTag(buffer, beginKey, endKey, beginValue, p, n);
    tags := if last.None? then None else Some(added + [last.value]);
  }

  /** add_tag on pointers into the buffer. */
  method MakeTag(buffer: array<byte>, beginKey: nat, endKey: nat, beginValue: Option<nat>, endValue: nat, ghost n: nat)
    returns (tag: Option<Pair>)
    requires beginKey <= endValue <= n <= buffer.Length
    requires beginValue.Some? ==> beginValue.value == endKey + 1 && beginKey <= endKey < endValue
    ensures tag == AddTag(buffer[..n], beginKey, Colon(endKey, beginValue), endValue)
  {
    var key, value := buffer[beginKey..if beginValue.Some? then endKey else endValue], ['1' as byte];
    if beginValue.Some? {
      value := buffer[beginValue.value..endValue];
      assert value == buffer[..n][endKey + 1..endValue];
    }
    ghost var end := if beginValue.Some? then endKey else endValue;
    assert key == buffer[..n][beginKey..end];
    if key == [] || value == [] { return None; }
    tag := Some((key, value));
  }

  // ---------- rendered tags ----------

  datatype StatsdTag = StatsdTag(key: Text, value: Option<Text>) {
    ghost predicate Plain() {
      && key != [] && Free(key, COLON, COMMA)
      && (value.Some? ==> value.value != [] && Free(value.value, COLON, COMMA))
    }

    function Rendered(): Text {
      if value.None? then key else key + [COLON] + value.value
    }

    function Meaning(): Pair {
      (key, if value.None? then ['1' as byte] else value.value)
    }
  }

  /** key:value,key,... */
  function Render(tags: seq<StatsdTag>): Text
    requires tags != []
  {
    if |tags| == 1 then tags[0].Rendered() else tags[0].Rendered() + [COMMA] + Render(tags[1..])
  }

  function Meanings(tags: seq<StatsdTag>): seq<Pair> {
    if tags == [] then [] else [tags[0].Meaning()] + Meanings(tags[1..])
  }

  /** The loop passes over plain bytes. */
  lemma {:induction false} SkipPlain(t: Text, p: nat, q: nat, beginKey: nat, colon: Option<nat>, added: seq<Pair>)
    requires Positions(t, p, beginKey, colon) && p <= q < |t|
    requires forall i :: p < i <= q ==> t[i] != COLON && t[i] != COMMA
    ensures TagLoop(t, p, beginKey, colon, added) == TagLoop(t, q, beginKey, colon, added)
    decreases q - p
  {
    if p < q {
      SkipPlain(t, p + 1, q, beginKey, colon, added);
    }
  }

  /** What the loop goes on to do when the text up to q is dealt with. */
  function Next(t: Text, q: nat, added: seq<Pair>): Option<seq<Pair>>
    requires q <= |t|
  {
    if q == |t| then Some(added) else TagLoop(t, q + 1, q + 1, None, added)
  }

  /** From the last byte of a tag, the end of the text or the comma behind it adds the tag. */
  lemma LastByte(t: Text, q: nat, beginKey: nat, colon: Option<nat>, added: seq<Pair>, tag: Pair)
    requires 0 < q <= |t| && Positions(t, q - 1, beginKey, colon)
    requires q < |t| ==> t[q] == COMMA
    requires AddTag(t, beginKey, colon, q) == Some(tag)
    ensures TagLoop(t, q - 1, beginKey, colon, added) == Next(t, q, added + [tag])
  {
  }

  lemma MarkerTag(t: Text, k: nat, q: nat, key: Text, added: seq<Pair>)
    requires k < q <= |t| && t[k..q] == key && Free(key, COLON, COMMA) && (q < |t| ==> t[q] == COMMA)
    ensures TagLoop(t, k, k, None, added) == Next(t, q, added + [(key, ['1' as byte])])
  {
    assert forall i :: k <= i < q ==> t[i] == key[i - k];
    SkipPlain(t, k, q - 1, k, None, added);
    LastByte(t, q, k, None, added, (key, ['1' as byte]));
  }

  lemma ValueTag(t: Text, k: nat, m: nat, q: nat, key: Text, value: Text, added: seq<Pair>)
    requires k < m < |t| && m + 1 < q <= |t| && t[k..m] == key && t[m] == COLON && t[m + 1..q] == value
    requires Free(key, COLON, COMMA) && Free(value, COLON, COMMA) && (q < |t| ==> t[q] == COMMA)
    ensures TagLoop(t, k, k, None, added) == Next(t, q, added + [(key, value)])
  {
    assert forall i :: k <= i < m ==> t[i] == key[i - k];
    assert t[m + 1] == value[0];
    SkipPlain(t, k, m - 1, k, None, added);
    AtColon(t, m, k, added);
    FromValue(t, k, m, q, key, value, added);
  }

  lemma FromValue(t: Text, k: nat, m: nat, q: nat, key: Text, value: Text, added: seq<Pair>)
    requires k < m < |t| && m + 1 < q <= |t| && t[k..m] == key && t[m + 1..q] == value
    requires Free(value, COLON, COMMA) && (q < |t| ==> t[q] == COMMA)
    ensures TagLoop(t, m + 1, k, Some(m), added) == Next(t, q, added + [(key, value)])
  {
    assert forall i :: m + 1 <= i < q ==> t[i] == value[i - m - 1];
    SkipPlain(t, m + 1, q - 1, k, Some(m), added);
    LastByte(t, q, k, Some(m), added, (key, value));
  }

  lemma AtColon(t: Text, m: nat, beginKey: nat, added: seq<Pair>)
    requires beginKey < m && m + 1 < |t| && t[m] == COLON && t[m + 1] != COMMA
    ensures TagLoop(t, m - 1, beginKey, None, added) == TagLoop(t, m + 1, beginKey, Some(m), added)
  {
  }

  /** One tag at position k is added as what it means. */
  lemma OneTag(t: Text, k: nat, tag: StatsdTag, added: seq<Pair>)
    requires tag.Plain() && k + |tag.Rendered()| <= |t| && t[k..k + |tag.Rendered()|] == tag.Rendered()
    requires k + |tag.Rendered()| < |t| ==> t[k + |tag.Rendered()|] == COMMA
    ensures TagLoop(t, k, k, None, added) == Next(t, k + |tag.Rendered()|, added + [tag.Meaning()])
  {
    var r := tag.Rendered();
    var q, m := k + |r|, k + |tag.key|;
    if tag.value.None? {
      MarkerTag(t, k, q, tag.key, added);
    } else {
      assert t[k..m] == r[..|tag.key|] && t[m + 1..q] == r[|tag.key| + 1..];
      assert t[m] == r[|tag.key|];
      ValueTag(t, k, m, q, tag.key, tag.value.value, added);
    }
  }

  ghost predicate AllPlain(tags: seq<StatsdTag>) {
    forall i :: 0 <= i < |tags| ==> tags[i].Plain()
  }

  /** The loop on rendered tags adds exactly those tags, in order, with "1" for a missing value. */
  lemma {:induction false} StatsdTagsRoundTrip(t: Text, k: nat, tags: seq<StatsdTag>, added: seq<Pair>)
    requires tags != [] && AllPlain(tags) && k <= |t| && t[k..] == Render(tags)
    ensures TagLoop(t, k, k, None, added) == Some(added + Meanings(tags))
    decreases |tags|
  {
    if |tags| == 1 {
      OnlyTag(t, k, tags, added);
    } else {
      var q, next := k + |tags[0].Rendered()|, added + [tags[0].Meaning()];
      FirstTag(t, k, q, tags, added);
      StatsdTagsRoundTrip(t, q + 1, tags[1..], next);
      Regroup(added, tags);
    }
  }

  lemma Regroup(added: seq<Pair>, tags: seq<StatsdTag>)
    requires tags != []
    ensures added + [tags[0].Meaning()] + Meanings(tags[1..]) == added + Meanings(tags)
  {
  }

  lemma OnlyTag(t: Text, k: nat, tags: seq<StatsdTag>, added: seq<Pair>)
    requires |tags| == 1 && AllPlain(tags) && k <= |t| && t[k..] == Render(tags)
    ensures TagLoop(t, k, k, None, added) == Some(added + Meanings(tags))
  {
    FirstRendered(t, k, tags);
    OneTag(t, k, tags[0], added);
    assert Meanings(tags) == [tags[0].Meaning()];
  }

  lemma FirstTag(t: Text, k: nat, q: nat, tags: seq<StatsdTag>, added: seq<Pair>)
    requires |tags| > 1 && AllPlain(tags) && k <= |t| && t[k..] == Render(tags) && q == k + |tags[0].Rendered()|
    ensures q < |t| && t[q + 1..] == Render(tags[1..])
    ensures TagLoop(t, k, k, None, added) == TagLoop(t, q + 1, q + 1, None, added + [tags[0].Meaning()])
  {
    FirstRendered(t, k, tags);
    OneTag(t, k, tags[0], added);
  }

  /** Where the first tag ends and what comes after it. */
  lemma FirstRendered(t: Text, k: nat, tags: seq<StatsdTag>)
    requires tags != [] && k <= |t| && t[k..] == Render(tags)
    ensures var q := k + |tags[0].Rendered()|;
      && q <= |t| && t[k..q] == tags[0].Rendered() && (q < |t| <==> |tags| > 1)
      && (|tags| > 1 ==> t[q] == COMMA && t[q + 1..] == Render(tags[1..]))
  {
    var r := tags[0].Rendered();
    var q := k + |r|;
    assert t[k..q] == t[k..][..|r|] == r;
    if |tags| > 1 {
      assert t[q] == t[k..][|r|] == COMMA;
      assert t[q + 1..] == t[k..][|r| + 1..] == Render(tags[1..]);
    }
  }

  // ---------- what is refused ----------

  ghost predicate NoneEmpty(pairs: seq<Pair>) {
    forall i :: 0 <= i < |pairs| ==> pairs[i].0 != [] && pairs[i].1 != []
  }

  /** No empty key and no empty value is ever added, whatever the text. */
  lemma {:induction false} NothingEmptyAdded(t: Text, p: nat, beginKey: nat, colon: Option<nat>, added: seq<Pair>)
    requires Positions(t, p, beginKey, colon) && NoneEmpty(added)
    ensures var r := TagLoop(t, p, beginKey, colon, added); r.Some? ==> r.value != [] && NoneEmpty(r.value)
    decreases |t| - p
  {
    if p == |t| {
    } else {
      var isColon := At(t, p + 1) == COLON;
      var q := if isColon then p + 2 else p + 1;
      var colon' := if isColon then Some(p + 1) else colon;
      if At(t, q) == COMMA {
        var tag := AddTag(t, beginKey, colon', q);
        if tag.Some? {
          NothingEmptyAdded(t, q + 1, q + 1, None, added + [tag.value]);
        }
      } else {
        NothingEmptyAdded(t, q, beginKey, colon', added);
      }
    }
  }

  /** A key with a colon and nothing behind it is refused. */
  lemma EmptyValueRefused(t: Text, k: nat, m: nat, added: seq<Pair>)
    requires k < m < |t| && Free(t[k..m], COLON, COMMA) && t[m] == COLON && (m + 1 == |t| || t[m + 1] == COMMA)
    ensures TagLoop(t, k, k, None, added) == None
  {
    assert forall i :: k <= i < m ==> t[i] == t[k..m][i - k];
    SkipPlain(t, k, m - 1, k, None, added);
  }

  /** So is nothing at all, and a comma at the end. */
  lemma EmptyKeyRefused(t: Text, added: seq<Pair>)
    ensures TagLoop(t, |t|, |t|, None, added) == None
  {
  }

  lemma TrailingCommaRefused(t: Text, k: nat, tag: StatsdTag, added: seq<Pair>)
    requires tag.Plain() && k <= |t| && t[k..] == tag.Rendered() + [COMMA]
    ensures TagLoop(t, k, k, None, added) == None
  {
    var q := k + |tag.Rendered()|;
    assert t[k..q] == t[k..][..|tag.Rendered()|] && t[q] == t[k..][|tag.Rendered()|];
    OneTag(t, k, tag, added);
    EmptyKeyRefused(t, added + [tag.Meaning()]);
  }
}
