/** Measurement lines: get_measurement of server/spectatord.cc and parse_id of admin/admin_server.cc.

    Both read name,key=value,... by positions.  The number behind the last colon is left to the C library: what is
    modelled is where it starts.
 */
module LineProtocol {
  import opened Bytes
  import opened Protocol

  /** find and find_first_of: the first position from which on one of the two bytes is seen. */
  function Find(s: Text, a: byte, b: byte, from: nat): (r: Option<nat>)
    ensures r.Some? ==> from <= r.value < |s| && (s[r.value] == a || s[r.value] == b)
    decreases |s| - from
  {
    if from >= |s| then None
    else if s[from] == a || s[from] == b then Some(from)
    else Find(s, a, b, from + 1)
  }

  /** What follows the separator at pos: nothing with an equals sign, a tag whose value has no end, or a tag and the
      position of the separator behind it.  A value ends at a comma or at the byte stop. */
  datatype Step = NoKey | Unended(tag: Pair) | Ended(tag: Pair, end: nat)

  function NextTag(s: Text, pos: nat, stop: byte): (r: Step)
    requires pos < |s|
    ensures r.Ended? ==> pos < r.end < |s| && (s[r.end] == COMMA || s[r.end] == stop)
  {
    var from := pos + 1;
    var equals := Find(s, EQUALS, EQUALS, from);
    if equals.None? then NoKey
    else
      var key := s[from..equals.value];
      var end := Find(s, COMMA, stop, equals.value + 1);
      if end.None? then Unended((key, s[equals.value + 1..]))
      else Ended((key, s[equals.value + 1..end.value]), end.value)
  }

  // ---------- get_measurement ----------

  datatype Header =
    | Header(name: Text, tags: seq<Pair>, start: nat)  // the number starts at start
    | MissingName
    | MissingValue

  datatype Tags = Tags(tags: seq<Pair>, stop: nat) | BadTags

  function Prepend(front: seq<Pair>, rest: Tags): Tags {
    if rest.BadTags? then BadTags else Tags(front + rest.tags, rest.stop)
  }

  /** The tags from the separator at pos on, and where the loop stops. */
  function TagsAt(s: Text, pos: nat): (r: Tags)
    requires pos < |s|
    ensures r.Tags? ==> pos <= r.stop <= |s|
    decreases |s| - pos
  {
    if s[pos] == COLON then Tags([], pos)
    else
      match NextTag(s, pos, COLON)
      case NoKey => Tags([], pos + 1)  // the loop is left behind the separator
      case Unended(_) => BadTags
      case Ended(tag, end) => Prepend([tag], TagsAt(s, end))
  }

  function HeaderOf(s: Text): Header {
    var pos := Find(s, COMMA, COLON, 0);
    if pos.None? || pos.value == 0 then MissingName
    else if s[pos.value] == COMMA then
      var r := TagsAt(s, pos.value);
      if r.BadTags? then MissingValue else Header(s[..pos.value], r.tags, r.stop + 1)
    else Header(s[..pos.value], [], pos.value + 1)
  }

  lemma PrependMore(front: seq<Pair>, tag: Pair, rest: Tags)
    ensures Prepend(front, Prepend([tag], rest)) == Prepend(front + [tag], rest)
  {
    if rest.Tags? {
      assert front + ([tag] + rest.tags) == front + [tag] + rest.tags;
    }
  }

  /** get_measurement, up to the number. */
  method GetMeasurement(s: Text) returns (h: Header)
    ensures h == HeaderOf(s)
  {
    var first := Find(s, COMMA, COLON, 0);
    if first.None? || first.value == 0 { return MissingName; }
    var pos := first.value;
    var name, tags := s[..pos], [];
    if s[pos] == COMMA {
      while s[pos] != COLON
        invariant 0 <= pos < |s|
        invariant TagsAt(s, first.value) == Prepend(tags, TagsAt(s, pos))
        decreases |s| - pos
      {
        match NextTag(s, pos, COLON)
        case NoKey => return Header(name, tags, pos + 2);
        case Unended(_) => return MissingValue;
        case Ended(tag, end) =>
          PrependMore(tags, tag, TagsAt(s, end));
          tags, pos := tags + [tag], end;
      }
    }
    return Header(name, tags, pos + 1);
  }

  // ---------- parse_id ----------

  function IdTagsAt(s: Text, pos: nat): seq<Pair>
    requires pos < |s|
    decreases |s| - pos
  {
    match NextTag(s, pos, COMMA)
    case NoKey => []
    case Unended(tag) => [tag]
    case Ended(tag, end) => [tag] + IdTagsAt(s, end)
  }

  function IdOf(s: Text): (Text, seq<Pair>) {
    var pos := Find(s, COMMA, COMMA, 0);
    if pos.None? then (s, []) else (s[..pos.value], IdTagsAt(s, pos.value))
  }

  method ParseId(s: Text) returns (name: Text, tags: seq<Pair>)
    ensures (name, tags) == IdOf(s)
  {
    var first := Find(s, COMMA, COMMA, 0);
    if first.None? { return s, []; }
    name, tags := s[..first.value], [];
    var pos := first;
    while pos.Some?
      invariant pos.Some? ==> pos.value < |s| && IdTagsAt(s, first.value) == tags + IdTagsAt(s, pos.value)
      invariant pos.None? ==> IdTagsAt(s, first.value) == tags
      decreases if pos.Some? then |s| - pos.value else -1
    {
      match NextTag(s, pos.value, COMMA)
      case NoKey =>
        assert tags + [] == tags;
        break;
      case Unended(tag) =>
        tags, pos := tags + [tag], None;
      case Ended(tag, end) =>
        assert tags + ([tag] + IdTagsAt(s, end)) == tags + [tag] + IdTagsAt(s, end);
        tags, pos := tags + [tag], Some(end);
    }
  }

  // ---------- the two agree ----------

  /** A search in a prefix finds what the search in the whole finds before the end of the prefix. */
  lemma {:induction false} FindInPrefix(s: Text, n: nat, a: byte, b: byte, from: nat)
    requires n <= |s|
    ensures var r := Find(s, a, b, from);
      Find(s[..n], a, b, from) == if r.Some? && r.value < n then r else None
    decreases |s| - from
  {
    if from < |s| && s[from] != a && s[from] != b {
      FindInPrefix(s, n, a, b, from + 1);
    }
  }

  /** The search for a comma or colon that stops at a comma is the search for a comma; one that stops at a colon has not
      seen a comma before. */
  lemma {:induction false} FindComma(s: Text, from: nat)
    ensures var r := Find(s, COMMA, COLON, from);
      r.Some? ==> if s[r.value] == COMMA then Find(s, COMMA, COMMA, from) == r
                  else Find(s, COMMA, COMMA, from).Some? ==> Find(s, COMMA, COMMA, from).value > r.value
    decreases |s| - from
  {
    if from < |s| && s[from] != COMMA && s[from] != COLON {
      FindComma(s, from + 1);
    }
  }

  /** One tag, as the two parsers see it when the first one stops somewhere behind it. */
  lemma NextAgrees(s: Text, stop: nat, pos: nat)
    requires pos < stop <= |s| && NextTag(s, pos, COLON).Ended?
    requires var n := NextTag(s, pos, COLON); if s[n.end] == COMMA then n.end < stop else n.end == stop
    ensures var n := NextTag(s, pos, COLON);
      NextTag(s[..stop], pos, COMMA) == if s[n.end] == COMMA then n else Unended(n.tag)
  {
    var n, k := NextTag(s, pos, COLON), Find(s, EQUALS, EQUALS, pos + 1).value;
    FindInPrefix(s, stop, EQUALS, EQUALS, pos + 1);
    FindComma(s, k + 1);
    FindInPrefix(s, stop, COMMA, COMMA, k + 1);
    SliceOfPrefix(s, stop, pos + 1, k);
    SliceOfPrefix(s, stop, k + 1, n.end);
    assert n.end == stop ==> s[..stop][k + 1..] == s[..stop][k + 1..n.end];
  }

  lemma SliceOfPrefix(s: Text, n: nat, a: nat, b: nat)
    requires a <= b <= n <= |s|
    ensures s[..n][a..b] == s[a..b]
  {
  }

  lemma NoKeyInPrefix(s: Text, stop: nat, pos: nat)
    requires pos < stop <= |s| && NextTag(s, pos, COLON).NoKey?
    ensures NextTag(s[..stop], pos, COMMA).NoKey?
  {
    FindInPrefix(s, stop, EQUALS, EQUALS, pos + 1);
  }

  /** The loops of the two parsers see the same tags when the first one stops at a colon. */
  lemma {:induction false} TagsAgree(s: Text, pos: nat)
    requires pos < |s| && s[pos] == COMMA
    requires var r := TagsAt(s, pos); r.Tags? && r.stop < |s| && s[r.stop] == COLON
    ensures var r := TagsAt(s, pos); pos < r.stop && IdTagsAt(s[..r.stop], pos) == r.tags
    decreases |s| - pos
  {
    var r := TagsAt(s, pos);
    match NextTag(s, pos, COLON)
    case NoKey => NoKeyInPrefix(s, r.stop, pos);
    case Unended(_) =>
    case Ended(tag, end) =>
      if s[end] == COMMA {
        TagsAgree(s, end);
      }
      NextAgrees(s, r.stop, pos);
  }

  /** Whatever the line, as long as the number is preceded by a colon, parse_id on the text before that colon gives the
      name and the tags that get_measurement found. */
  lemma ParsersAgree(s: Text)
    requires var h := HeaderOf(s); h.Header? && h.start <= |s| && s[h.start - 1] == COLON
    ensures var h := HeaderOf(s); IdOf(s[..h.start - 1]) == (h.name, h.tags)
  {
    var n := HeaderOf(s).start - 1;
    var pos := Find(s, COMMA, COLON, 0).value;
    if s[pos] == COMMA {
      TagsAgree(s, pos);
    }
    FindComma(s, 0);
    FindInPrefix(s, n, COMMA, COMMA, 0);
    assert s[..n][..pos] == s[..pos];
  }

  // ---------- rendered lines ----------

  /** ,key=value,key=value... */
  function RenderTags(tags: seq<Pair>): Text {
    if tags == [] then [] else [COMMA] + tags[0].0 + [EQUALS] + tags[0].1 + RenderTags(tags[1..])
  }

  function RenderId(name: Text, tags: seq<Pair>): Text {
    name + RenderTags(tags)
  }

  function RenderLine(name: Text, tags: seq<Pair>, number: Text): Text {
    RenderId(name, tags) + [COLON] + number
  }

  /** Keys without equals signs, values without separators. */
  ghost predicate Clean(tags: seq<Pair>) {
    forall i :: 0 <= i < |tags| ==> Free(tags[i].0, EQUALS, EQUALS) && Free(tags[i].1, COMMA, COLON)
  }

  lemma {:induction false} FindIs(s: Text, a: byte, b: byte, from: nat, i: nat)
    requires from <= i < |s| && (s[i] == a || s[i] == b) && Free(s[from..i], a, b)
    ensures Find(s, a, b, from) == Some(i)
    decreases i - from
  {
    if from < i {
      assert s[from] == s[from..i][0] && s[from + 1..i] == s[from..i][1..];
      FindIs(s, a, b, from + 1, i);
    }
  }

  lemma {:induction false} FindNothing(s: Text, a: byte, b: byte, from: nat)
    requires from <= |s| && Free(s[from..], a, b)
    ensures Find(s, a, b, from) == None
    decreases |s| - from
  {
    if from == |s| {
    } else {
      assert s[from] == s[from..][0] && s[from + 1..] == s[from..][1..];
      FindNothing(s, a, b, from + 1);
    }
  }

  /** Where the first tag lies and what comes after it. */
  lemma FirstTag(s: Text, pos: nat, tags: seq<Pair>, rest: Text)
    requires tags != [] && pos <= |s| && s[pos..] == RenderTags(tags) + rest
    ensures var k := pos + 1 + |tags[0].0|; var v := k + 1 + |tags[0].1|;
      && v <= |s| && s[pos] == COMMA && s[pos + 1..k] == tags[0].0 && s[k] == EQUALS && s[k + 1..v] == tags[0].1
      && s[v..] == RenderTags(tags[1..]) + rest
  {
    UnfoldTags(tags, rest);
    Slices(s, pos, tags[0].0, tags[0].1, RenderTags(tags[1..]) + rest);
  }

  lemma StartOf(s: Text, v: nat, t: Text)
    requires v <= |s| && s[v..] == t && t != []
    ensures v < |s| && s[v] == t[0]
  {
  }

  lemma StartsWithComma(tags: seq<Pair>, rest: Text)
    requires tags != []
    ensures RenderTags(tags) + rest != [] && (RenderTags(tags) + rest)[0] == COMMA
  {
  }

  lemma UnfoldTags(tags: seq<Pair>, rest: Text)
    requires tags != []
    ensures RenderTags(tags) + rest
         == [COMMA] + tags[0].0 + [EQUALS] + tags[0].1 + (RenderTags(tags[1..]) + rest)
  {
    Regrouped(tags[0].0, tags[0].1, RenderTags(tags[1..]), rest);
  }

  lemma Regrouped(key: Text, value: Text, more: Text, rest: Text)
    ensures ([COMMA] + key + [EQUALS] + value + more) + rest == [COMMA] + key + [EQUALS] + value + (more + rest)
  {
  }

  lemma Slices(s: Text, pos: nat, key: Text, value: Text, rest: Text)
    requires pos <= |s| && s[pos..] == [COMMA] + key + [EQUALS] + value + rest
    ensures var k := pos + 1 + |key|; var v := k + 1 + |value|;
      && v <= |s| && k < |s| && s[pos] == COMMA && s[pos + 1..k] == key
      && s[k] == EQUALS && s[k + 1..v] == value && s[v..] == rest
  {
    var k := pos + 1 + |key|;
    var v := k + 1 + |value|;
    var u := s[pos..];
    assert u[0] == s[pos] && u[1 + |key|] == s[k];
    assert s[pos + 1..k] == u[1..1 + |key|] == key;
    assert s[k + 1..v] == u[2 + |key|..2 + |key| + |value|] == value;
    assert s[v..] == u[2 + |key| + |value|..] == rest;
  }

  lemma {:induction false} TagsRoundTrip(s: Text, pos: nat, tags: seq<Pair>, number: Text)
    requires Clean(tags) && pos <= |s| && s[pos..] == RenderTags(tags) + ([COLON] + number)
    ensures pos < |s| && TagsAt(s, pos) == Tags(tags, |s| - |number| - 1)
    decreases |tags|
  {
    if tags == [] {
      assert s[pos] == s[pos..][0] == COLON;
    } else {
      var k := pos + 1 + |tags[0].0|;
      var v := k + 1 + |tags[0].1|;
      FirstTag(s, pos, tags, [COLON] + number);
      AfterTag(s, v, tags, number);
      NextIs(s, pos, k, v, tags[0], COLON);
      TagsRoundTrip(s, v, tags[1..], number);
      PrependFirst(tags, |s| - |number| - 1);
    }
  }

  lemma AfterTag(s: Text, v: nat, tags: seq<Pair>, number: Text)
    requires tags != [] && v <= |s| && s[v..] == RenderTags(tags[1..]) + ([COLON] + number)
    ensures v < |s| && s[v] == if |tags| == 1 then COLON else COMMA
  {
    assert s[v] == s[v..][0];
  }

  lemma PrependFirst(tags: seq<Pair>, stop: nat)
    requires tags != []
    ensures Prepend([tags[0]], Tags(tags[1..], stop)) == Tags(tags, stop)
  {
    assert [tags[0]] + tags[1..] == tags;
  }

  lemma NextIs(s: Text, pos: nat, k: nat, v: nat, tag: Pair, stop: byte)
    requires pos < k < v < |s| && s[k] == EQUALS && (s[v] == COMMA || s[v] == stop)
    requires s[pos + 1..k] == tag.0 && s[k + 1..v] == tag.1
    requires Free(tag.0, EQUALS, EQUALS) && Free(tag.1, COMMA, stop)
    ensures NextTag(s, pos, stop) == Ended(tag, v)
  {
    FindIs(s, EQUALS, EQUALS, pos + 1, k);
    FindIs(s, COMMA, stop, k + 1, v);
  }

  lemma NextIsLast(s: Text, pos: nat, k: nat, tag: Pair)
    requires pos < k < |s| && s[k] == EQUALS && s[pos + 1..k] == tag.0 && s[k + 1..] == tag.1
    requires Free(tag.0, EQUALS, EQUALS) && Free(tag.1, COMMA, COMMA)
    ensures NextTag(s, pos, COMMA) == Unended(tag)
  {
    FindIs(s, EQUALS, EQUALS, pos + 1, k);
    FindNothing(s, COMMA, COMMA, k + 1);
  }

  /** get_measurement recovers the name and the tags of a rendered line, and the number starts right behind its
      colon. */
  lemma LineRoundTrip(name: Text, tags: seq<Pair>, number: Text)
    requires name != [] && Free(name, COMMA, COLON) && Clean(tags)
    ensures var s := RenderLine(name, tags, number);
      HeaderOf(s) == Header(name, tags, |s| - |number|) && s[|s| - |number|..] == number
  {
    var s, pos := RenderLine(name, tags, number), |name|;
    LineParts(name, tags, number);
    if tags != [] {
      FirstTag(s, pos, tags, [COLON] + number);
    }
    FindIs(s, COMMA, COLON, 0, pos);
    TagsRoundTrip(s, pos, tags, number);
  }

  lemma LineParts(name: Text, tags: seq<Pair>, number: Text)
    ensures var s, pos := RenderLine(name, tags, number), |name|;
      && pos <= |s| && s[pos..] == RenderTags(tags) + ([COLON] + number)
      && s[0..pos] == name == s[..pos] && |number| <= |s| && s[|s| - |number|..] == number
      && (tags == [] ==> pos < |s| && s[pos] == COLON)
  {
  }

  /** Keys without equals signs, values without commas: a colon does not matter to parse_id. */
  ghost predicate CleanForId(tags: seq<Pair>) {
    forall i :: 0 <= i < |tags| ==> Free(tags[i].0, EQUALS, EQUALS) && Free(tags[i].1, COMMA, COMMA)
  }

  lemma {:induction false} IdTagsRoundTrip(s: Text, pos: nat, tags: seq<Pair>)
    requires tags != [] && CleanForId(tags) && pos <= |s| && s[pos..] == RenderTags(tags)
    ensures pos < |s| && IdTagsAt(s, pos) == tags
    decreases |tags|
  {
    var k := pos + 1 + |tags[0].0|;
    var v := k + 1 + |tags[0].1|;
    FirstIdTag(s, pos, tags);
    if |tags| == 1 {
      NextIsLast(s, pos, k, tags[0]);
      assert tags == [tags[0]];
    } else {
      NextIs(s, pos, k, v, tags[0], COMMA);
      IdTagsRoundTrip(s, v, tags[1..]);
      PrependFirst(tags, 0);
    }
  }

  lemma FirstIdTag(s: Text, pos: nat, tags: seq<Pair>)
    requires tags != [] && pos <= |s| && s[pos..] == RenderTags(tags)
    ensures var k := pos + 1 + |tags[0].0|; var v := k + 1 + |tags[0].1|;
      && v <= |s| && s[pos + 1..k] == tags[0].0 && s[k] == EQUALS && s[k + 1..v] == tags[0].1
      && s[v..] == RenderTags(tags[1..])
      && (if |tags| == 1 then s[k + 1..] == tags[0].1 else v < |s| && s[v] == COMMA)
  {
    var k := pos + 1 + |tags[0].0|;
    var v := k + 1 + |tags[0].1|;
    assert s[pos..] == RenderTags(tags) + [];
    FirstTag(s, pos, tags, []);
    assert s[v..] == RenderTags(tags[1..]);
    if |tags| == 1 {
      assert s[k + 1..] == s[k + 1..v] + s[v..];
    } else {
      StartsWithComma(tags[1..], []);
      StartOf(s, v, RenderTags(tags[1..]) + []);
    }
  }

  /** parse_id recovers name and tags of every rendered id, whatever name it has before the first comma. */
  lemma IdRoundTrip(name: Text, tags: seq<Pair>)
    requires Free(name, COMMA, COMMA) && CleanForId(tags)
    ensures IdOf(RenderId(name, tags)) == (name, tags)
  {
    var s, pos := RenderId(name, tags), |name|;
    assert s[pos..] == RenderTags(tags) && s[..pos] == name;
    if tags == [] {
      assert s[0..] == s == name;
      FindNothing(s, COMMA, COMMA, 0);
    } else {
      assert s[pos] == s[pos..][0] == COMMA && s[0..pos] == name;
      FindIs(s, COMMA, COMMA, 0, pos);
      IdTagsRoundTrip(s, pos, tags);
    }
  }

  // ---------- where the number starts ----------

  /** The last separator that the tag loop of get_measurement stands on. */
  function LastSeparator(s: Text, pos: nat): (p: nat)
    requires pos < |s|
    ensures pos <= p < |s|
    decreases |s| - pos
  {
    if s[pos] == COLON then pos
    else
      match NextTag(s, pos, COLON)
      case Ended(_, end) => LastSeparator(s, end)
      case _ => pos
  }

  lemma {:induction false} StopAtSeparator(s: Text, pos: nat)
    requires pos < |s|
    ensures var r, p := TagsAt(s, pos), LastSeparator(s, pos);
      r.Tags? ==> r.stop == if s[p] == COLON then p else p + 1
    decreases |s| - pos
  {
    if s[pos] == COLON {
    } else if NextTag(s, pos, COLON).Ended? {
      StopAtSeparator(s, NextTag(s, pos, COLON).end);
    }
  }

  /** The number starts inside the text or at its end, except exactly when the tag loop is left at a separator that is
      the last byte: then it starts one byte behind the end. */
  lemma NumberStart(s: Text)
    requires HeaderOf(s).Header?
    ensures var first := Find(s, COMMA, COLON, 0).value;
      HeaderOf(s).start > |s| <==> s[LastSeparator(s, first)] != COLON && LastSeparator(s, first) == |s| - 1
    ensures HeaderOf(s).start <= |s| + 1
  {
    StopAtSeparator(s, Find(s, COMMA, COLON, 0).value);
  }

  /** For example behind an id and a comma. */
  lemma NumberBehindTheEnd(c: byte)
    requires c != COMMA && c != COLON
    ensures HeaderOf([c, COMMA]) == Header([c], [], 3)
  {
    var s := [c, COMMA];
    FindIs(s, COMMA, COLON, 0, 1);
    FindNothing(s, EQUALS, EQUALS, 2);
    assert s[..1] == [c];
  }

  // ---------- the errors ----------

  lemma FreeCons(c: byte, t: Text, a: byte, b: byte)
    ensures Free([c] + t, a, b) <==> c != a && c != b && Free(t, a, b)
  {
    assert forall i :: 0 <= i < |t| ==> ([c] + t)[i + 1] == t[i];
    assert ([c] + t)[0] == c;
  }

  lemma {:induction false} FindNone(s: Text, a: byte, b: byte, from: nat)
    requires from <= |s|
    ensures Find(s, a, b, from) == None <==> Free(s[from..], a, b)
    decreases |s| - from
  {
    if from == |s| {
    } else {
      FindNone(s, a, b, from + 1);
      FreeCons(s[from], s[from + 1..], a, b);
      assert s[from..] == [s[from]] + s[from + 1..];
    }
  }

  /** The name is missing exactly when there is no separator, or nothing in front of the first one. */
  lemma MissingNameExactly(s: Text)
    ensures HeaderOf(s) == MissingName <==>
      Free(s, COMMA, COLON) || (s != [] && (s[0] == COMMA || s[0] == COLON))
  {
    FindNone(s, COMMA, COLON, 0);
    assert s[0..] == s;
    if Find(s, COMMA, COLON, 0).Some? && s[0] != COMMA && s[0] != COLON {
      assert Find(s, COMMA, COLON, 0) == Find(s, COMMA, COLON, 1);
    }
  }

  /** A line that ends inside its last value, without a colon, lacks a value. */
  lemma MissingValueRendered(name: Text, tags: seq<Pair>)
    requires name != [] && Free(name, COMMA, COLON) && Clean(tags) && tags != []
    ensures HeaderOf(RenderId(name, tags)) == MissingValue
  {
    var s, pos := RenderId(name, tags), |name|;
    assert s[pos..] == RenderTags(tags) && s[..pos] == name == s[0..pos];
    FirstIdTag(s, pos, tags);
    assert s[pos] == s[pos..][0] == COMMA;
    FindIs(s, COMMA, COLON, 0, pos);
    NoColonIsBad(s, pos, tags);
  }

  lemma {:induction false} NoColonIsBad(s: Text, pos: nat, tags: seq<Pair>)
    requires tags != [] && Clean(tags) && pos <= |s| && s[pos..] == RenderTags(tags)
    ensures pos < |s| && TagsAt(s, pos) == BadTags
    decreases |tags|
  {
    var k := pos + 1 + |tags[0].0|;
    var v := k + 1 + |tags[0].1|;
    FirstIdTag(s, pos, tags);
    assert s[pos] == s[pos..][0] == COMMA;
    if |tags| == 1 {
      FindIs(s, EQUALS, EQUALS, pos + 1, k);
      FindNothing(s, COMMA, COLON, k + 1);
    } else {
      NextIs(s, pos, k, v, tags[0], COLON);
      NoColonIsBad(s, v, tags[1..]);
    }
  }
}
