/** Feeding the lines of a packet to a parser: parse_lines of server/spectatord.cc.

    The buffer is NUL-terminated and is cut up in place: each newline that ends a line becomes a NUL, runs of newlines
    are skipped, and the errors of all lines are joined.
 */
module LineBuffer {
  import opened Bytes
  import opened Protocol

  // ---------- the lines of a text ----------

  /** Where the first newline is, or the length. */
  function LineEnd(t: Text): (n: nat)
    ensures n <= |t|
  {
    if t == [] || t[0] == NEWLINE then 0 else 1 + LineEnd(t[1..])
  }

  function WithoutNewlines(t: Text): (r: Text)
    ensures |r| <= |t|
  {
    if t != [] && t[0] == NEWLINE then WithoutNewlines(t[1..]) else t
  }

  /** The texts that are fed to the parser. */
  function Lines(t: Text): seq<Text>
    decreases |t|
  {
    if t == [] then []
    else
      var n := LineEnd(t);
      if n == |t| then [t] else [t[..n]] + Lines(WithoutNewlines(t[n + 1..]))
  }

  /** The bytes other than newlines. */
  function Visible(t: Text): Text {
    if t == [] then [] else (if t[0] == NEWLINE then [] else [t[0]]) + Visible(t[1..])
  }

  function Concat(lines: seq<Text>): Text {
    if lines == [] then [] else lines[0] + Concat(lines[1..])
  }

  lemma {:induction false} VisibleSplit(t: Text)
    ensures var n := LineEnd(t);
      Visible(t) == t[..n] + if n < |t| then Visible(t[n + 1..]) else []
  {
    if t != [] && t[0] != NEWLINE {
      var n := LineEnd(t[1..]);
      VisibleSplit(t[1..]);
      assert t[..n + 1] == [t[0]] + t[1..][..n];
      if n < |t[1..]| {
        assert t[1..][n + 1..] == t[n + 2..];
        Associate(t[0], t[1..][..n], Visible(t[n + 2..]));
      } else {
        assert t[1..][..n] + [] == t[1..][..n];
      }
    }
  }

  lemma Associate(a: byte, b: Text, c: Text)
    ensures [a] + (b + c) == [a] + b + c
  {
  }

  lemma {:induction false} VisibleWithoutNewlines(t: Text)
    ensures Visible(WithoutNewlines(t)) == Visible(t)
  {
    if t != [] && t[0] == NEWLINE {
      VisibleWithoutNewlines(t[1..]);
    }
  }

  /** Nothing but newlines is dropped: the lines together are the visible bytes, in order. */
  lemma {:induction false} LinesKeepAll(t: Text)
    ensures Concat(Lines(t)) == Visible(t)
    decreases |t|
  {
    if t == [] {
    } else {
      var n := LineEnd(t);
      VisibleSplit(t);
      if n < |t| {
        var rest := WithoutNewlines(t[n + 1..]);
        LinesKeepAll(rest);
        VisibleWithoutNewlines(t[n + 1..]);
        ConcatCons(t[..n], Lines(rest));
      } else {
        assert t[..n] == t;
        ConcatCons(t, []);
      }
    }
  }

  lemma ConcatCons(line: Text, lines: seq<Text>)
    ensures Concat([line] + lines) == line + Concat(lines)
  {
    assert ([line] + lines)[1..] == lines;
  }

  ghost predicate OneLine(t: Text) {
    forall i :: 0 <= i < |t| ==> t[i] != NEWLINE
  }

  lemma {:induction false} UpToNewline(t: Text)
    ensures OneLine(t[..LineEnd(t)])
    ensures LineEnd(t) < |t| ==> t[LineEnd(t)] == NEWLINE
  {
    if t != [] && t[0] != NEWLINE {
      var n := LineEnd(t[1..]);
      UpToNewline(t[1..]);
      assert t[..n + 1] == [t[0]] + t[1..][..n];
    }
  }

  lemma {:induction false} NoLeadingNewline(t: Text)
    ensures WithoutNewlines(t) != [] ==> WithoutNewlines(t)[0] != NEWLINE
  {
    if t != [] && t[0] == NEWLINE {
      NoLeadingNewline(t[1..]);
    }
  }

  /** The parser sees no newlines, and an empty line only when the text begins with a newline. */
  lemma {:induction false} LinesAreLines(t: Text)
    ensures forall i :: 0 <= i < |Lines(t)| ==>
      OneLine(Lines(t)[i]) && (Lines(t)[i] == [] ==> i == 0 && t[0] == NEWLINE)
    decreases |t|
  {
    if t == [] {
    } else {
      var n := LineEnd(t);
      UpToNewline(t);
      if n < |t| {
        var rest := WithoutNewlines(t[n + 1..]);
        NoLeadingNewline(t[n + 1..]);
        LinesAreLines(rest);
        assert Lines(t) == [t[..n]] + Lines(rest);
      } else {
        assert t[..n] == t;
      }
    }
  }

  function Newlines(n: nat): Text {
    if n == 0 then [] else [NEWLINE] + Newlines(n - 1)
  }

  /** A packet: lines, each ended by one newline and any number of empty lines, and a last line without a newline. */
  function Packet(lines: seq<(Text, nat)>, last: Text): Text {
    if lines == [] then last
    else lines[0].0 + ([NEWLINE] + (Newlines(lines[0].1) + Packet(lines[1..], last)))
  }

  function Texts(lines: seq<(Text, nat)>, last: Text): seq<Text> {
    if lines == [] then if last == [] then [] else [last]
    else [lines[0].0] + Texts(lines[1..], last)
  }

  lemma {:induction false} EndOfLine(line: Text, rest: Text)
    requires OneLine(line)
    ensures LineEnd(line + rest) == |line| + LineEnd(rest)
  {
    if line == [] {
      assert line + rest == rest;
    } else {
      assert (line + rest)[1..] == line[1..] + rest;
      EndOfLine(line[1..], rest);
    }
  }

  lemma {:induction false} NewlinesSkipped(n: nat, rest: Text)
    requires rest != [] ==> rest[0] != NEWLINE
    ensures WithoutNewlines(Newlines(n) + rest) == rest
  {
    if n == 0 {
      assert Newlines(n) + rest == rest;
    } else {
      assert (Newlines(n) + rest)[1..] == Newlines(n - 1) + rest;
      NewlinesSkipped(n - 1, rest);
    }
  }

  /** Non-empty lines come out as they were put in. */
  lemma {:induction false} LinesRoundTrip(lines: seq<(Text, nat)>, last: Text)
    requires forall i :: 0 <= i < |lines| ==> lines[i].0 != [] && OneLine(lines[i].0)
    requires OneLine(last)
    ensures Lines(Packet(lines, last)) == Texts(lines, last)
    decreases |lines|
  {
    if lines == [] {
      EndOfLine(last, []);
      assert last + [] == last;
    } else {
      var line, rest := lines[0].0, Packet(lines[1..], last);
      assert rest != [] ==> rest[0] != NEWLINE;
      LinesRoundTrip(lines[1..], last);
      NewlinesSkipped(lines[0].1, rest);
      FirstOf(line, Newlines(lines[0].1) + rest);
    }
  }

  lemma FirstOf(line: Text, rest: Text)
    requires OneLine(line)
    ensures Lines(line + ([NEWLINE] + rest)) == [line] + Lines(WithoutNewlines(rest))
  {
    EndOfLine(line, [NEWLINE] + rest);
    CutAt(line, NEWLINE, rest);
    LinesUnfold(line + ([NEWLINE] + rest), |line|);
  }

  lemma CutAt(line: Text, b: byte, rest: Text)
    ensures var t := line + ([b] + rest); t[..|line|] == line && t[|line| + 1..] == rest
  {
  }

  lemma LinesUnfold(t: Text, n: nat)
    requires LineEnd(t) == n && n < |t|
    ensures Lines(t) == [t[..n]] + Lines(WithoutNewlines(t[n + 1..]))
  {
  }

  // ---------- what the errors add up to ----------

  /** The joined messages and the two counters of the server. */
  datatype Outcome = Outcome(message: Text, parsed: nat, failed: nat)

  function Join(message: Text, error: Text): Text {
    if message == [] then error else message + [NEWLINE] + error
  }

  function Note(o: Outcome, error: Option<Text>, counting: bool): Outcome {
    if error.Some? then Outcome(Join(o.message, error.value), o.parsed, if counting then o.failed + 1 else o.failed)
    else o.(parsed := if counting then o.parsed + 1 else o.parsed)
  }

  function NoteAll(o: Outcome, lines: seq<Text>, parser: Text -> Option<Text>, counting: bool): Outcome
    decreases |lines|
  {
    if lines == [] then o else NoteAll(Note(o, parser(lines[0]), counting), lines[1..], parser, counting)
  }

  /** Every line is counted once, as parsed or as failed. */
  lemma {:induction false} EveryLineCounted(o: Outcome, lines: seq<Text>, parser: Text -> Option<Text>)
    ensures var r := NoteAll(o, lines, parser, true); r.parsed + r.failed == o.parsed + o.failed + |lines|
    decreases |lines|
  {
    if lines == [] {
    } else {
      EveryLineCounted(Note(o, parser(lines[0]), true), lines[1..], parser);
    }
  }

  /** The messages of the lines that the parser refuses. */
  function ErrorsOf(lines: seq<Text>, parser: Text -> Option<Text>): seq<Text> {
    if lines == [] then []
    else (if parser(lines[0]).Some? then [parser(lines[0]).value] else []) + ErrorsOf(lines[1..], parser)
  }

  /** With status metrics, failed counts the lines with an error and parsed the others; without them neither moves. */
  lemma {:induction false} CountersAre(o: Outcome, lines: seq<Text>, parser: Text -> Option<Text>, counting: bool)
    ensures var r, errors := NoteAll(o, lines, parser, counting), |ErrorsOf(lines, parser)|;
      && errors <= |lines|
      && r.failed == o.failed + (if counting then errors else 0)
      && r.parsed == o.parsed + (if counting then |lines| - errors else 0)
    decreases |lines|
  {
    if lines == [] {
    } else {
      CountersAre(Note(o, parser(lines[0]), counting), lines[1..], parser, counting);
    }
  }

  /** Messages one after the other, with a newline between them. */
  function Intercalated(errors: seq<Text>): Text {
    if errors == [] then []
    else if |errors| == 1 then errors[0]
    else errors[0] + ([NEWLINE] + Intercalated(errors[1..]))
  }

  function Joined(message: Text, more: Text): Text {
    if message == [] then more else if more == [] then message else message + ([NEWLINE] + more)
  }

  /** The result is the messages of all refused lines in order, when none of them is empty. */
  lemma {:induction false} MessageIs(o: Outcome, lines: seq<Text>, parser: Text -> Option<Text>, counting: bool)
    requires forall i :: 0 <= i < |lines| ==> parser(lines[i]) != Some([])
    ensures NoteAll(o, lines, parser, counting).message == Joined(o.message, Intercalated(ErrorsOf(lines, parser)))
    decreases |lines|
  {
    if lines == [] {
    } else {
      var e, rest := parser(lines[0]), ErrorsOf(lines[1..], parser);
      assert forall i :: 0 <= i < |lines[1..]| ==> lines[1..][i] == lines[i + 1];
      MessageIs(Note(o, e, counting), lines[1..], parser, counting);
      if e.Some? {
        FirstError(lines[1..], parser);
        MessageFirst(o.message, e.value, rest);
        assert ErrorsOf(lines, parser) == [e.value] + rest;
      } else {
        assert ErrorsOf(lines, parser) == rest;
      }
    }
  }

  lemma {:induction false} FirstError(lines: seq<Text>, parser: Text -> Option<Text>)
    requires forall i :: 0 <= i < |lines| ==> parser(lines[i]) != Some([])
    ensures ErrorsOf(lines, parser) != [] ==> Intercalated(ErrorsOf(lines, parser)) != []
  {
    if lines == [] {
    } else if parser(lines[0]).None? {
      FirstError(lines[1..], parser);
    }
  }

  lemma MessageFirst(message: Text, error: Text, rest: seq<Text>)
    requires error != [] && (rest != [] ==> Intercalated(rest) != [])
    ensures Joined(Join(message, error), Intercalated(rest)) == Joined(message, Intercalated([error] + rest))
  {
    assert ([error] + rest)[1..] == rest;
  }

  // ---------- the loop on the buffer ----------

  /** strchr for a newline. */
  method FindNewline(buffer: array<byte>, p: nat, ghost n: nat) returns (r: Option<nat>)
    requires EndsAt(buffer, p, n)
    ensures r == if LineEnd(buffer[p..n]) < n - p then Some(p + LineEnd(buffer[p..n])) else None
  {
    var i := p;
    while buffer[i] != NUL && buffer[i] != NEWLINE
      invariant p <= i <= n && LineEnd(buffer[p..n]) == i - p + LineEnd(buffer[i..n])
      decreases n - i
    {
      assert buffer[i..n][1..] == buffer[i + 1..n];
      i := i + 1;
    }
    r := if buffer[i] == NUL then None else Some(i);
  }

  /** The C string that a parser reads from p. */
  method ReadString(buffer: array<byte>, p: nat, ghost n: nat) returns (t: Text)
    requires EndsAt(buffer, p, n)
    ensures t == buffer[p..n]
  {
    var i := p;
    while buffer[i] != NUL
      invariant p <= i <= n
      decreases n - i
    {
      i := i + 1;
    }
    t := buffer[p..i];
  }

  method SkipNewlines(buffer: array<byte>, p: nat, ghost n: nat) returns (q: nat)
    requires EndsAt(buffer, p, n)
    ensures p <= q <= n && buffer[q..n] == WithoutNewlines(buffer[p..n])
  {
    q := p;
    while buffer[q] == NEWLINE
      invariant p <= q <= n && WithoutNewlines(buffer[q..n]) == WithoutNewlines(buffer[p..n])
      decreases n - q
    {
      assert buffer[q..n][1..] == buffer[q + 1..n];
      q := q + 1;
    }
  }

  /** The first line, and then the rest. */
  lemma NoteFirst(o: Outcome, t: Text, parser: Text -> Option<Text>, counting: bool)
    requires t != []
    ensures var n := LineEnd(t);
      NoteAll(o, Lines(t), parser, counting)
      == if n == |t| then Note(o, parser(t[..n]), counting)
         else NoteAll(Note(o, parser(t[..n]), counting), Lines(WithoutNewlines(t[n + 1..])), parser, counting)
  {
    var n := LineEnd(t);
    if n == |t| {
      assert t[..n] == t;
      NoteCons(o, t[..n], [], parser, counting);
    } else {
      NoteCons(o, t[..n], Lines(WithoutNewlines(t[n + 1..])), parser, counting);
    }
  }

  lemma NoteCons(o: Outcome, line: Text, rest: seq<Text>, parser: Text -> Option<Text>, counting: bool)
    ensures NoteAll(o, [line] + rest, parser, counting)
         == NoteAll(Note(o, parser(line), counting), rest, parser, counting)
  {
    assert ([line] + rest)[1..] == rest;
  }

  /** Only newlines were changed, and only to NUL. */
  twostate predicate Cut(buffer: array<byte>)
    reads buffer
  {
    forall i :: 0 <= i < buffer.Length ==>
      buffer[i] == old(buffer[i]) || (old(buffer[i]) == NEWLINE && buffer[i] == NUL)
  }

  /** Ends the line that starts at p and moves behind the newlines that follow. */
  method CutLine(buffer: array<byte>, p: nat, ghost n: nat) returns (line: Text, next: Option<nat>)
    requires EndsAt(buffer, p, n) && p < n
    modifies buffer
    ensures Cut(buffer)
    ensures var t := old(buffer[p..n]); var m := LineEnd(t);
      && line == t[..m] && (next.Some? <==> m < |t|)
      && (next.Some? ==> p < next.value && EndsAt(buffer, next.value, n))
      && (next.Some? ==> buffer[next.value..n] == WithoutNewlines(t[m + 1..]))
  {
    ghost var t := buffer[p..n];
    var newline := FindNewline(buffer, p, n);
    if newline.None? {
      line := ReadString(buffer, p, n);
      return line, None;
    }
    var e := newline.value;
    line := EndLine(buffer, p, e, n);
    var q := SkipNewlines(buffer, e + 1, n);
    next := Some(q);
  }

  /** Overwrites the newline at e, so that the line can be read as a C string. */
  method EndLine(buffer: array<byte>, p: nat, e: nat, ghost n: nat) returns (line: Text)
    requires EndsAt(buffer, p, n) && p <= e < n && e == p + LineEnd(buffer[p..n])
    modifies buffer
    ensures Cut(buffer) && EndsAt(buffer, e + 1, n)
    ensures line == old(buffer[p..n][..e - p]) && buffer[e + 1..n] == old(buffer[p..n][e - p + 1..])
  {
    ghost var t := buffer[p..n];
    UpToNewline(t);
    buffer[e] := NUL;
    line := ReadString(buffer, p, e);
    assert line == t[..e - p] && buffer[e + 1..n] == t[e - p + 1..];
  }

  /** Feeds the line that starts at p. */
  method FeedLine(buffer: array<byte>, p: nat, o: Outcome, parser: Text -> Option<Text>, counting: bool, ghost n: nat)
    returns (next: Option<nat>, outcome: Outcome)
    requires EndsAt(buffer, p, n) && p < n
    modifies buffer
    ensures Cut(buffer)
    ensures next.Some? ==> p < next.value && EndsAt(buffer, next.value, n)
    ensures NoteAll(o, Lines(old(buffer[p..n])), parser, counting)
         == if next.None? then outcome else NoteAll(outcome, Lines(buffer[next.value..n]), parser, counting)
  {
    ghost var t := buffer[p..n];
    NoteFirst(o, t, parser, counting);
    var line;
    line, next := CutLine(buffer, p, n);
    assert line == t[..LineEnd(t)];
    outcome := Note(o, parser(line), counting);
  }

  /** The parser gets the lines of the text in order; None is an error-free packet. */
  method ParseLines(buffer: array<byte>, parser: Text -> Option<Text>, counting: bool, ghost n: nat)
    returns (error: Option<Text>, outcome: Outcome)
    requires EndsAt(buffer, 0, n)
    modifies buffer
    ensures Cut(buffer)
    ensures outcome == NoteAll(Outcome([], 0, 0), old(Lines(buffer[..n])), parser, counting)
    ensures error == if outcome.message == [] then None else Some(outcome.message)
  {
    var p: nat := 0;
    outcome := Outcome([], 0, 0);
    ghost var rest := buffer[..n];
    ghost var goal := NoteAll(outcome, Lines(rest), parser, counting);
    while buffer[p] != NUL
      invariant EndsAt(buffer, p, n) && rest == buffer[p..n]
      invariant Cut(buffer)
      invariant goal == NoteAll(outcome, Lines(rest), parser, counting)
      decreases n - p
    {
      var next;
      next, outcome := FeedLine(buffer, p, outcome, parser, counting, n);
      rest := [];
      if next.None? { break; }
      p := next.value;
      rest := buffer[p..n];
    }
    assert rest == [];
    error := if outcome.message == [] then None else Some(outcome.message);
  }
}
