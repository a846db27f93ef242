/**
 The event-stream reader emitted into the web client (`consumeApiEventStream`, written out by
 tools/generate_contracts.py) and the frames the service sends it.

 The reader appends each decoded chunk to a buffer, rewrites CR LF to LF in the whole buffer, and cuts off a
 block at every blank line.  Its answer is compared with reading the concatenated text in one piece.
 */
module EventStream {
  import opened Wrappers
  import opened Sequences

  datatype Event = Event(event: string, id: Option<string>, data: string)

  // ----- string operations of the host language

  predicate CrLfAt(s: string, i: nat) {
    i + 1 < |s| && s[i] == '\r' && s[i + 1] == '\n'
  }

  predicate CrCrLfAt(s: string, i: nat) {
    i + 2 < |s| && s[i] == '\r' && s[i + 1] == '\r' && s[i + 2] == '\n'
  }

  ghost predicate HasCrLf(s: string) {
    exists i: nat :: CrLfAt(s, i)
  }

  ghost predicate HasCrCrLf(s: string) {
    exists i: nat :: CrCrLfAt(s, i)
  }

  predicate BlankLineAt(s: string, i: nat) {
    i + 1 < |s| && s[i] == '\n' && s[i + 1] == '\n'
  }

  predicate EndsWith(s: string, c: char) {
    s != [] && s[|s| - 1] == c
  }

  predicate StartsWith(s: string, c: char) {
    s != [] && s[0] == c
  }

  /** `replaceAll('\r\n', '\n')`: one pass, left to right. */
  function Normalise(s: string): string {
    if s == [] then []
    else if |s| >= 2 && s[0] == '\r' && s[1] == '\n' then ['\n'] + Normalise(s[2..])
    else [s[0]] + Normalise(s[1..])
  }

  /** `indexOf('\n\n')`. */
  function Boundary(s: string): (r: Option<nat>)
    ensures r.Some? ==> BlankLineAt(s, r.value)
    ensures forall i: nat :: BlankLineAt(s, i) ==> r.Some? && r.value <= i
  {
    if |s| < 2 then None
    else if BlankLineAt(s, 0) then Some(0)
    else
      var later := Boundary(s[1..]);
      assert forall i: nat :: BlankLineAt(s, i) ==> i > 0 && BlankLineAt(s[1..], i - 1);
      if later.None? then None else Some(later.value + 1)
  }

  function IndexOf(s: string, c: char): (r: Option<nat>)
    ensures r.None? ==> c !in s
    ensures r.Some? ==> r.value < |s| && s[r.value] == c && c !in s[..r.value]
  {
    if s == [] then None
    else if s[0] == c then Some(0)
    else
      match IndexOf(s[1..], c)
      case None => None
      case Some(i) => assert s[..i + 1] == [s[0]] + s[1..][..i]; Some(i + 1)
  }

  /** `split('\n')`. */
  function SplitLines(s: string): (lines: seq<string>)
    ensures lines != []
    decreases |s|
  {
    match IndexOf(s, '\n')
    case None => [s]
    case Some(i) => [s[..i]] + SplitLines(s[i + 1..])
  }

  /** `join('\n')`. */
  function Join(lines: seq<string>): string {
    if lines == [] then []
    else if |lines| == 1 then lines[0]
    else lines[0] + ['\n'] + Join(lines[1..])
  }

  function Flatten(chunks: seq<string>): string {
    if chunks == [] then [] else chunks[0] + Flatten(chunks[1..])
  }

  /** White space and line terminators, as `trim` removes them. */
  predicate IsSpace(c: char) {
    || c in "\t\n\U{000B}\U{000C}\r \U{00A0}\U{1680}\U{2028}\U{2029}\U{202F}\U{205F}\U{3000}\U{FEFF}"
    || '\U{2000}' <= c <= '\U{200A}'
  }

  predicate IsBlank(s: string) {
    forall i :: 0 <= i < |s| ==> IsSpace(s[i])
  }

  // ----- one block

  /** The field name and value of a line; comments and empty lines have none. */
  function FieldOf(rawLine: string): Option<(string, string)> {
    var line := if EndsWith(rawLine, '\r') then rawLine[..|rawLine| - 1] else rawLine;
    if StartsWith(line, ':') || line == [] then None
    else
      match IndexOf(line, ':')
      case None => Some((line, ""))
      case Some(i) =>
        var value := line[i + 1..];
        Some((line[..i], if StartsWith(value, ' ') then value[1..] else value))
  }

  /** Every value given to `name`, in order. */
  function ValuesOf(name: string, lines: seq<string>): seq<string> {
    if lines == [] then []
    else
      var earlier, field := ValuesOf(name, lines[..|lines| - 1]), FieldOf(lines[|lines| - 1]);
      if field.Some? && field.value.0 == name then earlier + [field.value.1] else earlier
  }

  function Last(values: seq<string>): Option<string> {
    if values == [] then None else Some(values[|values| - 1])
  }

  function NameOf(values: seq<string>): string {
    if values == [] then "message" else values[|values| - 1]
  }

  /** The last `event` and `id` win, the `data` lines are joined, and a block without data says nothing. */
  function EventOf(block: string): Option<Event> {
    var lines := SplitLines(block);
    var data := ValuesOf("data", lines);
    if data == [] then None
    else Some(Event(NameOf(ValuesOf("event", lines)), Last(ValuesOf("id", lines)), Join(data)))
  }

  method DispatchBlock(block: string) returns (dispatched: Option<Event>)
    ensures dispatched == EventOf(block)
  {
    var event := "message";
    var id: Option<string> := None;
    var data: seq<string> := [];
    var lines := SplitLines(block);
    for i := 0 to |lines|
      invariant event == NameOf(ValuesOf("event", lines[..i]))
      invariant id == Last(ValuesOf("id", lines[..i]))
      invariant data == ValuesOf("data", lines[..i])
    {
      var rawLine := lines[i];
      ValuesStep("event", lines, i);
      ValuesStep("id", lines, i);
      ValuesStep("data", lines, i);
      var field := FieldOf(rawLine);
      if field.None? {
        continue;
      }
      var (name, value) := field.value;
      if name == "event" {
        event := value;
      } else if name == "id" {
        id := Some(value);
      } else if name == "data" {
        data := data + [value];
      }
    }
    assert lines[..|lines|] == lines;
    if data == [] {
      return None;
    }
    return Some(Event(event, id, Join(data)));
  }

  lemma ValuesStep(name: string, lines: seq<string>, i: nat)
    requires i < |lines|
    ensures var field := FieldOf(lines[i]);
            ValuesOf(name, lines[..i + 1]) ==
              ValuesOf(name, lines[..i]) + if field.Some? && field.value.0 == name then [field.value.1] else []
  {
    assert lines[..i + 1][..i] == lines[..i];
  }

  // ----- the buffer

  /** The blocks cut off at blank lines, and the text after the last of them. */
  function Split(s: string): (seq<string>, string)
    decreases |s|
  {
    match Boundary(s)
    case None => ([], s)
    case Some(i) =>
      var rest := Split(s[i + 2..]);
      ([s[..i]] + rest.0, rest.1)
  }

  function EventsOfBlocks(blocks: seq<string>): seq<Event> {
    if blocks == [] then []
    else
      var event := EventOf(blocks[0]);
      (if event.Some? then [event.value] else []) + EventsOfBlocks(blocks[1..])
  }

  /** What the reader delivers from `chunks` when `pending` is already buffered. */
  function Read(pending: string, chunks: seq<string>): seq<Event>
    decreases |chunks|
  {
    if chunks == [] then
      if IsBlank(pending) then [] else EventsOfBlocks([pending])
    else
      var cut := Split(Normalise(pending + chunks[0]));
      EventsOfBlocks(cut.0) + Read(cut.1, chunks[1..])
  }

  /** Reading the whole text in one piece. */
  function EventsOf(text: string): seq<Event> {
    Read([], [text])
  }

  method Consume(chunks: seq<string>) returns (events: seq<Event>)
    ensures events == Read([], chunks)
    ensures !HasCrCrLf(Flatten(chunks)) ==> events == EventsOf(Flatten(chunks))
  {
    events := [];
    var pending := "";
    for n := 0 to |chunks|
      invariant events + Read(pending, chunks[n..]) == Read([], chunks)
    {
      assert chunks[n..][1..] == chunks[n + 1..];
      var found;
      pending := pending + chunks[n];
      pending := Normalise(pending);
      found, pending := DispatchBlocks(pending);
      Regroup(events, found, Read(pending, chunks[n + 1..]));
      events := events + found;
    }
    assert chunks[|chunks|..] == [] && events + [] == events;
    assert EventsOfBlocks([pending][1..]) == [];
    if !IsBlank(pending) {
      var event := DispatchBlock(pending);
      if event.Some? {
        events := events + [event.value];
      }
    }
    if !HasCrCrLf(Flatten(chunks)) {
      assert [] + Flatten(chunks) == Flatten(chunks);
      ChunkingIsInvisible([], chunks);
    }
  }

  /** The inner loop: dispatch every complete block and keep the rest. */
  method DispatchBlocks(buffer: string) returns (events: seq<Event>, pending: string)
    ensures events == EventsOfBlocks(Split(buffer).0) && pending == Split(buffer).1
  {
    hide Split, EventsOfBlocks, Boundary;
    events, pending := [], buffer;
    NothingToSplit(buffer);
    var boundary := Boundary(pending);
    while boundary.Some?
      invariant boundary == Boundary(pending)
      invariant EventsOfBlocks(Split(buffer).0) == events + EventsOfBlocks(Split(pending).0)
      invariant Split(buffer).1 == Split(pending).1
      decreases |pending|
    {
      FirstBlock(pending);
      EventsOfFirst(pending[..boundary.value], Split(pending[boundary.value + 2..]).0, events);
      var event := DispatchBlock(pending[..boundary.value]);
      if event.Some? {
        events := events + [event.value];
      }
      pending := pending[boundary.value + 2..];
      boundary := Boundary(pending);
    }
    NothingToSplit(pending);
    assert events + [] == events;
  }

  lemma NothingToSplit(s: string)
    ensures Boundary(s).None? ==> Split(s) == ([], s)
    ensures EventsOfBlocks([]) == []
  {
  }

  lemma FirstBlock(s: string)
    requires Boundary(s).Some?
    ensures var i := Boundary(s).value;
            Split(s) == ([s[..i]] + Split(s[i + 2..]).0, Split(s[i + 2..]).1)
  {
  }

  lemma EventsOfFirst(block: string, later: seq<string>, events: seq<Event>)
    ensures var event := EventOf(block);
            events + EventsOfBlocks([block] + later) ==
              (if event.Some? then events + [event.value] else events) + EventsOfBlocks(later)
  {
    var event := EventOf(block);
    assert ([block] + later)[1..] == later;
    if event.Some? { Regroup(events, [event.value], EventsOfBlocks(later)); }
  }

  // ----- chunk independence

  predicate Overlap(a: string, b: string) {
    EndsWith(a, '\r') && StartsWith(b, '\n')
  }

  function DropLast(s: string): string
    requires s != []
  {
    s[..|s| - 1]
  }

  lemma {:induction false} NormaliseApart(a: string, b: string)
    requires !Overlap(a, b)
    ensures Normalise(a + b) == Normalise(a) + Normalise(b)
    decreases |a|
  {
    if a == [] {
      assert a + b == b;
    } else {
      var k := if CrLfAt(a, 0) then 2 else 1;
      var head: string := if k == 2 then ['\n'] else [a[0]];
      var rest := a[k..];
      assert Overlap(rest, b) ==> Overlap(a, b);
      assert (a + b)[k..] == rest + b;
      NormaliseApart(rest, b);
      assert Normalise(a) == head + Normalise(rest);
      assert Normalise(a + b) == head + Normalise(rest + b) by { assert CrLfAt(a + b, 0) == CrLfAt(a, 0); }
      Regroup(head, Normalise(rest), Normalise(b));
    }
  }

  lemma NormaliseSnoc(a: string, c: char)
    requires !(EndsWith(a, '\r') && c == '\n')
    ensures Normalise(a + [c]) == Normalise(a) + [c]
  {
    NormaliseApart(a, [c]);
    assert Normalise([c]) == [c];
  }

  lemma NormaliseJoin(a: string, b: string)
    ensures Normalise(a + (['\r', '\n'] + b)) == Normalise(a) + (['\n'] + Normalise(b))
  {
    NormaliseApart(a, ['\r', '\n'] + b);
    assert (['\r', '\n'] + b)[2..] == b;
  }

  lemma NormaliseEnd(a: string)
    ensures EndsWith(Normalise(a), '\r') <==> EndsWith(a, '\r')
    ensures EndsWith(a, '\r') ==> Normalise(a) == Normalise(DropLast(a)) + ['\r']
  {
    if a != [] {
      var front, c := DropLast(a), a[|a| - 1];
      assert a == front + [c];
      if EndsWith(front, '\r') && c == '\n' {
        NormaliseJoin(DropLast(front), []);
        assert a == DropLast(front) + (['\r', '\n'] + []);
      } else {
        NormaliseSnoc(front, c);
      }
    }
  }

  /** `Normalise(a)` without a trailing CR that the following LF absorbs. */
  function Kept(a: string, b: string): string {
    if Overlap(a, b) then Normalise(DropLast(a)) else Normalise(a)
  }

  lemma NormaliseConcat(a: string, b: string)
    ensures Normalise(a + b) == Kept(a, b) + Normalise(b)
  {
    if Overlap(a, b) {
      NormaliseAcross(DropLast(a), b[1..]);
      assert a == DropLast(a) + ['\r'] && b == ['\n'] + b[1..];
    } else {
      NormaliseApart(a, b);
    }
  }

  lemma NormaliseAcross(front: string, tail: string)
    ensures Normalise((front + ['\r']) + (['\n'] + tail)) == Normalise(front) + Normalise(['\n'] + tail)
  {
    NormaliseJoin(front, tail);
    Regroup(['\r'], ['\n'], tail);
    Regroup(front, ['\r'], ['\n'] + tail);
    assert ['\r'] + ['\n'] == ['\r', '\n'];
    NormaliseApart(['\n'], tail);
    assert Normalise(['\n']) == ['\n'];
  }

  lemma CrLfFreeParts(a: string, b: string)
    ensures HasCrLf(a) || HasCrLf(b) ==> HasCrLf(a + b)
  {
    if i: nat :| CrLfAt(a, i) {
      assert CrLfAt(a + b, i);
    } else if i: nat :| CrLfAt(b, i) {
      assert CrLfAt(a + b, |a| + i);
    }
  }

  lemma CrLfFreeSnoc(a: string, c: char)
    ensures HasCrLf(a + [c]) ==> HasCrLf(a) || (EndsWith(a, '\r') && c == '\n')
  {
    if i: nat :| CrLfAt(a + [c], i) {
      assert i + 1 < |a| ==> CrLfAt(a, i);
    }
  }

  /** Without CR CR LF one pass leaves no CR LF behind, so a second pass changes nothing. */
  lemma {:induction false} NormaliseSettles(a: string)
    requires !HasCrCrLf(a)
    ensures !HasCrLf(Normalise(a))
    decreases |a|
  {
    if a != [] {
      var front, c := DropLast(a), a[|a| - 1];
      assert a == front + [c];
      CrCrLfFreeParts(front, [c]);
      NormaliseSettles(front);
      NormaliseEnd(front);
      if EndsWith(front, '\r') && c == '\n' {
        var earlier := DropLast(front);
        assert a == earlier + (['\r', '\n'] + []);
        NormaliseJoin(earlier, []);
        NormaliseEnd(earlier);
        assert |a| >= 3 ==> !CrCrLfAt(a, |a| - 3);
        CrLfFreeParts(Normalise(earlier), ['\r']);
        CrLfFreeSnoc(Normalise(earlier), '\n');
        assert ['\n'] + Normalise([]) == ['\n'];
      } else {
        NormaliseSnoc(front, c);
        CrLfFreeSnoc(Normalise(front), c);
      }
    }
  }

  lemma {:induction false} NormaliseFixed(a: string)
    requires !HasCrLf(a)
    ensures Normalise(a) == a
    decreases |a|
  {
    if a != [] {
      assert !CrLfAt(a, 0);
      assert a == [a[0]] + a[1..];
      CrLfFreeParts([a[0]], a[1..]);
      NormaliseFixed(a[1..]);
    }
  }

  lemma CrCrLfFreeParts(a: string, b: string)
    ensures HasCrCrLf(a) ==> HasCrCrLf(a + b)
  {
    if i: nat :| CrCrLfAt(a, i) {
      assert CrCrLfAt(a + b, i);
    }
  }

  /** Normalising what is buffered before the next chunk arrives makes no difference. */
  lemma NormaliseIncrementally(a: string, b: string)
    requires !HasCrCrLf(a)
    ensures Normalise(Normalise(a) + b) == Normalise(a + b)
  {
    NormaliseSettles(a);
    NormaliseEnd(a);
    NormaliseFixed(Normalise(a));
    NormaliseConcat(a, b);
    NormaliseConcat(Normalise(a), b);
    if Overlap(a, b) {
      CrLfFreeParts(Normalise(DropLast(a)), ['\r']);
      NormaliseFixed(Normalise(DropLast(a)));
      assert DropLast(Normalise(a)) == Normalise(DropLast(a));
    }
  }

  lemma FirstBoundary(u: string, i: nat, y: string)
    requires Boundary(u) == Some(i)
    ensures Boundary(u[..i + 2] + y) == Some(i)
  {
    var s := u[..i + 2] + y;
    assert BlankLineAt(u, i) && BlankLineAt(s, i);
    var r := Boundary(s);
    if r.value < i {
      assert BlankLineAt(s, r.value) && BlankLineAt(u, r.value);
    }
  }

  /** The text of `u` up to and including its last blank line. */
  function Consumed(u: string): string
    decreases |u|
  {
    match Boundary(u)
    case None => []
    case Some(i) => u[..i + 2] + Consumed(u[i + 2..])
  }

  lemma {:induction false} SplitParts(u: string)
    ensures u == Consumed(u) + Split(u).1
    ensures Consumed(u) != [] ==> EndsWith(Consumed(u), '\n')
    ensures Boundary(Split(u).1).None?
    decreases |u|
  {
    match Boundary(u)
    case None =>
    case Some(i) =>
      var head, tail := u[..i + 2], u[i + 2..];
      SplitParts(tail);
      assert u == head + tail;
      assert head + (Consumed(tail) + Split(tail).1) == (head + Consumed(tail)) + Split(tail).1;
      assert EndsWith(head, '\n');
  }

  /** Text cut off the front of `u` cuts the same blocks off the front of whatever follows it. */
  lemma {:induction false} SplitPrefix(u: string, y: string)
    ensures Split(Consumed(u) + y) == (Split(u).0 + Split(y).0, Split(y).1)
    decreases |u|
  {
    match Boundary(u)
    case None =>
      assert Consumed(u) + y == y && [] + Split(y).0 == Split(y).0;
    case Some(i) =>
      var head, tail := u[..i + 2], u[i + 2..];
      var s := Consumed(u) + y;
      SplitPrefix(tail, y);
      Regroup(head, Consumed(tail), y);
      FirstBoundary(u, i, Consumed(tail) + y);
      assert s[i + 2..] == Consumed(tail) + y;
      assert s[..i] == u[..i];
      Regroup([u[..i]], Split(tail).0, Split(y).0);
  }

  /** What is left in the buffer cannot complete a CR CR LF that the text does not contain. */
  lemma LeftoverHasNoDoubledReturn(a: string, consumed: string, leftover: string, after: string)
    requires Normalise(a) == consumed + leftover
    ensures HasCrCrLf(leftover + after) ==> HasCrCrLf(a + after)
  {
    if i: nat :| CrCrLfAt(leftover + after, i) {
      if i + 3 <= |leftover| {
        assert CrLfAt(leftover, i + 1);
        CrLfFreeParts(consumed, leftover);
        if !HasCrCrLf(a) { NormaliseSettles(a); }
        CrCrLfFreeParts(a, after);
      } else if i >= |leftover| {
        assert CrCrLfAt(a + after, i - |leftover| + |a|);
      } else {
        SpanningReturn(a, consumed, leftover, after, i);
      }
    }
  }

  lemma SpanningReturn(a: string, consumed: string, leftover: string, after: string, i: nat)
    requires Normalise(a) == consumed + leftover
    requires CrCrLfAt(leftover + after, i) && i < |leftover| < i + 3
    ensures HasCrCrLf(a + after)
  {
    var n := Normalise(a);
    assert n[|n| - 1] == leftover[|leftover| - 1] == '\r';
    NormaliseEnd(a);
    var earlier := DropLast(a);
    if i + 2 == |leftover| {
      assert n[|n| - 2] == leftover[i] == '\r';
      assert Normalise(earlier)[|n| - 2] == n[|n| - 2];
      NormaliseEnd(earlier);
      assert a[|a| - 2] == earlier[|a| - 2];
      assert CrCrLfAt(a + after, |a| - 2);
    } else {
      assert CrCrLfAt(a + after, |a| - 1);
    }
  }

  /** The heart of the reader: buffering, normalising and cutting chunk by chunk loses and adds nothing. */
  lemma {:induction false} ChunkingIsInvisible(pending: string, chunks: seq<string>)
    requires !HasCrLf(pending) && Boundary(pending).None?
    requires !HasCrCrLf(pending + Flatten(chunks))
    ensures Read(pending, chunks) == EventsOf(pending + Flatten(chunks))
    decreases |chunks|
  {
    if chunks == [] {
      assert pending + Flatten(chunks) == pending;
      NormaliseFixed(pending);
      EventsOfWhole(pending);
    } else {
      var a, after := pending + chunks[0], Flatten(chunks[1..]);
      assert pending + Flatten(chunks) == a + after;
      var n := Normalise(a);
      var consumed, rest := Consumed(n), Split(n).1;
      SplitParts(n);
      CrCrLfFreeParts(a, after);
      NormaliseSettles(a);
      CrLfFreeParts(consumed, rest);
      LeftoverHasNoDoubledReturn(a, consumed, rest, after);
      ChunkingIsInvisible(rest, chunks[1..]);
      CutThenAppend(a, after);
    }
  }

  lemma EventsOfWhole(text: string)
    ensures var cut := Split(Normalise(text));
            EventsOf(text) == EventsOfBlocks(cut.0) + Read(cut.1, [])
  {
    assert [] + text == text && [text][1..] == [];
  }

  /** Reading `a + after` first delivers the blocks that `a` alone completes. */
  lemma CutThenAppend(a: string, after: string)
    requires !HasCrCrLf(a)
    ensures var cut := Split(Normalise(a));
            EventsOf(a + after) == EventsOfBlocks(cut.0) + EventsOf(cut.1 + after)
  {
    var n := Normalise(a);
    var rest := Split(n).1;
    var tail := Normalise(rest + after);
    NormaliseAfterCut(a, after);
    SplitPrefix(n, tail);
    EventsOfWhole(a + after);
    EventsOfWhole(rest + after);
    EventsOfBlocksConcat(Split(n).0, Split(tail).0);
    Regroup(EventsOfBlocks(Split(n).0), EventsOfBlocks(Split(tail).0), Read(Split(tail).1, []));
  }

  lemma NormaliseAfterCut(a: string, after: string)
    requires !HasCrCrLf(a)
    ensures var n := Normalise(a);
            Normalise(a + after) == Consumed(n) + Normalise(Split(n).1 + after)
  {
    hide Normalise, Split, Consumed, Boundary;
    var n := Normalise(a);
    var consumed, rest := Consumed(n), Split(n).1;
    SplitParts(n);
    NormaliseSettles(a);
    NormaliseIncrementally(a, after);
    CrLfFreeParts(consumed, rest);
    NormaliseFixed(consumed);
    assert n + after == consumed + (rest + after);
    NormaliseApart(consumed, rest + after);
  }

  lemma {:induction false} EventsOfBlocksConcat(a: seq<string>, b: seq<string>)
    ensures EventsOfBlocks(a + b) == EventsOfBlocks(a) + EventsOfBlocks(b)
    decreases |a|
  {
    if a == [] {
      assert a + b == b;
    } else {
      assert (a + b)[1..] == a[1..] + b;
      EventsOfBlocksConcat(a[1..], b);
      var event := EventOf(a[0]);
      Regroup(if event.Some? then [event.value] else [], EventsOfBlocks(a[1..]), EventsOfBlocks(b));
    }
  }

  /** CR CR LF is exactly what makes the moment of normalising visible in the buffer. */
  lemma IncrementalIffNoDoubledReturn(text: string)
    ensures (forall a, b :: a + b == text ==> Normalise(Normalise(a) + b) == Normalise(text)) <==> !HasCrCrLf(text)
  {
    if !HasCrCrLf(text) {
      forall a, b | a + b == text ensures Normalise(Normalise(a) + b) == Normalise(text) {
        CrCrLfFreeParts(a, b);
        NormaliseIncrementally(a, b);
      }
    } else {
      var i: nat :| CrCrLfAt(text, i);
      var a, b := text[..i + 1], text[i + 1..];
      assert text == a + b && text + [] == text;
      NormaliseApart(a, b);
      NormaliseEnd(a);
      var n, k := Normalise(text), |Normalise(a)|;
      assert CrLfAt(b, 0) && Normalise(b) == ['\n'] + Normalise(b[2..]);
      assert n[k - 1] == '\r' && n[k] == '\n';
      assert CrLfAt(n, k - 1);
      SecondPassShrinks(n);
      assert n + [] == n;
    }
  }

  lemma {:induction false} SecondPassShrinks(n: string)
    ensures |Normalise(n)| <= |n|
    ensures HasCrLf(n) ==> |Normalise(n)| < |n|
    decreases |n|
  {
    if n != [] {
      if CrLfAt(n, 0) {
        SecondPassShrinks(n[2..]);
      } else {
        SecondPassShrinks(n[1..]);
        if HasCrLf(n) {
          var i: nat :| CrLfAt(n, i);
          assert CrLfAt(n[1..], i - 1);
        }
      }
    }
  }

  // ----- the frames the service sends, and reading them back

  datatype Frame =
    | Retry(milliseconds: string)
    | KeepAlive(comment: string)
    | Message(id: Option<string>, event: string, data: seq<string>)

  predicate Plain(s: string) {
    '\r' !in s && '\n' !in s
  }

  /** Every field fits on one line, and a message has at least one line of data. */
  predicate Sendable(f: Frame) {
    match f
    case Retry(ms) => Plain(ms)
    case KeepAlive(c) => Plain(c)
    case Message(id, event, data) =>
      (id.Some? ==> Plain(id.value)) && Plain(event) && data != [] && forall i :: 0 <= i < |data| ==> Plain(data[i])
  }

  function Field(name: string, value: string): string {
    name + ": " + value
  }

  function FieldLines(name: string, values: seq<string>): seq<string> {
    if values == [] then []
    else FieldLines(name, values[..|values| - 1]) + [Field(name, values[|values| - 1])]
  }

  function FrameLines(f: Frame): seq<string> {
    match f
    case Retry(ms) => [Field("retry", ms)]
    case KeepAlive(c) => [":" + c]
    case Message(id, event, data) =>
      (if id.Some? then [Field("id", id.value)] else []) + [Field("event", event)] + FieldLines("data", data)
  }

  /** A frame is its lines and a blank line. */
  function EncodeAll(frames: seq<Frame>): string {
    if frames == [] then []
    else Join(FrameLines(frames[0])) + (['\n', '\n'] + EncodeAll(frames[1..]))
  }

  /** Only messages are events, and they arrive as they were sent. */
  function Sent(frames: seq<Frame>): seq<Event> {
    if frames == [] then []
    else
      (match frames[0]
       case Message(id, event, data) => [Event(event, id, Join(data))]
       case _ => []) + Sent(frames[1..])
  }

  predicate Lines(lines: seq<string>) {
    forall i :: 0 <= i < |lines| ==> lines[i] != [] && Plain(lines[i])
  }

  lemma {:induction false} FrameLinesPlain(f: Frame)
    requires Sendable(f)
    ensures FrameLines(f) != [] && Lines(FrameLines(f))
  {
    if f.Message? { FieldLinesPlain("data", f.data); }
  }

  lemma {:induction false} FieldLinesPlain(name: string, values: seq<string>)
    requires Plain(name) && forall i :: 0 <= i < |values| ==> Plain(values[i])
    ensures Lines(FieldLines(name, values))
    decreases |values|
  {
    if values != [] { FieldLinesPlain(name, values[..|values| - 1]); }
  }

  lemma {:induction false} JoinHasNoReturn(lines: seq<string>)
    requires Lines(lines)
    ensures '\r' !in Join(lines)
    decreases |lines|
  {
    if |lines| > 1 { JoinHasNoReturn(lines[1..]); }
  }

  lemma {:induction false} EncodedHasNoReturn(frames: seq<Frame>)
    requires forall i :: 0 <= i < |frames| ==> Sendable(frames[i])
    ensures '\r' !in EncodeAll(frames)
    decreases |frames|
  {
    if frames != [] {
      FrameLinesPlain(frames[0]);
      JoinHasNoReturn(FrameLines(frames[0]));
      EncodedHasNoReturn(frames[1..]);
    }
  }

  /** No blank line starts inside a line without a line feed. */
  lemma {:induction false} BoundaryAfterLine(line: string, rest: string)
    requires '\n' !in line
    ensures Boundary(line + rest) == if Boundary(rest).None? then None else Some(|line| + Boundary(rest).value)
    decreases |line|
  {
    if line == [] {
      assert line + rest == rest;
    } else {
      assert (line + rest)[1..] == line[1..] + rest;
      BoundaryAfterLine(line[1..], rest);
    }
  }

  lemma {:induction false} BoundaryAfterJoin(lines: seq<string>, rest: string)
    requires lines != [] && Lines(lines)
    ensures Boundary(Join(lines) + (['\n', '\n'] + rest)) == Some(|Join(lines)|)
    decreases |lines|
  {
    var tail := ['\n', '\n'] + rest;
    if |lines| == 1 {
      assert BlankLineAt(tail, 0);
      BoundaryAfterLine(lines[0], tail);
    } else {
      var later := Join(lines[1..]) + tail;
      BoundaryAfterJoin(lines[1..], rest);
      JoinStart(lines[1..]);
      assert later[0] == Join(lines[1..])[0];
      BoundaryAfterFeed(later);
      BoundaryAfterLine(lines[0], ['\n'] + later);
      assert lines[0] + (['\n'] + later) == (lines[0] + ['\n'] + Join(lines[1..])) + tail;
    }
  }

  lemma BoundaryAfterFeed(later: string)
    requires later != [] && later[0] != '\n' && Boundary(later).Some?
    ensures Boundary(['\n'] + later) == Some(1 + Boundary(later).value)
  {
    var s := ['\n'] + later;
    assert s[1] == later[0] && s[1..] == later;
    assert !BlankLineAt(s, 0);
  }

  lemma JoinStart(lines: seq<string>)
    requires lines != [] && lines[0] != []
    ensures Join(lines) != [] && Join(lines)[0] == lines[0][0]
  {
  }

  lemma {:induction false} IndexOfAfter(front: string, c: char, rest: string)
    requires c !in front
    ensures IndexOf(front + ([c] + rest), c) == Some(|front|)
    decreases |front|
  {
    if front == [] {
      assert front + ([c] + rest) == [c] + rest;
    } else {
      assert (front + ([c] + rest))[1..] == front[1..] + ([c] + rest);
      IndexOfAfter(front[1..], c, rest);
    }
  }

  lemma {:induction false} SplitLinesOfJoin(lines: seq<string>)
    requires lines != [] && Lines(lines)
    ensures SplitLines(Join(lines)) == lines
    decreases |lines|
  {
    if |lines| > 1 {
      var rest := Join(lines[1..]);
      SplitLinesOfJoin(lines[1..]);
      SplitFirstLine(lines[0], rest);
      Regroup(lines[0], ['\n'], rest);
      assert [lines[0]] + lines[1..] == lines;
    }
  }

  lemma SplitFirstLine(line: string, rest: string)
    requires '\n' !in line
    ensures SplitLines(line + (['\n'] + rest)) == [line] + SplitLines(rest)
  {
    var s := line + (['\n'] + rest);
    IndexOfAfter(line, '\n', rest);
    assert s[..|line|] == line && s[|line| + 1..] == rest;
  }

  lemma FieldRead(name: string, value: string)
    requires ':' !in name && name != [] && '\r' !in value
    ensures FieldOf(Field(name, value)) == Some((name, value))
  {
    var line := Field(name, value);
    IndexOfAfter(name, ':', [' '] + value);
    assert line == name + ([':'] + ([' '] + value));
    assert line[|line| - 1] == if value == [] then ' ' else value[|value| - 1];
    assert line[..|name|] == name && line[|name| + 1..] == [' '] + value;
  }

  lemma {:induction false} ValuesOfConcat(name: string, a: seq<string>, b: seq<string>)
    ensures ValuesOf(name, a + b) == ValuesOf(name, a) + ValuesOf(name, b)
    decreases |b|
  {
    if b == [] {
      assert a + b == a && ValuesOf(name, a) + [] == ValuesOf(name, a);
    } else {
      var front, last := b[..|b| - 1], b[|b| - 1];
      var field := FieldOf(last);
      assert (a + b)[..|a + b| - 1] == a + front;
      ValuesOfConcat(name, a, front);
      Regroup(ValuesOf(name, a), ValuesOf(name, front), [if field.Some? then field.value.1 else []]);
    }
  }

  lemma ValuesOfOne(name: string, line: string)
    ensures var field := FieldOf(line);
            ValuesOf(name, [line]) == if field.Some? && field.value.0 == name then [field.value.1] else []
  {
    assert [line][..0] == [];
  }

  lemma ValuesOfField(name: string, field: string, value: string)
    requires ':' !in field && field != [] && '\r' !in value
    ensures ValuesOf(name, [Field(field, value)]) == if name == field then [value] else []
  {
    FieldRead(field, value);
    ValuesOfOne(name, Field(field, value));
  }

  lemma {:induction false} ValuesOfFields(name: string, field: string, values: seq<string>)
    requires ':' !in field && field != [] && forall i :: 0 <= i < |values| ==> Plain(values[i])
    ensures ValuesOf(name, FieldLines(field, values)) == if name == field then values else []
    decreases |values|
  {
    if values != [] {
      var front, last := values[..|values| - 1], values[|values| - 1];
      assert values == front + [last];
      ValuesOfFields(name, field, front);
      ValuesOfConcat(name, FieldLines(field, front), [Field(field, last)]);
      ValuesOfField(name, field, last);
    }
  }

  lemma ValuesOfMessage(name: string, f: Frame)
    requires f.Message? && Sendable(f)
    ensures ValuesOf(name, FrameLines(f)) ==
            (if name == "id" && f.id.Some? then [f.id.value] else [])
            + (if name == "event" then [f.event] else [])
            + (if name == "data" then f.data else [])
  {
    var first := if f.id.Some? then [Field("id", f.id.value)] else [];
    var second := [Field("event", f.event)];
    ValuesOfConcat(name, first + second, FieldLines("data", f.data));
    ValuesOfConcat(name, first, second);
    ValuesOfFields(name, "data", f.data);
    ValuesOfField(name, "event", f.event);
    if f.id.Some? { ValuesOfField(name, "id", f.id.value); }
  }

  lemma DataOfMessage(f: Frame)
    requires f.Message? && Sendable(f)
    ensures ValuesOf("data", FrameLines(f)) == f.data
  {
    ValuesOfMessage("data", f);
    assert [] + [] + f.data == f.data;
  }

  lemma NameOfMessage(f: Frame)
    requires f.Message? && Sendable(f)
    ensures ValuesOf("event", FrameLines(f)) == [f.event]
  {
    ValuesOfMessage("event", f);
    assert [] + [f.event] + [] == [f.event];
  }

  lemma IdOfMessage(f: Frame)
    requires f.Message? && Sendable(f)
    ensures ValuesOf("id", FrameLines(f)) == if f.id.Some? then [f.id.value] else []
  {
    ValuesOfMessage("id", f);
  }

  lemma EventOfFrame(f: Frame)
    requires Sendable(f)
    ensures EventOf(Join(FrameLines(f))) ==
            if f.Message? then Some(Event(f.event, f.id, Join(f.data))) else None
  {
    FrameLinesPlain(f);
    SplitLinesOfJoin(FrameLines(f));
    match f
    case Message(id, event, data) =>
      DataOfMessage(f);
      NameOfMessage(f);
      IdOfMessage(f);
    case Retry(ms) => ValuesOfField("data", "retry", ms);
    case KeepAlive(c) => ValuesOfOne("data", ":" + c);
  }

  lemma SplitAfterBlock(body: string, rest: string)
    requires Boundary(body + (['\n', '\n'] + rest)) == Some(|body|)
    ensures Split(body + (['\n', '\n'] + rest)) == ([body] + Split(rest).0, Split(rest).1)
  {
    var s := body + (['\n', '\n'] + rest);
    assert s[..|body|] == body && s[|body| + 2..] == rest;
  }

  lemma {:induction false} SplitFrames(frames: seq<Frame>)
    requires forall i :: 0 <= i < |frames| ==> Sendable(frames[i])
    ensures Split(EncodeAll(frames)).1 == []
    ensures EventsOfBlocks(Split(EncodeAll(frames)).0) == Sent(frames)
    decreases |frames|
  {
    if frames != [] {
      var body, rest := Join(FrameLines(frames[0])), EncodeAll(frames[1..]);
      FrameLinesPlain(frames[0]);
      BoundaryAfterJoin(FrameLines(frames[0]), rest);
      SplitAfterBlock(body, rest);
      SplitFrames(frames[1..]);
      EventOfFrame(frames[0]);
      assert ([body] + Split(rest).0)[1..] == Split(rest).0;
    }
  }

  lemma NoReturn(text: string)
    requires '\r' !in text
    ensures !HasCrLf(text) && !HasCrCrLf(text)
  {
  }

  /** Whatever the network does to the boundaries of its chunks, the client sees the messages that were sent. */
  lemma RoundTrip(frames: seq<Frame>, chunks: seq<string>)
    requires forall i :: 0 <= i < |frames| ==> Sendable(frames[i])
    requires Flatten(chunks) == EncodeAll(frames)
    ensures Read([], chunks) == Sent(frames)
  {
    var text := EncodeAll(frames);
    EncodedHasNoReturn(frames);
    NoReturn(text);
    assert [] + text == text;
    ChunkingIsInvisible([], chunks);
    NormaliseFixed(text);
    EventsOfWhole(text);
    SplitFrames(frames);
    assert Sent(frames) + [] == Sent(frames);
  }

  // ----- a text whose reading does depend on its chunks

  function Repeat(c: char, n: nat): string {
    if n == 0 then [] else [c] + Repeat(c, n - 1)
  }

  /** Two lines; the first ends in a line feed, and `n` CRs and another line feed follow it. */
  function Around(first: string, n: nat, second: string): string {
    first + (['\n'] + AfterReturns(n, second))
  }

  function AfterReturns(n: nat, second: string): string {
    Repeat('\r', n) + (['\n'] + second)
  }

  predicate IsDataLine(line: string) {
    && Plain(line) && line != [] && !IsSpace(line[0])
    && FieldOf(line).Some? && FieldOf(line).value.0 == "data"
  }

  lemma {:induction false} RepeatAgain(c: char, n: nat, rest: string)
    ensures Repeat(c, n + 1) + rest == Repeat(c, n) + ([c] + rest)
    ensures '\n' == c || '\n' !in Repeat(c, n)
    decreases n
  {
    if n > 0 {
      RepeatAgain(c, n - 1, rest);
      Regroup([c], Repeat(c, n), rest);
      Regroup([c], Repeat(c, n - 1), [c] + rest);
    }
  }

  lemma DataLineAlone(line: string)
    requires IsDataLine(line)
    ensures Normalise(line) == line && Boundary(line).None? && !IsBlank(line)
    ensures SplitLines(line) == [line] && ValuesOf("data", [line]) != [] && EventOf(line).Some?
  {
    NoReturn(line);
    NormaliseFixed(line);
    ValuesOfOne("data", line);
  }

  lemma PlainAlone(line: string)
    requires Plain(line)
    ensures !HasCrLf(line) && Normalise(line) == line && Boundary(line).None?
  {
    NoReturn(line);
    NormaliseFixed(line);
  }

  lemma AfterReturnsPass(n: nat, second: string)
    requires Plain(second) && n > 0
    ensures Normalise(AfterReturns(n, second)) == AfterReturns(n - 1, second)
  {
    hide Normalise;
    PlainAlone(second);
    RepeatAgain('\r', n - 1, ['\n'] + second);
    Regroup(['\r'], ['\n'], second);
    assert ['\r'] + ['\n'] == ['\r', '\n'];
    NormaliseCrs(n - 1);
    NormaliseJoin(Repeat('\r', n - 1), second);
  }

  /** One pass over the buffer removes one CR. */
  lemma PassRemovesOne(first: string, n: nat, second: string)
    requires IsDataLine(first) && Plain(second) && n > 0
    ensures Normalise(Around(first, n, second)) == Around(first, n - 1, second)
  {
    DataLineAlone(first);
    AfterReturnsPass(n, second);
    var tail := AfterReturns(n, second);
    assert (['\n'] + tail)[1..] == tail;
    assert Normalise(['\n'] + tail) == ['\n'] + Normalise(tail);
    NormaliseApart(first, ['\n'] + tail);
  }

  lemma NormaliseCrs(n: nat)
    ensures Normalise(Repeat('\r', n)) == Repeat('\r', n)
  {
    RepeatAgain('\r', n, []);
    NoFeed(Repeat('\r', n));
    NormaliseFixed(Repeat('\r', n));
  }

  lemma NoFeed(text: string)
    requires '\n' !in text
    ensures !HasCrLf(text)
  {
  }

  lemma NoBlankLineBetween(first: string, n: nat, second: string)
    requires IsDataLine(first) && Plain(second) && n > 0
    ensures Split(Around(first, n, second)) == ([], Around(first, n, second))
  {
    PlainAlone(second);
    RepeatAgain('\r', n, []);
    var crs, tail := Repeat('\r', n), ['\n'] + second;
    assert tail[1..] == second && !BlankLineAt(tail, 0);
    BoundaryAfterLine(crs, tail);
    var s := ['\n'] + (crs + tail);
    assert s[1..] == crs + tail && s[1] == crs[0] == '\r' && !BlankLineAt(s, 0);
    BoundaryAfterLine(first, s);
  }

  lemma LinesAround(first: string, n: nat, second: string)
    requires IsDataLine(first) && IsDataLine(second)
    ensures SplitLines(Around(first, n, second)) == [first, Repeat('\r', n)] + [second]
  {
    DataLineAlone(second);
    RepeatAgain('\r', n, []);
    SplitFirstLine(first, AfterReturns(n, second));
    SplitFirstLine(Repeat('\r', n), second);
  }

  /** With CRs between them the two lines make one event. */
  lemma OneEventAround(first: string, n: nat, second: string)
    requires IsDataLine(first) && IsDataLine(second)
    ensures |Read(Around(first, n, second), [])| == 1
  {
    var s := Around(first, n, second);
    DataLineAlone(second);
    LinesAround(first, n, second);
    ValuesOfConcat("data", [first, Repeat('\r', n)], [second]);
    assert s[0] == first[0];
    OneBlock(s);
  }

  lemma OneBlock(s: string)
    requires EventOf(s).Some? && !IsBlank(s)
    ensures |Read(s, [])| == 1 && EventsOfBlocks([s]) == [EventOf(s).value]
  {
    assert [s][1..] == [] && EventsOfBlocks([s][1..]) == [];
    assert Read(s, []) == EventsOfBlocks([s]);
  }

  lemma BlankLineBetween(first: string, second: string)
    requires IsDataLine(first) && Plain(second)
    ensures Split(Around(first, 0, second)) == ([first], second)
  {
    PlainAlone(second);
    Regroup(['\n'], ['\n'], second);
    assert ['\n'] + ['\n'] == ['\n', '\n'] && [] + (['\n'] + second) == ['\n'] + second;
    BoundaryAfterJoin([first], second);
    SplitAfterBlock(first, second);
    assert [first] + [] == [first];
  }

  // ----- every way of cutting such a text

  /** What both lines deliver as events of their own. */
  function TwoEvents(first: string, second: string): seq<Event>
    requires IsDataLine(first) && IsDataLine(second)
  {
    DataLineAlone(first);
    DataLineAlone(second);
    [EventOf(first).value, EventOf(second).value]
  }

  lemma AroundGrows(first: string, n: nat, s: string, more: string)
    ensures Around(first, n, s) + more == Around(first, n, s + more)
  {
    Regroup(['\n'], s, more);
    Regroup(Repeat('\r', n), ['\n'] + s, more);
    Regroup(['\n'], AfterReturns(n, s), more);
    Regroup(first, ['\n'] + AfterReturns(n, s), more);
  }

  lemma FlattenParts(s: string, chunks: seq<string>, second: string)
    requires chunks != [] && s + Flatten(chunks) == second
    ensures (s + chunks[0]) + Flatten(chunks[1..]) == second
    ensures Plain(second) ==> Plain(s + chunks[0])
  {
    Regroup(s, chunks[0], Flatten(chunks[1..]));
    assert second == (s + chunks[0]) + Flatten(chunks[1..]);
    assert forall c :: c in s + chunks[0] ==> c in second;
  }

  /** Once only the second line is left, it is delivered whole. */
  lemma SecondArrives(s: string, chunks: seq<string>, second: string)
    requires IsDataLine(second) && s + Flatten(chunks) == second
    ensures Read(s, chunks) == [EventOf(second).value] && EventOf(second).Some?
  {
    assert forall c :: c in s ==> c in second;
    PlainAlone(s);
    PlainAlone(second);
    NoReturn(second);
    ChunkingIsInvisible(s, chunks);
    EventsOfWhole(second);
    DataLineAlone(second);
    assert Split(second) == ([], second);
    OneBlock(second);
  }

  /**
   From the moment the line feed behind the CRs has arrived, each read removes one of them; the two lines come apart
   exactly when there are at least as many reads as CRs.
   */
  lemma {:induction false} ReadsAgainstReturns(first: string, n: nat, s: string, second: string, chunks: seq<string>)
    requires IsDataLine(first) && IsDataLine(second) && n > 0 && s + Flatten(chunks) == second
    ensures if |chunks| >= n then Read(Around(first, n, s), chunks) == TwoEvents(first, second)
            else |Read(Around(first, n, s), chunks)| == 1
    decreases |chunks|
  {
    hide Around, IsDataLine, TwoEvents, Plain;
    if chunks == [] {
      assert s == second;
      OneEventAround(first, n, second);
    } else {
      FlattenParts(s, chunks, second);
      LineIsPlain(second);
      if n == 1 {
        LastReturnGone(first, s, second, chunks);
      } else {
        OneReturnLess(first, n, s, chunks);
        ReadsAgainstReturns(first, n - 1, s + chunks[0], second, chunks[1..]);
      }
    }
  }

  /** One read of the loop. */
  lemma OneRead(pending: string, chunks: seq<string>)
    requires chunks != []
    ensures var cut := Split(Normalise(pending + chunks[0]));
            Read(pending, chunks) == EventsOfBlocks(cut.0) + Read(cut.1, chunks[1..])
  {
  }

  /** A read that leaves a CR delivers nothing. */
  lemma OneReturnLess(first: string, n: nat, s: string, chunks: seq<string>)
    requires IsDataLine(first) && n > 1 && chunks != [] && Plain(s + chunks[0])
    ensures Read(Around(first, n, s), chunks) == Read(Around(first, n - 1, s + chunks[0]), chunks[1..])
  {
    NothingToSplit("");
    hide *;
    OneRead(Around(first, n, s), chunks);
    AroundGrows(first, n, s, chunks[0]);
    PassRemovesOne(first, n, s + chunks[0]);
    NoBlankLineBetween(first, n - 1, s + chunks[0]);
  }

  /** The read that removes the last CR delivers the first line, and the second comes on its own. */
  lemma LastReturnGone(first: string, s: string, second: string, chunks: seq<string>)
    requires IsDataLine(first) && IsDataLine(second)
    requires chunks != [] && s + Flatten(chunks) == second && Plain(s + chunks[0])
    requires (s + chunks[0]) + Flatten(chunks[1..]) == second
    ensures Read(Around(first, 1, s), chunks) == TwoEvents(first, second)
  {
    hide *;
    OneRead(Around(first, 1, s), chunks);
    AroundGrows(first, 1, s, chunks[0]);
    PassRemovesOne(first, 1, s + chunks[0]);
    BlankLineBetween(first, s + chunks[0]);
    SecondArrives(s + chunks[0], chunks[1..], second);
    FirstDelivered(first, second);
  }

  lemma LineIsPlain(line: string)
    requires IsDataLine(line)
    ensures Plain(line)
  {
  }

  lemma FirstDelivered(first: string, second: string)
    requires IsDataLine(first) && IsDataLine(second)
    ensures EventOf(second).Some? && EventsOfBlocks([first]) + [EventOf(second).value] == TwoEvents(first, second)
  {
    DataLineAlone(first);
    DataLineAlone(second);
    OneBlock(first);
  }

  /** The text up to the line feed that the CRs run into. */
  function Head(first: string, n: nat): string {
    first + (['\n'] + Repeat('\r', n))
  }

  lemma HeadThenFeed(first: string, n: nat, s: string)
    ensures Around(first, n, s) == Head(first, n) + (['\n'] + s)
  {
    Regroup(['\n'], Repeat('\r', n), ['\n'] + s);
    Regroup(first, ['\n'] + Repeat('\r', n), ['\n'] + s);
  }

  /** No part of the head is changed by a pass, and none of it ends a block. */
  lemma HeadWaits(first: string, n: nat, u: string)
    requires IsDataLine(first) && u <= Head(first, n)
    ensures Normalise(u) == u && Split(u) == ([], u)
  {
    RepeatAgain('\r', n, []);
    var head := Head(first, n);
    forall i: nat ensures !CrLfAt(u, i) && !BlankLineAt(u, i) {
      if i + 1 < |u| {
        assert u[i] == head[i] && u[i + 1] == head[i + 1];
        if i + 1 < |first| {
          assert head[i] == first[i] && head[i + 1] == first[i + 1];
        } else if i + 1 == |first| {
          assert head[i] == first[i];
        } else {
          assert head[i + 1] == Repeat('\r', n)[i - |first|];
        }
      }
    }
    NormaliseFixed(u);
  }

  /** However the head arrives, reading goes on as if it had been there from the start. */
  lemma {:induction false} HeadArrives(first: string, n: nat, second: string, u: string, chunks: seq<string>)
    returns (later: seq<string>)
    requires chunks != []
    requires IsDataLine(first) && u <= Head(first, n) && u + Flatten(chunks) == Around(first, n, second)
    ensures Flatten(later) == second && Read(u, chunks) == Read(Around(first, n, []), later)
    ensures later != [] && (chunks[|chunks| - 1] == [] ==> |later| >= 2)
    ensures Around(first, n, []) <= u + chunks[0] ==> |later| == |chunks|
    decreases |chunks|
  {
    hide IsDataLine, Normalise, Split, Around, Head;
    var head := Head(first, n);
    HeadThenFeed(first, n, second);
    HeadThenFeed(first, n, []);
    var c, rest := chunks[0], chunks[1..];
    var v := u + c;
    Regroup(u, c, Flatten(rest));
    if |v| <= |head| {
      PrefixOfBoth(v, head, Flatten(rest), ['\n'] + second);
      HeadWaits(first, n, v);
      assert |Flatten(rest)| > 0 && EventsOfBlocks([]) == [];
      later := HeadArrives(first, n, second, v, rest);
    } else {
      var s := FeedArrived(v, head, Flatten(rest), second);
      later := [s] + rest;
      HeadThenFeed(first, n, s);
      AroundGrows(first, n, [], s);
      assert [] + s == s && later[1..] == rest;
      assert |c| > 0;
    }
  }

  lemma PrefixOfBoth(v: string, head: string, rest: string, tail: string)
    requires v + rest == head + tail && |v| <= |head|
    ensures v <= head
  {
    assert v == (v + rest)[..|v|] && (head + tail)[..|v|] == head[..|v|];
  }

  lemma FeedArrived(v: string, head: string, rest: string, second: string) returns (s: string)
    requires v + rest == head + (['\n'] + second) && |v| > |head|
    ensures v == head + (['\n'] + s) && s + rest == second
  {
    var tail := ['\n'] + second;
    s := v[|head| + 1..];
    assert v[..|head|] == (v + rest)[..|head|] == head;
    assert v[|head|] == (v + rest)[|head|] == tail[0];
    assert v == v[..|head|] + ([v[|head|]] + s);
    assert s + rest == (v + rest)[|head| + 1..] == tail[1..];
  }

  /** All cuts of the text, each followed by the empty read at the end of the stream, deliver the same events. */
  ghost predicate CutsAgree(text: string) {
    forall a: seq<string>, b: seq<string> ::
      Flatten(a) == text && Flatten(b) == text ==> Read([], a + [[]]) == Read([], b + [[]])
  }

  function Empties(n: nat): (empties: seq<string>)
    ensures |empties| == n
  {
    if n == 0 then [] else [[]] + Empties(n - 1)
  }

  lemma {:induction false} EmptiesAreEmpty(n: nat)
    ensures Flatten(Empties(n)) == [] && Empties(n) + [[]] == Empties(n + 1)
  {
    if n > 0 { EmptiesAreEmpty(n - 1); }
  }

  lemma {:induction false} FlattenLast(chunks: seq<string>, last: string)
    ensures Flatten(chunks + [last]) == Flatten(chunks) + last
    decreases |chunks|
  {
    if chunks == [] {
      assert Flatten([last]) == last + [] && [last][1..] == [];
    } else {
      FlattenLast(chunks[1..], last);
      assert (chunks + [last])[1..] == chunks[1..] + [last];
      Regroup(chunks[0], Flatten(chunks[1..]), last);
    }
  }

  lemma FewReturns(first: string, n: nat, second: string, chunks: seq<string>)
    requires IsDataLine(first) && IsDataLine(second) && n <= 2 && Flatten(chunks) == Around(first, n, second)
    ensures Read([], chunks + [[]]) == TwoEvents(first, second)
  {
    var all := chunks + [[]];
    FlattenLast(chunks, []);
    assert Flatten(all) == Around(first, n, second) && [] + Flatten(all) == Flatten(all);
    if n == 0 {
      NoReturnsAtAll(first, second, all);
    } else {
      var later := HeadArrives(first, n, second, [], all);
      assert [] + Flatten(later) == second;
      ReadsAgainstReturns(first, n, [], second, later);
    }
  }

  lemma NoReturnsAtAll(first: string, second: string, chunks: seq<string>)
    requires IsDataLine(first) && IsDataLine(second) && Flatten(chunks) == Around(first, 0, second)
    ensures Read([], chunks) == TwoEvents(first, second)
  {
    var text := Around(first, 0, second);
    assert '\r' !in text;
    NoReturn(text);
    assert [] + text == text;
    ChunkingIsInvisible([], chunks);
    NormaliseFixed(text);
    EventsOfWhole(text);
    BlankLineBetween(first, second);
    DataLineAlone(second);
    OneBlock(second);
    FirstDelivered(first, second);
  }

  /** In one piece, or followed by reads that bring no text. */
  lemma WholeThenEmpties(first: string, n: nat, second: string, extra: nat)
    requires IsDataLine(first) && IsDataLine(second) && n > 0
    ensures Flatten([Around(first, n, second)] + Empties(extra)) == Around(first, n, second)
    ensures var events := Read([], [Around(first, n, second)] + Empties(extra));
            if extra + 1 >= n then events == TwoEvents(first, second) else |events| == 1
  {
    var text := Around(first, n, second);
    var chunks := [text] + Empties(extra);
    EmptiesAreEmpty(extra);
    assert chunks[1..] == Empties(extra) && Flatten(chunks) == text + [];
    assert [] + Flatten(chunks) == text && [] + chunks[0] == text;
    AroundGrows(first, n, [], second);
    assert [] + second == second;
    var later := HeadArrives(first, n, second, [], chunks);
    assert [] + Flatten(later) == second;
    ReadsAgainstReturns(first, n, [], second, later);
  }

  /** Up to two CRs make no difference to the events delivered; three and more do. */
  lemma CutsAgreeIff(first: string, n: nat, second: string)
    requires IsDataLine(first) && IsDataLine(second)
    ensures CutsAgree(Around(first, n, second)) <==> n <= 2
  {
    hide Around, IsDataLine, TwoEvents;
    var text := Around(first, n, second);
    if n <= 2 {
      forall a: seq<string>, b: seq<string> | Flatten(a) == text && Flatten(b) == text
        ensures Read([], a + [[]]) == Read([], b + [[]])
      {
        FewReturns(first, n, second, a);
        FewReturns(first, n, second, b);
      }
    } else {
      WholeThenEnd(first, n, second, 0);
      WholeThenEnd(first, n, second, n - 1);
      TwoAreNotOne(first, second);
      assert Read([], ([text] + Empties(0)) + [[]]) != Read([], ([text] + Empties(n - 1)) + [[]]);
    }
  }

  lemma TwoAreNotOne(first: string, second: string)
    requires IsDataLine(first) && IsDataLine(second)
    ensures |TwoEvents(first, second)| == 2
  {
  }

  lemma WholeThenEnd(first: string, n: nat, second: string, extra: nat)
    requires IsDataLine(first) && IsDataLine(second) && n > 0
    ensures var chunks := [Around(first, n, second)] + Empties(extra);
            && Flatten(chunks) == Around(first, n, second)
            && if extra + 2 >= n then Read([], chunks + [[]]) == TwoEvents(first, second)
               else |Read([], chunks + [[]])| == 1
  {
    hide Around, IsDataLine, TwoEvents, Read;
    WholeThenEmpties(first, n, second, extra);
    WholeThenEmpties(first, n, second, extra + 1);
    EmptiesAreEmpty(extra);
    Regroup([Around(first, n, second)], Empties(extra), [[]]);
  }

  /** No empty read is needed: with three CRs, a cut behind the line feed makes two events of what was one. */
  lemma DoubledReturnsDependOnChunking(first: string, second: string)
    requires IsDataLine(first) && IsDataLine(second)
    ensures HasCrCrLf(Around(first, 3, second))
    ensures Around(first, 3, []) + second == Around(first, 3, second)
    ensures |Read([], [Around(first, 3, second), []])| == 1
    ensures Read([], [Around(first, 3, []), second, []]) == TwoEvents(first, second)
  {
    hide Around, IsDataLine, TwoEvents, Read, HasCrCrLf;
    ReturnsSeen(first, second);
    AroundGrows(first, 3, [], second);
    assert [] + second == second;
    WholeThenEmpties(first, 3, second, 1);
    EmptiesAreEmpty(0);
    assert [Around(first, 3, second)] + Empties(1) == [Around(first, 3, second), []];
    ThreeReads(first, second);
  }

  lemma ThreeReads(first: string, second: string)
    requires IsDataLine(first) && IsDataLine(second) && Around(first, 3, []) + second == Around(first, 3, second)
    ensures Read([], [Around(first, 3, []), second, []]) == TwoEvents(first, second)
  {
    hide Around, IsDataLine, TwoEvents, Read;
    var chunks := [Around(first, 3, []), second, []];
    ThreeChunks(Around(first, 3, []), second);
    assert [] + Flatten(chunks) == Around(first, 3, second) && [] + chunks[0] == chunks[0];
    var later := HeadArrives(first, 3, second, [], chunks);
    assert [] + Flatten(later) == second;
    ReadsAgainstReturns(first, 3, [], second, later);
  }

  lemma ThreeChunks(a: string, b: string)
    ensures Flatten([a, b, []]) == a + b
  {
    assert [a, b, []][1..] == [b, []] && [b, []][1..] == [[]];
    FlattenLast([], []);
    assert Flatten([[]]) == [] && Flatten([b, []]) == b + [] == b;
  }

  lemma ReturnsSeen(first: string, second: string)
    ensures HasCrCrLf(Around(first, 3, second))
  {
    assert Repeat('\r', 1) == ['\r'] && Repeat('\r', 2) == ['\r', '\r'] && Repeat('\r', 3) == ['\r', '\r', '\r'];
    assert CrCrLfAt(Around(first, 3, second), |first| + 2);
  }
}
