/**
 What one block of an event stream says, line by line (the inner function `dispatchBlock` of the reader emitted by
 tools/generate_contracts.py).
 */
module EventFields {
  import opened Wrappers
  import opened Sequences
  import opened EventStream

  // ----- one line

  predicate IsName(name: string) {
    name != "" && ':' !in name && !EndsWith(name, '\r')
  }

  /** A field is a name, a colon, at most one space that does not count, and the value; the colon may be missing. */
  lemma FieldLines(name: string, value: string)
    requires IsName(name) && !EndsWith(value, '\r')
    ensures FieldOf(name + ([':'] + ([' '] + value))) == Some((name, value))
    ensures !StartsWith(value, ' ') ==> FieldOf(name + ([':'] + value)) == Some((name, value))
    ensures FieldOf(name) == Some((name, ""))
  {
    FieldAfterColon(name, [' '] + value);
    assert ([' '] + value)[1..] == value;
    FieldAfterColon(name, value);
    if IndexOf(name, ':').Some? { assert false; }
  }

  lemma FieldAfterColon(name: string, rest: string)
    requires IsName(name) && !EndsWith(rest, '\r')
    ensures FieldOf(name + ([':'] + rest)) == Some((name, if StartsWith(rest, ' ') then rest[1..] else rest))
  {
    var line := name + ([':'] + rest);
    IndexOfAfter(name, ':', rest);
    NoReturnAtEnd(name, rest);
    assert line[0] == name[0] && line[..|name|] == name && line[|name| + 1..] == rest;
    hide IndexOf, EndsWith;
  }

  lemma NoReturnAtEnd(name: string, rest: string)
    requires !EndsWith(rest, '\r')
    ensures !EndsWith(name + ([':'] + rest), '\r')
  {
    var line := name + ([':'] + rest);
    assert line[|line| - 1] == if rest == "" then ':' else rest[|rest| - 1];
  }

  /** Comments and empty lines say nothing, and a carriage return at the end of a line is not part of it. */
  lemma OtherLines(line: string)
    ensures FieldOf([':'] + line) == None && FieldOf("") == None && FieldOf("\r") == None
    ensures !EndsWith(line, '\r') ==> FieldOf(line + ['\r']) == FieldOf(line)
  {
    assert (line + ['\r'])[..|line|] == line;
    var comment := [':'] + line;
    assert comment[0] == ':' && (|comment| > 1 ==> comment[..|comment| - 1][0] == ':');
  }

  // ----- one block

  /** The line gives `value` to the field, and no later line gives it another. */
  ghost predicate SaysLast(lines: seq<string>, name: string, value: string, i: nat) {
    && i < |lines| && FieldOf(lines[i]) == Some((name, value))
    && forall k, v :: i < k < |lines| ==> FieldOf(lines[k]) != Some((name, v))
  }

  ghost predicate Never(lines: seq<string>, name: string) {
    forall k, v :: 0 <= k < |lines| ==> FieldOf(lines[k]) != Some((name, v))
  }

  lemma {:induction false} LastValue(lines: seq<string>, name: string)
    ensures Last(ValuesOf(name, lines)).None? <==> Never(lines, name)
    ensures forall value ::
              Last(ValuesOf(name, lines)) == Some(value) <==> exists i: nat :: SaysLast(lines, name, value, i)
    decreases |lines|
  {
    hide FieldOf;
    if lines != [] {
      var n := |lines| - 1;
      var front, field := lines[..n], FieldOf(lines[n]);
      LastValue(front, name);
      if field.Some? && field.value.0 == name {
        assert SaysLast(lines, name, field.value.1, n);
        assert field == Some((name, field.value.1));
      } else {
        forall value, i: nat ensures SaysLast(lines, name, value, i) <==> SaysLast(front, name, value, i) {
          if i == n { assert !SaysLast(lines, name, value, i); }
        }
        assert Never(lines, name) <==> Never(front, name);
      }
    }
  }

  predicate AreLines(lines: seq<string>) {
    forall k :: 0 <= k < |lines| ==> '\n' !in lines[k]
  }

  lemma {:induction false} LinesOfJoin(lines: seq<string>)
    requires lines != [] && AreLines(lines)
    ensures SplitLines(Join(lines)) == lines
    decreases |lines|
  {
    if |lines| == 1 {
      LastLine(lines[0]);
      assert lines == [lines[0]];
    } else {
      var rest := Join(lines[1..]);
      LinesOfJoin(lines[1..]);
      SplitFirstLine(lines[0], rest);
      Regroup(lines[0], ['\n'], rest);
      assert [lines[0]] + lines[1..] == lines;
    }
  }

  lemma LastLine(line: string)
    requires '\n' !in line
    ensures SplitLines(line) == [line]
  {
  }

  /**
   A block without a `data` field says nothing.  Otherwise its event is named by the last `event` field, or is a
   message, it has the id of the last `id` field, if there is one, and the data of all `data` fields, line by line.
   */
  lemma BlockSays(lines: seq<string>)
    requires lines != [] && AreLines(lines)
    ensures var event := EventOf(Join(lines));
            && (event.None? <==> Never(lines, "data"))
            && (event.Some? ==>
                  && NamedBy(lines, event.value.event)
                  && IdentifiedBy(lines, event.value.id)
                  && event.value.data == Join(ValuesOf("data", lines)))
  {
    LinesOfJoin(lines);
    LastValue(lines, "data");
    NameIs(lines);
    IdIs(lines);
    hide Join, SplitLines, ValuesOf, Never, SaysLast, NamedBy, IdentifiedBy, NameOf;
  }

  ghost predicate NamedBy(lines: seq<string>, event: string) {
    if Never(lines, "event") then event == "message" else exists i: nat :: SaysLast(lines, "event", event, i)
  }

  ghost predicate IdentifiedBy(lines: seq<string>, id: Option<string>) {
    match id
    case None => Never(lines, "id")
    case Some(value) => exists i: nat :: SaysLast(lines, "id", value, i)
  }

  lemma NameIs(lines: seq<string>)
    ensures NamedBy(lines, NameOf(ValuesOf("event", lines)))
  {
    LastValue(lines, "event");
    hide ValuesOf, Never, SaysLast;
    var values := ValuesOf("event", lines);
    if values != [] { assert Last(values) == Some(NameOf(values)); }
  }

  lemma IdIs(lines: seq<string>)
    ensures IdentifiedBy(lines, Last(ValuesOf("id", lines)))
  {
    LastValue(lines, "id");
    hide ValuesOf, Never, SaysLast, Last;
  }

  /** The data of a block is that of its first lines, then that of the rest. */
  lemma DataOf(lines: seq<string>, value: string, more: seq<string>)
    requires !EndsWith(value, '\r')
    ensures ValuesOf("data", lines + (["data" + ([':'] + ([' '] + value))] + more)) ==
            ValuesOf("data", lines) + ([value] + ValuesOf("data", more))
  {
    var line := "data" + ([':'] + ([' '] + value));
    FieldLines("data", value);
    ValuesOfOne("data", line);
    hide FieldOf, ValuesOf;
    ValuesOfConcat("data", lines, [line] + more);
    ValuesOfConcat("data", [line], more);
  }
}
