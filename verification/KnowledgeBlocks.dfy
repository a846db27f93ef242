/**
 Cutting a page of text into blocks at blank lines
 (src/stata_research_agent/application/knowledge_retrieval.py, the block scan of `build_canonical_nodes`).
 The scan takes the matches of `\S(?:.*?)(?=\n\s*\n|\Z)` from left to right and strips each of them.
 */
module KnowledgeBlocks {
  import opened Sequences

  // ----- characters

  predicate IsSpace(c: char) {
    var n := c as int;
    || 0x09 <= n <= 0x0d || 0x1c <= n <= 0x20 || n == 0x85 || n == 0xa0 || n == 0x1680 || 0x2000 <= n <= 0x200a
    || n == 0x2028 || n == 0x2029 || n == 0x202f || n == 0x205f || n == 0x3000
  }

  predicate EndsLine(c: char) {
    var n := c as int;
    0x0a <= n <= 0x0d || 0x1c <= n <= 0x1e || n == 0x85 || n == 0x2028 || n == 0x2029
  }

  /** The characters that are not white space, in order. */
  function Solid(s: string): string {
    if s == "" then "" else (if IsSpace(s[0]) then "" else [s[0]]) + Solid(s[1..])
  }

  lemma {:induction false} SolidAppend(s: string, t: string)
    ensures Solid(s + t) == Solid(s) + Solid(t)
  {
    hide IsSpace;
    if s == "" {
      assert s + t == t;
    } else {
      SolidAppend(s[1..], t);
      assert (s + t)[0] == s[0] && (s + t)[1..] == s[1..] + t;
      Regroup(if IsSpace(s[0]) then "" else [s[0]], Solid(s[1..]), Solid(t));
    }
  }

  predicate IsBlank(s: string) {
    forall k | 0 <= k < |s| :: IsSpace(s[k])
  }

  lemma {:induction false} SolidOfBlank(s: string)
    ensures Solid(s) == "" <==> IsBlank(s)
  {
    hide IsSpace;
    if s != "" {
      SolidOfBlank(s[1..]);
      assert s == [s[0]] + s[1..];
    }
  }

  // ----- blank lines

  /** A line feed at `a` and the next one that counts at `b`, with nothing but white space between them. */
  predicate BlankLine(text: string, a: nat, b: nat) {
    a < b < |text| && text[a] == '\n' && text[b] == '\n' && forall k | a < k < b :: IsSpace(text[k])
  }

  /** Where the look-ahead of the pattern succeeds. */
  predicate StopsAt(text: string, e: nat) {
    e == |text| || exists b | e < b < |text| :: BlankLine(text, e, b)
  }

  function BlockEnd(text: string, from: nat): (e: nat)
    requires from <= |text|
    ensures from <= e <= |text| && StopsAt(text, e) && forall k | from <= k < e :: !StopsAt(text, k)
    decreases |text| - from
  {
    if StopsAt(text, from) then from else BlockEnd(text, from + 1)
  }

  function NextSolid(text: string, from: nat): (s: nat)
    requires from <= |text|
    ensures from <= s <= |text| && (forall k | from <= k < s :: IsSpace(text[k])) && (s < |text| ==> !IsSpace(text[s]))
    decreases |text| - from
  {
    if from == |text| || !IsSpace(text[from]) then from else NextSolid(text, from + 1)
  }

  function StripEnd(text: string, from: nat, to: nat): (e: nat)
    requires from < to <= |text| && !IsSpace(text[from])
    ensures from < e <= to && !IsSpace(text[e - 1]) && forall k | e <= k < to :: IsSpace(text[k])
  {
    if IsSpace(text[to - 1]) then StripEnd(text, from, to - 1) else to
  }

  // ----- blocks

  datatype Span = Span(start: nat, end: nat)

  function Blocks(text: string, from: nat): seq<Span>
    requires from <= |text|
    decreases |text| - from
  {
    var s := NextSolid(text, from);
    if s == |text| then []
    else
      var e := BlockEnd(text, s + 1);
      [Span(s, StripEnd(text, s, e))] + Blocks(text, e)
  }

  ghost predicate Inside(span: Span, k: nat) {
    span.start <= k < span.end
  }

  /** Blocks are stripped, lie in the text and follow one another. */
  ghost predicate WellPlaced(text: string, from: nat, spans: seq<Span>) {
    && (forall i | 0 <= i < |spans| ::
          && from <= spans[i].start < spans[i].end <= |text|
          && !IsSpace(text[spans[i].start]) && !IsSpace(text[spans[i].end - 1]))
    && (forall i, j | 0 <= i < j < |spans| :: spans[i].end < spans[j].start)
  }

  /** The scan's next step: from `s` the pattern matches up to `e`, and stripping leaves the block up to `t`. */
  lemma NextBlock(text: string, from: nat) returns (s: nat, t: nat, e: nat)
    requires from <= |text|
    ensures from <= s <= |text| && forall k | from <= k < s :: IsSpace(text[k])
    ensures if s == |text| then Blocks(text, from) == []
            else s < t <= e <= |text| && Blocks(text, from) == [Span(s, t)] + Blocks(text, e)
    ensures s < |text| ==> !IsSpace(text[s]) && !IsSpace(text[t - 1]) && forall k | t <= k < e :: IsSpace(text[k])
    ensures s < |text| ==> StopsAt(text, e) && forall k | s < k < e :: !StopsAt(text, k)
  {
    hide IsSpace, StopsAt;
    s, t, e := NextSolid(text, from), |text|, |text|;
    if s < |text| {
      e := BlockEnd(text, s + 1);
      t := StripEnd(text, s, e);
    }
  }

  lemma {:induction false} BlocksAreWellPlaced(text: string, from: nat)
    requires from <= |text|
    ensures WellPlaced(text, from, Blocks(text, from))
    decreases |text| - from
  {
    hide IsSpace, StopsAt, Blocks, WellPlaced;
    var s, t, e := NextBlock(text, from);
    if s == |text| {
      NothingIsWellPlaced(text, from);
    } else {
      BlocksAreWellPlaced(text, e);
      StopIsSpace(text, e);
      FirstIsWellPlaced(text, from, Span(s, t), e, Blocks(text, e));
    }
  }

  lemma NothingIsWellPlaced(text: string, from: nat)
    ensures WellPlaced(text, from, [])
  {
  }

  lemma FirstIsWellPlaced(text: string, from: nat, first: Span, e: nat, rest: seq<Span>)
    requires from <= first.start < first.end <= e <= |text| && WellPlaced(text, e, rest)
    requires !IsSpace(text[first.start]) && !IsSpace(text[first.end - 1]) && (e < |text| ==> IsSpace(text[e]))
    ensures WellPlaced(text, from, [first] + rest)
  {
    hide IsSpace;
    var all := [first] + rest;
    assert forall i | 0 < i < |all| :: all[i] == rest[i - 1];
    assert forall j | 0 <= j < |rest| :: rest[j].start != e;
  }

  lemma StopIsSpace(text: string, e: nat)
    requires StopsAt(text, e)
    ensures e < |text| ==> IsSpace(text[e])
  {
  }

  /** Every character that is not white space is inside a block. */
  lemma {:induction false} BlocksCover(text: string, from: nat, k: nat)
    requires from <= k < |text| && !IsSpace(text[k])
    ensures exists i | 0 <= i < |Blocks(text, from)| :: Inside(Blocks(text, from)[i], k)
    decreases |text| - from
  {
    hide IsSpace, StopsAt, Blocks;
    var s, t, e := NextBlock(text, from);
    var all, rest := Blocks(text, from), Blocks(text, e);
    if k < e {
      assert Inside(all[0], k);
    } else {
      BlocksCover(text, e, k);
      var i :| 0 <= i < |rest| && Inside(rest[i], k);
      assert all[i + 1] == rest[i];
    }
  }

  ghost predicate SameBlock(spans: seq<Span>, x: nat, y: nat) {
    exists i | 0 <= i < |spans| :: Inside(spans[i], x) && Inside(spans[i], y)
  }

  ghost predicate Separated(text: string, x: nat, y: nat) {
    exists a: nat, b: nat | x < a && b < y :: BlankLine(text, a, b)
  }

  /** Two such characters are in the same block exactly when no blank line lies between them. */
  lemma {:induction false} BlankLinesSeparate(text: string, from: nat, x: nat, y: nat)
    requires from <= x < y < |text| && !IsSpace(text[x]) && !IsSpace(text[y])
    ensures SameBlock(Blocks(text, from), x, y) <==> !Separated(text, x, y)
    decreases |text| - from
  {
    hide IsSpace, StopsAt, Blocks, Separated;
    var s, t, e := NextBlock(text, from);
    var all, rest := Blocks(text, from), Blocks(text, e);
    assert all == [Span(s, t)] + rest;
    if e <= x {
      BlankLinesSeparate(text, e, x, y);
      TailSameBlock(all, x, y);
    } else if y < e {
      assert Inside(all[0], x) && Inside(all[0], y);
      NoStopInside(text, s, e, x, y);
    } else {
      StopSeparates(text, e, x, y);
      BlocksAreWellPlaced(text, e);
      DifferentBlocks(Span(s, t), e, rest, x, y);
    }
  }

  lemma DifferentBlocks(first: Span, e: nat, rest: seq<Span>, x: nat, y: nat)
    requires first.end <= e && x < e <= y && forall i | 0 <= i < |rest| :: e <= rest[i].start
    ensures !SameBlock([first] + rest, x, y)
  {
    var all := [first] + rest;
    assert forall i | 0 < i < |all| :: all[i] == rest[i - 1];
  }

  lemma TailSameBlock(all: seq<Span>, x: nat, y: nat)
    requires all != [] && !Inside(all[0], x)
    ensures SameBlock(all, x, y) <==> SameBlock(all[1..], x, y)
  {
    var rest := all[1..];
    if i :| 0 <= i < |rest| && Inside(rest[i], x) && Inside(rest[i], y) {
      assert all[i + 1] == rest[i];
    }
    if i :| 0 <= i < |all| && Inside(all[i], x) && Inside(all[i], y) {
      assert rest[i - 1] == all[i];
    }
  }

  lemma NoStopInside(text: string, s: nat, e: nat, x: nat, y: nat)
    requires s <= x < y < e <= |text| && forall k | s < k < e :: !StopsAt(text, k)
    ensures !Separated(text, x, y)
  {
    if Separated(text, x, y) {
      var a: nat, b: nat :| x < a && b < y && BlankLine(text, a, b);
      assert StopsAt(text, a);
    }
  }

  lemma StopSeparates(text: string, e: nat, x: nat, y: nat)
    requires x < e <= y < |text| && StopsAt(text, e) && !IsSpace(text[y])
    ensures Separated(text, x, y)
  {
    var b :| e < b < |text| && BlankLine(text, e, b);
    assert b < y;
  }

  // ----- nothing but white space is lost

  function TextOf(text: string, span: Span): string {
    if span.start <= span.end <= |text| then text[span.start..span.end] else ""
  }

  function SolidOf(text: string, spans: seq<Span>): string {
    if spans == [] then "" else Solid(TextOf(text, spans[0])) + SolidOf(text, spans[1..])
  }

  lemma {:induction false} BlocksKeepSolid(text: string, from: nat)
    requires from <= |text|
    ensures SolidOf(text, Blocks(text, from)) == Solid(text[from..])
    decreases |text| - from
  {
    hide IsSpace, StopsAt, Solid, Blocks, TextOf;
    var s, t, e := NextBlock(text, from);
    if s == |text| {
      SolidOfBlank(text[from..]);
    } else {
      BlocksKeepSolid(text, e);
      SolidOfFirst(text, from, s, t, e);
      SolidOfCons(text, Span(s, t), Blocks(text, e));
    }
  }

  lemma SolidOfCons(text: string, first: Span, rest: seq<Span>)
    ensures SolidOf(text, [first] + rest) == Solid(TextOf(text, first)) + SolidOf(text, rest)
  {
    hide Solid, TextOf;
    assert ([first] + rest)[1..] == rest;
  }

  lemma SolidOfFirst(text: string, from: nat, s: nat, t: nat, e: nat)
    requires from <= s < t <= e <= |text|
    requires forall k | from <= k < s || t <= k < e :: IsSpace(text[k])
    ensures Solid(text[from..]) == Solid(TextOf(text, Span(s, t))) + Solid(text[e..])
  {
    hide IsSpace, Solid;
    SolidSplit(text, from, s);
    SolidSplit(text, s, t);
    SolidSplit(text, t, e);
    SolidOfBlank(text[from..s]);
    SolidOfBlank(text[t..e]);
  }

  lemma SolidSplit(text: string, from: nat, to: nat)
    requires from <= to <= |text|
    ensures Solid(text[from..]) == Solid(text[from..to]) + Solid(text[to..])
  {
    SolidAppend(text[from..to], text[to..]);
    assert text[from..] == text[from..to] + text[to..];
  }
}
