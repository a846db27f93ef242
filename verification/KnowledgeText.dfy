/**
 The laws behind the text of knowledge nodes: what stripping, cutting into lines and joining them come to, and which
 blocks are headings, in terms of the patterns of `build_canonical_nodes`
 (src/stata_research_agent/application/knowledge_retrieval.py).
 */
module KnowledgeText {
  import opened Wrappers
  import opened Sequences
  import opened KnowledgeBlocks
  import opened KnowledgeNodes

  // ----- stripping

  lemma {:induction false} StripLeftBlank(before: string, rest: string)
    requires IsBlank(before)
    ensures StripLeft(before + rest) == StripLeft(rest)
    decreases |before|
  {
    if before == "" {
      assert before + rest == rest;
    } else {
      assert (before + rest)[0] == before[0] && (before + rest)[1..] == before[1..] + rest;
      StripLeftBlank(before[1..], rest);
    }
  }

  lemma {:induction false} StripRightBlank(rest: string, after: string)
    requires IsBlank(after)
    ensures StripRight(rest + after) == StripRight(rest)
    decreases |after|
  {
    if after == "" {
      assert rest + after == rest;
    } else {
      var n := |after| - 1;
      assert (rest + after)[..|rest + after| - 1] == rest + after[..n];
      StripRightBlank(rest, after[..n]);
    }
  }

  /** Neither end is white space. */
  predicate IsTight(s: string) {
    s != "" ==> !IsSpace(s[0]) && !IsSpace(s[|s| - 1])
  }

  /** Stripping removes the white space around a text and nothing else. */
  lemma StripIsCore(before: string, core: string, after: string)
    requires IsBlank(before) && IsTight(core) && IsBlank(after)
    ensures Strip(before + (core + after)) == core
  {
    StripLeftBlank(before, core + after);
    if core == "" {
      assert core + after == after && after + "" == after;
      StripLeftBlank(after, "");
    } else {
      assert (core + after)[0] == core[0];
      StripRightBlank(core, after);
    }
  }

  // ----- lines

  /** The characters that end a line; all of them are white space. */
  lemma LineEnds(c: char)
    ensures EndsLine(c) <==>
              c as int in {0x0a, 0x0b, 0x0c, 0x0d, 0x1c, 0x1d, 0x1e, 0x85, 0x2028, 0x2029}
    ensures EndsLine(c) ==> IsSpace(c)
    ensures IsSpace(c) <==>
              || EndsLine(c) || c in {'\t', ' '} || c as int in {0x1f, 0xa0, 0x1680, 0x202f, 0x205f, 0x3000}
              || 0x1fff < c as int < 0x200b
  {
  }

  predicate NoBreak(s: string) {
    forall k | 0 <= k < |s| :: !EndsLine(s[k])
  }

  predicate IsBreak(s: string) {
    s == "\r\n" || (|s| == 1 && EndsLine(s[0]))
  }

  lemma {:induction false} LineEndsAt(line: string, rest: string)
    requires NoBreak(line) && (rest != "" ==> EndsLine(rest[0]))
    ensures LineEnd(line + rest) == |line|
    decreases |line|
  {
    if line == "" {
      assert line + rest == rest;
    } else {
      assert (line + rest)[0] == line[0] && (line + rest)[1..] == line[1..] + rest;
      LineEndsAt(line[1..], rest);
    }
  }

  /** The first line reaches to the first line break, and a carriage return takes a line feed with it. */
  lemma FirstLine(line: string, end: string, rest: string)
    requires NoBreak(line) && IsBreak(end) && !(end == "\r" && rest != "" && rest[0] == '\n')
    ensures Lines(line + (end + rest)) == [line] + Lines(rest)
  {
    var s := line + (end + rest);
    LineEndsAt(line, end + rest);
    LinesCut(s, |line|);
    BreakLength(line, end, rest);
    ThreeParts(line, end, rest);
    hide *;
  }

  lemma ThreeParts(line: string, end: string, rest: string)
    ensures var s := line + (end + rest);
            s[..|line|] == line && s[|line| + |end|..] == rest
  {
  }

  lemma BreakLength(line: string, end: string, rest: string)
    requires IsBreak(end) && !(end == "\r" && rest != "" && rest[0] == '\n')
    ensures var s, n := line + (end + rest), |line|;
            |end| == if s[n] == '\r' && n + 1 < |s| && s[n + 1] == '\n' then 2 else 1
  {
    var s := line + (end + rest);
    assert s[|line|] == end[0];
    if |s| > |line| + 1 { assert s[|line| + 1] == (end + rest)[1]; }
  }

  lemma LinesCut(s: string, n: nat)
    requires LineEnd(s) == n < |s|
    ensures Lines(s) ==
            [s[..n]] + Lines(s[n + if s[n] == '\r' && n + 1 < |s| && s[n + 1] == '\n' then 2 else 1..])
  {
  }

  lemma LastLine(line: string)
    requires NoBreak(line)
    ensures Lines(line) == if line == "" then [] else [line]
  {
    LineEndsAt(line, "");
    assert line + "" == line;
  }

  /** The lines that are not blank, stripped. */
  function Kept(lines: seq<string>): seq<string> {
    if lines == [] then []
    else (if Strip(lines[0]) == "" then [] else [Strip(lines[0])]) + Kept(lines[1..])
  }

  function Glued(parts: seq<string>, glue: string): string {
    if parts == [] then "" else if |parts| == 1 then parts[0] else parts[0] + glue + Glued(parts[1..], glue)
  }

  lemma {:induction false} KeptIsSolid(lines: seq<string>)
    ensures forall k | 0 <= k < |Kept(lines)| :: Kept(lines)[k] != ""
    ensures Glued(Kept(lines), "\n") == "" <==> Kept(lines) == []
    decreases |lines|
  {
    hide Strip;
    if lines != [] { KeptIsSolid(lines[1..]); }
  }

  /** Normalising strips every line, drops the blank ones and joins the others by line feeds. */
  lemma {:induction false} JoinedLines(lines: seq<string>)
    ensures JoinStripped(lines) == Glued(Kept(lines), "\n")
    decreases |lines|
  {
    hide Strip;
    if lines != [] {
      var line, kept := Strip(lines[0]), Kept(lines[1..]);
      JoinedLines(lines[1..]);
      KeptIsSolid(lines[1..]);
      if line == "" {
        assert Kept(lines) == kept;
      } else {
        assert Kept(lines) == [line] + kept && ([line] + kept)[1..] == kept;
        if kept == [] { assert Glued(Kept(lines), "\n") == line; }
      }
    }
  }

  // ----- headings

  /** One to six `#`, white space, and a rest within one line: the pattern `#{1,6}\s+(.+)`. */
  ghost predicate MatchesHash(block: string, h: nat, w: nat) {
    && 1 <= h <= 6 && 1 <= w && h + w < |block|
    && (forall k | 0 <= k < h :: block[k] == '#')
    && IsBlank(block[h..h + w])
    && '\n' !in block[h + w..]
  }

  lemma {:induction false} CountHashes(s: string, h: nat)
    requires h < |s| && (forall k | 0 <= k < h :: s[k] == '#') && s[h] != '#'
    ensures Hashes(s) == h
    decreases h
  {
    if h > 0 { CountHashes(s[1..], h - 1); }
  }

  lemma {:induction false} HashesCounted(s: string)
    ensures (forall k | 0 <= k < Hashes(s) :: s[k] == '#') && (Hashes(s) < |s| ==> s[Hashes(s)] != '#')
  {
    if s != "" && s[0] == '#' {
      HashesCounted(s[1..]);
      assert forall k | 0 < k < Hashes(s) :: s[k] == s[1..][k - 1];
    }
  }

  /** A block is a hash heading if and only if it matches the pattern, and its title is what the pattern captures. */
  lemma HashHeadingIff(block: string)
    requires block != "" && !IsSpace(block[|block| - 1])
    ensures HashTitle(block).Some? <==> exists h, w :: MatchesHash(block, h, w)
    ensures forall h, w :: MatchesHash(block, h, w) ==> HashTitle(block) == Some(Strip(block[h + w..]))
  {
    forall h, w | MatchesHash(block, h, w) ensures HashTitle(block) == Some(Strip(block[h + w..])) {
      MatchIsTitle(block, h, w);
    }
    if HashTitle(block).Some? {
      var h := Hashes(block);
      HashesCounted(block);
      assert MatchesHash(block, h, NextSolid(block, h) - h);
    }
  }

  lemma MatchIsTitle(block: string, h: nat, w: nat)
    requires MatchesHash(block, h, w) && !IsSpace(block[|block| - 1])
    ensures HashTitle(block) == Some(Strip(block[h + w..]))
  {
    assert block[h..h + w][0] == block[h];
    CountHashes(block, h);
    var s := NextSolid(block, h);
    assert forall k | h <= k < h + w :: block[k] == block[h..h + w][k - h];
    assert s >= h + w;
    assert block[h + w..] == block[h + w..s] + block[s..];
    StripLeftBlank(block[h + w..s], block[s..]);
  }

  /** A block is a help heading if and only if it is `{title:…}` around something without a brace. */
  lemma BraceHeadingIff(block: string)
    ensures BraceTitle(block).Some? <==>
              exists content :: content != "" && '}' !in content && block == Braced(content)
    ensures forall content ::
              content != "" && '}' !in content && block == Braced(content) ==> BraceTitle(block) == Some(Strip(content))
  {
    forall content | content != "" && '}' !in content && block == Braced(content)
      ensures BraceTitle(block) == Some(Strip(content))
    {
      assert block[|"{title:"|..|block| - 1] == content;
    }
    if BraceTitle(block).Some? {
      var content := block[|"{title:"|..|block| - 1];
      assert block == Braced(content);
    }
  }

  function Braced(content: string): string {
    "{title:" + content + "}"
  }

  /** No block is both, so it does not matter which pattern is tried first. */
  lemma OneKindOfHeading(block: string)
    ensures HashTitle(block).None? || BraceTitle(block).None?
  {
    if HashTitle(block).Some? { HashesCounted(block); }
  }
}
