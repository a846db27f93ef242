/**
 Building the canonical nodes of a document
 (src/stata_research_agent/application/knowledge_retrieval.py, `build_canonical_nodes`): headings open sections,
 every other block becomes a paragraph of the section that is open.
 */
module KnowledgeNodes {
  import opened Wrappers
  import opened KnowledgeBlocks

  // ----- the text of a node

  function LineEnd(s: string): (n: nat)
    ensures n <= |s| && (n < |s| ==> IsSpace(s[n]))
  {
    if s == "" || EndsLine(s[0]) then 0 else 1 + LineEnd(s[1..])
  }

  /** `str.splitlines`, where a carriage return and a line feed end a line together. */
  function Lines(s: string): seq<string>
    decreases |s|
  {
    if s == "" then []
    else
      var n := LineEnd(s);
      if n == |s| then [s]
      else [s[..n]] + Lines(s[if s[n] == '\r' && n + 1 < |s| && s[n + 1] == '\n' then n + 2 else n + 1..])
  }

  function StripLeft(s: string): string {
    if s != "" && IsSpace(s[0]) then StripLeft(s[1..]) else s
  }

  function StripRight(s: string): string {
    if s != "" && IsSpace(s[|s| - 1]) then StripRight(s[..|s| - 1]) else s
  }

  function Strip(s: string): string {
    StripRight(StripLeft(s))
  }

  /** The lines that are not blank, stripped and joined by line feeds. */
  function JoinStripped(lines: seq<string>): string {
    if lines == [] then ""
    else
      var line, rest := Strip(lines[0]), JoinStripped(lines[1..]);
      if line == "" then rest else if rest == "" then line else line + "\n" + rest
  }

  function Normalized(block: string): string {
    JoinStripped(Lines(block))
  }

  lemma {:induction false} StripLeftKeepsSolid(s: string)
    ensures Solid(StripLeft(s)) == Solid(s)
  {
    if s != "" && IsSpace(s[0]) { StripLeftKeepsSolid(s[1..]); }
  }

  lemma {:induction false} StripRightKeepsSolid(s: string)
    ensures Solid(StripRight(s)) == Solid(s)
    decreases |s|
  {
    if s != "" && IsSpace(s[|s| - 1]) {
      var init, last := s[..|s| - 1], s[|s| - 1..];
      StripRightKeepsSolid(init);
      SolidAppend(init, last);
      SolidOfBlank(last);
      assert s == init + last;
    }
  }

  lemma StripKeepsSolid(s: string)
    ensures Solid(Strip(s)) == Solid(s)
  {
    StripLeftKeepsSolid(s);
    StripRightKeepsSolid(StripLeft(s));
  }

  function SolidOfLines(lines: seq<string>): string {
    if lines == [] then "" else Solid(lines[0]) + SolidOfLines(lines[1..])
  }

  lemma {:induction false} JoinKeepsSolid(lines: seq<string>)
    ensures Solid(JoinStripped(lines)) == SolidOfLines(lines)
  {
    hide Solid, Strip;
    if lines == [] {
      SolidOfBlank("");
    } else {
      var line, rest := Strip(lines[0]), JoinStripped(lines[1..]);
      JoinKeepsSolid(lines[1..]);
      StripKeepsSolid(lines[0]);
      SolidOfBlank("\n");
      SolidOfBlank("");
      SolidAppend(line, "\n");
      SolidAppend(line + "\n", rest);
    }
  }

  lemma {:induction false} LinesKeepSolid(s: string)
    ensures SolidOfLines(Lines(s)) == Solid(s)
    decreases |s|
  {
    hide Solid, IsSpace;
    if s == "" {
      SolidOfBlank("");
    } else {
      var n := LineEnd(s);
      if n == |s| {
        assert [s][1..] == [];
      } else {
        var next := if s[n] == '\r' && n + 1 < |s| && s[n + 1] == '\n' then n + 2 else n + 1;
        LinesKeepSolid(s[next..]);
        LineBreakIsBlank(s, n, next);
        SolidSplit(s, 0, n);
        SolidSplit(s, n, next);
        SolidOfBlank(s[n..next]);
        assert s[0..] == s && s[0..n] == s[..n];
        assert ([s[..n]] + Lines(s[next..]))[1..] == Lines(s[next..]);
      }
    }
  }

  lemma LineBreakIsBlank(s: string, n: nat, next: nat)
    requires n < next <= |s| && IsSpace(s[n]) && (next == n + 1 || (next == n + 2 && s[n + 1] == '\n'))
    ensures IsBlank(s[n..next])
  {
  }

  /** Normalising drops white space only. */
  lemma NormalizedKeepsSolid(block: string)
    ensures Solid(Normalized(block)) == Solid(block)
  {
    JoinKeepsSolid(Lines(block));
    LinesKeepSolid(block);
  }

  // ----- headings

  function Hashes(s: string): (n: nat)
    ensures n <= |s|
  {
    if s != "" && s[0] == '#' then 1 + Hashes(s[1..]) else 0
  }

  /** The title of a block that `#{1,6}\s+(.+)` matches as a whole; the block does not end in a space. */
  function HashTitle(block: string): Option<string> {
    var h := Hashes(block);
    if 1 <= h <= 6 && h < |block| && IsSpace(block[h]) then
      var s := NextSolid(block, h);
      if s < |block| && '\n' !in block[s..] then Some(Strip(block[s..])) else None
    else None
  }

  /** The title of a block that `\{title:([^}]+)\}` matches as a whole. */
  function BraceTitle(block: string): Option<string> {
    var open := "{title:";
    if |open| + 1 < |block| && open <= block && block[|block| - 1] == '}' && '}' !in block[|open|..|block| - 1]
    then Some(Strip(block[|open|..|block| - 1]))
    else None
  }

  function Title(block: string): Option<string> {
    if HashTitle(block).Some? then HashTitle(block) else BraceTitle(block)
  }

  /** Only a title in braces can be blank. */
  lemma HashTitlesAreSolid(block: string)
    ensures HashTitle(block).Some? ==> Solid(HashTitle(block).value) != ""
  {
    if HashTitle(block).Some? {
      var s := NextSolid(block, Hashes(block));
      StripKeepsSolid(block[s..]);
      SolidOfBlank(block[s..]);
      assert !IsSpace(block[s..][0]);
    }
  }

  // ----- nodes

  datatype Page = Page(number: Option<int>, text: string)

  datatype Block = Block(page: Option<int>, text: string, span: Span)

  datatype Key = Document | Section(number: nat) | Paragraph(number: nat)

  datatype Node = Node(
    key: Key, parent: Option<Key>, ordinal: nat, text: string, page: Option<int>, span: Option<Span>,
    section: Option<string>)

  datatype BuildError = BlankNode | NoContent

  function BlocksAt(page: Page, spans: seq<Span>): seq<Block> {
    seq(|spans|, i requires 0 <= i < |spans| => Block(page.number, TextOf(page.text, spans[i]), spans[i]))
  }

  function BlocksOf(page: Page): seq<Block> {
    BlocksAt(page, Blocks(page.text, 0))
  }

  function AllBlocks(pages: seq<Page>): seq<Block> {
    if pages == [] then [] else AllBlocks(pages[..|pages| - 1]) + BlocksOf(pages[|pages| - 1])
  }

  function Headings(blocks: seq<Block>): (n: nat)
    ensures n <= |blocks|
  {
    if blocks == [] then 0
    else Headings(blocks[..|blocks| - 1]) + if Title(blocks[|blocks| - 1].text).Some? then 1 else 0
  }

  /** The title of the last heading. */
  function OpenSection(blocks: seq<Block>): Option<string> {
    if blocks == [] then None
    else
      var title := Title(blocks[|blocks| - 1].text);
      if title.Some? then title else OpenSection(blocks[..|blocks| - 1])
  }

  function NodeText(block: Block): string {
    var title := Title(block.text);
    if title.Some? then title.value else Normalized(block.text)
  }

  /** The node made of the last block, in terms of the blocks up to it. */
  function LastNode(blocks: seq<Block>): Node
    requires blocks != []
  {
    var n, block := |blocks|, blocks[|blocks| - 1];
    var sections := Headings(blocks);
    if Title(block.text).Some?
    then
      Node(Section(sections), Some(Document), n + 1, NodeText(block), block.page, Some(block.span),
           OpenSection(blocks))
    else Node(
           Paragraph(n - sections), Some(if sections == 0 then Document else Section(sections)), n + 1, NodeText(block),
           block.page, Some(block.span), OpenSection(blocks))
  }

  function Root(path: string): Node {
    Node(Document, None, 1, path, None, None, None)
  }

  function Nodes(path: string, blocks: seq<Block>): (nodes: seq<Node>)
    ensures |nodes| == |blocks| + 1
  {
    if blocks == [] then [Root(path)] else Nodes(path, blocks[..|blocks| - 1]) + [LastNode(blocks)]
  }

  predicate TitlesAreSolid(blocks: seq<Block>) {
    forall k | 0 <= k < |blocks| :: Title(blocks[k].text).Some? ==> Solid(Title(blocks[k].text).value) != ""
  }

  /** What the loops have built after some of the blocks. */
  ghost predicate BuiltSoFar(
      path: string, blocks: seq<Block>, nodes: seq<Node>, ordinal: nat, section: Option<Key>, title: Option<string>,
      paragraphs: nat, sections: nat)
  {
    && nodes == Nodes(path, blocks) && ordinal == |blocks| + 1
    && sections == Headings(blocks) && paragraphs == |blocks| - sections
    && section == (if sections == 0 then None else Some(Section(sections))) && title == OpenSection(blocks)
    && TitlesAreSolid(blocks)
  }

  method BuildCanonicalNodes(path: string, pages: seq<Page>) returns (r: Result<seq<Node>, BuildError>)
    ensures r.Success? <==> Solid(path) != "" && AllBlocks(pages) != [] && TitlesAreSolid(AllBlocks(pages))
    ensures r.Success? ==> r.value == Nodes(path, AllBlocks(pages))
    ensures r == Failure(NoContent) <==> Solid(path) != "" && AllBlocks(pages) == []
  {
    hide Solid, Title, BlocksOf, AllBlocks, TitlesAreSolid, BuiltSoFar, Normalized, Nodes;
    if Solid(path) == "" {
      return Failure(BlankNode);
    }
    var nodes, ordinal, section: Option<Key>, title: Option<string>, paragraphs, sections :=
      [Root(path)], 1, None, None, 0, 0;
    NothingBuilt(path, pages);
    var i := 0;
    ghost var seen: seq<Block> := [];
    while i < |pages|
      invariant 0 <= i <= |pages| && seen == AllBlocks(pages[..i])
      invariant BuiltSoFar(path, seen, nodes, ordinal, section, title, paragraphs, sections)
    {
      var blocks := BlocksOf(pages[i]);
      MorePages(pages, i);
      ghost var before := seen;
      assert before + blocks[..0] == before;
      var j := 0;
      while j < |blocks|
        invariant 0 <= j <= |blocks| && seen == before + blocks[..j]
        invariant BuiltSoFar(path, seen, nodes, ordinal, section, title, paragraphs, sections)
      {
        var block := blocks[j];
        BlockIsAmong(pages, i, j);
        OneMoreBlock(path, seen, block, nodes, ordinal, section, title, paragraphs, sections);
        var heading := Title(block.text);
        if heading.Some? {
          if Solid(heading.value) == "" {
            BlankTitle(AllBlocks(pages), |before| + j);
            return Failure(BlankNode);
          }
          sections, ordinal := sections + 1, ordinal + 1;
          section, title := Some(Section(sections)), heading;
          nodes := nodes + [
            Node(Section(sections), Some(Document), ordinal, heading.value, block.page, Some(block.span), title)];
        } else {
          paragraphs, ordinal := paragraphs + 1, ordinal + 1;
          var parent := if section.Some? then section.value else Document;
          nodes := nodes + [
            Node(Paragraph(paragraphs), Some(parent), ordinal, Normalized(block.text), block.page, Some(block.span),
                 title)];
        }
        assert seen + [block] == before + blocks[..j + 1];
        seen := seen + [block];
        j := j + 1;
      }
      assert blocks[..j] == blocks;
      i := i + 1;
    }
    assert pages[..i] == pages;
    AllBuilt(path, seen, nodes, ordinal, section, title, paragraphs, sections);
    if |nodes| == 1 {
      return Failure(NoContent);
    }
    return Success(nodes);
  }

  lemma NothingBuilt(path: string, pages: seq<Page>)
    ensures BuiltSoFar(path, [], [Root(path)], 1, None, None, 0, 0) && AllBlocks(pages[..0]) == []
  {
  }

  lemma AllBuilt(
      path: string, blocks: seq<Block>, nodes: seq<Node>, ordinal: nat, section: Option<Key>, title: Option<string>,
      paragraphs: nat, sections: nat)
    requires BuiltSoFar(path, blocks, nodes, ordinal, section, title, paragraphs, sections)
    ensures nodes == Nodes(path, blocks) && |nodes| == |blocks| + 1 && TitlesAreSolid(blocks)
  {
  }

  lemma MorePages(pages: seq<Page>, i: nat)
    requires i < |pages|
    ensures AllBlocks(pages[..i + 1]) == AllBlocks(pages[..i]) + BlocksOf(pages[i])
  {
    hide BlocksOf;
    assert pages[..i + 1][..i] == pages[..i];
  }

  lemma {:induction false} EarlierPages(pages: seq<Page>, n: nat)
    requires n <= |pages|
    ensures AllBlocks(pages[..n]) <= AllBlocks(pages)
    decreases |pages|
  {
    hide BlocksOf;
    if n == |pages| {
      assert pages[..n] == pages;
    } else {
      var init := pages[..|pages| - 1];
      EarlierPages(init, n);
      assert init[..n] == pages[..n];
    }
  }

  lemma BlockIsAmong(pages: seq<Page>, i: nat, j: nat)
    requires i < |pages| && j < |BlocksOf(pages[i])|
    ensures var k := |AllBlocks(pages[..i])| + j;
            k < |AllBlocks(pages)| && AllBlocks(pages)[k] == BlocksOf(pages[i])[j]
  {
    hide BlocksOf;
    MorePages(pages, i);
    EarlierPages(pages, i + 1);
  }

  lemma BlankTitle(blocks: seq<Block>, k: nat)
    requires k < |blocks| && Title(blocks[k].text).Some? && Solid(Title(blocks[k].text).value) == ""
    ensures !TitlesAreSolid(blocks)
  {
    hide Title, Solid;
  }

  lemma OneMoreBlock(
      path: string, blocks: seq<Block>, block: Block, nodes: seq<Node>, ordinal: nat, section: Option<Key>,
      title: Option<string>, paragraphs: nat, sections: nat)
    requires BuiltSoFar(path, blocks, nodes, ordinal, section, title, paragraphs, sections)
    ensures var heading := Title(block.text);
            if heading.Some? then
              Solid(heading.value) != "" ==>
                var key := Section(sections + 1);
                var node :=
                  Node(key, Some(Document), ordinal + 1, heading.value, block.page, Some(block.span), heading);
                BuiltSoFar(path, blocks + [block], nodes + [node], ordinal + 1, Some(key), heading, paragraphs,
                           sections + 1)
            else
              var parent := if section.Some? then section.value else Document;
              var node := Node(
                            Paragraph(paragraphs + 1), Some(parent), ordinal + 1, Normalized(block.text), block.page,
                            Some(block.span), title);
              BuiltSoFar(path, blocks + [block], nodes + [node], ordinal + 1, section, title, paragraphs + 1, sections)
  {
    hide Title, Solid, Normalized;
    var all := blocks + [block];
    assert all[..|all| - 1] == blocks;
  }
}
