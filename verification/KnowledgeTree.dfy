/**
 What holds of the canonical nodes of every document: they form a tree in reading order, and only white space and
 heading marks are lost.
 */
module KnowledgeTree {
  import opened Wrappers
  import opened Sequences
  import opened KnowledgeBlocks
  import opened KnowledgeNodes

  predicate IsHeading(block: Block) {
    Title(block.text).Some?
  }

  /** After the root there is one node per block, in order. */
  lemma {:induction false} NodeAt(path: string, blocks: seq<Block>, k: nat)
    requires k < |blocks|
    ensures Nodes(path, blocks)[k + 1] == LastNode(blocks[..k + 1])
    decreases |blocks|
  {
    hide LastNode;
    var init := blocks[..|blocks| - 1];
    if k == |blocks| - 1 {
      assert blocks[..k + 1] == blocks;
    } else {
      NodeAt(path, init, k);
      assert init[..k + 1] == blocks[..k + 1];
    }
  }

  lemma {:induction false} RootComesFirst(path: string, blocks: seq<Block>)
    ensures Nodes(path, blocks)[0] == Root(path)
    decreases |blocks|
  {
    hide LastNode;
    if blocks != [] { RootComesFirst(path, blocks[..|blocks| - 1]); }
  }

  lemma HeadingsStep(blocks: seq<Block>, k: nat)
    requires k < |blocks|
    ensures Headings(blocks[..k + 1]) == Headings(blocks[..k]) + if IsHeading(blocks[k]) then 1 else 0
  {
    assert blocks[..k + 1][..k] == blocks[..k];
  }

  lemma {:induction false} HeadingsGrow(blocks: seq<Block>, m: nat, n: nat)
    requires m <= n <= |blocks|
    ensures Headings(blocks[..m]) <= Headings(blocks[..n]) <= Headings(blocks[..m]) + (n - m)
    decreases n - m
  {
    hide Headings, IsHeading;
    if m < n {
      HeadingsGrow(blocks, m, n - 1);
      HeadingsStep(blocks, n - 1);
    }
  }

  // ----- numbering

  lemma OrdinalsCount(path: string, blocks: seq<Block>, k: nat)
    requires k <= |blocks|
    ensures Nodes(path, blocks)[k].ordinal == k + 1
  {
    if k == 0 {
      RootComesFirst(path, blocks);
    } else {
      NodeAt(path, blocks, k - 1);
    }
  }

  lemma KeyAt(path: string, blocks: seq<Block>, k: nat)
    requires k < |blocks|
    ensures var sections := Headings(blocks[..k + 1]);
            Nodes(path, blocks)[k + 1].key ==
              if IsHeading(blocks[k]) then Section(sections) else Paragraph(k + 1 - sections)
  {
    NodeAt(path, blocks, k);
  }

  lemma ParentAt(path: string, blocks: seq<Block>, k: nat)
    requires k < |blocks|
    ensures var sections := Headings(blocks[..k + 1]);
            Nodes(path, blocks)[k + 1].parent ==
            Some(if IsHeading(blocks[k]) || sections == 0 then Document else Section(sections))
  {
    NodeAt(path, blocks, k);
  }

  lemma KeysAreUnique(path: string, blocks: seq<Block>, j: nat, k: nat)
    requires j < k <= |blocks|
    ensures Nodes(path, blocks)[j].key != Nodes(path, blocks)[k].key
  {
    hide Nodes, Title;
    KeyAt(path, blocks, k - 1);
    if j == 0 {
      RootComesFirst(path, blocks);
    } else {
      KeyAt(path, blocks, j - 1);
      HeadingsGrow(blocks, j, k - 1);
      HeadingsStep(blocks, k - 1);
    }
  }

  // ----- parents

  lemma NoBlocksNoHeadings(blocks: seq<Block>)
    ensures Headings(blocks[..0]) == 0
  {
  }

  lemma {:induction false} LatestHeading(blocks: seq<Block>, k: nat) returns (j: nat)
    requires k <= |blocks| && Headings(blocks[..k]) > 0
    ensures j < k && IsHeading(blocks[j]) && Headings(blocks[..j + 1]) == Headings(blocks[..k])
    ensures forall i | j < i < k :: !IsHeading(blocks[i])
    decreases k
  {
    hide Headings, IsHeading;
    NoBlocksNoHeadings(blocks);
    HeadingsStep(blocks, k - 1);
    if IsHeading(blocks[k - 1]) {
      j := k - 1;
    } else {
      j := LatestHeading(blocks, k - 1);
    }
  }

  lemma {:induction false} NoHeadingYet(blocks: seq<Block>, k: nat)
    requires k <= |blocks| && Headings(blocks[..k]) == 0
    ensures forall i | 0 <= i < k :: !IsHeading(blocks[i])
    decreases k
  {
    hide Headings, IsHeading;
    if k > 0 {
      HeadingsStep(blocks, k - 1);
      NoHeadingYet(blocks, k - 1);
    }
  }

  /** Node `j` is the section that is open when node `k` is made, or the root when there is none. */
  ghost predicate IsOpenSection(blocks: seq<Block>, j: nat, k: nat) {
    && j < k <= |blocks|
    && (j == 0 || IsHeading(blocks[j - 1]))
    && (forall i | j <= i < k - 1 :: !IsHeading(blocks[i]))
  }

  lemma OpenSectionIsUnique(blocks: seq<Block>, i: nat, j: nat, k: nat)
    requires IsOpenSection(blocks, i, k) && IsOpenSection(blocks, j, k)
    ensures i == j
  {
    hide IsHeading;
  }

  /**
   Every node but the root names an earlier node as its parent: a heading the root, and any other block the latest
   section before it, on whatever page that is.
   */
  lemma ParentsComeFirst(path: string, blocks: seq<Block>, k: nat) returns (j: nat)
    requires 0 < k <= |blocks|
    ensures j < k && Nodes(path, blocks)[k].parent == Some(Nodes(path, blocks)[j].key)
    ensures if IsHeading(blocks[k - 1]) then j == 0 else IsOpenSection(blocks, j, k)
  {
    hide Headings, IsHeading, Nodes, LastNode;
    ParentAt(path, blocks, k - 1);
    RootComesFirst(path, blocks);
    HeadingsStep(blocks, k - 1);
    j := 0;
    if !IsHeading(blocks[k - 1]) {
      if Headings(blocks[..k - 1]) == 0 {
        NoHeadingYet(blocks, k - 1);
      } else {
        var i := LatestHeading(blocks, k - 1);
        KeyAt(path, blocks, i);
        j := i + 1;
      }
    }
  }

  lemma {:induction false} OpenSectionAt(blocks: seq<Block>, j: nat, k: nat)
    requires 0 < j <= k <= |blocks| && IsHeading(blocks[j - 1]) && forall i | j <= i < k :: !IsHeading(blocks[i])
    ensures OpenSection(blocks[..k]) == Title(blocks[j - 1].text)
    decreases k
  {
    hide Title;
    assert blocks[..k][..k - 1] == blocks[..k - 1];
    if j < k { OpenSectionAt(blocks, j, k - 1); }
  }

  lemma {:induction false} NoSectionYet(blocks: seq<Block>, k: nat)
    requires k <= |blocks| && forall i | 0 <= i < k :: !IsHeading(blocks[i])
    ensures OpenSection(blocks[..k]).None?
    decreases k
  {
    hide Title;
    if k > 0 {
      assert blocks[..k][..k - 1] == blocks[..k - 1];
      NoSectionYet(blocks, k - 1);
    }
  }

  lemma SectionAt(path: string, blocks: seq<Block>, k: nat)
    requires 0 < k <= |blocks|
    ensures Nodes(path, blocks)[k].section == OpenSection(blocks[..k])
  {
    NodeAt(path, blocks, k - 1);
  }

  lemma HeadingText(path: string, blocks: seq<Block>, k: nat)
    requires 0 < k <= |blocks| && IsHeading(blocks[k - 1])
    ensures Title(blocks[k - 1].text) == Some(Nodes(path, blocks)[k].text)
  {
    NodeAt(path, blocks, k - 1);
  }

  /** The section a node is filed under is the text of its parent, or none below the root; a heading's is its own. */
  lemma SectionIsParentsText(path: string, blocks: seq<Block>, k: nat) returns (j: nat)
    requires 0 < k <= |blocks|
    ensures j < k && Nodes(path, blocks)[k].parent == Some(Nodes(path, blocks)[j].key)
    ensures Nodes(path, blocks)[k].section ==
            if IsHeading(blocks[k - 1]) then Some(Nodes(path, blocks)[k].text)
            else if j == 0 then None
            else Some(Nodes(path, blocks)[j].text)
  {
    hide *;
    j := ParentsComeFirst(path, blocks, k);
    SectionAt(path, blocks, k);
    SectionOpenAt(blocks, j, k);
    if IsHeading(blocks[k - 1]) {
      HeadingText(path, blocks, k);
    } else if j > 0 {
      HeadingText(path, blocks, j);
    }
  }

  lemma SectionOpenAt(blocks: seq<Block>, j: nat, k: nat)
    requires j < k <= |blocks| && (!IsHeading(blocks[k - 1]) ==> IsOpenSection(blocks, j, k))
    ensures !IsHeading(blocks[k - 1]) && j > 0 ==> IsHeading(blocks[j - 1])
    ensures OpenSection(blocks[..k]) ==
            if IsHeading(blocks[k - 1]) then Title(blocks[k - 1].text)
            else if j == 0 then None
            else Title(blocks[j - 1].text)
  {
    hide Title, IsHeading;
    if IsHeading(blocks[k - 1]) {
      OpenSectionAt(blocks, k, k);
    } else if j == 0 {
      NoSectionYet(blocks, k);
    } else {
      OpenSectionAt(blocks, j, k);
    }
  }

  // ----- texts

  lemma {:induction false} BlockOrigin(pages: seq<Page>, block: Block)
    requires block in AllBlocks(pages)
    ensures exists n | 0 <= n < |pages| :: block in BlocksOf(pages[n])
    decreases |pages|
  {
    hide BlocksOf;
    var n := |pages| - 1;
    if block !in BlocksOf(pages[n]) {
      BlockOrigin(pages[..n], block);
      var m :| 0 <= m < n && block in BlocksOf(pages[..n][m]);
      assert pages[..n][m] == pages[m];
    }
  }

  /** A block is a piece of its page that starts and ends with characters that are not white space. */
  lemma BlockIsSolid(page: Page, block: Block)
    requires block in BlocksOf(page)
    ensures Solid(block.text) != "" && block.span.start < block.span.end <= |page.text|
    ensures block.text == page.text[block.span.start..block.span.end] && block.page == page.number
  {
    hide IsSpace, Blocks, Solid;
    var spans := Blocks(page.text, 0);
    BlocksAreWellPlaced(page.text, 0);
    var i :| 0 <= i < |spans| && block == Block(page.number, TextOf(page.text, spans[i]), spans[i]);
    SolidOfBlank(block.text);
    assert !IsSpace(block.text[0]);
  }

  /** No node of an accepted document has a blank text, so no node is refused. */
  lemma NodesAreSolid(path: string, pages: seq<Page>, k: nat)
    requires Solid(path) != "" && TitlesAreSolid(AllBlocks(pages)) && k <= |AllBlocks(pages)|
    ensures Solid(Nodes(path, AllBlocks(pages))[k].text) != ""
  {
    hide Solid, Title, AllBlocks, BlocksOf, Nodes;
    var blocks := AllBlocks(pages);
    if k == 0 {
      RootComesFirst(path, blocks);
    } else {
      NodeAt(path, blocks, k - 1);
      var block := blocks[k - 1];
      BlockOrigin(pages, block);
      var n :| 0 <= n < |pages| && block in BlocksOf(pages[n]);
      BlockIsSolid(pages[n], block);
      NormalizedKeepsSolid(block.text);
    }
  }

  function SolidOfBlocks(blocks: seq<Block>): string {
    if blocks == [] then "" else SolidOfBlocks(blocks[..|blocks| - 1]) + Solid(blocks[|blocks| - 1].text)
  }

  function SolidOfPages(pages: seq<Page>): string {
    if pages == [] then "" else SolidOfPages(pages[..|pages| - 1]) + Solid(pages[|pages| - 1].text)
  }

  lemma {:induction false} SolidOfBlocksAppend(a: seq<Block>, b: seq<Block>)
    ensures SolidOfBlocks(a + b) == SolidOfBlocks(a) + SolidOfBlocks(b)
    decreases |b|
  {
    hide Solid;
    if b == [] {
      assert a + b == a;
    } else {
      var init, last := b[..|b| - 1], b[|b| - 1];
      SolidOfBlocksAppend(a, init);
      assert (a + b)[..|a + b| - 1] == a + init;
      Regroup(SolidOfBlocks(a), SolidOfBlocks(init), Solid(last.text));
    }
  }

  lemma {:induction false} SpansTellBlocks(page: Page, spans: seq<Span>)
    ensures SolidOfBlocks(BlocksAt(page, spans)) == SolidOf(page.text, spans)
    decreases |spans|
  {
    hide Solid, TextOf;
    if spans != [] {
      var first := BlocksAt(page, spans[..1]);
      SpansTellBlocks(page, spans[1..]);
      assert BlocksAt(page, spans) == first + BlocksAt(page, spans[1..]);
      SolidOfBlocksAppend(first, BlocksAt(page, spans[1..]));
      assert first == [Block(page.number, TextOf(page.text, spans[0]), spans[0])] && |first[..0]| == 0;
    }
  }

  /** The blocks of all pages hold every character that is not white space, in order. */
  lemma {:induction false} NothingIsLost(pages: seq<Page>)
    ensures SolidOfBlocks(AllBlocks(pages)) == SolidOfPages(pages)
    decreases |pages|
  {
    hide Solid;
    if pages != [] {
      var init, last := pages[..|pages| - 1], pages[|pages| - 1];
      NothingIsLost(init);
      SolidOfBlocksAppend(AllBlocks(init), BlocksOf(last));
      BlocksKeepSolid(last.text, 0);
      SpansTellBlocks(last, Blocks(last.text, 0));
      assert last.text[0..] == last.text;
    }
  }

  // ----- what each node keeps of its block

  /** What a heading's block holds before its title, and after it; nothing for any other block. */
  function Opening(block: string): string {
    if HashTitle(block).Some? then block[..Hashes(block)] else if BraceTitle(block).Some? then "{title:" else ""
  }

  function Closing(block: string): string {
    if HashTitle(block).None? && BraceTitle(block).Some? then "}" else ""
  }

  lemma {:induction false} SolidOfSolid(s: string)
    requires forall k | 0 <= k < |s| :: !IsSpace(s[k])
    ensures Solid(s) == s
  {
    hide IsSpace;
    if s != "" {
      SolidOfSolid(s[1..]);
      assert s == [s[0]] + s[1..];
    }
  }

  lemma {:induction false} HashesAreHashes(s: string)
    ensures forall k | 0 <= k < Hashes(s) :: s[k] == '#'
  {
    if s != "" && s[0] == '#' { HashesAreHashes(s[1..]); }
  }

  lemma HashIsSolid()
    ensures !IsSpace('#')
  {
  }

  /** A title holds the solid characters of its block but for the marks around it. */
  lemma TitleKeepsSolid(block: string)
    requires Title(block).Some?
    ensures Solid(block) == Opening(block) + Solid(Title(block).value) + Closing(block)
  {
    hide Solid, IsSpace;
    if HashTitle(block).Some? {
      var h, s := Hashes(block), NextSolid(block, Hashes(block));
      HashesAreHashes(block);
      HashIsSolid();
      SolidOfSolid(block[..h]);
      SolidSplit(block, 0, h);
      SolidSplit(block, h, s);
      SolidOfBlank(block[h..s]);
      StripKeepsSolid(block[s..]);
      assert block[0..] == block && block[0..h] == block[..h];
    } else {
      var n := |block| - 1;
      BraceMarks();
      SolidSplit(block, 0, 7);
      SolidAppend(block[7..n], block[n..]);
      StripKeepsSolid(block[7..n]);
      assert block[0..] == block && block[0..7] == "{title:" && block[n..] == "}";
      assert block[7..] == block[7..n] + block[n..];
      Regroup("{title:", Solid(block[7..n]), "}");
    }
  }

  lemma BraceMarks()
    ensures Solid("{title:") == "{title:" && Solid("}") == "}"
  {
    SolidOfSolid("{title:");
    SolidOfSolid("}");
  }

  /** Every node keeps the place and the solid characters of its block; a heading's loses its marks only. */
  lemma NodeKeepsBlock(path: string, blocks: seq<Block>, k: nat)
    requires k < |blocks|
    ensures var node := Nodes(path, blocks)[k + 1];
            && node.span == Some(blocks[k].span) && node.page == blocks[k].page
            && Solid(blocks[k].text) == Opening(blocks[k].text) + Solid(node.text) + Closing(blocks[k].text)
            && (!IsHeading(blocks[k]) ==> Solid(node.text) == Solid(blocks[k].text))
            && (IsHeading(blocks[k]) ==> Some(node.text) == Title(blocks[k].text))
  {
    NodeAt(path, blocks, k);
    hide Solid, HashTitle, BraceTitle, Normalized, Nodes, Headings, OpenSection;
    NormalizedKeepsSolid(blocks[k].text);
    if IsHeading(blocks[k]) { TitleKeepsSolid(blocks[k].text); }
  }

  /** The solid characters of a run of nodes, with the marks of their headings put back. */
  function Retelling(blocks: seq<Block>, nodes: seq<Node>): string
    requires |nodes| == |blocks|
  {
    if blocks == [] then ""
    else
      var n := |blocks| - 1;
      Retelling(blocks[..n], nodes[..n]) + (Opening(blocks[n].text) + Solid(nodes[n].text) + Closing(blocks[n].text))
  }

  lemma {:induction false} NodesTellBlocks(path: string, blocks: seq<Block>)
    ensures Retelling(blocks, Nodes(path, blocks)[1..]) == SolidOfBlocks(blocks)
    decreases |blocks|
  {
    hide Solid, Title, Opening, Closing, LastNode;
    if blocks != [] {
      var n := |blocks| - 1;
      NodesTellBlocks(path, blocks[..n]);
      NodeKeepsBlock(path, blocks, n);
      var nodes := Nodes(path, blocks)[1..];
      assert nodes[..n] == Nodes(path, blocks[..n])[1..] && nodes[n] == Nodes(path, blocks)[n + 1];
    }
  }

  /** The nodes of any document, its headings' marks put back, hold exactly the solid characters of its pages. */
  lemma DocumentKeepsItsText(path: string, pages: seq<Page>)
    ensures Retelling(AllBlocks(pages), Nodes(path, AllBlocks(pages))[1..]) == SolidOfPages(pages)
  {
    NodesTellBlocks(path, AllBlocks(pages));
    NothingIsLost(pages);
  }
}
