/**
 The search for a secret in the files below a directory, reading each file in chunks and keeping a short overlap
 (tools/run_live_product_e2e.py, `_secret_occurrences`).
 */
module NeedleSearch {
  import opened Sequences

  type Bytes = seq<bv8>

  /** A chunk is what one read returned; reading stops at the first empty one. */
  type Chunk = c: Bytes | c != [] witness [0]

  datatype Entry = Directory(path: string) | File(path: string, chunks: seq<Chunk>)

  function Content(chunks: seq<Chunk>): Bytes {
    if chunks == [] then [] else Content(chunks[..|chunks| - 1]) + chunks[|chunks| - 1]
  }

  /**
   The slice `text[-max(0, size - 1):]`.  A slice from minus zero is the whole text, so for needles of at most one
   byte nothing is dropped.
   */
  function Overlap(text: Bytes, size: nat): (kept: Bytes)
    ensures |kept| <= |text| && kept == text[|text| - |kept|..]
  {
    if size <= 1 || size - 1 >= |text| then text else text[|text| - (size - 1)..]
  }

  /** What is kept is one byte less than the needle, if there is as much, but everything for a needle of one byte. */
  lemma OverlapLength(text: Bytes, size: nat)
    ensures |Overlap(text, size)| == if size <= 1 || |text| < size then |text| else size - 1
  {
  }

  /** Cutting back to the overlap before or after more text arrives makes no difference. */
  lemma OverlapIsIncremental(text: Bytes, more: Bytes, size: nat)
    ensures Overlap(Overlap(text, size) + more, size) == Overlap(text + more, size)
  {
    var kept := Overlap(text, size);
    var cut := |text| - |kept|;
    assert kept + more == (text + more)[cut..];
    if size > 1 && size - 1 < |text| {
      assert (text + more)[cut..][|more|..] == (text + more)[cut + |more|..];
    }
  }

  /** A needle that is new in the longer text ends in the new part, so the overlap is enough to see it. */
  lemma OverlapSuffices(needle: Bytes, text: Bytes, more: Bytes)
    requires !Occurs(needle, text)
    ensures Occurs(needle, Overlap(text, |needle|) + more) <==> Occurs(needle, text + more)
  {
    var kept := Overlap(text, |needle|);
    var front := text[..|text| - |kept|];
    FrontIsDropped(text, |needle|, more);
    hide OccursAt, Overlap;
    if i: nat :| OccursAt(needle, kept + more, i) {
      Shifted(needle, front, kept + more, i);
    }
    if i: nat :| OccursAt(needle, text + more, i) {
      StaysInside(needle, text, more, i);
      Shifted(needle, front, kept + more, i - |front|);
    }
  }

  lemma FrontIsDropped(text: Bytes, size: nat, more: Bytes)
    ensures var kept := Overlap(text, size);
            && text + more == text[..|text| - |kept|] + (kept + more)
            && (kept != text ==> |kept| == size - 1)
  {
  }

  lemma StaysInside(needle: Bytes, text: Bytes, more: Bytes, i: nat)
    ensures OccursAt(needle, text + more, i) ==> i + |needle| <= |text + more|
    ensures OccursAt(needle, text + more, i) && i + |needle| <= |text| ==> OccursAt(needle, text, i)
  {
    if i + |needle| <= |text| { assert text[i..i + |needle|] == (text + more)[i..i + |needle|]; }
  }

  lemma Shifted(needle: Bytes, front: Bytes, text: Bytes, i: nat)
    ensures OccursAt(needle, text, i) <==> OccursAt(needle, front + text, |front| + i)
  {
    if i + |needle| <= |text| {
      assert text[i..i + |needle|] == (front + text)[|front| + i..|front| + i + |needle|];
    }
  }

  /**
   One file: the needle is reported exactly when it occurs in the whole content, however the content was cut into
   chunks.  An empty needle is reported for every file that is not empty.
   */
  method SearchChunks(needle: Bytes, chunks: seq<Chunk>) returns (found: bool)
    ensures found <==> Content(chunks) != [] && Occurs(needle, Content(chunks))
  {
    hide Overlap, Occurs, Content;
    var previous: Bytes := [];
    var i := 0;
    NothingRead(needle, chunks);
    while i < |chunks|
      invariant 0 <= i <= |chunks|
      invariant previous == Overlap(Content(chunks[..i]), |needle|)
      invariant if i == 0 then Content(chunks[..i]) == []
                else Content(chunks[..i]) != [] && !Occurs(needle, Content(chunks[..i]))
    {
      var combined := previous + chunks[i];
      found := Occurs(needle, combined);
      OneMoreChunk(needle, chunks, i);
      if found {
        FoundStays(needle, chunks, i + 1);
        return;
      }
      previous := Overlap(combined, |needle|);
      i := i + 1;
    }
    assert chunks[..i] == chunks;
    found := false;
  }

  lemma NothingRead(needle: Bytes, chunks: seq<Chunk>)
    ensures Content(chunks[..0]) == [] && Overlap([], |needle|) == []
  {
  }

  lemma OneMoreChunk(needle: Bytes, chunks: seq<Chunk>, i: nat)
    requires i < |chunks|
    requires if i == 0 then Content(chunks[..i]) == [] else !Occurs(needle, Content(chunks[..i]))
    ensures var all, combined := Content(chunks[..i + 1]), Overlap(Content(chunks[..i]), |needle|) + chunks[i];
            && all != []
            && (Occurs(needle, combined) <==> Occurs(needle, all))
            && Overlap(combined, |needle|) == Overlap(all, |needle|)
  {
    var seen := Content(chunks[..i]);
    assert chunks[..i + 1][..i] == chunks[..i];
    assert Content(chunks[..i + 1]) == seen + chunks[i];
    OverlapIsIncremental(seen, chunks[i], |needle|);
    hide Occurs;
    if i == 0 {
      assert Overlap([], |needle|) == [];
    } else {
      OverlapSuffices(needle, seen, chunks[i]);
    }
  }

  lemma OccurrenceStays(needle: Bytes, text: Bytes, more: Bytes, i: nat)
    requires OccursAt(needle, text, i)
    ensures Occurs(needle, text + more)
  {
    assert (text + more)[i..i + |needle|] == text[i..i + |needle|];
    assert OccursAt(needle, text + more, i);
  }

  lemma {:induction false} FoundStays(needle: Bytes, chunks: seq<Chunk>, n: nat)
    requires n <= |chunks| && Content(chunks[..n]) != [] && Occurs(needle, Content(chunks[..n]))
    ensures Content(chunks) != [] && Occurs(needle, Content(chunks))
    decreases |chunks|
  {
    if n == |chunks| {
      assert chunks[..n] == chunks;
    } else {
      var shorter := chunks[..|chunks| - 1];
      assert shorter[..n] == chunks[..n];
      FoundStays(needle, shorter, n);
      var i: nat :| OccursAt(needle, Content(shorter), i);
      OccurrenceStays(needle, Content(shorter), chunks[|chunks| - 1], i);
    }
  }

  // ----- all files

  ghost predicate Holds(needle: Bytes, entry: Entry) {
    entry.File? && Content(entry.chunks) != [] && Occurs(needle, Content(entry.chunks))
  }

  /** The paths of the files that hold the needle, in the order in which they were visited. */
  ghost function Findings(needle: Bytes, entries: seq<Entry>): seq<string> {
    if entries == [] then []
    else
      var last := entries[|entries| - 1];
      Findings(needle, entries[..|entries| - 1]) + if Holds(needle, last) then [last.path] else []
  }

  method SecretOccurrences(needle: Bytes, entries: seq<Entry>) returns (findings: seq<string>)
    ensures findings == Findings(needle, entries)
  {
    findings := [];
    var i := 0;
    while i < |entries|
      invariant 0 <= i <= |entries|
      invariant findings == Findings(needle, entries[..i])
    {
      assert entries[..i + 1][..i] == entries[..i];
      if entries[i].File? {
        var found := SearchChunks(needle, entries[i].chunks);
        if found {
          findings := findings + [entries[i].path];
        }
      }
      i := i + 1;
    }
    assert entries[..i] == entries;
  }

  /** No report at all means that no file contains the secret. */
  lemma {:induction false} CleanIff(needle: Bytes, entries: seq<Entry>)
    ensures Findings(needle, entries) == [] <==> forall e :: e in entries ==> !Holds(needle, e)
    decreases |entries|
  {
    if entries != [] {
      var init, last := entries[..|entries| - 1], entries[|entries| - 1];
      CleanIff(needle, init);
      assert entries == init + [last];
    }
  }
}
