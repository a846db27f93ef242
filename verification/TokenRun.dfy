/**
 The longest contiguous run of tokens that two texts share
 (src/stata_research_agent/application/rag_evaluation.py, `_longest_common_token_run`).  Texts are given as the
 case-folded tokens that the tokenizer finds in them.
 */
module TokenRun {
  type Token = string

  /** The run of `n` tokens from `i` on the left is the run from `j` on the right. */
  ghost predicate SharedAt(left: seq<Token>, right: seq<Token>, i: nat, j: nat, n: nat) {
    i + n <= |left| && j + n <= |right| && left[i..i + n] == right[j..j + n]
  }

  ghost predicate Shares(left: seq<Token>, right: seq<Token>, n: nat) {
    exists i, j :: SharedAt(left, right, i, j, n)
  }

  ghost predicate IsLongest(left: seq<Token>, right: seq<Token>, n: nat) {
    Shares(left, right, n) && forall m: nat :: Shares(left, right, m) ==> m <= n
  }

  /** The length of the common run that ends just before `i` on the left and `j` on the right. */
  function RunEndingAt(left: seq<Token>, right: seq<Token>, i: nat, j: nat): (n: nat)
    requires i <= |left| && j <= |right|
    ensures n <= i && n <= j
  {
    if i == 0 || j == 0 || left[i - 1] != right[j - 1] then 0 else RunEndingAt(left, right, i - 1, j - 1) + 1
  }

  lemma {:induction false} RunIsShared(left: seq<Token>, right: seq<Token>, i: nat, j: nat)
    requires i <= |left| && j <= |right|
    ensures var n := RunEndingAt(left, right, i, j); SharedAt(left, right, i - n, j - n, n)
  {
    if i > 0 && j > 0 && left[i - 1] == right[j - 1] {
      RunIsShared(left, right, i - 1, j - 1);
      var n := RunEndingAt(left, right, i - 1, j - 1);
      assert left[i - 1 - n..i] == left[i - 1 - n..i - 1] + [left[i - 1]];
      assert right[j - 1 - n..j] == right[j - 1 - n..j - 1] + [right[j - 1]];
    }
  }

  /** No shared run that ends there is longer. */
  lemma {:induction false} RunIsMaximal(left: seq<Token>, right: seq<Token>, i: nat, j: nat, n: nat)
    requires SharedAt(left, right, i, j, n)
    ensures n <= RunEndingAt(left, right, i + n, j + n)
    decreases n
  {
    if n > 0 {
      assert left[i..i + n][n - 1] == right[j..j + n][n - 1];
      assert left[i..i + n - 1] == left[i..i + n][..n - 1] && right[j..j + n - 1] == right[j..j + n][..n - 1];
      RunIsMaximal(left, right, i, j, n - 1);
    }
  }

  ghost predicate BoundsRow(left: seq<Token>, right: seq<Token>, i: nat, width: nat, bound: nat)
    requires i <= |left| && width <= |right|
  {
    forall j | 0 <= j <= width :: RunEndingAt(left, right, i, j) <= bound
  }

  ghost predicate Attained(left: seq<Token>, right: seq<Token>, bound: nat) {
    exists i, j | 0 <= i <= |left| && 0 <= j <= |right| :: RunEndingAt(left, right, i, j) == bound
  }

  lemma BoundIsLongest(left: seq<Token>, right: seq<Token>, bound: nat)
    requires Attained(left, right, bound)
    requires forall i | 0 <= i <= |left| :: BoundsRow(left, right, i, |right|, bound)
    ensures IsLongest(left, right, bound)
  {
    var i, j :| 0 <= i <= |left| && 0 <= j <= |right| && RunEndingAt(left, right, i, j) == bound;
    RunIsShared(left, right, i, j);
    assert SharedAt(left, right, i - bound, j - bound, bound);
    forall m: nat | Shares(left, right, m) ensures m <= bound {
      var a: nat, b: nat :| SharedAt(left, right, a, b, m);
      RunIsMaximal(left, right, a, b, m);
      assert BoundsRow(left, right, a + m, |right|, bound);
    }
  }

  lemma NothingShared(left: seq<Token>, right: seq<Token>)
    requires left == [] || right == []
    ensures IsLongest(left, right, 0)
  {
    assert SharedAt(left, right, 0, 0, 0);
  }

  /** Only two rows of the table are kept. */
  method LongestCommonTokenRun(left: seq<Token>, right: seq<Token>) returns (longest: nat)
    ensures IsLongest(left, right, longest)
  {
    if left == [] || right == [] {
      NothingShared(left, right);
      return 0;
    }
    var previous := seq(|right| + 1, _ => 0);
    longest := 0;
    assert RunEndingAt(left, right, 0, 0) == 0;
    var i := 0;
    while i < |left|
      invariant 0 <= i <= |left|
      invariant |previous| == |right| + 1
      invariant forall j | 0 <= j <= |right| :: previous[j] == RunEndingAt(left, right, i, j)
      invariant forall k | 0 <= k <= i :: BoundsRow(left, right, k, |right|, longest)
      invariant Attained(left, right, longest)
    {
      var current := [0];
      var j := 1;
      ghost var before := longest;
      while j <= |right|
        invariant 1 <= j <= |right| + 1 && |current| == j
        invariant forall k | 0 <= k < j :: current[k] == RunEndingAt(left, right, i + 1, k)
        invariant before <= longest && BoundsRow(left, right, i + 1, j - 1, longest)
        invariant Attained(left, right, longest)
      {
        var run := if left[i] == right[j - 1] then previous[j - 1] + 1 else 0;
        assert run == RunEndingAt(left, right, i + 1, j);
        current := current + [run];
        if run > longest {
          longest := run;
        }
        j := j + 1;
      }
      forall k | 0 <= k <= i ensures BoundsRow(left, right, k, |right|, longest) {
        assert BoundsRow(left, right, k, |right|, before);
      }
      previous := current;
      i := i + 1;
    }
    BoundIsLongest(left, right, longest);
  }

  // ----- the length as a value

  /** It does not matter which text is which. */
  lemma LongestIsSymmetric(left: seq<Token>, right: seq<Token>, n: nat)
    ensures IsLongest(left, right, n) <==> IsLongest(right, left, n)
  {
    forall m: nat ensures Shares(left, right, m) <==> Shares(right, left, m) {
      if i: nat, j: nat :| SharedAt(left, right, i, j, m) { assert SharedAt(right, left, j, i, m); }
      if i: nat, j: nat :| SharedAt(right, left, i, j, m) { assert SharedAt(left, right, j, i, m); }
    }
  }

  /** A run of every shorter length is shared too, so a limit on the length excludes exactly the longer runs. */
  lemma LimitExcludesLongerRuns(left: seq<Token>, right: seq<Token>, longest: nat, limit: nat)
    requires IsLongest(left, right, longest)
    ensures longest <= limit <==> !Shares(left, right, limit + 1)
  {
    if longest > limit {
      var i: nat, j: nat :| SharedAt(left, right, i, j, longest);
      assert left[i..i + limit + 1] == left[i..i + longest][..limit + 1];
      assert right[j..j + limit + 1] == right[j..j + longest][..limit + 1];
      assert SharedAt(left, right, i, j, limit + 1);
    }
  }
}
