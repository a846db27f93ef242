/**
 What the counters of the memory benchmark count, and when a benchmark passes
 (src/stata_research_agent/application/agent_benchmarks.py, `evaluate_memory_predictions` and
 `_assert_split_isolation`).
 */
module MemoryMetrics {
  import opened Wrappers
  import opened Sequences
  import opened FirstFitMatching
  import opened MemoryBenchmark

  // ----- one case

  predicate IsActive(p: Prediction) {
    p.Predicted? && p.lifecycle == "active"
  }

  /** The predictions that claim to be active, matched or not. */
  function ActiveAmong(predicted: seq<Prediction>, n: nat): set<nat>
    requires n <= |predicted|
  {
    set k: nat | k < n && IsActive(predicted[k])
  }

  /** The prediction and the memory it was matched to are both active. */
  predicate BothActive(expected: seq<Expected>, p: Prediction, choice: Option<nat>) {
    choice.Some? && choice.value < |expected| && IsActive(p) && expected[choice.value].lifecycle == "active"
  }

  /** The prediction names the source of the memory it was matched to. */
  predicate SameSource(expected: seq<Expected>, p: Prediction, choice: Option<nat>) {
    choice.Some? && choice.value < |expected| && p.Predicted? && p.source == expected[choice.value].source
  }

  function ActiveMatched(expected: seq<Expected>, predicted: seq<Prediction>, a: Assignment, n: nat): set<nat>
    requires n <= |predicted| == |a|
  {
    set k: nat | k < n && BothActive(expected, predicted[k], a[k])
  }

  function SourceMatched(expected: seq<Expected>, predicted: seq<Prediction>, a: Assignment, n: nat): set<nat>
    requires n <= |predicted| == |a|
  {
    set k: nat | k < n && SameSource(expected, predicted[k], a[k])
  }

  /** The markers that a content mentions. */
  function MentionedIn(markers: seq<string>, content: string, n: nat): set<nat>
    requires n <= |markers|
  {
    set j: nat | j < n && Occurs(markers[j], content)
  }

  /** How often a forbidden marker is mentioned in one of the first predictions. */
  function ForbiddenIn(forbidden: seq<string>, predicted: seq<Prediction>, n: nat): nat
    requires n <= |predicted|
  {
    if n == 0 then 0
    else
      ForbiddenIn(forbidden, predicted, n - 1) +
      if predicted[n - 1].Predicted? then |MentionedIn(forbidden, predicted[n - 1].content, |forbidden|)| else 0
  }

  lemma {:induction false} MentionedSnoc(markers: seq<string>, marker: string, content: string)
    ensures Mentioned(markers + [marker], content) == Mentioned(markers, content) + One(Occurs(marker, content))
    decreases |markers|
  {
    if markers != [] {
      assert (markers + [marker])[1..] == markers[1..] + [marker];
      MentionedSnoc(markers[1..], marker, content);
    }
  }

  lemma {:induction false} MentionedCounts(markers: seq<string>, content: string, n: nat)
    requires n <= |markers|
    ensures Mentioned(markers[..n], content) == |MentionedIn(markers, content, n)|
    decreases n
  {
    hide Occurs;
    if n > 0 {
      MentionedCounts(markers, content, n - 1);
      assert markers[..n] == markers[..n - 1] + [markers[n - 1]];
      MentionedSnoc(markers[..n - 1], markers[n - 1], content);
      assert MentionedIn(markers, content, n) ==
        MentionedIn(markers, content, n - 1) + if Occurs(markers[n - 1], content) then {n - 1} else {};
    } else {
      assert MentionedIn(markers, content, 0) == {};
    }
  }

  lemma ActiveSnoc(predicted: seq<Prediction>, n: nat)
    requires n < |predicted|
    ensures |ActiveAmong(predicted, n + 1)| == |ActiveAmong(predicted, n)| + One(IsActive(predicted[n]))
  {
    hide IsActive;
    if IsActive(predicted[n]) {
      assert ActiveAmong(predicted, n + 1) == ActiveAmong(predicted, n) + {n};
    } else {
      assert ActiveAmong(predicted, n + 1) == ActiveAmong(predicted, n);
    }
  }

  lemma ActiveMatchedSnoc(expected: seq<Expected>, predicted: seq<Prediction>, a: Assignment, n: nat)
    requires n < |predicted| == |a|
    ensures |ActiveMatched(expected, predicted, a, n + 1)| ==
            |ActiveMatched(expected, predicted, a, n)| + One(BothActive(expected, predicted[n], a[n]))
  {
    hide BothActive;
    if BothActive(expected, predicted[n], a[n]) {
      assert ActiveMatched(expected, predicted, a, n + 1) == ActiveMatched(expected, predicted, a, n) + {n};
    } else {
      assert ActiveMatched(expected, predicted, a, n + 1) == ActiveMatched(expected, predicted, a, n);
    }
  }

  lemma SourceMatchedSnoc(expected: seq<Expected>, predicted: seq<Prediction>, a: Assignment, n: nat)
    requires n < |predicted| == |a|
    ensures |SourceMatched(expected, predicted, a, n + 1)| ==
            |SourceMatched(expected, predicted, a, n)| + One(SameSource(expected, predicted[n], a[n]))
  {
    hide SameSource;
    if SameSource(expected, predicted[n], a[n]) {
      assert SourceMatched(expected, predicted, a, n + 1) == SourceMatched(expected, predicted, a, n) + {n};
    } else {
      assert SourceMatched(expected, predicted, a, n + 1) == SourceMatched(expected, predicted, a, n);
    }
  }

  /** The counters agree with the sets for the first `n` predictions. */
  ghost predicate Counted(
    c: Counts, expected: seq<Expected>, forbidden: seq<string>, predicted: seq<Prediction>, a: Assignment, n: nat)
    requires n <= |predicted| == |a| && InRange(expected, a)
  {
    && c.active == |ActiveAmong(predicted, n)|
    && c.activeCorrect == |ActiveMatched(expected, predicted, a, n)|
    && c.sourceCorrect == |SourceMatched(expected, predicted, a, n)|
    && c.forbidden == ForbiddenIn(forbidden, predicted, n)
  }

  lemma OneMoreCredit(
    c: Counts, expected: seq<Expected>, forbidden: seq<string>, predicted: seq<Prediction>, a: Assignment, n: nat)
    requires n < |predicted| == |a| && InRange(expected, a) && (a[n].Some? ==> predicted[n].Predicted?)
    requires Counted(c, expected, forbidden, predicted, a, n)
    ensures Counted(Plus(c, Credit(expected, forbidden, predicted[n], a[n])), expected, forbidden, predicted, a, n + 1)
  {
    hide ActiveAmong, ActiveMatched, SourceMatched, Mentioned, MentionedIn;
    ActiveSnoc(predicted, n);
    ActiveMatchedSnoc(expected, predicted, a, n);
    SourceMatchedSnoc(expected, predicted, a, n);
    if predicted[n].Predicted? {
      MentionedCounts(forbidden, predicted[n].content, |forbidden|);
      assert forbidden[..|forbidden|] == forbidden;
    }
  }

  lemma NothingCounted(expected: seq<Expected>, forbidden: seq<string>, predicted: seq<Prediction>, a: Assignment)
    requires |predicted| == |a| && InRange(expected, a)
    ensures Counted(ZERO, expected, forbidden, predicted, a, 0)
  {
    assert ActiveAmong(predicted, 0) == {} && ActiveMatched(expected, predicted, a, 0) == {};
    assert SourceMatched(expected, predicted, a, 0) == {};
  }

  lemma {:induction false} CreditsCount(
    expected: seq<Expected>, forbidden: seq<string>, predicted: seq<Prediction>, a: Assignment, n: nat)
    requires n <= |predicted| == |a| && InRange(expected, a)
    requires forall k | 0 <= k < |a| && a[k].Some? :: predicted[k].Predicted?
    ensures InRange(expected, a[..n])
    ensures Counted(Credits(expected, forbidden, predicted[..n], a[..n]), expected, forbidden, predicted, a, n)
    decreases n
  {
    hide Counted, Credit, Plus;
    if n == 0 {
      NothingCounted(expected, forbidden, predicted, a);
    } else {
      CreditsCount(expected, forbidden, predicted, a, n - 1);
      assert predicted[..n][..n - 1] == predicted[..n - 1] && a[..n][..n - 1] == a[..n - 1];
      OneMoreCredit(
        Credits(expected, forbidden, predicted[..n - 1], a[..n - 1]), expected, forbidden, predicted, a, n - 1);
    }
  }

  /** What the counters of a case count, for the first-fit assignment. */
  lemma CaseCountsAre(expected: seq<Expected>, forbidden: seq<string>, predicted: seq<Prediction>)
    ensures InRange(expected, FirstFit(expected, predicted)) && |FirstFit(expected, predicted)| == |predicted|
    ensures var c, a, n := CaseCounts(expected, forbidden, predicted), FirstFit(expected, predicted), |predicted|;
            && c.truePositive == Matched(a) && c.predicted == n && c.expected == |expected|
            && Counted(c, expected, forbidden, predicted, a, n)
  {
    hide FirstFit, ActiveAmong, ActiveMatched, SourceMatched, ForbiddenIn, Credits;
    FirstFitIsSoundAndMaximal(expected, predicted);
    var a := FirstFit(expected, predicted);
    CreditBounds(expected, forbidden, predicted, a);
    CreditsCount(expected, forbidden, predicted, a, |predicted|);
    assert predicted[..|predicted|] == predicted && a[..|predicted|] == a;
  }

  // ----- all cases

  function TruePositive(c: Counts): nat { c.truePositive }

  function PredictedCount(c: Counts): nat { c.predicted }

  function ExpectedCount(c: Counts): nat { c.expected }

  function ActiveCorrect(c: Counts): nat { c.activeCorrect }

  function ActiveCount(c: Counts): nat { c.active }

  function SourceCorrect(c: Counts): nat { c.sourceCorrect }

  function ForbiddenCount(c: Counts): nat { c.forbidden }

  /** One counter, summed over the cases of the split. */
  function Summed(cases: seq<Case>, predictions: map<string, Listed<Prediction>>, split: string, count: Counts -> nat)
    : nat
  {
    if cases == [] then 0
    else
      var c := cases[|cases| - 1];
      Summed(cases[..|cases| - 1], predictions, split, count) +
      if c.split == split && Countable(c, predictions)
      then count(CaseCounts(c.expected.items, c.forbidden, PredictionsFor(c, predictions).items))
      else 0
  }

  ghost predicate Adds(count: Counts -> nat) {
    count(ZERO) == 0 && forall a, b :: count(Plus(a, b)) == count(a) + count(b)
  }

  lemma {:induction false} TotalSums(
    cases: seq<Case>, predictions: map<string, Listed<Prediction>>, split: string, count: Counts -> nat)
    requires Adds(count)
    ensures count(Total(cases, predictions, split)) == Summed(cases, predictions, split, count)
    decreases |cases|
  {
    hide Plus, CaseCounts, Countable, PredictionsFor;
    if cases != [] { TotalSums(cases[..|cases| - 1], predictions, split, count); }
  }

  lemma CountersAdd()
    ensures Adds(TruePositive) && Adds(PredictedCount) && Adds(ExpectedCount) && Adds(ActiveCorrect)
    ensures Adds(ActiveCount) && Adds(SourceCorrect) && Adds(ForbiddenCount)
  {
  }

  /** Every total is the sum of its own counter over the cases of the split, and of nothing else. */
  lemma TotalsAreSums(cases: seq<Case>, predictions: map<string, Listed<Prediction>>, split: string)
    ensures var n := Total(cases, predictions, split);
            && n.truePositive == Summed(cases, predictions, split, TruePositive)
            && n.predicted == Summed(cases, predictions, split, PredictedCount)
            && n.expected == Summed(cases, predictions, split, ExpectedCount)
            && n.activeCorrect == Summed(cases, predictions, split, ActiveCorrect)
            && n.active == Summed(cases, predictions, split, ActiveCount)
            && n.sourceCorrect == Summed(cases, predictions, split, SourceCorrect)
            && n.forbidden == Summed(cases, predictions, split, ForbiddenCount)
  {
    CountersAdd();
    hide Adds, Total, Summed;
    TotalSums(cases, predictions, split, TruePositive);
    TotalSums(cases, predictions, split, PredictedCount);
    TotalSums(cases, predictions, split, ExpectedCount);
    TotalSums(cases, predictions, split, ActiveCorrect);
    TotalSums(cases, predictions, split, ActiveCount);
    TotalSums(cases, predictions, split, SourceCorrect);
    TotalSums(cases, predictions, split, ForbiddenCount);
  }

  /** A case that no predictions are given for has none; otherwise all of those given for it count. */
  lemma PredictionsAreThoseGiven(c: Case, predictions: map<string, Listed<Prediction>>)
    requires c.expected.Listed?
    ensures c.id !in predictions ==>
              && Countable(c, predictions)
              && CountsOf(c, predictions, c.split) == ZERO.(expected := |c.expected.items|)
    ensures c.id in predictions ==>
              && (Countable(c, predictions) <==> predictions[c.id].Listed?)
              && (predictions[c.id].Listed? ==>
                    CountsOf(c, predictions, c.split) ==
                    CaseCounts(c.expected.items, c.forbidden, predictions[c.id].items))
  {
  }

  /** The pairs of several matchings are counted together. */
  lemma {:induction false} PairsAppend(ms: seq<map<nat, nat>>, ns: seq<map<nat, nat>>)
    ensures Pairs(ms + ns) == Pairs(ms) + Pairs(ns) && (|ms| == 1 ==> Pairs(ms) == |ms[0]|)
    decreases |ns|
  {
    if ns == [] {
      assert ms + ns == ms;
    } else {
      assert (ms + ns)[..|ms + ns| - 1] == ms + ns[..|ns| - 1];
      PairsAppend(ms, ns[..|ns| - 1]);
    }
    if |ms| == 1 { assert ms[..0] == []; }
  }

  // ----- passing

  lemma ShareReaches(part: nat, whole: nat, otherwise: real, percent: nat)
    ensures Share(part, whole, otherwise) >= percent as real / 100.0 <==>
              if whole > 0 then 100 * part >= percent * whole else otherwise >= percent as real / 100.0
  {
    if whole > 0 {
      var share := part as real / whole as real;
      assert share * whole as real == part as real;
      Scaled(share, percent as real / 100.0, whole as real);
      assert percent as real / 100.0 * whole as real == (percent * whole) as real / 100.0;
    }
  }

  lemma Scaled(x: real, y: real, factor: real)
    requires factor > 0.0
    ensures x >= y <==> x * factor >= y * factor
  {
    if x >= y { assert (x - y) * factor >= 0.0; } else { assert (y - x) * factor > 0.0; }
  }

  /**
   A benchmark passes exactly if nine tenths of the predictions and of the expected memories are matched, nineteen in
   twenty of the active predictions to active memories and of the matched ones to their source, and no forbidden marker
   is mentioned; without predictions or matches, nothing may have been expected.
   */
  lemma PassesExactly(c: Counts)
    requires c.truePositive <= c.predicted && c.truePositive <= c.expected
    ensures MetricsOf(c).passed <==>
              && (if c.predicted > 0 then 10 * c.truePositive >= 9 * c.predicted else c.expected == 0)
              && 10 * c.truePositive >= 9 * c.expected
              && 20 * c.activeCorrect >= 19 * c.active
              && (if c.truePositive > 0 then 20 * c.sourceCorrect >= 19 * c.truePositive else c.expected == 0)
              && c.forbidden == 0
    ensures MetricsOf(c).forbidden == c.forbidden
  {
    var nothingExpected := if c.expected == 0 then 1.0 else 0.0;
    ShareReaches(c.truePositive, c.predicted, nothingExpected, 90);
    ShareReaches(c.truePositive, c.expected, 1.0, 90);
    ShareReaches(c.activeCorrect, c.active, 1.0, 95);
    ShareReaches(c.sourceCorrect, c.truePositive, nothingExpected, 95);
    hide Share;
  }

  /** The rates, wherever there is something to rate, are the quotients of the counters. */
  lemma RatesAreQuotients(c: Counts)
    ensures var m := MetricsOf(c);
            && (c.predicted > 0 ==> m.precision * c.predicted as real == c.truePositive as real)
            && (c.expected > 0 ==> m.recall * c.expected as real == c.truePositive as real)
            && (c.active > 0 ==> m.activationPrecision * c.active as real == c.activeCorrect as real)
            && (c.truePositive > 0 ==> m.sourceAccuracy * c.truePositive as real == c.sourceCorrect as real)
  {
    ShareTimes(c.truePositive, c.predicted, if c.expected == 0 then 1.0 else 0.0);
    ShareTimes(c.truePositive, c.expected, 1.0);
    ShareTimes(c.activeCorrect, c.active, 1.0);
    ShareTimes(c.sourceCorrect, c.truePositive, if c.expected == 0 then 1.0 else 0.0);
    hide Share;
  }

  lemma ShareTimes(part: nat, whole: nat, otherwise: real)
    ensures whole > 0 ==> Share(part, whole, otherwise) * whole as real == part as real
  {
  }

  // ----- splits

  function PromptsOf(cases: seq<SplitCase>, split: string): set<string> {
    set c | c in cases && c.split == Some(split) && c.prompt.Some? :: c.prompt.value
  }

  /** What an accepted benchmark is: every case has a prompt and belongs to one split, and no prompt to both. */
  lemma SplitsAreApart(cases: seq<SplitCase>)
    requires forall k | 0 <= k < |cases| :: IsUsable(cases[k])
    ensures (forall j, k | 0 <= j < k < |cases| :: !Leaks(cases[j], cases[k])) <==>
              PromptsOf(cases, "train") !! PromptsOf(cases, "test")
    ensures forall c :: c in cases ==>
              && c.split in {Some("train"), Some("test")} && c.prompt.Some? && c.prompt.value != ""
  {
    if j, k :| 0 <= j < k < |cases| && Leaks(cases[j], cases[k]) {
      assert cases[j] in cases && cases[k] in cases;
      assert cases[j].prompt.value in PromptsOf(cases, "train") * PromptsOf(cases, "test");
    }
    if p :| p in PromptsOf(cases, "train") && p in PromptsOf(cases, "test") {
      var a :| a in cases && a.split == Some("train") && a.prompt == Some(p);
      var b :| b in cases && b.split == Some("test") && b.prompt == Some(p);
      var j :| 0 <= j < |cases| && cases[j] == a;
      var k :| 0 <= k < |cases| && cases[k] == b;
      assert Leaks(cases[j], cases[k]) && Leaks(cases[k], cases[j]);
    }
  }

  /** Anything else is refused. */
  lemma UsableIff(c: SplitCase)
    ensures IsUsable(c) <==> c.split in {Some("train"), Some("test")} && c.prompt.Some? && |c.prompt.value| > 0
  {
  }
}
