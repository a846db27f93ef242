/**
 Scoring memory predictions over a benchmark, and keeping its splits apart
 (src/stata_research_agent/application/agent_benchmarks.py, `evaluate_memory_predictions` and
 `_assert_split_isolation`).
 */
module MemoryBenchmark {
  import opened Wrappers
  import opened Sequences
  import opened FirstFitMatching

  datatype Listed<T> = Listed(items: seq<T>) | NotAList

  datatype Case = Case(id: string, split: string, expected: Listed<Expected>, forbidden: seq<string>)

  datatype Counts = Counts(
    truePositive: nat, predicted: nat, expected: nat, activeCorrect: nat, active: nat, sourceCorrect: nat,
    forbidden: nat)

  datatype Metrics = Metrics(
    precision: real, recall: real, activationPrecision: real, sourceAccuracy: real, forbidden: nat, passed: bool)

  datatype BenchmarkError = NotArrays | InvalidCase | PromptLeakage

  const ZERO := Counts(0, 0, 0, 0, 0, 0, 0)

  function Plus(a: Counts, b: Counts): Counts {
    Counts(
      a.truePositive + b.truePositive, a.predicted + b.predicted, a.expected + b.expected,
      a.activeCorrect + b.activeCorrect, a.active + b.active, a.sourceCorrect + b.sourceCorrect,
      a.forbidden + b.forbidden)
  }

  function One(b: bool): nat {
    if b then 1 else 0
  }

  function Mentioned(markers: seq<string>, content: string): nat {
    if markers == [] then 0 else One(Occurs(markers[0], content)) + Mentioned(markers[1..], content)
  }

  /** What one prediction adds to the counts once its match is known; a malformed one adds nothing but itself. */
  function Credit(expected: seq<Expected>, forbidden: seq<string>, p: Prediction, choice: Option<nat>): Counts
    requires choice.Some? ==> choice.value < |expected|
  {
    if p.Malformed? then ZERO.(predicted := 1)
    else
      var matched := choice.Some?;
      Counts(
        One(matched), 1, 0,
        One(matched && p.lifecycle == "active" && expected[choice.value].lifecycle == "active"),
        One(p.lifecycle == "active"),
        One(matched && p.source == expected[choice.value].source),
        Mentioned(forbidden, p.content))
  }

  predicate InRange(expected: seq<Expected>, a: Assignment) {
    forall k | 0 <= k < |a| && a[k].Some? :: a[k].value < |expected|
  }

  function Credits(expected: seq<Expected>, forbidden: seq<string>, predicted: seq<Prediction>, a: Assignment): Counts
    requires |a| == |predicted| && InRange(expected, a)
  {
    if a == [] then ZERO
    else
      var n := |a| - 1;
      Plus(Credits(expected, forbidden, predicted[..n], a[..n]), Credit(expected, forbidden, predicted[n], a[n]))
  }

  function CaseCounts(expected: seq<Expected>, forbidden: seq<string>, predicted: seq<Prediction>): Counts {
    FirstFitIsSoundAndMaximal(expected, predicted);
    Credits(expected, forbidden, predicted, FirstFit(expected, predicted)).(expected := |expected|)
  }

  lemma {:induction false} CreditBounds(
    expected: seq<Expected>, forbidden: seq<string>, predicted: seq<Prediction>, a: Assignment)
    requires |a| == |predicted| && InRange(expected, a)
    requires forall k | 0 <= k < |a| && a[k].Some? :: predicted[k].Predicted?
    ensures var c := Credits(expected, forbidden, predicted, a);
            && c.truePositive == Matched(a) && c.predicted == |predicted| && c.expected == 0
            && c.activeCorrect <= c.active && c.sourceCorrect <= c.truePositive <= c.predicted
    decreases |a|
  {
    if a != [] { CreditBounds(expected, forbidden, predicted[..|a| - 1], a[..|a| - 1]); }
  }

  /** The inner loop: a set of matched indices, first fit, and counters. */
  method CountCase(expected: seq<Expected>, forbidden: seq<string>, predicted: seq<Prediction>) returns (c: Counts)
    ensures c == CaseCounts(expected, forbidden, predicted)
  {
    hide Credit, FirstFree, Fits;
    FirstFitIsSoundAndMaximal(expected, predicted);
    ghost var a := FirstFit(expected, predicted);
    var matched: set<nat> := {};
    c := ZERO;
    var n := 0;
    while n < |predicted|
      invariant 0 <= n <= |predicted|
      invariant matched == Taken(a[..n])
      invariant c == Credits(expected, forbidden, predicted[..n], a[..n])
    {
      NextChoice(expected, predicted, n);
      assert a[..n + 1][..n] == a[..n] && predicted[..n + 1][..n] == predicted[..n];
      var choice := FirstFree(expected, predicted[n], matched, 0);
      if choice.Some? {
        matched := matched + {choice.value};
      }
      c := Plus(c, Credit(expected, forbidden, predicted[n], choice));
      n := n + 1;
    }
    assert a[..n] == a && predicted[..n] == predicted;
    c := c.(expected := |expected|);
  }

  lemma NextChoice(expected: seq<Expected>, predicted: seq<Prediction>, n: nat)
    requires n < |predicted|
    ensures var a := FirstFit(expected, predicted);
            a[n] == FirstFree(expected, predicted[n], Taken(a[..n]), 0)
  {
    EarlierMatchesStand(expected, predicted, n);
    EarlierMatchesStand(expected, predicted, n + 1);
    assert predicted[..n + 1][..n] == predicted[..n];
    var a := FirstFit(expected, predicted);
    assert a[..n + 1][n] == a[n];
  }

  // ----- all cases

  function PredictionsFor(c: Case, predictions: map<string, Listed<Prediction>>): Listed<Prediction> {
    if c.id in predictions then predictions[c.id] else Listed([])
  }

  predicate Countable(c: Case, predictions: map<string, Listed<Prediction>>) {
    c.expected.Listed? && PredictionsFor(c, predictions).Listed?
  }

  function CountsOf(c: Case, predictions: map<string, Listed<Prediction>>, split: string): Counts {
    if c.split == split && Countable(c, predictions)
    then CaseCounts(c.expected.items, c.forbidden, PredictionsFor(c, predictions).items)
    else ZERO
  }

  function Total(cases: seq<Case>, predictions: map<string, Listed<Prediction>>, split: string): Counts {
    if cases == [] then ZERO
    else Plus(Total(cases[..|cases| - 1], predictions, split), CountsOf(cases[|cases| - 1], predictions, split))
  }

  function Share(part: nat, whole: nat, otherwise: real): real {
    if whole == 0 then otherwise else part as real / whole as real
  }

  function MetricsOf(c: Counts): Metrics {
    var nothingExpected := if c.expected == 0 then 1.0 else 0.0;
    var precision := Share(c.truePositive, c.predicted, nothingExpected);
    var recall := Share(c.truePositive, c.expected, 1.0);
    var activation := Share(c.activeCorrect, c.active, 1.0);
    var source := Share(c.sourceCorrect, c.truePositive, nothingExpected);
    Metrics(
      precision, recall, activation, source, c.forbidden,
      precision >= 0.9 && recall >= 0.9 && activation >= 0.95 && source >= 0.95 && c.forbidden == 0)
  }

  lemma NoCases(predictions: map<string, Listed<Prediction>>, split: string)
    ensures Total([], predictions, split) == ZERO
  {
  }

  lemma OneMoreCase(cases: seq<Case>, i: nat, predictions: map<string, Listed<Prediction>>, split: string)
    requires i < |cases|
    ensures Total(cases[..i + 1], predictions, split)
         == Plus(Total(cases[..i], predictions, split), CountsOf(cases[i], predictions, split))
  {
    hide CountsOf, Plus;
    assert cases[..i + 1][..i] == cases[..i];
  }

  lemma PlusZero(c: Counts)
    ensures Plus(c, ZERO) == c
  {
  }

  method EvaluateMemoryPredictions(cases: seq<Case>, predictions: map<string, Listed<Prediction>>, split: string)
      returns (r: Result<Metrics, BenchmarkError>)
    ensures r.Failure? <==> exists k | 0 <= k < |cases| :: cases[k].split == split && !Countable(cases[k], predictions)
    ensures r.Success? ==> r.value == MetricsOf(Total(cases, predictions, split))
  {
    hide CaseCounts, MetricsOf, Share, Total, Plus, PredictionsFor;
    assert cases[..0] == [];
    NoCases(predictions, split);
    var total := ZERO;
    var i := 0;
    while i < |cases|
      invariant 0 <= i <= |cases|
      invariant forall k | 0 <= k < i :: cases[k].split != split || Countable(cases[k], predictions)
      invariant total == Total(cases[..i], predictions, split)
    {
      OneMoreCase(cases, i, predictions, split);
      PlusZero(total);
      if cases[i].split == split {
        if !Countable(cases[i], predictions) {
          return Failure(NotArrays);
        }
        var c := CountCase(cases[i].expected.items, cases[i].forbidden, PredictionsFor(cases[i], predictions).items);
        total := Plus(total, c);
      }
      i := i + 1;
    }
    assert cases[..i] == cases;
    return Success(MetricsOf(total));
  }

  // ----- what the metrics mean

  lemma CaseBounds(c: Case, predictions: map<string, Listed<Prediction>>, split: string)
    ensures var n := CountsOf(c, predictions, split);
            n.truePositive <= n.predicted && n.truePositive <= n.expected && n.activeCorrect <= n.active
            && n.sourceCorrect <= n.truePositive
  {
    if c.split == split && Countable(c, predictions) {
      var expected, predicted := c.expected.items, PredictionsFor(c, predictions).items;
      FirstFitIsSoundAndMaximal(expected, predicted);
      MatchedBound(expected, predicted);
      CreditBounds(expected, c.forbidden, predicted, FirstFit(expected, predicted));
    }
  }

  lemma {:induction false} TotalBounds(cases: seq<Case>, predictions: map<string, Listed<Prediction>>, split: string)
    ensures var n := Total(cases, predictions, split);
            n.truePositive <= n.predicted && n.truePositive <= n.expected && n.activeCorrect <= n.active
            && n.sourceCorrect <= n.truePositive
    decreases |cases|
  {
    hide CountsOf;
    if cases != [] {
      TotalBounds(cases[..|cases| - 1], predictions, split);
      CaseBounds(cases[|cases| - 1], predictions, split);
    }
  }

  lemma ShareInRange(part: nat, whole: nat, otherwise: real)
    requires part <= whole && 0.0 <= otherwise <= 1.0
    ensures 0.0 <= Share(part, whole, otherwise) <= 1.0
    ensures whole > 0 ==> (Share(part, whole, otherwise) == 1.0 <==> part == whole)
  {
    if whole > 0 {
      var share := part as real / whole as real;
      assert share * whole as real == part as real;
    }
  }

  /** The four rates are shares, and recall is full exactly when every expected memory was matched. */
  lemma RatesAreShares(cases: seq<Case>, predictions: map<string, Listed<Prediction>>, split: string)
    ensures var m, n := MetricsOf(Total(cases, predictions, split)), Total(cases, predictions, split);
            && 0.0 <= m.precision <= 1.0 && 0.0 <= m.recall <= 1.0
            && 0.0 <= m.activationPrecision <= 1.0 && 0.0 <= m.sourceAccuracy <= 1.0
            && (m.recall == 1.0 <==> n.truePositive == n.expected)
            && (m.precision == 1.0 <==> n.truePositive == n.predicted && (n.predicted == 0 ==> n.expected == 0))
  {
    hide Share;
    var n := Total(cases, predictions, split);
    TotalBounds(cases, predictions, split);
    var otherwise := if n.expected == 0 then 1.0 else 0.0;
    ShareInRange(n.truePositive, n.predicted, otherwise);
    ShareInRange(n.truePositive, n.expected, 1.0);
    ShareInRange(n.activeCorrect, n.active, 1.0);
    ShareInRange(n.sourceCorrect, n.truePositive, otherwise);
    EmptyShare(n.truePositive, otherwise);
    EmptyShare(n.truePositive, 1.0);
  }

  lemma EmptyShare(part: nat, otherwise: real)
    ensures Share(part, 0, otherwise) == otherwise
  {
  }

  /** One matching for each case that counts. */
  ghost predicate AreMatchings(
      cases: seq<Case>, predictions: map<string, Listed<Prediction>>, split: string, ms: seq<map<nat, nat>>)
  {
    && |ms| == |cases|
    && (forall k | 0 <= k < |cases| ::
          if cases[k].split == split && Countable(cases[k], predictions)
          then IsMatching(cases[k].expected.items, PredictionsFor(cases[k], predictions).items, ms[k])
          else ms[k] == map[])
  }

  function Pairs(ms: seq<map<nat, nat>>): nat {
    if ms == [] then 0 else Pairs(ms[..|ms| - 1]) + |ms[|ms| - 1]|
  }

  lemma CaseIsHalfOptimal(c: Case, predictions: map<string, Listed<Prediction>>, split: string, m: map<nat, nat>)
    requires c.split == split && Countable(c, predictions)
    requires IsMatching(c.expected.items, PredictionsFor(c, predictions).items, m)
    ensures |m| <= 2 * CountsOf(c, predictions, split).truePositive
  {
    var expected, predicted := c.expected.items, PredictionsFor(c, predictions).items;
    FirstFitIsSoundAndMaximal(expected, predicted);
    FirstFitIsHalfOptimal(expected, predicted, m);
    CreditBounds(expected, c.forbidden, predicted, FirstFit(expected, predicted));
  }

  /** Over the whole benchmark, the true positives are at least half of what any matching could reach. */
  lemma {:induction false} TotalIsHalfOptimal(
      cases: seq<Case>, predictions: map<string, Listed<Prediction>>, split: string, ms: seq<map<nat, nat>>)
    requires AreMatchings(cases, predictions, split, ms)
    ensures Pairs(ms) <= 2 * Total(cases, predictions, split).truePositive
    decreases |cases|
  {
    hide CountsOf, IsMatching, Countable;
    if cases != [] {
      var n := |cases| - 1;
      TotalIsHalfOptimal(cases[..n], predictions, split, ms[..n]);
      if cases[n].split == split && Countable(cases[n], predictions) {
        CaseIsHalfOptimal(cases[n], predictions, split, ms[n]);
      }
    }
  }

  /** The reported recall is therefore at least half of the best recall that the predictions allow. */
  lemma RecallIsHalfOptimal(
      cases: seq<Case>, predictions: map<string, Listed<Prediction>>, split: string, ms: seq<map<nat, nat>>)
    requires AreMatchings(cases, predictions, split, ms) && Total(cases, predictions, split).expected > 0
    ensures Share(Pairs(ms), Total(cases, predictions, split).expected, 1.0)
         <= 2.0 * MetricsOf(Total(cases, predictions, split)).recall
  {
    TotalIsHalfOptimal(cases, predictions, split, ms);
    var n := Total(cases, predictions, split);
    ShareDoubles(Pairs(ms), n.truePositive, n.expected);
  }

  lemma ShareDoubles(more: nat, part: nat, whole: nat)
    requires more <= 2 * part && whole > 0
    ensures Share(more, whole, 1.0) <= 2.0 * Share(part, whole, 1.0)
  {
    assert more as real / whole as real <= (2 * part) as real / whole as real;
    assert (2 * part) as real / whole as real == 2.0 * (part as real / whole as real);
  }

  // ----- split isolation

  /** `prompt` is the normalised prompt, or `None` when there was no string. */
  datatype SplitCase = SplitCase(split: Option<string>, prompt: Option<string>)

  predicate IsUsable(c: SplitCase) {
    (c.split == Some("train") || c.split == Some("test")) && c.prompt.Some? && c.prompt.value != ""
  }

  ghost predicate Leaks(a: SplitCase, b: SplitCase) {
    a.prompt == b.prompt && a.split != b.split
  }

  /** A benchmark is accepted exactly when every case is usable and no prompt is in both splits. */
  method AssertSplitIsolation(cases: seq<SplitCase>) returns (r: Result<(), BenchmarkError>)
    ensures r.Success? <==>
              && (forall k | 0 <= k < |cases| :: IsUsable(cases[k]))
              && (forall j, k | 0 <= j < k < |cases| :: !Leaks(cases[j], cases[k]))
    ensures r == Failure(InvalidCase) ==> exists k | 0 <= k < |cases| :: !IsUsable(cases[k])
    ensures r == Failure(PromptLeakage) ==> exists j, k | 0 <= j < k < |cases| :: Leaks(cases[j], cases[k])
  {
    var fingerprints: map<string, string> := map[];
    var i := 0;
    while i < |cases|
      invariant 0 <= i <= |cases|
      invariant forall k | 0 <= k < i :: IsUsable(cases[k])
      invariant forall j, k | 0 <= j < k < i :: !Leaks(cases[j], cases[k])
      invariant forall k | 0 <= k < i ::
                  cases[k].prompt.value in fingerprints && Some(fingerprints[cases[k].prompt.value]) == cases[k].split
      invariant forall p | p in fingerprints ::
                  exists k | 0 <= k < i :: cases[k].prompt == Some(p) && cases[k].split == Some(fingerprints[p])
    {
      if !IsUsable(cases[i]) {
        return Failure(InvalidCase);
      }
      var prompt, split := cases[i].prompt.value, cases[i].split.value;
      if prompt in fingerprints && fingerprints[prompt] != split {
        var k :| 0 <= k < i && cases[k].prompt == Some(prompt) && cases[k].split == Some(fingerprints[prompt]);
        assert Leaks(cases[k], cases[i]);
        return Failure(PromptLeakage);
      }
      fingerprints := fingerprints[prompt := split];
      i := i + 1;
    }
    return Success(());
  }
}
