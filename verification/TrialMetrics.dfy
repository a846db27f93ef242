/**
 When trials can be aggregated, what the aggregated counters count, and what a comparison of two experiments says
 (`aggregate_case_trials` and `compare_case_metrics` in src/stata_research_agent/application/product_evaluation.py).
 */
module TrialMetrics {
  import opened Wrappers
  import opened PassAtK

  // ----- when aggregation succeeds

  lemma {:induction false} UpToIs(n: nat)
    ensures forall i: nat :: i in UpTo(n) <==> 1 <= i <= n
  {
    if n > 0 { UpToIs(n - 1); }
  }

  lemma {:induction false} CostsAre(trials: seq<Trial>)
    ensures forall c :: c in Costs(trials) <==> exists t :: t in trials && t.status.Completed? && t.cost == Some(c)
    decreases |trials|
  {
    if trials != [] {
      CostsAre(trials[1..]);
      assert trials == [trials[0]] + trials[1..];
    }
  }

  predicate HasOrdinal(trials: seq<Trial>, n: nat) {
    exists t :: t in trials && t.ordinal == n
  }

  /** The ordinals of the trials are exactly those of the policy. */
  ghost predicate OrdinalsCover(requested: nat, trials: seq<Trial>) {
    forall n: nat :: HasOrdinal(trials, n) <==> 1 <= n <= requested
  }

  ghost predicate SameScenario(scenario: string, trials: seq<Trial>) {
    forall t :: t in trials ==> t.scenario == scenario
  }

  /** The known costs of completed trials are in one currency. */
  ghost predicate OneCurrency(trials: seq<Trial>) {
    forall t, u :: Costly(trials, t) && Costly(trials, u) ==> t.cost.value.1 == u.cost.value.1
  }

  predicate Costly(trials: seq<Trial>, t: Trial) {
    t in trials && t.status.Completed? && t.cost.Some?
  }

  lemma OrdinalsCoverIff(requested: nat, trials: seq<Trial>)
    ensures (set t | t in trials :: t.ordinal) == UpTo(requested) <==> OrdinalsCover(requested, trials)
  {
    UpToIs(requested);
    var ordinals := set t | t in trials :: t.ordinal;
    forall n: nat ensures n in ordinals <==> HasOrdinal(trials, n) {
      if t :| t in trials && t.ordinal == n { assert t.ordinal in ordinals; }
    }
    hide HasOrdinal, UpTo;
    if OrdinalsCover(requested, trials) {
      forall n: nat ensures n in ordinals <==> n in UpTo(requested) { assert n in ordinals <==> HasOrdinal(trials, n); }
    }
  }

  ghost predicate SeveralCurrencies(costs: seq<(real, string)>) {
    exists i, j :: 0 <= i < j < |costs| && costs[i].1 != costs[j].1
  }

  lemma DifferAt(costs: seq<(real, string)>, i: nat, j: nat)
    requires i < |costs| && j < |costs| && costs[i].1 != costs[j].1
    ensures SeveralCurrencies(costs)
  {
    if j < i { assert costs[j].1 != costs[i].1; }
  }

  lemma OneCurrencyIff(trials: seq<Trial>)
    ensures SeveralCurrencies(Costs(trials)) <==> !OneCurrency(trials)
  {
    var costs := Costs(trials);
    CostsAre(trials);
    if i, j :| 0 <= i < j < |costs| && costs[i].1 != costs[j].1 {
      var t := CostsSomeone(trials, costs[i]);
      var u := CostsSomeone(trials, costs[j]);
    }
    if t, u :| Costly(trials, t) && Costly(trials, u) && t.cost.value.1 != u.cost.value.1 {
      var i := CostListed(trials, t);
      var j := CostListed(trials, u);
      DifferAt(costs, i, j);
    }
    hide *;
  }

  lemma CostsSomeone(trials: seq<Trial>, cost: (real, string)) returns (t: Trial)
    requires cost in Costs(trials)
    ensures Costly(trials, t) && t.cost == Some(cost)
  {
    CostsAre(trials);
    t :| t in trials && t.status.Completed? && t.cost == Some(cost);
  }

  lemma CostListed(trials: seq<Trial>, t: Trial) returns (i: nat)
    requires Costly(trials, t)
    ensures i < |Costs(trials)| && Costs(trials)[i] == t.cost.value
  {
    CostsAre(trials);
    i :| 0 <= i < |Costs(trials)| && Costs(trials)[i] == t.cost.value;
  }

  /** Aggregation fails for the first of four reasons that applies, and succeeds when none does. */
  lemma AggregatesIff(scenario: string, requested: nat, k: nat, trials: seq<Trial>)
    ensures var result := AggregateCaseTrials(scenario, requested, k, trials);
            && (result == Failure(WrongCount) <==> |trials| != requested)
            && (result == Failure(WrongOrdinals) <==> |trials| == requested && !OrdinalsCover(requested, trials))
            && (result == Failure(OtherScenario) <==>
                  |trials| == requested && OrdinalsCover(requested, trials) && !SameScenario(scenario, trials))
            && (result == Failure(MixedCurrencies) <==>
                  && |trials| == requested && OrdinalsCover(requested, trials) && SameScenario(scenario, trials)
                  && !OneCurrency(trials))
            && (result.Success? <==>
                  && |trials| == requested && OrdinalsCover(requested, trials) && SameScenario(scenario, trials)
                  && OneCurrency(trials))
  {
    OrdinalsCoverIff(requested, trials);
    OneCurrencyIff(trials);
    hide OrdinalsCover, OneCurrency, UpTo, Costs, GateFailures, SumCosts, PassAtKOf, PassPowerKOf, Count;
  }

  // ----- what the counters count

  /** The hard gates a trial did not pass. */
  function FailedGates(t: Trial): set<nat> {
    set j: nat | j < |t.hardGates| && t.hardGates[j].NotPass?
  }

  lemma {:induction false} NotPassedSnoc(gates: seq<Verdict>, gate: Verdict)
    ensures CountNotPassed(gates + [gate]) == CountNotPassed(gates) + if gate.NotPass? then 1 else 0
    decreases |gates|
  {
    if gates != [] {
      assert (gates + [gate])[1..] == gates[1..] + [gate];
      NotPassedSnoc(gates[1..], gate);
    }
  }

  lemma {:induction false} NotPassedCounts(gates: seq<Verdict>)
    ensures CountNotPassed(gates) == |set j: nat | j < |gates| && gates[j].NotPass?|
    decreases |gates|
  {
    var failed := set j: nat | j < |gates| && gates[j].NotPass?;
    if gates == [] {
      assert failed == {};
    } else {
      var n := |gates| - 1;
      NotPassedCounts(gates[..n]);
      NotPassedSnoc(gates[..n], gates[n]);
      assert gates == gates[..n] + [gates[n]];
      var before := set j: nat | j < |gates[..n]| && gates[..n][j].NotPass?;
      if gates[n].NotPass? {
        assert failed == before + {n};
      } else {
        assert failed == before;
      }
    }
  }

  /** Failed hard gates are summed over the completed trials and no others. */
  lemma {:induction false} GateFailuresAdd(trials: seq<Trial>, t: Trial)
    ensures GateFailures(trials + [t]) == GateFailures(trials) + if t.status.Completed? then |FailedGates(t)| else 0
    ensures GateFailures([]) == 0
    decreases |trials|
  {
    hide CountNotPassed;
    NotPassedCounts(t.hardGates);
    if trials == [] {
      assert trials + [t] == [t] && [t][1..] == [];
    } else {
      assert (trials + [t])[1..] == trials[1..] + [t];
      GateFailuresAdd(trials[1..], t);
    }
  }

  /** Known costs are summed over the completed trials and no others. */
  lemma {:induction false} CostsAdd(trials: seq<Trial>, t: Trial)
    ensures Costs(trials + [t]) == Costs(trials) + if t.status.Completed? && t.cost.Some? then [t.cost.value] else []
    decreases |trials|
  {
    if trials == [] {
      assert trials + [t] == [t] && [t][1..] == [];
    } else {
      assert (trials + [t])[1..] == trials[1..] + [t];
      CostsAdd(trials[1..], t);
    }
  }

  lemma {:induction false} SumAdds(costs: seq<(real, string)>, cost: (real, string))
    ensures SumCosts(costs + [cost]) == SumCosts(costs) + cost.0
    ensures SumCosts([]) == 0.0
    decreases |costs|
  {
    if costs == [] {
      assert costs + [cost] == [cost] && [cost][1..] == [];
    } else {
      assert (costs + [cost])[1..] == costs[1..] + [cost];
      SumAdds(costs[1..], cost);
    }
  }

  /** The trials of one status. */
  function WithStatus(trials: seq<Trial>, status: Status): set<nat> {
    set i: nat | i < |trials| && trials[i].status == status
  }

  function CompletedAndPassed(trials: seq<Trial>): set<nat> {
    set i: nat | i < |trials| && trials[i].status == Completed && trials[i].passed
  }

  lemma CountedBy(trials: seq<Trial>)
    ensures Count(trials, IsCompleted) == |WithStatus(trials, Completed)|
    ensures Count(trials, IsPassed) == |CompletedAndPassed(trials)|
    ensures Count(trials, IsInfrastructureError) == |WithStatus(trials, InfrastructureError)|
  {
    CountIsSize(trials, IsCompleted);
    CountIsSize(trials, IsPassed);
    CountIsSize(trials, IsInfrastructureError);
    assert Indices(trials, IsCompleted) == WithStatus(trials, Completed);
    assert Indices(trials, IsPassed) == CompletedAndPassed(trials);
    assert Indices(trials, IsInfrastructureError) == WithStatus(trials, InfrastructureError);
  }

  /** The counters of the metrics. */
  lemma CountersReport(scenario: string, requested: nat, k: nat, trials: seq<Trial>, m: Metrics)
    requires AggregateCaseTrials(scenario, requested, k, trials) == Success(m)
    ensures m.scenario == scenario && m.k == k && m.requested == requested
    ensures m.completed == |WithStatus(trials, Completed)| && m.passed == |CompletedAndPassed(trials)|
    ensures m.infrastructureErrors == |WithStatus(trials, InfrastructureError)|
    ensures m.hardGateFailures == GateFailures(trials)
  {
    FieldsAre(scenario, requested, k, trials, m);
    CountedBy(trials);
    hide *;
  }

  /** The rate of passes among the completed trials. */
  lemma PassRate(scenario: string, requested: nat, k: nat, trials: seq<Trial>, m: Metrics)
    requires AggregateCaseTrials(scenario, requested, k, trials) == Success(m)
    ensures m.passAt1.None? <==> m.completed == 0
    ensures m.passAt1.Some? ==> m.passAt1.value * m.completed as real == m.passed as real
  {
    FieldsAre(scenario, requested, k, trials, m);
    if m.completed > 0 { Quotient(m.passed, m.completed); }
    hide *;
  }

  lemma FieldsAre(scenario: string, requested: nat, k: nat, trials: seq<Trial>, m: Metrics)
    requires AggregateCaseTrials(scenario, requested, k, trials) == Success(m)
    ensures m.scenario == scenario && m.k == k && m.requested == requested
    ensures m.completed == Count(trials, IsCompleted) && m.passed == Count(trials, IsPassed)
    ensures m.infrastructureErrors == Count(trials, IsInfrastructureError)
    ensures m.hardGateFailures == GateFailures(trials)
    ensures m.passAt1 == if m.completed > 0 then Some(m.passed as real / m.completed as real) else None
  {
    hide GateFailures, Costs, SumCosts, Count, PassAtKOf, PassPowerKOf, UpTo;
  }

  lemma Quotient(part: nat, whole: nat)
    requires whole > 0
    ensures part as real / whole as real * whole as real == part as real
  {
  }

  /** The mean of the known costs of completed trials, in their currency. */
  lemma CostsReport(scenario: string, requested: nat, k: nat, trials: seq<Trial>, m: Metrics)
    requires AggregateCaseTrials(scenario, requested, k, trials) == Success(m)
    ensures (m.meanCost.None? <==> Costs(trials) == []) && (m.currency.None? <==> Costs(trials) == [])
    ensures m.meanCost.Some? ==> m.meanCost.value * |Costs(trials)| as real == SumCosts(Costs(trials))
    ensures forall t :: Costly(trials, t) ==> m.currency == Some(t.cost.value.1)
  {
    CostsAre(trials);
    AggregatesIff(scenario, requested, k, trials);
    hide GateFailures, Costs, SumCosts, Count, PassAtKOf, PassPowerKOf, OrdinalsCover, UpTo;
    if Costs(trials) != [] {
      var first := Costs(trials)[0];
      assert first in Costs(trials);
      var u :| u in trials && u.status.Completed? && u.cost == Some(first);
      assert Costly(trials, u);
    }
  }

  // ----- comparison

  /** Same scenario, same k, and some completed trial on both sides. */
  predicate Comparable(a: Metrics, b: Metrics) {
    a.scenario == b.scenario && a.k == b.k && a.passAt1.Some? && b.passAt1.Some?
  }

  /**
   Only comparable experiments are compared.  More passes and no more gate failures, or fewer failures and no fewer
   passes, is an improvement; the other way round a regression; equal on both counts unchanged; the rest is mixed.
   */
  lemma ComparisonSays(a: Metrics, b: Metrics)
    ensures var d := CompareCaseMetrics(a, b);
            && (d == Incomparable <==> !Comparable(a, b))
            && (Comparable(a, b) ==>
                  var (more, fewer) := (b.passAt1.value - a.passAt1.value, a.hardGateFailures - b.hardGateFailures);
                  && (d == Improved <==> more >= 0.0 && fewer >= 0 && (more > 0.0 || fewer > 0))
                  && (d == Regressed <==> more <= 0.0 && fewer <= 0 && (more < 0.0 || fewer < 0))
                  && (d == Unchanged <==> more == 0.0 && fewer == 0)
                  && (d == Mixed <==> (more > 0.0 && fewer < 0) || (more < 0.0 && fewer > 0)))
  {
  }
}
