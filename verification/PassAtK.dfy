/**
 Reliability statistics over repeated trials (`aggregate_case_trials` in
 src/stata_research_agent/application/product_evaluation.py).

 The closed binomial forms are compared with counting: among all ways of drawing `k` of the completed trials,
 how many contain a pass, and how many contain nothing else.  Floats are read as exact rationals.
 */
module PassAtK {
  import opened Wrappers

  datatype Status = Completed | InfrastructureError | OtherStatus

  datatype Verdict = Pass | NotPass

  /** `scenario` stands for identity, revision and digest together. */
  datatype Trial = Trial(
    scenario: string, ordinal: nat, status: Status, passed: bool, hardGates: seq<Verdict>, cost: Option<(real, string)>)

  datatype AggregationError = WrongCount | WrongOrdinals | OtherScenario | MixedCurrencies

  datatype Metrics = Metrics(
    scenario: string, k: nat, requested: nat, completed: nat, infrastructureErrors: nat, passed: nat,
    hardGateFailures: nat,
    passAt1: Option<real>, passAtK: Option<real>, passPowerK: Option<real>,
    meanCost: Option<real>, currency: Option<string>)

  // ----- binomial coefficients, as the standard library computes them

  function Factorial(n: nat): (f: nat)
    ensures f >= 1
  {
    if n == 0 then 1 else n * Factorial(n - 1)
  }

  /** n! / (k! (n - k)!), and zero when k exceeds n. */
  function Comb(n: nat, k: nat): nat {
    if k > n then 0 else Factorial(n) / (Factorial(k) * Factorial(n - k))
  }

  /** The number of k-element subsets, one element at a time. */
  function Pascal(n: nat, k: nat): nat {
    if k == 0 then 1
    else if n == 0 then 0
    else Pascal(n - 1, k) + Pascal(n - 1, k - 1)
  }

  lemma {:induction false} PascalIsZero(n: nat, k: nat)
    requires k > n
    ensures Pascal(n, k) == 0
    decreases n
  {
    if n > 0 {
      PascalIsZero(n - 1, k);
      PascalIsZero(n - 1, k - 1);
    }
  }

  lemma {:induction false} PascalFactorial(n: nat, k: nat)
    requires k <= n
    ensures Pascal(n, k) * (Factorial(k) * Factorial(n - k)) == Factorial(n)
    decreases n
  {
    if k == 0 {
    } else if k == n {
      PascalIsZero(n - 1, n);
      PascalFactorial(n - 1, n - 1);
    } else {
      PascalFactorial(n - 1, k);
      PascalFactorial(n - 1, k - 1);
      var a, b, x, y := Pascal(n - 1, k), Pascal(n - 1, k - 1), Factorial(k - 1), Factorial(n - k - 1);
      assert Factorial(k) == k * x && Factorial(n - k) == (n - k) * y && Factorial(n) == n * Factorial(n - 1);
      PascalStep(a, b, x, y, k, n - k, Factorial(n - 1));
    }
  }

  lemma PascalStep(a: nat, b: nat, x: nat, y: nat, k: nat, m: nat, f: nat)
    requires a * ((k * x) * y) == f && b * (x * (m * y)) == f
    ensures (a + b) * ((k * x) * (m * y)) == (k + m) * f
  {
    calc {
      (a + b) * ((k * x) * (m * y));
      m * (a * ((k * x) * y)) + k * (b * (x * (m * y)));
      m * f + k * f;
      (k + m) * f;
    }
  }

  lemma CombIsPascal(n: nat, k: nat)
    ensures Comb(n, k) == Pascal(n, k)
  {
    if k > n {
      PascalIsZero(n, k);
    } else {
      PascalFactorial(n, k);
      ExactDivision(Pascal(n, k), Factorial(k) * Factorial(n - k), Factorial(n));
    }
  }

  lemma ExactDivision(q: nat, d: nat, n: nat)
    requires d > 0 && q * d == n
    ensures n / d == q
  {
    var x := n / d;
    assert x * d <= n < x * d + d;
    StrictProduct(q, x, d);
    StrictProduct(x, q, d);
  }

  lemma StrictProduct(x: int, y: int, d: nat)
    ensures x < y ==> x * d + d <= y * d
  {
    if x < y { assert (x + 1) * d <= y * d; }
  }

  // ----- counting draws

  /** Every way to choose `k` elements of `s`. */
  function Draws(s: set<nat>, k: nat): set<set<nat>> {
    set t: set<nat> | t <= s && |t| == k
  }

  function With(draws: set<set<nat>>, x: nat): set<set<nat>> {
    set t | t in draws :: t + {x}
  }

  lemma {:induction false} WithCount(draws: set<set<nat>>, x: nat)
    requires forall t :: t in draws ==> x !in t
    ensures |With(draws, x)| == |draws|
    decreases |draws|
  {
    if draws == {} {
      assert With(draws, x) == {};
    } else {
      var t :| t in draws;
      var rest := draws - {t};
      WithCount(rest, x);
      assert With(draws, x) == With(rest, x) + {t + {x}};
      forall u | u in draws ensures (u + {x}) - {x} == u { }
      assert (t + {x}) - {x} == t;
      assert t + {x} !in With(rest, x);
    }
  }

  lemma DrawsSplit(s: set<nat>, x: nat, k: nat)
    requires x in s && k > 0
    ensures |Draws(s, k)| == |Draws(s - {x}, k)| + |Draws(s - {x}, k - 1)|
  {
    var without, others := Draws(s - {x}, k), Draws(s - {x}, k - 1);
    assert Draws(s, k) == without + With(others, x) by {
      forall t | t in Draws(s, k) ensures t in without + With(others, x) {
        if x in t {
          var u := t - {x};
          assert u + {x} == t && u in others;
        } else {
          assert t <= s - {x};
        }
      }
    }
    assert without !! With(others, x);
    WithCount(others, x);
  }

  lemma DrawsOfNone(s: set<nat>)
    ensures |Draws(s, 0)| == 1
  {
    assert Draws(s, 0) == {{}};
  }

  lemma DrawsFromNone(k: nat)
    requires k > 0
    ensures |Draws({}, k)| == 0
  {
    assert Draws({}, k) == {};
  }

  lemma {:induction false} DrawsCount(s: set<nat>, k: nat)
    ensures |Draws(s, k)| == Pascal(|s|, k)
    decreases |s|
  {
    hide Draws;
    if k == 0 {
      DrawsOfNone(s);
    } else if s == {} {
      DrawsFromNone(k);
    } else {
      var x :| x in s;
      DrawsSplit(s, x, k);
      DrawsCount(s - {x}, k);
      DrawsCount(s - {x}, k - 1);
    }
  }

  /** The draws that contain at least one element of `good`. */
  function DrawsHitting(s: set<nat>, good: set<nat>, k: nat): set<set<nat>> {
    set t | t in Draws(s, k) && t * good != {}
  }

  lemma Misses(s: set<nat>, good: set<nat>, t: set<nat>)
    requires t <= s
    ensures t <= s - good <==> t * good == {}
  {
    if t * good == {} {
      forall x | x in t ensures x in s - good { assert x !in t * good; }
    }
  }

  lemma HittingCount(s: set<nat>, good: set<nat>, k: nat)
    requires good <= s
    ensures |DrawsHitting(s, good, k)| == Comb(|s|, k) - Comb(|s - good|, k)
  {
    var bad := s - good;
    assert DrawsHitting(s, good, k) == Draws(s, k) - Draws(bad, k) by {
      forall t | t in Draws(s, k) ensures t * good != {} <==> t !in Draws(bad, k) {
        Misses(s, good, t);
      }
    }
    assert Draws(bad, k) <= Draws(s, k);
    DrawsCount(s, k);
    DrawsCount(bad, k);
    CombIsPascal(|s|, k);
    CombIsPascal(|bad|, k);
  }

  // ----- aggregation

  function Count(trials: seq<Trial>, p: Trial -> bool): nat {
    if trials == [] then 0
    else Count(trials[..|trials| - 1], p) + if p(trials[|trials| - 1]) then 1 else 0
  }

  function Indices(trials: seq<Trial>, p: Trial -> bool): set<nat> {
    set i: nat | i < |trials| && p(trials[i])
  }

  lemma {:induction false} CountIsSize(trials: seq<Trial>, p: Trial -> bool)
    ensures |Indices(trials, p)| == Count(trials, p)
    decreases |trials|
  {
    if trials == [] {
      assert Indices(trials, p) == {};
    } else {
      var n := |trials| - 1;
      CountIsSize(trials[..n], p);
      assert Indices(trials, p) == Indices(trials[..n], p) + if p(trials[n]) then {n} else {};
    }
  }

  const IsCompleted := (t: Trial) => t.status.Completed?

  const IsPassed := (t: Trial) => t.status.Completed? && t.passed

  const IsInfrastructureError := (t: Trial) => t.status.InfrastructureError?

  function CountNotPassed(gates: seq<Verdict>): nat {
    if gates == [] then 0 else CountNotPassed(gates[1..]) + if gates[0].NotPass? then 1 else 0
  }

  function GateFailures(trials: seq<Trial>): nat {
    if trials == [] then 0
    else GateFailures(trials[1..]) + if trials[0].status.Completed? then CountNotPassed(trials[0].hardGates) else 0
  }

  /** The known costs of completed trials. */
  function Costs(trials: seq<Trial>): seq<(real, string)> {
    if trials == [] then []
    else
      (if trials[0].status.Completed? && trials[0].cost.Some? then [trials[0].cost.value] else []) + Costs(trials[1..])
  }

  function SumCosts(costs: seq<(real, string)>): real {
    if costs == [] then 0.0 else costs[0].0 + SumCosts(costs[1..])
  }

  function PassAtKOf(completed: nat, passed: nat, k: nat): real
    requires passed <= completed && k <= completed
  {
    var failures := completed - passed;
    CombPositive(completed, k);
    if failures >= k then 1.0 - Comb(failures, k) as real / Comb(completed, k) as real else 1.0
  }

  function PassPowerKOf(completed: nat, passed: nat, k: nat): real
    requires passed <= completed && k <= completed
  {
    CombPositive(completed, k);
    if passed >= k then Comb(passed, k) as real / Comb(completed, k) as real else 0.0
  }

  function UpTo(n: nat): set<nat> {
    if n == 0 then {} else UpTo(n - 1) + {n}
  }

  function AggregateCaseTrials(scenario: string, requested: nat, k: nat, trials: seq<Trial>)
    : Result<Metrics, AggregationError>
  {
    if |trials| != requested then Failure(WrongCount)
    else if (set t | t in trials :: t.ordinal) != UpTo(requested) then Failure(WrongOrdinals)
    else if exists t :: t in trials && t.scenario != scenario then Failure(OtherScenario)
    else
      var size, passed := Count(trials, IsCompleted), Count(trials, IsPassed);
      var costs := Costs(trials);
      PassedAreCompleted(trials);
      if exists i, j :: 0 <= i < j < |costs| && costs[i].1 != costs[j].1 then Failure(MixedCurrencies)
      else
        Success(Metrics(
          scenario, k, requested, size, Count(trials, IsInfrastructureError), passed, GateFailures(trials),
          if size > 0 then Some(passed as real / size as real) else None,
          if size >= k then Some(PassAtKOf(size, passed, k)) else None,
          if size >= k then Some(PassPowerKOf(size, passed, k)) else None,
          if costs != [] then Some(SumCosts(costs) / |costs| as real) else None,
          if costs != [] then Some(costs[0].1) else None))
  }

  lemma {:induction false} PassedAreCompleted(trials: seq<Trial>)
    ensures Count(trials, IsPassed) <= Count(trials, IsCompleted)
    decreases |trials|
  {
    if trials != [] { PassedAreCompleted(trials[..|trials| - 1]); }
  }

  lemma {:induction false} CombPositive(n: nat, k: nat)
    requires k <= n
    ensures Comb(n, k) > 0
    decreases n
  {
    CombIsPascal(n, k);
    if k > 0 {
      CombPositive(n - 1, k - 1);
      CombIsPascal(n - 1, k - 1);
    }
  }

  // ----- what the statistics mean

  lemma PassAtKCountsDraws(all: set<nat>, good: set<nat>, k: nat)
    requires good <= all && k <= |all|
    ensures |good| <= |all| && |Draws(all, k)| > 0
    ensures PassAtKOf(|all|, |good|, k) == |DrawsHitting(all, good, k)| as real / |Draws(all, k)| as real
  {
    Sizes(all, good);
    DrawsCount(all, k);
    CombIsPascal(|all|, k);
    CombPositive(|all|, k);
    HittingCount(all, good, k);
    FractionOfRest(Comb(|all|, k), Comb(|all| - |good|, k));
    if |all| - |good| < k { assert Comb(|all| - |good|, k) == 0; }
  }

  lemma Sizes(all: set<nat>, good: set<nat>)
    requires good <= all
    ensures |good| <= |all| && |all - good| == |all| - |good|
  {
    assert all == good + (all - good);
  }

  lemma PassPowerKCountsDraws(all: set<nat>, good: set<nat>, k: nat)
    requires good <= all && k <= |all|
    ensures |good| <= |all| && |Draws(all, k)| > 0
    ensures PassPowerKOf(|all|, |good|, k) == |Draws(good, k)| as real / |Draws(all, k)| as real
  {
    Sizes(all, good);
    DrawsCount(all, k);
    DrawsCount(good, k);
    CombIsPascal(|all|, k);
    CombIsPascal(|good|, k);
    CombPositive(|all|, k);
    if |good| < k { PascalIsZero(|good|, k); }
  }

  lemma FractionOfRest(n: nat, m: nat)
    requires n > 0 && m <= n
    ensures (n - m) as real / n as real == 1.0 - m as real / n as real
  {
    var x, y := n as real, m as real;
    assert (x - y) / x == x / x - y / x;
  }

  /**
   Both statistics are fractions of the draws of `k` completed trials, and are absent when there is no such
   draw.
   */
  lemma StatisticsCountDraws(scenario: string, requested: nat, k: nat, trials: seq<Trial>, m: Metrics)
    requires AggregateCaseTrials(scenario, requested, k, trials) == Success(m)
    ensures var all, good := Indices(trials, IsCompleted), Indices(trials, IsPassed);
            && m.completed == |all| && m.passed == |good|
            && (m.passAtK.Some? <==> Draws(all, k) != {}) && (m.passPowerK.Some? <==> Draws(all, k) != {})
            && (Draws(all, k) != {} ==>
                  && m.passAtK.value == |DrawsHitting(all, good, k)| as real / |Draws(all, k)| as real
                  && m.passPowerK.value == |Draws(good, k)| as real / |Draws(all, k)| as real)
  {
    var all, good := Indices(trials, IsCompleted), Indices(trials, IsPassed);
    CountIsSize(trials, IsCompleted);
    CountIsSize(trials, IsPassed);
    if k <= |all| {
      PassAtKCountsDraws(all, good, k);
      PassPowerKCountsDraws(all, good, k);
    } else {
      DrawsCount(all, k);
      PascalIsZero(|all|, k);
    }
  }

  // ----- order among the statistics

  /** k * C(n, k) == n * C(n - 1, k - 1). */
  lemma {:induction false} Absorption(n: nat, k: nat)
    requires 1 <= k <= n
    ensures k * Pascal(n, k) == n * Pascal(n - 1, k - 1)
    decreases n
  {
    if k == n {
      PascalIsZero(n - 1, n);
      if n > 1 { Absorption(n - 1, n - 1); }
    } else {
      Absorption(n - 1, k);
      if k > 1 { Absorption(n - 1, k - 1); }
      AbsorptionStep(Pascal(n - 1, k), Pascal(n - 1, k - 1), Pascal(n - 2, k - 1),
                     if k > 1 then Pascal(n - 2, k - 2) else 0, n, k);
    }
  }

  lemma AbsorptionStep(a: int, b: int, c: int, d: int, n: int, k: int)
    requires k * a == (n - 1) * c && (k - 1) * b == (n - 1) * d && b == c + d
    ensures k * (a + b) == n * b
  {
    calc {
      k * (a + b);
      k * a + (k - 1) * b + b;
      (n - 1) * c + (n - 1) * d + b;
      (n - 1) * (c + d) + b;
      n * b;
    }
  }

  lemma {:induction false} PascalMonotone(m: nat, n: nat, k: nat)
    requires m <= n
    ensures Pascal(m, k) <= Pascal(n, k)
    decreases n - m
  {
    if m < n { PascalMonotone(m + 1, n, k); }
  }

  /** C(m, k) / C(n, k) never exceeds m / n. */
  lemma DrawRatio(m: nat, n: nat, k: nat)
    requires 1 <= k <= n && m <= n
    ensures Comb(m, k) * n <= m * Comb(n, k)
  {
    CombIsPascal(m, k);
    CombIsPascal(n, k);
    if m < k {
      PascalIsZero(m, k);
      assert 0 <= m * Comb(n, k);
    } else {
      Absorption(m, k);
      Absorption(n, k);
      PascalMonotone(m - 1, n - 1, k - 1);
      RatioStep(Pascal(m, k), Pascal(n, k), Pascal(m - 1, k - 1), Pascal(n - 1, k - 1), m, n, k);
    }
  }

  lemma RatioStep(a: nat, b: nat, c: nat, d: nat, m: nat, n: nat, k: nat)
    requires k > 0 && k * a == m * c && k * b == n * d && c <= d
    ensures a * n <= m * b
  {
    var left, right, shared := a * n, m * b, m * n;
    Reorder(k, a, n);
    Reorder(m, n, c);
    Reorder(m, c, n);
    Reorder(m, n, d);
    Reorder(m, k, b);
    Reorder(k, m, b);
    ScaleUp(c, d, shared);
    Cancel(left, right, k);
  }

  lemma ScaleUp(c: nat, d: nat, factor: nat)
    requires c <= d
    ensures factor * c <= factor * d
  {
  }

  lemma Reorder(k: nat, a: nat, n: nat)
    ensures k * (a * n) == (k * a) * n && a * n == n * a && k * a == a * k
  {
  }

  lemma Cancel(x: nat, y: nat, k: nat)
    requires k > 0 && k * x <= k * y
    ensures x <= y
  {
    StrictProduct(y, x, k);
  }

  lemma CrossDivide(a: nat, b: nat, m: nat, n: nat)
    requires b > 0 && n > 0 && a * n <= m * b
    ensures a as real / b as real <= m as real / n as real
  {
    assert (a * n) as real == a as real * n as real && (m * b) as real == m as real * b as real;
    CrossDivideReal(a as real, b as real, m as real, n as real);
  }

  lemma CrossDivideReal(x: real, y: real, u: real, v: real)
    requires y > 0.0 && v > 0.0 && x * v <= u * y
    ensures x / y <= u / v
  {
    Scale(x, y, v);
    Scale(u, v, y);
    assert y * v == v * y;
    DivideMonotone(x * v, u * y, y * v);
  }

  lemma Scale(x: real, y: real, v: real)
    requires y > 0.0 && v > 0.0
    ensures y * v > 0.0 && (x * v) / (y * v) == x / y
  {
    var q := x / y;
    assert q * y == x;
    assert q * (y * v) == x * v;
  }

  lemma DivideMonotone(x: real, y: real, d: real)
    requires d > 0.0 && x <= y
    ensures x / d <= y / d
  {
  }

  /** pass^k <= pass@1 <= pass@k, all within [0, 1], and the three agree when k is one. */
  lemma StatisticsOrdered(scenario: string, requested: nat, k: nat, trials: seq<Trial>, m: Metrics)
    requires k >= 1 && AggregateCaseTrials(scenario, requested, k, trials) == Success(m) && m.passAtK.Some?
    ensures m.passAt1.Some? && m.passPowerK.Some?
    ensures 0.0 <= m.passPowerK.value <= m.passAt1.value <= m.passAtK.value <= 1.0
    ensures k == 1 ==> m.passPowerK == m.passAt1 == m.passAtK
  {
    PassedAreCompleted(trials);
    Ordered(m.completed, m.passed, k);
    if k == 1 { SameAtOne(m.completed, m.passed); }
  }

  lemma Ordered(n: nat, p: nat, k: nat)
    requires 1 <= k <= n && p <= n
    ensures 0.0 <= PassPowerKOf(n, p, k) <= p as real / n as real <= PassAtKOf(n, p, k) <= 1.0
  {
    CombPositive(n, k);
    DrawRatio(p, n, k);
    DrawRatio(n - p, n, k);
    CrossDivide(Comb(p, k), Comb(n, k), p, n);
    CrossDivide(Comb(n - p, k), Comb(n, k), n - p, n);
    FractionOfRest(n, p);
    NonNegative(Comb(p, k), Comb(n, k));
    NonNegative(Comb(n - p, k), Comb(n, k));
    NonNegative(p, n);
    NonNegative(n - p, n);
  }

  lemma NonNegative(a: nat, b: nat)
    requires b > 0
    ensures a as real / b as real >= 0.0
  {
  }

  lemma SameAtOne(n: nat, p: nat)
    requires 1 <= n && p <= n
    ensures PassPowerKOf(n, p, 1) == p as real / n as real == PassAtKOf(n, p, 1)
  {
    hide Comb, Factorial;
    CombOfOne(n);
    CombOfOne(p);
    CombOfOne(n - p);
    FractionOfRest(n, n - p);
    FractionOfRest(n, 0);
  }

  lemma {:induction false} CombOfOne(n: nat)
    ensures Comb(n, 1) == n
    decreases n
  {
    CombIsPascal(n, 1);
    if n > 0 {
      CombOfOne(n - 1);
      CombIsPascal(n - 1, 1);
    }
  }

  /** With the same number of completed trials, more passes never lower a statistic. */
  lemma StatisticsMonotone(n: nat, p: nat, q: nat, k: nat)
    requires k <= n && p <= q <= n
    ensures PassAtKOf(n, p, k) <= PassAtKOf(n, q, k)
    ensures PassPowerKOf(n, p, k) <= PassPowerKOf(n, q, k)
  {
    CombPositive(n, k);
    CombMonotone(p, q, k);
    CombMonotone(n - q, n - p, k);
    var all := Comb(n, k) as real;
    DivideMonotone(Comb(p, k) as real, Comb(q, k) as real, all);
    DivideMonotone(Comb(n - q, k) as real, Comb(n - p, k) as real, all);
    NonNegative(Comb(q, k), Comb(n, k));
    NonNegative(Comb(n - p, k), Comb(n, k));
  }

  lemma CombMonotone(m: nat, n: nat, k: nat)
    requires m <= n
    ensures Comb(m, k) <= Comb(n, k)
  {
    CombIsPascal(m, k);
    CombIsPascal(n, k);
    PascalMonotone(m, n, k);
  }

  // ----- comparing two experiments

  datatype Disposition = Improved | Regressed | Mixed | Unchanged | Incomparable

  function Sign(x: real): int {
    if x > 0.0 then 1 else if x < 0.0 then -1 else 0
  }

  function CompareCaseMetrics(baseline: Metrics, candidate: Metrics): Disposition {
    if baseline.scenario != candidate.scenario || baseline.k != candidate.k then Incomparable
    else if baseline.passAt1.None? || candidate.passAt1.None? then Incomparable
    else
      var quality := Sign(candidate.passAt1.value - baseline.passAt1.value);
      var gates := -Sign((candidate.hardGateFailures - baseline.hardGateFailures) as real);
      if quality == 0 && gates == 0 then Unchanged
      else if quality >= 0 && gates >= 0 then Improved
      else if quality <= 0 && gates <= 0 then Regressed
      else Mixed
  }

  /** Exchanging baseline and candidate exchanges improvement and regression and nothing else. */
  lemma ComparisonIsAntisymmetric(a: Metrics, b: Metrics)
    ensures CompareCaseMetrics(b, a) ==
            (match CompareCaseMetrics(a, b)
             case Improved => Regressed
             case Regressed => Improved
             case other => other)
  {
  }

  /** Improvements accumulate: two in a row, with the middle comparable, are an improvement overall. */
  lemma ImprovementIsTransitive(a: Metrics, b: Metrics, c: Metrics)
    requires CompareCaseMetrics(a, b).Improved? && CompareCaseMetrics(b, c) in {Improved, Unchanged}
    ensures CompareCaseMetrics(a, c).Improved?
  {
  }
}
