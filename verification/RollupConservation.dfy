/**
 Slices add up: rolling up the slices of a dimension loses nothing and counts nothing twice.
 */
module RollupConservation {
  import opened Wrappers
  import opened OperationalRollup

  // ----- what a group of metrics amounts to

  /** `missing` counts the applicable metrics without a denominator, and `amount` sums the applicable values. */
  datatype Tally = Tally(
    numerator: real, denominator: real, amount: real, missing: nat, eligible: nat, total: nat, worst: Status,
    tables: set<string>)

  const NOTHING := Tally(0.0, 0.0, 0.0, 0, 0, 0, NotApplicable, {})

  function Plus(a: Tally, b: Tally): Tally {
    Tally(
      a.numerator + b.numerator, a.denominator + b.denominator, a.amount + b.amount,
      a.missing + b.missing, a.eligible + b.eligible,
      a.total + b.total, Worse(a.worst, b.worst), a.tables + b.tables)
  }

  lemma RankIsInjective(a: Status, b: Status)
    ensures Rank(a) == Rank(b) <==> a == b
  {
  }

  lemma PlusIsCommutative(a: Tally, b: Tally)
    ensures Plus(a, b) == Plus(b, a)
  {
    RankIsInjective(a.worst, b.worst);
  }

  lemma PlusIsAssociative(a: Tally, b: Tally, c: Tally)
    ensures Plus(Plus(a, b), c) == Plus(a, Plus(b, c))
  {
    hide Rank;
  }

  lemma PlusNothing(a: Tally)
    ensures Plus(a, NOTHING) == a && Plus(NOTHING, a) == a
  {
    RankIsInjective(a.worst, NotApplicable);
  }

  function One(m: Metric): Tally {
    if m.status.NotApplicable? then NOTHING.(total := 1, tables := m.tables)
    else Tally(
           OrZero(m.numerator), OrZero(m.denominator), OrZero(m.value),
           if m.denominator.None? then 1 else 0, 1, 1, m.status, m.tables)
  }

  function TallyOf(values: seq<Metric>): Tally {
    if values == [] then NOTHING else Plus(TallyOf(values[..|values| - 1]), One(values[|values| - 1]))
  }

  lemma {:induction false} TallyAppend(a: seq<Metric>, b: seq<Metric>)
    ensures TallyOf(a + b) == Plus(TallyOf(a), TallyOf(b))
    decreases |b|
  {
    hide Plus, One;
    if b == [] {
      assert a + b == a;
      PlusNothing(TallyOf(a));
    } else {
      var init, last := b[..|b| - 1], b[|b| - 1];
      TallyAppend(a, init);
      assert (a + b)[..|a + b| - 1] == a + init;
      PlusIsAssociative(TallyOf(a), TallyOf(init), One(last));
    }
  }

  function Missing(values: seq<Metric>): nat {
    if values == [] then 0
    else Missing(values[..|values| - 1]) + if values[|values| - 1].denominator.None? then 1 else 0
  }

  lemma {:induction false} NoneMissing(values: seq<Metric>)
    ensures Missing(values) == 0 <==> forall k | 0 <= k < |values| :: values[k].denominator.Some?
    decreases |values|
  {
    if values != [] {
      var init := values[..|values| - 1];
      NoneMissing(init);
      assert forall k | 0 <= k < |init| :: init[k] == values[k];
    }
  }

  lemma {:induction false} TallyTells(values: seq<Metric>)
    ensures var applicable := Applicable(values);
            TallyOf(values) == Tally(
              SumNumerators(applicable), SumDenominators(applicable), SumValues(applicable), Missing(applicable),
              |applicable|, |values|,
              WorstStatus(values), Tables(values))
    decreases |values|
  {
    hide Worse;
    if values != [] {
      var init, last := values[..|values| - 1], values[|values| - 1];
      TallyTells(init);
      KeepsNotApplicable(WorstStatus(init));
      var before, now := Applicable(init), Applicable(values);
      if last.status.NotApplicable? {
        assert now == before;
      } else {
        assert now[..|now| - 1] == before && now[|now| - 1] == last;
      }
    }
  }

  lemma KeepsNotApplicable(s: Status)
    ensures Worse(s, NotApplicable) == s
  {
  }

  /** A rate where every applicable metric has a denominator, and otherwise a plain sum. */
  function ValueOf(numerator: real, denominator: real, amount: real, complete: bool): Option<real> {
    if !complete then Some(amount) else if denominator != 0.0 then Some(numerator / denominator) else None
  }

  /** A rolled-up metric is determined by its tally. */
  ghost predicate Shows(r: MetricRollup, t: Tally) {
    && r.numerator == t.numerator && r.eligible == t.eligible && r.total == t.total && r.status == t.worst
    && r.tables == t.tables
    && r.value == ValueOf(t.numerator, t.denominator, t.amount, t.missing == 0)
    && (r.denominator.None? <==> t.missing > 0)
    && (r.denominator.Some? ==> r.denominator.value == t.denominator)
  }

  lemma RollupShowsTally(values: seq<Metric>)
    ensures Shows(MetricOf(values), TallyOf(values))
  {
    TallyTells(values);
    NoneMissing(Applicable(values));
  }

  /** So two groups with the same tally roll up alike. */
  lemma SameTallySameRollup(values: seq<Metric>, others: seq<Metric>)
    requires TallyOf(values) == TallyOf(others)
    ensures MetricOf(values) == MetricOf(others)
  {
    RollupShowsTally(values);
    RollupShowsTally(others);
    hide MetricOf, TallyOf;
  }

  /** A numerator or a value that is absent counts as zero. */
  lemma AbsentIsZero(before: seq<Metric>, m: Metric, after: seq<Metric>)
    ensures m.numerator.None? ==>
              MetricOf(before + [m] + after) == MetricOf(before + [m.(numerator := Some(0.0))] + after)
    ensures m.value.None? ==>
              MetricOf(before + [m] + after) == MetricOf(before + [m.(value := Some(0.0))] + after)
  {
    var numbered, valued := m.(numerator := Some(0.0)), m.(value := Some(0.0));
    assert m.numerator.None? ==> One(m) == One(numbered);
    assert m.value.None? ==> One(m) == One(valued);
    TallyBetween(before, m, after);
    TallyBetween(before, numbered, after);
    TallyBetween(before, valued, after);
    hide MetricOf, TallyOf, One, Plus;
    if m.numerator.None? { SameTallySameRollup(before + [m] + after, before + [numbered] + after); }
    if m.value.None? { SameTallySameRollup(before + [m] + after, before + [valued] + after); }
  }

  lemma TallyBetween(before: seq<Metric>, m: Metric, after: seq<Metric>)
    ensures TallyOf(before + [m] + after) == Plus(Plus(TallyOf(before), One(m)), TallyOf(after))
  {
    TallyAppend(before + [m], after);
    assert (before + [m])[..|before|] == before;
    hide Plus, One;
  }

  /** A metric that does not apply is counted, and its tables are listed, but changes nothing else. */
  lemma NotApplicableOnlyCounts(before: seq<Metric>, m: Metric, after: seq<Metric>)
    requires m.status.NotApplicable?
    ensures var with_, without := MetricOf(before + [m] + after), MetricOf(before + after);
            with_ == without.(total := without.total + 1, tables := without.tables + m.tables)
  {
    TallyBetween(before, m, after);
    TallyAppend(before, after);
    RollupShowsTally(before + [m] + after);
    RollupShowsTally(before + after);
    KeepsNotApplicable(TallyOf(before).worst);
    hide MetricOf, TallyOf, Rank;
  }

  /** A single metric that applies rolls up to itself, with the rate it reports the parts of. */
  lemma SingleMetric(m: Metric)
    requires !m.status.NotApplicable?
    ensures var r := MetricOf([m]);
            && r.status == m.status && r.eligible == 1 && r.total == 1 && r.tables == m.tables
            && r.denominator == m.denominator
            && (m.numerator.Some? ==> r.numerator == m.numerator.value)
            && (m.denominator.None? && m.value.Some? ==> r.value == m.value)
            && (m.numerator.Some? && m.denominator.Some? && m.denominator.value != 0.0 ==>
                  r.value == Some(m.numerator.value / m.denominator.value))
  {
    assert TallyOf([m]) == Plus(NOTHING, One(m)) by { assert [m][..0] == []; }
    PlusNothing(One(m));
    RollupShowsTally([m]);
    hide MetricOf, TallyOf;
  }

  /** Every metric has a positive denominator, and its rate lies between the bounds. */
  ghost predicate RatesWithin(values: seq<Metric>, low: real, high: real) {
    forall k | 0 <= k < |values| ::
      && values[k].denominator.Some? && values[k].denominator.value > 0.0
      && low * values[k].denominator.value <= OrZero(values[k].numerator) <= high * values[k].denominator.value
  }

  lemma {:induction false} SumsWithin(values: seq<Metric>, low: real, high: real)
    requires RatesWithin(values, low, high)
    ensures low * SumDenominators(values) <= SumNumerators(values) <= high * SumDenominators(values)
    ensures SumDenominators(values) >= 0.0 && (values != [] ==> SumDenominators(values) > 0.0)
    decreases |values|
  {
    hide RatesWithin, OrZero;
    if values != [] {
      var init, last := values[..|values| - 1], values[|values| - 1];
      LastWithin(values, low, high);
      SumsWithin(init, low, high);
      hide SumNumerators, SumDenominators;
      SumsOfLast(values);
      AddWithin(
        SumNumerators(init), SumDenominators(init), OrZero(last.numerator), OrZero(last.denominator), low, high);
    }
  }

  lemma LastWithin(values: seq<Metric>, low: real, high: real)
    requires RatesWithin(values, low, high) && values != []
    ensures var n, d := OrZero(values[|values| - 1].numerator), OrZero(values[|values| - 1].denominator);
            d > 0.0 && low * d <= n <= high * d
    ensures RatesWithin(values[..|values| - 1], low, high)
  {
    var init := values[..|values| - 1];
    assert forall k | 0 <= k < |init| :: init[k] == values[k];
  }

  lemma SumsOfLast(values: seq<Metric>)
    requires values != []
    ensures var init, last := values[..|values| - 1], values[|values| - 1];
            && SumNumerators(values) == SumNumerators(init) + OrZero(last.numerator)
            && SumDenominators(values) == SumDenominators(init) + OrZero(last.denominator)
  {
  }

  lemma AddWithin(n: real, d: real, more: real, width: real, low: real, high: real)
    requires low * d <= n <= high * d && low * width <= more <= high * width
    ensures low * (d + width) <= n + more <= high * (d + width)
  {
    Distribute(low, d, width);
    Distribute(high, d, width);
  }

  lemma Distribute(x: real, a: real, b: real)
    ensures x * (a + b) == x * a + x * b
  {
  }

  lemma QuotientWithin(n: real, d: real, low: real, high: real)
    requires d > 0.0 && low * d <= n <= high * d
    ensures low <= n / d <= high
  {
    var q := n / d;
    assert q * d == n;
  }

  /** A pooled rate is a mean: it lies between any bounds on the rates it was pooled from. */
  lemma PooledRateIsMean(values: seq<Metric>, low: real, high: real)
    requires Applicable(values) != [] && RatesWithin(Applicable(values), low, high)
    ensures var r := MetricOf(values); r.value.Some? && low <= r.value.value <= high
  {
    hide Applicable, SumNumerators, SumDenominators, MetricOf;
    var applicable := Applicable(values);
    SumsWithin(applicable, low, high);
    PooledRate(values);
    QuotientWithin(SumNumerators(applicable), SumDenominators(applicable), low, high);
  }

  lemma PooledRate(values: seq<Metric>)
    requires Applicable(values) != [] && SumDenominators(Applicable(values)) != 0.0
    requires forall k | 0 <= k < |Applicable(values)| :: Applicable(values)[k].denominator.Some?
    ensures MetricOf(values).value == Some(SumNumerators(Applicable(values)) / SumDenominators(Applicable(values)))
  {
    hide Applicable, SumNumerators, SumDenominators;
  }

  // ----- reports

  function TallyAt(reports: seq<Report>, key: Key): Tally {
    TallyOf(Group(Entries(reports), key))
  }

  lemma {:induction false} GroupAppend(a: seq<Entry>, b: seq<Entry>, key: Key)
    ensures Group(a + b, key) == Group(a, key) + Group(b, key)
    decreases |b|
  {
    if b == [] {
      assert a + b == a;
    } else {
      var init, last := b[..|b| - 1], b[|b| - 1];
      GroupAppend(a, init, key);
      assert (a + b)[..|a + b| - 1] == a + init;
    }
  }

  lemma OneMoreReport(reports: seq<Report>, report: Report, key: Key)
    ensures TallyAt(reports + [report], key) == Plus(TallyAt(reports, key), TallyAt([report], key))
  {
    hide Group, Plus, TallyOf, ReportEntries;
    var all := reports + [report];
    assert all[..|all| - 1] == reports && [report][..0] == [];
    assert Entries([report]) == ReportEntries(report);
    GroupAppend(Entries(reports), ReportEntries(report), key);
    TallyAppend(Group(Entries(reports), key), Group(ReportEntries(report), key));
  }

  // ----- the partition into slices

  /** `values` lists the slices of a dimension, each once, in any order. */
  ghost predicate Enumerates(values: seq<string>, turns: seq<Turn>, d: Dimension) {
    && (forall i, j | 0 <= i < j < |values| :: values[i] != values[j])
    && (forall t | t in turns :: SliceValue(t, d) in values)
  }

  function SliceTally(turns: seq<Turn>, d: Dimension, value: string, key: Key): Tally {
    TallyAt(Reports(SliceOf(turns, d, value)), key)
  }

  function SlicesTally(turns: seq<Turn>, d: Dimension, values: seq<string>, key: Key): Tally {
    if values == [] then NOTHING
    else Plus(SlicesTally(turns, d, values[..|values| - 1], key), SliceTally(turns, d, values[|values| - 1], key))
  }

  lemma SliceStep(turns: seq<Turn>, turn: Turn, d: Dimension, value: string, key: Key)
    ensures SliceTally(turns + [turn], d, value, key)
         == if SliceValue(turn, d) == value then Plus(SliceTally(turns, d, value, key), TallyAt([turn.report], key))
            else SliceTally(turns, d, value, key)
  {
    hide TallyAt, Plus, SliceValue;
    assert (turns + [turn])[..|turns|] == turns;
    var before := SliceOf(turns, d, value);
    assert before + [] == before && Reports(before + [turn]) == Reports(before) + [turn.report];
    OneMoreReport(Reports(before), turn.report, key);
  }

  /** A further turn adds to the sum over the slices once, in the one slice that it belongs to. */
  lemma {:induction false} SlicesStep(turns: seq<Turn>, turn: Turn, d: Dimension, values: seq<string>, key: Key)
    requires forall i, j | 0 <= i < j < |values| :: values[i] != values[j]
    ensures SlicesTally(turns + [turn], d, values, key)
         == if SliceValue(turn, d) in values then Plus(SlicesTally(turns, d, values, key), TallyAt([turn.report], key))
            else SlicesTally(turns, d, values, key)
    decreases |values|
  {
    hide TallyAt, Plus, SliceTally, SliceValue;
    if values != [] {
      var init, last := values[..|values| - 1], values[|values| - 1];
      assert values == init + [last];
      assert last !in init;
      SlicesStep(turns, turn, d, init, key);
      SliceStep(turns, turn, d, last, key);
      var sum, slice, new_ :=
        SlicesTally(turns, d, init, key), SliceTally(turns, d, last, key), TallyAt([turn.report], key);
      if SliceValue(turn, d) == last {
        PlusIsAssociative(sum, slice, new_);
      } else if SliceValue(turn, d) in init {
        PlusIsAssociative(sum, new_, slice);
        PlusIsCommutative(new_, slice);
        PlusIsAssociative(sum, slice, new_);
      }
    }
  }

  lemma {:induction false} EmptySlices(d: Dimension, values: seq<string>, key: Key)
    ensures SlicesTally([], d, values, key) == NOTHING
    decreases |values|
  {
    hide Plus, TallyAt;
    if values != [] {
      EmptySlices(d, values[..|values| - 1], key);
      assert Reports([]) == [];
      NothingFiled(key);
      PlusNothing(NOTHING);
    }
  }

  lemma NothingFiled(key: Key)
    ensures TallyAt([], key) == NOTHING
  {
  }

  /** The tallies of the slices sum to the tally of all turns. */
  lemma {:induction false} SlicesSumToWhole(turns: seq<Turn>, d: Dimension, values: seq<string>, key: Key)
    requires Enumerates(values, turns, d)
    ensures SlicesTally(turns, d, values, key) == TallyAt(Reports(turns), key)
    decreases |turns|
  {
    hide TallyAt, Plus, SliceValue, SlicesTally;
    if turns == [] {
      EmptySlices(d, values, key);
      assert Reports(turns) == [];
      NothingFiled(key);
    } else {
      var init, last := turns[..|turns| - 1], turns[|turns| - 1];
      assert turns == init + [last] && Reports(turns) == Reports(init) + [last.report];
      SlicesSumToWhole(init, d, values, key);
      SlicesStep(init, last, d, values, key);
      OneMoreReport(Reports(init), last.report, key);
    }
  }

  // ----- the same about the rolled-up metrics themselves

  function SliceRollup(turns: seq<Turn>, d: Dimension, value: string, key: Key): MetricRollup {
    RollupAt(Reports(SliceOf(turns, d, value)), key)
  }

  function NumeratorSum(turns: seq<Turn>, d: Dimension, values: seq<string>, key: Key): real {
    if values == [] then 0.0
    else
      NumeratorSum(turns, d, values[..|values| - 1], key) + SliceRollup(turns, d, values[|values| - 1], key).numerator
  }

  function DenominatorSum(turns: seq<Turn>, d: Dimension, values: seq<string>, key: Key): real {
    if values == [] then 0.0
    else
      DenominatorSum(turns, d, values[..|values| - 1], key)
      + OrZero(SliceRollup(turns, d, values[|values| - 1], key).denominator)
  }

  /** The plain sums of the slices' applicable values. */
  function AmountSum(turns: seq<Turn>, d: Dimension, values: seq<string>, key: Key): real {
    if values == [] then 0.0
    else
      AmountSum(turns, d, values[..|values| - 1], key)
      + SumValues(Applicable(Group(Entries(Reports(SliceOf(turns, d, values[|values| - 1]))), key)))
  }

  function EligibleSum(turns: seq<Turn>, d: Dimension, values: seq<string>, key: Key): nat {
    if values == [] then 0
    else EligibleSum(turns, d, values[..|values| - 1], key) + SliceRollup(turns, d, values[|values| - 1], key).eligible
  }

  function TotalSum(turns: seq<Turn>, d: Dimension, values: seq<string>, key: Key): nat {
    if values == [] then 0
    else TotalSum(turns, d, values[..|values| - 1], key) + SliceRollup(turns, d, values[|values| - 1], key).total
  }

  function WorstOfSlices(turns: seq<Turn>, d: Dimension, values: seq<string>, key: Key): Status {
    if values == [] then NotApplicable
    else
      Worse(WorstOfSlices(turns, d, values[..|values| - 1], key),
            SliceRollup(turns, d, values[|values| - 1], key).status)
  }

  ghost predicate AllDenominators(turns: seq<Turn>, d: Dimension, values: seq<string>, key: Key) {
    forall k | 0 <= k < |values| :: SliceRollup(turns, d, values[k], key).denominator.Some?
  }

  lemma {:induction false} SumsShowTallies(turns: seq<Turn>, d: Dimension, values: seq<string>, key: Key)
    ensures var t := SlicesTally(turns, d, values, key);
            && NumeratorSum(turns, d, values, key) == t.numerator && AmountSum(turns, d, values, key) == t.amount
            && EligibleSum(turns, d, values, key) == t.eligible
            && TotalSum(turns, d, values, key) == t.total && WorstOfSlices(turns, d, values, key) == t.worst
            && (AllDenominators(turns, d, values, key) <==> t.missing == 0)
            && (AllDenominators(turns, d, values, key) ==> DenominatorSum(turns, d, values, key) == t.denominator)
    decreases |values|
  {
    hide SliceRollup, SliceTally, Worse, AllDenominators, ValueOf, SliceOf, Reports, Entries, Group, Applicable,
         SumValues;
    if values == [] {
      DenominatorsSplit(turns, d, values, key);
    } else {
      SumsShowTallies(turns, d, values[..|values| - 1], key);
      SliceShows(turns, d, values[|values| - 1], key);
      SliceAmount(turns, d, values[|values| - 1], key);
      DenominatorsSplit(turns, d, values, key);
    }
  }

  lemma SliceShows(turns: seq<Turn>, d: Dimension, value: string, key: Key)
    ensures Shows(SliceRollup(turns, d, value, key), SliceTally(turns, d, value, key))
  {
    hide MetricOf, TallyOf;
    RollupShowsTally(Group(Entries(Reports(SliceOf(turns, d, value))), key));
  }

  lemma SliceAmount(turns: seq<Turn>, d: Dimension, value: string, key: Key)
    ensures SliceTally(turns, d, value, key).amount
         == SumValues(Applicable(Group(Entries(Reports(SliceOf(turns, d, value))), key)))
  {
    TallyTells(Group(Entries(Reports(SliceOf(turns, d, value))), key));
  }

  lemma DenominatorsSplit(turns: seq<Turn>, d: Dimension, values: seq<string>, key: Key)
    ensures values == [] ==> AllDenominators(turns, d, values, key)
    ensures values != [] ==>
              var n := |values| - 1;
              (AllDenominators(turns, d, values, key) <==>
                AllDenominators(turns, d, values[..n], key) && SliceRollup(turns, d, values[n], key).denominator.Some?)
  {
    hide SliceRollup;
    if values != [] {
      var init := values[..|values| - 1];
      assert forall k | 0 <= k < |init| :: init[k] == values[k];
      assert values == init + [values[|values| - 1]];
    }
  }

  /**
   For every metric, the numerators and the counts of the slices add up to those of all turns, the overall status is
   the worst status of a slice, and the overall denominator is null exactly when some slice's is and otherwise the
   sum of theirs.  The value follows: the quotient of the sums, or where a denominator is null the sum of the values.
   */
  lemma SlicesAddUp(turns: seq<Turn>, d: Dimension, values: seq<string>, key: Key)
    requires Enumerates(values, turns, d)
    ensures var whole := RollupAt(Reports(turns), key);
            && whole.numerator == NumeratorSum(turns, d, values, key)
            && whole.eligible == EligibleSum(turns, d, values, key)
            && whole.total == TotalSum(turns, d, values, key)
            && whole.status == WorstOfSlices(turns, d, values, key)
            && (whole.denominator.Some? <==> AllDenominators(turns, d, values, key))
            && (whole.denominator.Some? ==> whole.denominator.value == DenominatorSum(turns, d, values, key))
            && whole.value == ValueOf(
                 NumeratorSum(turns, d, values, key), DenominatorSum(turns, d, values, key),
                 AmountSum(turns, d, values, key), AllDenominators(turns, d, values, key))
  {
    hide AmountSum, MetricOf, TallyOf, SlicesTally, AllDenominators, NumeratorSum, DenominatorSum, EligibleSum,
         TotalSum, WorstOfSlices;
    SlicesSumToWhole(turns, d, values, key);
    SumsShowTallies(turns, d, values, key);
    RollupShowsTally(Group(Entries(Reports(turns)), key));
  }

  /** The denominator of a rolled-up metric is null exactly when some applicable metric has none. */
  lemma NullDenominatorIff(reports: seq<Report>, key: Key)
    ensures RollupAt(reports, key).denominator.None? <==>
              exists m :: m in Group(Entries(reports), key) && !m.status.NotApplicable? && m.denominator.None?
  {
    var values := Group(Entries(reports), key);
    hide Group;
    forall m ensures m in Applicable(values) <==> m in values && !m.status.NotApplicable? {
      ApplicableIff(values, m);
    }
    var applicable := Applicable(values);
    hide Applicable;
    assert forall k | 0 <= k < |applicable| :: applicable[k] in applicable;
  }

  lemma {:induction false} ApplicableIff(values: seq<Metric>, m: Metric)
    ensures m in Applicable(values) <==> m in values && !m.status.NotApplicable?
    decreases |values|
  {
    if values != [] {
      var init, last := values[..|values| - 1], values[|values| - 1];
      ApplicableIff(init, m);
      assert values == init + [last];
    }
  }

  // ----- every turn is in exactly one slice

  function TurnCounts(turns: seq<Turn>, d: Dimension, values: seq<string>): nat {
    if values == [] then 0
    else TurnCounts(turns, d, values[..|values| - 1]) + |SliceOf(turns, d, values[|values| - 1])|
  }

  lemma {:induction false} InSliceIff(turns: seq<Turn>, d: Dimension, value: string, turn: Turn)
    ensures turn in SliceOf(turns, d, value) <==> turn in turns && SliceValue(turn, d) == value
    decreases |turns|
  {
    hide SliceValue;
    if turns != [] {
      var init, last := turns[..|turns| - 1], turns[|turns| - 1];
      InSliceIff(init, d, value, turn);
      assert turns == init + [last];
    }
  }

  lemma {:induction false} CountsStep(turns: seq<Turn>, turn: Turn, d: Dimension, values: seq<string>)
    requires forall i, j | 0 <= i < j < |values| :: values[i] != values[j]
    ensures TurnCounts(turns + [turn], d, values)
         == TurnCounts(turns, d, values) + if SliceValue(turn, d) in values then 1 else 0
    decreases |values|
  {
    hide SliceValue;
    if values != [] {
      var init, last := values[..|values| - 1], values[|values| - 1];
      assert values == init + [last] && last !in init;
      CountsStep(turns, turn, d, init);
      assert (turns + [turn])[..|turns|] == turns;
    }
  }

  lemma {:induction false} EmptyCounts(d: Dimension, values: seq<string>)
    ensures TurnCounts([], d, values) == 0
    decreases |values|
  {
    if values != [] { EmptyCounts(d, values[..|values| - 1]); }
  }

  /** Slices do not overlap, and their turn counts add up to the number of turns. */
  lemma {:induction false} TurnsAreSplit(turns: seq<Turn>, d: Dimension, values: seq<string>)
    requires Enumerates(values, turns, d)
    ensures TurnCounts(turns, d, values) == |turns|
    decreases |turns|
  {
    hide SliceValue, TurnCounts;
    if turns == [] {
      EmptyCounts(d, values);
    } else {
      var init, last := turns[..|turns| - 1], turns[|turns| - 1];
      assert turns == init + [last];
      TurnsAreSplit(init, d, values);
      CountsStep(init, last, d, values);
    }
  }
}
