/**
 The status of a layer against the statuses of its slices.  A metric's status is the worst of its slices', but a
 layer's status ignores the status `unknown`, which outranks `pass` in a metric: so a layer can look better in a
 slice than in the whole.
 */
module RollupStatus {
  import opened Wrappers
  import opened OperationalRollup
  import opened RollupConservation

  ghost predicate AnyAt(reports: seq<Report>, layer: LayerId, s: Status) {
    exists m :: RollupAt(reports, Key(layer, m)).status == s
  }

  ghost function LayerStatusAt(reports: seq<Report>, layer: LayerId): LayerStatus {
    if AnyAt(reports, layer, Fail) then LayerFail
    else if AnyAt(reports, layer, Warn) then LayerWarn
    else if AnyAt(reports, layer, Pass) then LayerPass
    else LayerObserved
  }

  lemma UnfiledIsNotApplicable(reports: seq<Report>, key: Key)
    requires !Filed(reports, key)
    ensures RollupAt(reports, key).status == NotApplicable
  {
  }

  /** This is the status that the rollup gives to a layer. */
  lemma LayerStatusIsReported(reports: seq<Report>, layers: map<LayerId, LayerRollup>, layer: LayerId)
    requires IsRollup(reports, layers)
    ensures layer in layers ==> layers[layer].status == LayerStatusAt(reports, layer)
    ensures layer !in layers ==> LayerStatusAt(reports, layer) == LayerObserved
  {
    hide RollupAt, Filed;
    forall m ensures !Filed(reports, Key(layer, m)) ==> RollupAt(reports, Key(layer, m)).status == NotApplicable {
      if !Filed(reports, Key(layer, m)) { UnfiledIsNotApplicable(reports, Key(layer, m)); }
    }
    if layer in layers {
      var metrics := layers[layer].metrics;
      forall s: Status | s != NotApplicable ensures AnyAt(reports, layer, s) <==> AnyStatus(metrics, s) {
        if m :| RollupAt(reports, Key(layer, m)).status == s { assert m in metrics && metrics[m].status == s; }
        if m :| m in metrics && metrics[m].status == s { assert RollupAt(reports, Key(layer, m)).status == s; }
      }
    }
  }

  function LayerRank(s: LayerStatus): nat {
    match s
    case LayerFail => 3
    case LayerWarn => 2
    case LayerPass => 1
    case LayerObserved => 0
  }

  ghost function SliceLayer(turns: seq<Turn>, d: Dimension, value: string, layer: LayerId): LayerStatus {
    LayerStatusAt(Reports(SliceOf(turns, d, value)), layer)
  }

  /** The worst status that the layer has in one of the slices. */
  ghost function WorstLayer(turns: seq<Turn>, d: Dimension, values: seq<string>, layer: LayerId): LayerStatus {
    if values == [] then LayerObserved
    else
      var worst := WorstLayer(turns, d, values[..|values| - 1], layer);
      var last := SliceLayer(turns, d, values[|values| - 1], layer);
      if LayerRank(last) > LayerRank(worst) then last else worst
  }

  ghost predicate AnyInSlices(turns: seq<Turn>, d: Dimension, values: seq<string>, layer: LayerId, s: Status) {
    exists k | 0 <= k < |values| :: AnyAt(Reports(SliceOf(turns, d, values[k])), layer, s)
  }

  lemma AnyInSlicesStep(turns: seq<Turn>, d: Dimension, values: seq<string>, layer: LayerId, s: Status)
    requires values != []
    ensures AnyInSlices(turns, d, values, layer, s) <==>
              AnyInSlices(turns, d, values[..|values| - 1], layer, s)
              || AnyAt(Reports(SliceOf(turns, d, values[|values| - 1])), layer, s)
  {
    hide AnyAt, SliceOf, Reports;
    var init := values[..|values| - 1];
    if k :| 0 <= k < |init| && AnyAt(Reports(SliceOf(turns, d, init[k])), layer, s) { assert init[k] == values[k]; }
    if k :| 0 <= k < |values| && AnyAt(Reports(SliceOf(turns, d, values[k])), layer, s) && k < |init| {
      assert init[k] == values[k];
    }
  }

  lemma {:induction false} WorstLayerIs(turns: seq<Turn>, d: Dimension, values: seq<string>, layer: LayerId)
    ensures WorstLayer(turns, d, values, layer)
         == if AnyInSlices(turns, d, values, layer, Fail) then LayerFail
            else if AnyInSlices(turns, d, values, layer, Warn) then LayerWarn
            else if AnyInSlices(turns, d, values, layer, Pass) then LayerPass
            else LayerObserved
    decreases |values|
  {
    hide AnyAt, SliceOf;
    if values != [] {
      WorstLayerIs(turns, d, values[..|values| - 1], layer);
      AnyInSlicesStep(turns, d, values, layer, Fail);
      AnyInSlicesStep(turns, d, values, layer, Warn);
      AnyInSlicesStep(turns, d, values, layer, Pass);
      hide AnyInSlices;
    }
  }

  lemma {:induction false} WorstIsAttained(turns: seq<Turn>, d: Dimension, values: seq<string>, key: Key)
    ensures var worst := WorstOfSlices(turns, d, values, key);
            && (forall k | 0 <= k < |values| :: Rank(SliceRollup(turns, d, values[k], key).status) <= Rank(worst))
            && (worst != NotApplicable ==>
                 exists k | 0 <= k < |values| :: SliceRollup(turns, d, values[k], key).status == worst)
    decreases |values|
  {
    hide SliceRollup;
    if values != [] {
      var init := values[..|values| - 1];
      WorstIsAttained(turns, d, init, key);
      assert forall k | 0 <= k < |init| :: init[k] == values[k];
    }
  }

  lemma OverallIsWorst(turns: seq<Turn>, d: Dimension, values: seq<string>, layer: LayerId, m: MetricId)
    requires Enumerates(values, turns, d)
    ensures var overall := RollupAt(Reports(turns), Key(layer, m)).status;
            && (forall k | 0 <= k < |values| ::
                  Rank(SliceRollup(turns, d, values[k], Key(layer, m)).status) <= Rank(overall))
            && (overall != NotApplicable ==>
                  exists k | 0 <= k < |values| :: SliceRollup(turns, d, values[k], Key(layer, m)).status == overall)
  {
    hide SliceRollup, RollupAt;
    SlicesAddUp(turns, d, values, Key(layer, m));
    WorstIsAttained(turns, d, values, Key(layer, m));
  }

  /** What holds somewhere overall holds somewhere in a slice; the converse needs that nothing outranks it. */
  lemma AnyAgainstSlices(turns: seq<Turn>, d: Dimension, values: seq<string>, layer: LayerId, s: Status)
    requires Enumerates(values, turns, d) && s != NotApplicable
    ensures AnyAt(Reports(turns), layer, s) ==> AnyInSlices(turns, d, values, layer, s)
    ensures AnyInSlices(turns, d, values, layer, s) ==>
              exists worse: Status :: Rank(worse) >= Rank(s) && AnyAt(Reports(turns), layer, worse)
  {
    hide AnyAt, AnyInSlices, Enumerates;
    if AnyAt(Reports(turns), layer, s) {
      var m := SomeMetric(Reports(turns), layer, s);
      WholeIsInSlice(turns, d, values, layer, m);
    }
    if AnyInSlices(turns, d, values, layer, s) {
      var k := SomeSlice(turns, d, values, layer, s);
      var m := SomeMetric(Reports(SliceOf(turns, d, values[k])), layer, s);
      OverallIsWorst(turns, d, values, layer, m);
      MetricIsSome(Reports(turns), layer, m);
      assert SliceRollup(turns, d, values[k], Key(layer, m)).status == s;
    }
  }

  lemma SomeMetric(reports: seq<Report>, layer: LayerId, s: Status) returns (m: MetricId)
    requires AnyAt(reports, layer, s)
    ensures RollupAt(reports, Key(layer, m)).status == s
  {
    hide RollupAt;
    m :| RollupAt(reports, Key(layer, m)).status == s;
  }

  lemma MetricIsSome(reports: seq<Report>, layer: LayerId, m: MetricId)
    ensures AnyAt(reports, layer, RollupAt(reports, Key(layer, m)).status)
  {
    hide RollupAt;
  }

  lemma SomeSlice(turns: seq<Turn>, d: Dimension, values: seq<string>, layer: LayerId, s: Status) returns (k: nat)
    requires AnyInSlices(turns, d, values, layer, s)
    ensures k < |values| && AnyAt(Reports(SliceOf(turns, d, values[k])), layer, s)
  {
    hide AnyAt, SliceOf, Reports;
    k :| 0 <= k < |values| && AnyAt(Reports(SliceOf(turns, d, values[k])), layer, s);
  }

  lemma WholeIsInSlice(turns: seq<Turn>, d: Dimension, values: seq<string>, layer: LayerId, m: MetricId)
    requires Enumerates(values, turns, d) && RollupAt(Reports(turns), Key(layer, m)).status != NotApplicable
    ensures AnyInSlices(turns, d, values, layer, RollupAt(Reports(turns), Key(layer, m)).status)
  {
    hide Enumerates, RollupAt, SliceOf, Reports, AnyAt;
    OverallIsWorst(turns, d, values, layer, m);
    var s := RollupAt(Reports(turns), Key(layer, m)).status;
    var k :| 0 <= k < |values| && SliceRollup(turns, d, values[k], Key(layer, m)).status == s;
    MetricIsSome(Reports(SliceOf(turns, d, values[k])), layer, m);
  }

  /** In terms of rolled-up statuses. */
  lemma LayerIsMaskedIff(turns: seq<Turn>, d: Dimension, values: seq<string>, layer: LayerId)
    requires Enumerates(values, turns, d)
    ensures var whole, worst := LayerStatusAt(Reports(turns), layer), WorstLayer(turns, d, values, layer);
            var masked :=
              && AnyInSlices(turns, d, values, layer, Pass)
              && (forall m :: RollupAt(Reports(turns), Key(layer, m)).status !in {Fail, Warn, Pass});
            && LayerRank(whole) <= LayerRank(worst)
            && (whole == worst <==> !masked)
            && (masked ==> whole == LayerObserved && worst == LayerPass)
  {
    hide Enumerates, AnyInSlices, RollupAt;
    WorstLayerIs(turns, d, values, layer);
    AnyAgainstSlices(turns, d, values, layer, Fail);
    AnyAgainstSlices(turns, d, values, layer, Warn);
    AnyAgainstSlices(turns, d, values, layer, Pass);
    forall s: Status ensures Rank(s) >= Rank(Pass) ==> s in {Pass, Unknown, Warn, Fail} {
    }
    assert forall s: Status :: Rank(s) >= Rank(Warn) ==> s in {Warn, Fail};
    assert forall s: Status :: Rank(s) >= Rank(Fail) ==> s == Fail;
    assert forall s: Status ::
        (forall m :: RollupAt(Reports(turns), Key(layer, m)).status != s) <==> !AnyAt(Reports(turns), layer, s);
  }

  // ----- the same in terms of what the turns reported

  ghost predicate Reported(turn: Turn, key: Key, s: Status) {
    exists m :: m in Group(ReportEntries(turn.report), key) && m.status == s
  }

  /** Some turn reported the status for the metric. */
  ghost predicate Said(turns: seq<Turn>, key: Key, s: Status) {
    exists t :: t in turns && Reported(t, key, s)
  }

  lemma {:induction false} FiledIff(turns: seq<Turn>, key: Key, m: Metric)
    ensures m in Group(Entries(Reports(turns)), key) <==>
              exists t :: t in turns && m in Group(ReportEntries(t.report), key)
    decreases |turns|
  {
    hide Group, ReportEntries;
    if turns == [] {
      assert Reports(turns) == [];
      NothingGroupedAt(key);
    } else {
      var init, last := turns[..|turns| - 1], turns[|turns| - 1];
      FiledIff(init, key, m);
      assert turns == init + [last] && Reports(turns) == Reports(init) + [last.report];
      assert Reports(turns)[..|turns| - 1] == Reports(init);
      GroupAppend(Entries(Reports(init)), ReportEntries(last.report), key);
    }
  }

  lemma NothingGroupedAt(key: Key)
    ensures Group([], key) == [] && Entries([]) == []
  {
  }

  lemma {:induction false} WorstIs(values: seq<Metric>, s: Status)
    requires s != NotApplicable
    ensures WorstStatus(values) == s <==>
              && (exists m :: m in values && m.status == s)
              && (forall m :: m in values ==> Rank(m.status) <= Rank(s))
    decreases |values|
  {
    WorstBounds(values);
    RankIsInjective(WorstStatus(values), s);
    forall m | m in values ensures m.status == s <==> Rank(m.status) == Rank(s) { RankIsInjective(m.status, s); }
  }

  lemma {:induction false} WorstBounds(values: seq<Metric>)
    ensures forall m :: m in values ==> Rank(m.status) <= Rank(WorstStatus(values))
    ensures WorstStatus(values) != NotApplicable ==> exists m :: m in values && m.status == WorstStatus(values)
    decreases |values|
  {
    hide Rank;
    if values != [] {
      var init, last := values[..|values| - 1], values[|values| - 1];
      WorstBounds(init);
      assert values == init + [last];
    }
  }

  /** The overall status of a metric is the highest-ranking one that was reported for it. */
  lemma StatusIsSaid(turns: seq<Turn>, key: Key, s: Status)
    requires s != NotApplicable
    ensures RollupAt(Reports(turns), key).status == s <==>
              Said(turns, key, s) && forall w: Status :: Rank(w) > Rank(s) ==> !Said(turns, key, w)
  {
    hide Rank, WorstStatus, Group, MetricOf;
    var values := Group(Entries(Reports(turns)), key);
    StatusIsWorst(values);
    WorstIs(values, s);
    forall w: Status ensures Said(turns, key, w) <==> exists m :: m in values && m.status == w {
      SaidIff(turns, key, w);
    }
  }

  lemma SaidIff(turns: seq<Turn>, key: Key, s: Status)
    ensures Said(turns, key, s) <==> exists m :: m in Group(Entries(Reports(turns)), key) && m.status == s
  {
    hide Group, Entries, Reports;
    forall m
      ensures m in Group(Entries(Reports(turns)), key) <==>
                exists t :: t in turns && m in Group(ReportEntries(t.report), key)
    {
      FiledIff(turns, key, m);
    }
  }

  lemma SaidInSlice(turns: seq<Turn>, d: Dimension, value: string, key: Key, s: Status)
    ensures Said(SliceOf(turns, d, value), key, s) <==>
              exists t :: t in turns && SliceValue(t, d) == value && Reported(t, key, s)
  {
    hide SliceOf, SliceValue, Reported;
    forall t ensures t in SliceOf(turns, d, value) <==> t in turns && SliceValue(t, d) == value {
      InSliceIff(turns, d, value, t);
    }
  }

  /** A pass that no other turn of its slice leaves unknown. */
  ghost predicate ClearPass(turns: seq<Turn>, d: Dimension, key: Key, t: Turn) {
    t in turns && Reported(t, key, Pass)
    && forall u :: u in turns && SliceValue(u, d) == SliceValue(t, d) ==> !Reported(u, key, Unknown)
  }

  /**
   A layer's passes are hidden when no turn reports a failure or a warning in it, every metric that passes in a turn
   is unknown in some turn, and some metric passes clearly within a slice.
   */
  ghost predicate PassesHidden(turns: seq<Turn>, d: Dimension, layer: LayerId) {
    && (forall m :: !Said(turns, Key(layer, m), Fail) && !Said(turns, Key(layer, m), Warn))
    && (forall m :: Said(turns, Key(layer, m), Pass) ==> Said(turns, Key(layer, m), Unknown))
    && (exists m, t :: ClearPass(turns, d, Key(layer, m), t))
  }

  lemma RanksAre()
    ensures Rank(NotApplicable) < Rank(Observed) < Rank(Pass) < Rank(Unknown) < Rank(Warn) < Rank(Fail)
    ensures forall w: Status :: Rank(w) > Rank(Pass) ==> w == Unknown || w == Warn || w == Fail
    ensures forall w: Status :: Rank(w) > Rank(Warn) ==> w == Fail
    ensures forall w: Status :: Rank(w) <= Rank(Fail)
  {
  }

  /** A metric that neither fails nor warns passes exactly when it is reported to pass and never unknown. */
  lemma PassIsSaid(turns: seq<Turn>, key: Key)
    ensures var s := RollupAt(Reports(turns), key).status;
            && (s in {Fail, Warn} <==> Said(turns, key, Fail) || Said(turns, key, Warn))
            && (s == Pass <==>
                  Said(turns, key, Pass) && !Said(turns, key, Unknown) && !Said(turns, key, Warn) &&
                  !Said(turns, key, Fail))
  {
    hide RollupAt, Said;
    RanksAre();
    StatusIsSaid(turns, key, Fail);
    StatusIsSaid(turns, key, Warn);
    StatusIsSaid(turns, key, Pass);
    hide Rank;
  }

  lemma PassesHiddenOverall(turns: seq<Turn>, d: Dimension, layer: LayerId)
    ensures (forall m :: RollupAt(Reports(turns), Key(layer, m)).status !in {Fail, Warn, Pass}) <==>
              && (forall m :: !Said(turns, Key(layer, m), Fail) && !Said(turns, Key(layer, m), Warn))
              && (forall m :: Said(turns, Key(layer, m), Pass) ==> Said(turns, Key(layer, m), Unknown))
  {
    hide RollupAt, Said;
    forall m
      ensures var s := RollupAt(Reports(turns), Key(layer, m)).status;
              && (s in {Fail, Warn} <==> Said(turns, Key(layer, m), Fail) || Said(turns, Key(layer, m), Warn))
              && (s == Pass <==>
                    && Said(turns, Key(layer, m), Pass) && !Said(turns, Key(layer, m), Unknown)
                    && !Said(turns, Key(layer, m), Warn) && !Said(turns, Key(layer, m), Fail))
    {
      PassIsSaid(turns, Key(layer, m));
    }
  }

  lemma ClearPassIff(turns: seq<Turn>, d: Dimension, values: seq<string>, layer: LayerId)
    requires Enumerates(values, turns, d)
    requires forall m :: !Said(turns, Key(layer, m), Fail) && !Said(turns, Key(layer, m), Warn)
    ensures AnyInSlices(turns, d, values, layer, Pass) <==> exists m, t :: ClearPass(turns, d, Key(layer, m), t)
  {
    hide RollupAt, AnyAt, AnyInSlices, SliceOf, SliceValue, Reported;
    if AnyInSlices(turns, d, values, layer, Pass) {
      var k := SomeSlice(turns, d, values, layer, Pass);
      var m := SomeMetric(Reports(SliceOf(turns, d, values[k])), layer, Pass);
      PassIsSaid(SliceOf(turns, d, values[k]), Key(layer, m));
      SaidInSlice(turns, d, values[k], Key(layer, m), Pass);
      SaidInSlice(turns, d, values[k], Key(layer, m), Unknown);
      var t :| t in turns && SliceValue(t, d) == values[k] && Reported(t, Key(layer, m), Pass);
      assert ClearPass(turns, d, Key(layer, m), t);
    }
    if m, t :| ClearPass(turns, d, Key(layer, m), t) {
      ClearSlicePasses(turns, d, values, layer, m, t);
    }
  }

  lemma ClearSlicePasses(turns: seq<Turn>, d: Dimension, values: seq<string>, layer: LayerId, m: MetricId, t: Turn)
    requires Enumerates(values, turns, d) && ClearPass(turns, d, Key(layer, m), t)
    requires !Said(turns, Key(layer, m), Fail) && !Said(turns, Key(layer, m), Warn)
    ensures AnyInSlices(turns, d, values, layer, Pass)
  {
    hide RollupAt, AnyAt, SliceOf, SliceValue, Reported;
    var k :| 0 <= k < |values| && values[k] == SliceValue(t, d);
    var key := Key(layer, m);
    SaidInSlice(turns, d, values[k], key, Fail);
    SaidInSlice(turns, d, values[k], key, Warn);
    SaidInSlice(turns, d, values[k], key, Unknown);
    SaidInSlice(turns, d, values[k], key, Pass);
    PassIsSaid(SliceOf(turns, d, values[k]), key);
    MetricIsSome(Reports(SliceOf(turns, d, values[k])), layer, m);
  }

  /**
   A layer's overall status is never worse than in its worst slice, and it is the worst slice's exactly unless the
   turns' reports hide its passes; then it is only observed.
   */
  lemma LayerIsWorstSliceIff(turns: seq<Turn>, d: Dimension, values: seq<string>, layer: LayerId)
    requires Enumerates(values, turns, d)
    ensures var whole, worst := LayerStatusAt(Reports(turns), layer), WorstLayer(turns, d, values, layer);
            && LayerRank(whole) <= LayerRank(worst)
            && (whole == worst <==> !PassesHidden(turns, d, layer))
            && (PassesHidden(turns, d, layer) ==> whole == LayerObserved && worst == LayerPass)
  {
    hide Enumerates, RollupAt, Said, ClearPass, AnyInSlices, WorstLayer, LayerStatusAt, AnyAt;
    LayerIsMaskedIff(turns, d, values, layer);
    PassesHiddenOverall(turns, d, layer);
    if forall m :: !Said(turns, Key(layer, m), Fail) && !Said(turns, Key(layer, m), Warn) {
      ClearPassIff(turns, d, values, layer);
    }
  }

  // ----- it does happen

  function WithStatus(layer: LayerId, m: MetricId, s: Status): Report {
    [Layer(layer, [Metric(m, s, None, None, None, {})])]
  }

  lemma OneEntry(layer: LayerId, m: MetricId, s: Status)
    ensures ReportEntries(WithStatus(layer, m, s)) == [Entry(Key(layer, m), Metric(m, s, None, None, None, {}))]
  {
    var metrics := [Metric(m, s, None, None, None, {})];
    assert metrics[..0] == [] && WithStatus(layer, m, s)[..0] == [];
    assert LayerEntries(layer, metrics) == [Entry(Key(layer, m), metrics[0])];
  }

  /** The status of a metric over one or two reports that carry nothing else. */
  lemma FewReports(layer: LayerId, m: MetricId, a: Status, b: Status, other: MetricId)
    ensures RollupAt([WithStatus(layer, m, a)], Key(layer, other)).status == if other == m then a else NotApplicable
    ensures RollupAt([WithStatus(layer, m, a), WithStatus(layer, m, b)], Key(layer, other)).status
         == if other == m then Worse(a, b) else NotApplicable
  {
    hide MetricOf, ReportEntries, LayerEntries;
    OneEntry(layer, m, a);
    OneEntry(layer, m, b);
    var key := Key(layer, other);
    var x, y := Metric(m, a, None, None, None, {}), Metric(m, b, None, None, None, {});
    var one, two: seq<Report> := [WithStatus(layer, m, a)], [WithStatus(layer, m, a), WithStatus(layer, m, b)];
    assert one[..0] == [] && two[..1] == one;
    var first, second: seq<Entry> := [Entry(Key(layer, m), x)], [Entry(Key(layer, m), x), Entry(Key(layer, m), y)];
    assert first[..0] == [] && second[..1] == first;
    assert Entries(one) == first && Entries(two) == second;
    var xs, both: seq<Metric> := [x], [x, y];
    assert xs[..0] == [] && both[..1] == xs;
    assert Group(first, key) == if other == m then xs else [];
    assert Group(second, key) == if other == m then both else [];
    StatusIsWorst(xs);
    StatusIsWorst(both);
    StatusIsWorst([]);
    RankIsInjective(a, NotApplicable);
  }

  lemma StatusIsWorst(values: seq<Metric>)
    ensures MetricOf(values).status == WorstStatus(values)
  {
  }

  /** One turn in which a metric passes and one in which it is unknown: the layer passes in a slice, but not overall. */
  lemma PassIsMasked(layer: LayerId, m: MetricId, done: Turn, other: Turn)
    requires done.report == WithStatus(layer, m, Pass) && other.report == WithStatus(layer, m, Unknown)
    requires done.status != other.status
    ensures LayerStatusAt(Reports([done, other]), layer) == LayerObserved
    ensures WorstLayer([done, other], TurnStatus, [done.status, other.status], layer) == LayerPass
  {
    TwoSlices(done, other);
    hide *;
    forall o
      ensures RollupAt(Reports([done, other]), Key(layer, o)).status == if o == m then Unknown else NotApplicable
    {
      FewReports(layer, m, Pass, Unknown, o);
    }
    LayerIsMasked([done, other], [done.status, other.status], layer, m);
  }

  lemma TwoSlices(done: Turn, other: Turn)
    requires done.status != other.status
    ensures Reports([done, other]) == [done.report, other.report]
    ensures Reports(SliceOf([done, other], TurnStatus, done.status)) == [done.report]
    ensures Reports(SliceOf([done, other], TurnStatus, other.status)) == [other.report]
  {
    var turns, first: seq<Turn> := [done, other], [done];
    assert turns[..1] == first && first[..0] == [];
    assert SliceOf(first, TurnStatus, done.status) == first && SliceOf(first, TurnStatus, other.status) == [];
    assert SliceOf(turns, TurnStatus, done.status) == first && SliceOf(turns, TurnStatus, other.status) == [other];
  }

  lemma LayerIsMasked(turns: seq<Turn>, values: seq<string>, layer: LayerId, m: MetricId)
    requires |values| == 2
    requires Reports(SliceOf(turns, TurnStatus, values[0])) == [WithStatus(layer, m, Pass)]
    requires Reports(SliceOf(turns, TurnStatus, values[1])) == [WithStatus(layer, m, Unknown)]
    requires forall o :: RollupAt(Reports(turns), Key(layer, o)).status == if o == m then Unknown else NotApplicable
    ensures LayerStatusAt(Reports(turns), layer) == LayerObserved
    ensures WorstLayer(turns, TurnStatus, values, layer) == LayerPass
  {
    hide RollupAt, SliceOf, Reports;
    WorstLayerIs(turns, TurnStatus, values, layer);
    forall o
      ensures RollupAt([WithStatus(layer, m, Pass)], Key(layer, o)).status == if o == m then Pass else NotApplicable
      ensures RollupAt([WithStatus(layer, m, Unknown)], Key(layer, o)).status ==
                if o == m then Unknown else NotApplicable
    {
      FewReports(layer, m, Pass, Pass, o);
      FewReports(layer, m, Unknown, Unknown, o);
    }
    assert RollupAt(Reports(SliceOf(turns, TurnStatus, values[0])), Key(layer, m)).status == Pass;
    assert AnyAt(Reports(SliceOf(turns, TurnStatus, values[0])), layer, Pass);
  }
}
