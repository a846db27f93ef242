/**
 Rolling up operational metrics over reports, and over slices of turns
 (tools/run_operational_evaluation.py, `_rollup` and `_slice_rollups`).  Numbers are exact.
 */
module OperationalRollup {
  import opened Wrappers
  import opened Sequences

  type LayerId = string
  type MetricId = string

  datatype Status = NotApplicable | Observed | Pass | Unknown | Warn | Fail

  function Rank(s: Status): (r: nat)
    ensures r <= 5
  {
    match s
    case Fail => 5
    case Warn => 4
    case Unknown => 3
    case Pass => 2
    case Observed => 1
    case NotApplicable => 0
  }

  datatype Metric = Metric(
    id: MetricId, status: Status, numerator: Option<real>, denominator: Option<real>, value: Option<real>,
    tables: set<string>)

  datatype Layer = Layer(id: LayerId, metrics: seq<Metric>)

  /** The layers of one workspace or of one turn. */
  type Report = seq<Layer>

  datatype Key = Key(layer: LayerId, metric: MetricId)

  datatype MetricRollup = MetricRollup(
    status: Status, value: Option<real>, numerator: real, denominator: Option<real>, eligible: nat, total: nat,
    tables: set<string>)

  datatype LayerStatus = LayerFail | LayerWarn | LayerPass | LayerObserved

  datatype LayerRollup = LayerRollup(status: LayerStatus, metrics: map<MetricId, MetricRollup>)

  // ----- grouping

  datatype Entry = Entry(key: Key, metric: Metric)

  function LayerEntries(layer: LayerId, metrics: seq<Metric>): seq<Entry> {
    if metrics == [] then []
    else
      var last := metrics[|metrics| - 1];
      LayerEntries(layer, metrics[..|metrics| - 1]) + [Entry(Key(layer, last.id), last)]
  }

  function ReportEntries(report: Report): seq<Entry> {
    if report == [] then []
    else
      var last := report[|report| - 1];
      ReportEntries(report[..|report| - 1]) + LayerEntries(last.id, last.metrics)
  }

  function Entries(reports: seq<Report>): seq<Entry> {
    if reports == [] then [] else Entries(reports[..|reports| - 1]) + ReportEntries(reports[|reports| - 1])
  }

  /** The metrics filed under a key, in the order in which they were reported. */
  function Group(entries: seq<Entry>, key: Key): seq<Metric> {
    if entries == [] then []
    else
      var last := entries[|entries| - 1];
      Group(entries[..|entries| - 1], key) + if last.key == key then [last.metric] else []
  }

  ghost predicate GroupedSoFar(entries: seq<Entry>, grouped: map<Key, seq<Metric>>) {
    && (forall k :: k in grouped <==> Group(entries, k) != [])
    && (forall k :: k in grouped ==> grouped[k] == Group(entries, k))
  }

  method GroupMetrics(reports: seq<Report>) returns (grouped: map<Key, seq<Metric>>)
    ensures GroupedSoFar(Entries(reports), grouped)
  {
    hide GroupedSoFar, Entries, ReportEntries, LayerEntries;
    grouped := map[];
    ghost var seen: seq<Entry> := [];
    NothingGrouped(reports);
    for i := 0 to |reports|
      invariant seen == Entries(reports[..i]) && GroupedSoFar(seen, grouped)
    {
      var report := reports[i];
      EntriesStep(reports, i);
      ghost var seenBefore := seen;
      for j := 0 to |report|
        invariant seen == seenBefore + ReportEntries(report[..j]) && GroupedSoFar(seen, grouped)
      {
        var layer := report[j];
        ReportStep(report, j);
        ghost var seenHere := seen;
        for n := 0 to |layer.metrics|
          invariant seen == seenHere + LayerEntries(layer.id, layer.metrics[..n]) && GroupedSoFar(seen, grouped)
        {
          var key, metric := Key(layer.id, layer.metrics[n].id), layer.metrics[n];
          LayerStep(layer.id, layer.metrics, n);
          OneMoreEntry(seen, grouped, Entry(key, metric));
          grouped := grouped[key := (if key in grouped then grouped[key] else []) + [metric]];
          Regroup(seenHere, LayerEntries(layer.id, layer.metrics[..n]), [Entry(key, metric)]);
          seen := seen + [Entry(key, metric)];
        }
        assert layer.metrics[..|layer.metrics|] == layer.metrics;
        Regroup(seenBefore, ReportEntries(report[..j]), LayerEntries(layer.id, layer.metrics));
      }
      assert report[..|report|] == report;
    }
    assert reports[..|reports|] == reports;
  }

  lemma NothingGrouped(reports: seq<Report>)
    ensures Entries(reports[..0]) == [] && GroupedSoFar([], map[])
    ensures forall report: Report :: ReportEntries(report[..0]) == []
    ensures forall layer: LayerId, metrics: seq<Metric> :: LayerEntries(layer, metrics[..0]) == []
  {
  }

  lemma EntriesStep(reports: seq<Report>, i: nat)
    requires i < |reports|
    ensures Entries(reports[..i + 1]) == Entries(reports[..i]) + ReportEntries(reports[i])
  {
    hide ReportEntries;
    assert reports[..i + 1][..i] == reports[..i];
  }

  lemma ReportStep(report: Report, j: nat)
    requires j < |report|
    ensures ReportEntries(report[..j + 1]) == ReportEntries(report[..j]) + LayerEntries(report[j].id, report[j].metrics)
  {
    hide LayerEntries;
    assert report[..j + 1][..j] == report[..j];
  }

  lemma LayerStep(layer: LayerId, metrics: seq<Metric>, n: nat)
    requires n < |metrics|
    ensures LayerEntries(layer, metrics[..n + 1])
         == LayerEntries(layer, metrics[..n]) + [Entry(Key(layer, metrics[n].id), metrics[n])]
  {
    assert metrics[..n + 1][..n] == metrics[..n];
  }

  lemma OneMoreEntry(entries: seq<Entry>, grouped: map<Key, seq<Metric>>, entry: Entry)
    requires GroupedSoFar(entries, grouped)
    ensures var values := (if entry.key in grouped then grouped[entry.key] else []) + [entry.metric];
            GroupedSoFar(entries + [entry], grouped[entry.key := values])
  {
    assert (entries + [entry])[..|entries|] == entries;
  }

  // ----- one metric

  function Applicable(values: seq<Metric>): seq<Metric> {
    if values == [] then []
    else
      var last := values[|values| - 1];
      Applicable(values[..|values| - 1]) + if last.status.NotApplicable? then [] else [last]
  }

  function OrZero(x: Option<real>): real {
    if x.Some? then x.value else 0.0
  }

  function SumNumerators(values: seq<Metric>): real {
    if values == [] then 0.0 else SumNumerators(values[..|values| - 1]) + OrZero(values[|values| - 1].numerator)
  }

  function SumDenominators(values: seq<Metric>): real {
    if values == [] then 0.0 else SumDenominators(values[..|values| - 1]) + OrZero(values[|values| - 1].denominator)
  }

  function SumValues(values: seq<Metric>): real {
    if values == [] then 0.0 else SumValues(values[..|values| - 1]) + OrZero(values[|values| - 1].value)
  }

  function Worse(a: Status, b: Status): Status {
    if Rank(b) > Rank(a) then b else a
  }

  function WorstStatus(values: seq<Metric>): Status {
    if values == [] then NotApplicable else Worse(WorstStatus(values[..|values| - 1]), values[|values| - 1].status)
  }

  function Tables(values: seq<Metric>): set<string> {
    if values == [] then {} else Tables(values[..|values| - 1]) + values[|values| - 1].tables
  }

  function MetricOf(values: seq<Metric>): MetricRollup {
    var applicable := Applicable(values);
    var numerator := SumNumerators(applicable);
    var status, tables := WorstStatus(values), Tables(values);
    if applicable != [] && forall k | 0 <= k < |applicable| :: applicable[k].denominator.Some? then
      var denominator := SumDenominators(applicable);
      var value := if denominator != 0.0 then Some(numerator / denominator) else None;
      MetricRollup(status, value, numerator, Some(denominator), |applicable|, |values|, tables)
    else if applicable != [] then
      MetricRollup(status, Some(SumValues(applicable)), numerator, None, |applicable|, |values|, tables)
    else
      MetricRollup(status, None, numerator, Some(0.0), 0, |values|, tables)
  }

  // ----- one layer

  predicate AnyStatus(metrics: map<MetricId, MetricRollup>, s: Status) {
    exists m | m in metrics :: metrics[m].status == s
  }

  function StatusOf(metrics: map<MetricId, MetricRollup>): LayerStatus {
    if AnyStatus(metrics, Fail) then LayerFail
    else if AnyStatus(metrics, Warn) then LayerWarn
    else if AnyStatus(metrics, Pass) then LayerPass
    else LayerObserved
  }

  // ----- the rollup

  /** The rolled-up metric of a key; a key that nothing is filed under has the rollup of nothing. */
  function RollupAt(reports: seq<Report>, key: Key): MetricRollup {
    MetricOf(Group(Entries(reports), key))
  }

  ghost predicate Filed(reports: seq<Report>, key: Key) {
    Group(Entries(reports), key) != []
  }

  /** The layers and metrics of a rollup are exactly those that something is filed under. */
  ghost predicate IsRollup(reports: seq<Report>, layers: map<LayerId, LayerRollup>) {
    && (forall l, m :: Filed(reports, Key(l, m)) <==> l in layers && m in layers[l].metrics)
    && (forall l, m | l in layers && m in layers[l].metrics :: layers[l].metrics[m] == RollupAt(reports, Key(l, m)))
    && (forall l | l in layers :: layers[l].metrics != map[] && layers[l].status == StatusOf(layers[l].metrics))
  }

  ghost predicate RolledSoFar(
      grouped: map<Key, seq<Metric>>, pending: set<Key>, layers: map<LayerId, map<MetricId, MetricRollup>>)
  {
    && pending <= grouped.Keys
    && (forall l, m :: Key(l, m) in grouped && Key(l, m) !in pending <==> l in layers && m in layers[l])
    && (forall l, m | l in layers && m in layers[l] && Key(l, m) in grouped ::
          layers[l][m] == MetricOf(grouped[Key(l, m)]))
    && (forall l | l in layers :: layers[l] != map[])
  }

  method Rollup(reports: seq<Report>) returns (layers: map<LayerId, LayerRollup>)
    ensures IsRollup(reports, layers)
  {
    hide GroupedSoFar, IsRollup, RolledSoFar, MetricOf;
    var grouped := GroupMetrics(reports);
    var rolled: map<LayerId, map<MetricId, MetricRollup>> := map[];
    var pending := grouped.Keys;
    NothingRolled(grouped);
    while pending != {}
      invariant RolledSoFar(grouped, pending, rolled) && pending <= grouped.Keys
      decreases |pending|
    {
      var key :| key in pending;
      OneMoreKey(grouped, pending, rolled, key);
      var metrics := if key.layer in rolled then rolled[key.layer] else map[];
      rolled := rolled[key.layer := metrics[key.metric := MetricOf(grouped[key])]];
      pending := pending - {key};
    }
    layers := map l | l in rolled :: LayerRollup(StatusOf(rolled[l]), rolled[l]);
    AllRolled(reports, grouped, rolled, layers);
  }

  lemma NothingRolled(grouped: map<Key, seq<Metric>>)
    ensures RolledSoFar(grouped, grouped.Keys, map[])
  {
  }

  lemma OneMoreKey(
      grouped: map<Key, seq<Metric>>, pending: set<Key>, layers: map<LayerId, map<MetricId, MetricRollup>>, key: Key)
    requires RolledSoFar(grouped, pending, layers) && key in pending && key in grouped
    ensures var metrics := if key.layer in layers then layers[key.layer] else map[];
            RolledSoFar(
              grouped, pending - {key}, layers[key.layer := metrics[key.metric := MetricOf(grouped[key])]])
  {
    hide MetricOf;
    var metrics := if key.layer in layers then layers[key.layer] else map[];
    var more := metrics[key.metric := MetricOf(grouped[key])];
    var layers' := layers[key.layer := more];
    assert key.metric in more;
    assert key == Key(key.layer, key.metric);
    forall l, m ensures Key(l, m) in grouped && Key(l, m) !in pending - {key} <==> l in layers' && m in layers'[l] {
      assert Key(l, m) == key <==> l == key.layer && m == key.metric;
    }
  }

  lemma AllRolled(
      reports: seq<Report>, grouped: map<Key, seq<Metric>>, rolled: map<LayerId, map<MetricId, MetricRollup>>,
      layers: map<LayerId, LayerRollup>)
    requires GroupedSoFar(Entries(reports), grouped) && RolledSoFar(grouped, {}, rolled)
    requires layers == map l | l in rolled :: LayerRollup(StatusOf(rolled[l]), rolled[l])
    ensures IsRollup(reports, layers)
  {
    hide MetricOf, StatusOf, Group, Entries;
    forall l, m ensures Filed(reports, Key(l, m)) <==> l in layers && m in layers[l].metrics {
      assert Key(l, m) in grouped <==> Group(Entries(reports), Key(l, m)) != [];
    }
  }

  // ----- slices

  datatype Turn = Turn(
    models: seq<string>, skillName: string, skillRevision: string, toolCatalog: string, status: string,
    createdAt: string,
    report: Report)

  datatype Dimension = Model | MainSkill | ToolCatalog | TurnStatus | CreatedDate

  const DIMENSIONS: seq<Dimension> := [Model, MainSkill, ToolCatalog, TurnStatus, CreatedDate]

  function Joined(names: seq<string>): string {
    if names == [] then "" else if |names| == 1 then names[0] else names[0] + " + " + Joined(names[1..])
  }

  function Or(s: string, otherwise: string): string {
    if s == "" then otherwise else s
  }

  function SliceValue(turn: Turn, d: Dimension): string {
    match d
    case Model => Or(Joined(turn.models), "not_invoked")
    case MainSkill => Or(turn.skillName, "not_frozen") + "@" + Or(turn.skillRevision, "unknown")
    case ToolCatalog => Or(turn.toolCatalog, "not_frozen")
    case TurnStatus => turn.status
    case CreatedDate => if |turn.createdAt| <= 10 then turn.createdAt else turn.createdAt[..10]
  }

  /** The turns of a slice, in their order. */
  function SliceOf(turns: seq<Turn>, d: Dimension, value: string): seq<Turn> {
    if turns == [] then []
    else
      var last := turns[|turns| - 1];
      SliceOf(turns[..|turns| - 1], d, value) + if SliceValue(last, d) == value then [last] else []
  }

  function Reports(turns: seq<Turn>): seq<Report> {
    seq(|turns|, i requires 0 <= i < |turns| => turns[i].report)
  }

  datatype Slice = Slice(turnCount: nat, layers: map<LayerId, LayerRollup>)

  ghost predicate SlicedSoFar(turns: seq<Turn>, d: Dimension, groups: map<string, seq<Turn>>) {
    && (forall v :: v in groups <==> SliceOf(turns, d, v) != [])
    && (forall v :: v in groups ==> groups[v] == SliceOf(turns, d, v))
  }

  lemma OneMoreTurn(turns: seq<Turn>, d: Dimension, groups: map<string, seq<Turn>>, turn: Turn)
    requires SlicedSoFar(turns, d, groups)
    ensures var v := SliceValue(turn, d);
            SlicedSoFar(turns + [turn], d, groups[v := (if v in groups then groups[v] else []) + [turn]])
  {
    hide SliceValue;
    assert (turns + [turn])[..|turns|] == turns;
  }

  method GroupTurns(turns: seq<Turn>) returns (dimensions: map<Dimension, map<string, seq<Turn>>>)
    ensures forall d :: d in dimensions && SlicedSoFar(turns, d, dimensions[d])
  {
    hide SlicedSoFar, SliceValue, SliceOf;
    dimensions := map d | d in DIMENSIONS :: map[];
    NothingSliced(turns);
    for i := 0 to |turns|
      invariant forall d :: d in dimensions && SlicedSoFar(turns[..i], d, dimensions[d])
    {
      assert turns[..i + 1] == turns[..i] + [turns[i]];
      ghost var before := dimensions;
      for k := 0 to |DIMENSIONS|
        invariant forall d :: d in dimensions && d in before
        invariant forall d | d in DIMENSIONS[..k] :: SlicedSoFar(turns[..i + 1], d, dimensions[d])
        invariant forall d | d !in DIMENSIONS[..k] :: dimensions[d] == before[d]
      {
        var d := DIMENSIONS[k];
        var groups, v := dimensions[d], SliceValue(turns[i], d);
        EachDimensionOnce(k);
        OneMoreTurn(turns[..i], d, groups, turns[i]);
        dimensions := dimensions[d := groups[v := (if v in groups then groups[v] else []) + [turns[i]]]];
      }
      forall d ensures SlicedSoFar(turns[..i + 1], d, dimensions[d]) {
        AllDimensions(d);
      }
    }
    assert turns[..|turns|] == turns;
  }

  lemma NothingSliced(turns: seq<Turn>)
    ensures forall d :: d in DIMENSIONS && SlicedSoFar(turns[..0], d, map[])
  {
    forall d: Dimension ensures d in DIMENSIONS { AllDimensions(d); }
  }

  lemma AllDimensions(d: Dimension)
    ensures d in DIMENSIONS && DIMENSIONS[..|DIMENSIONS|] == DIMENSIONS
  {
    assert DIMENSIONS[0] == Model && DIMENSIONS[1] == MainSkill && DIMENSIONS[2] == ToolCatalog;
    assert DIMENSIONS[3] == TurnStatus && DIMENSIONS[4] == CreatedDate;
  }

  lemma EachDimensionOnce(k: nat)
    requires k < |DIMENSIONS|
    ensures DIMENSIONS[k] !in DIMENSIONS[..k] && DIMENSIONS[..k + 1] == DIMENSIONS[..k] + [DIMENSIONS[k]]
  {
  }

  function AllTurns(workspaces: seq<seq<Turn>>): seq<Turn> {
    if workspaces == [] then [] else AllTurns(workspaces[..|workspaces| - 1]) + workspaces[|workspaces| - 1]
  }

  ghost predicate IsSlice(turns: seq<Turn>, d: Dimension, v: string, slice: Slice) {
    && slice.turnCount == |SliceOf(turns, d, v)|
    && IsRollup(Reports(SliceOf(turns, d, v)), slice.layers)
  }

  method RollupSlices(groups: map<string, seq<Turn>>, ghost turns: seq<Turn>, ghost d: Dimension)
      returns (slices: map<string, Slice>)
    requires SlicedSoFar(turns, d, groups)
    ensures forall v :: v in slices <==> SliceOf(turns, d, v) != []
    ensures forall v | v in slices :: IsSlice(turns, d, v, slices[v])
  {
    hide IsRollup, SliceOf;
    slices := map[];
    var pending := groups.Keys;
    while pending != {}
      invariant pending <= groups.Keys && slices.Keys == groups.Keys - pending
      invariant forall v | v in slices :: IsSlice(turns, d, v, slices[v])
      decreases |pending|
    {
      var v :| v in pending;
      var layers := Rollup(Reports(groups[v]));
      slices := slices[v := Slice(|groups[v]|, layers)];
      pending := pending - {v};
    }
  }

  /** For each dimension there is a slice for each value that some turn has, with the rollup of its turns. */
  method SliceRollups(workspaces: seq<seq<Turn>>) returns (r: map<Dimension, map<string, Slice>>)
    ensures forall d ::
              && d in r
              && (forall v :: v in r[d] <==> SliceOf(AllTurns(workspaces), d, v) != [])
              && (forall v | v in r[d] :: IsSlice(AllTurns(workspaces), d, v, r[d][v]))
  {
    hide IsSlice, SlicedSoFar, SliceOf;
    var turns := AllTurns(workspaces);
    var dimensions := GroupTurns(turns);
    r := map[];
    for k := 0 to |DIMENSIONS|
      invariant forall d :: d in r <==> d in DIMENSIONS[..k]
      invariant forall d | d in r :: forall v :: v in r[d] <==> SliceOf(turns, d, v) != []
      invariant forall d | d in r :: forall v | v in r[d] :: IsSlice(turns, d, v, r[d][v])
    {
      var d := DIMENSIONS[k];
      EachDimensionOnce(k);
      var slices := RollupSlices(dimensions[d], turns, d);
      r := r[d := slices];
    }
    forall d: Dimension ensures d in r { AllDimensions(d); }
  }
}
