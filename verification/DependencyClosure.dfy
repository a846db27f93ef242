/**
 The dependency worklist of the local candidate builder
 (`_copy_distribution_closure` in tools/build_local_candidate.py).

 A package may be revisited with more extras, the graph may be cyclic, and a marker is any predicate over
 one extra.  The worklist is shown to compute the least map from packages to extras that contains the roots
 and is closed under active requirements, or to stop at a package that every such map must contain but that
 is not installed.
 */
module DependencyClosure {
  import opened Wrappers

  type Name = string
  type Extra = string

  /** One line of a distribution's requirements; `marker` is its environment marker, if it has one. */
  datatype Requirement = Requirement(target: Name, extras: set<Extra>, marker: Option<Extra -> bool>)

  /** The installed distributions and what each of them requires. */
  type Index = map<Name, seq<Requirement>>

  type Extras = map<Name, set<Extra>>

  datatype Request = Request(name: Name, extras: set<Extra>)

  /** A requirement is active when its marker holds for no extra at all or for one of the requested extras. */
  ghost predicate Active(r: Requirement, extras: set<Extra>) {
    r.marker.Some? ==> exists e :: e in {""} + extras && r.marker.value(e)
  }

  /** Without a marker, or where the marker holds for no extra, a requirement is active whatever is asked for. */
  lemma ActiveWithout(r: Requirement, extras: set<Extra>)
    ensures r.marker.None? || r.marker.value("") ==> Active(r, extras)
    ensures Active(r, extras) && !Active(r, {}) ==> exists e :: e in extras && r.marker.value(e)
  {
    if r.marker.Some? && r.marker.value("") { assert "" in {""} + extras; }
  }

  /** Asking for more extras only makes more requirements active. */
  lemma ActiveGrows(r: Requirement, fewer: set<Extra>, extras: set<Extra>)
    requires fewer <= extras && Active(r, fewer)
    ensures Active(r, extras)
  {
  }

  ghost predicate Satisfied(m: Extras, target: Name, extras: set<Extra>) {
    target in m && extras <= m[target]
  }

  /** `m` contains every root and is closed under the requirements its extras make active. */
  ghost predicate Closed(index: Index, roots: seq<Name>, m: Extras) {
    && (forall n :: n in roots ==> n in m)
    && (forall n, r :: n in m && n in index && r in index[n] && Active(r, m[n])
          ==> Satisfied(m, r.target, r.extras))
  }

  ghost predicate Below(m: Extras, m': Extras) {
    forall n :: n in m ==> Satisfied(m', n, m[n])
  }

  ghost predicate IsLeastClosed(index: Index, roots: seq<Name>, m: Extras) {
    && Closed(index, roots, m)
    && (forall m' :: Closed(index, roots, m') ==> Below(m, m'))
  }

  ghost predicate Resolves(index: Index, roots: seq<Name>, m: Extras) {
    IsLeastClosed(index, roots, m) && m.Keys <= index.Keys
  }

  /** The packages in the order they were resolved, and the extras each was processed with. */
  datatype Resolution = Resolution(order: seq<Name>, extras: Extras)

  // ----- the finite universe that bounds the walk

  ghost function ExtrasOf(rs: seq<Requirement>): set<Extra> {
    set r, e | r in rs && e in r.extras :: e
  }

  /** Every extra any installed distribution can ask for. */
  ghost function Universe(index: Index): set<Extra> {
    set n, e | n in index && e in ExtrasOf(index[n]) :: e
  }

  /** (package, None) stands for the package itself, (package, Some(e)) for the package with one extra. */
  ghost function Slots(m: Extras): set<(Name, Option<Extra>)> {
    set n, o | n in m && o in {None} + WithExtra(m[n]) :: (n, o)
  }

  ghost function WithExtra(extras: set<Extra>): set<Option<Extra>> {
    set e | e in extras :: Some(e)
  }

  ghost function AllSlots(index: Index): set<(Name, Option<Extra>)> {
    Slots(map n | n in index :: Universe(index))
  }

  // ----- invariants of the walk

  /** Every requirement of every processed package is met already or still waiting. */
  ghost predicate Covered(pending: seq<Request>, m: Extras, target: Name, extras: set<Extra>) {
    Request(target, extras) in pending || Satisfied(m, target, extras)
  }

  ghost predicate RequirementsCovered(pending: seq<Request>, m: Extras, rs: seq<Requirement>, extras: set<Extra>) {
    forall r :: r in rs && Active(r, extras) ==> Covered(pending, m, r.target, r.extras)
  }

  ghost predicate Progress(index: Index, roots: seq<Name>, pending: seq<Request>, m: Extras) {
    && (forall n :: n in roots ==> Covered(pending, m, n, {}))
    && (forall n :: n in m ==> n in index && RequirementsCovered(pending, m, index[n], m[n]))
  }

  /** Nothing processed or waiting exceeds any closed map. */
  ghost predicate Needed(index: Index, roots: seq<Name>, pending: seq<Request>, m: Extras) {
    forall m' :: Closed(index, roots, m') ==>
      Below(m, m') && forall q :: q in pending ==> Satisfied(m', q.name, q.extras)
  }

  ghost predicate WithinUniverse(index: Index, pending: seq<Request>, m: Extras) {
    && (forall n :: n in m ==> n in index && m[n] <= Universe(index))
    && (forall q :: q in pending ==> q.extras <= Universe(index))
  }

  ghost predicate Enumerates(order: seq<Name>, keys: set<Name>) {
    && (forall n :: n in order <==> n in keys)
    && (forall i, j :: 0 <= i < j < |order| ==> order[i] != order[j])
  }

  /** All of the above: what holds whenever the walk looks at its worklist. */
  ghost predicate Walk(index: Index, roots: seq<Name>, pending: seq<Request>, m: Extras) {
    && WithinUniverse(index, pending, m)
    && Progress(index, roots, pending, m)
    && Needed(index, roots, pending, m)
  }

  method ResolveClosure(index: Index, roots: seq<Name>) returns (result: Result<Resolution, Name>)
    ensures result.Success? ==>
              && IsLeastClosed(index, roots, result.value.extras)
              && Enumerates(result.value.order, result.value.extras.Keys)
              && result.value.extras.Keys <= index.Keys
    ensures result.Failure? ==>
              result.error !in index && forall m :: Closed(index, roots, m) ==> result.error in m
    ensures result.Success? <==> exists m :: Resolves(index, roots, m)
  {
    hide Closed, Slots, AllSlots, Universe, Covered, RequirementsCovered, Progress, Needed, WithinUniverse;
    var pending: seq<Request> := seq(|roots|, i requires 0 <= i < |roots| => Request(roots[i], {}));
    var resolved: seq<Name> := [];
    var requestedExtras: Extras := map[];
    var processedExtras: Extras := map[];
    WalkStarts(index, roots, pending);
    while pending != []
      invariant requestedExtras == processedExtras
      invariant Enumerates(resolved, processedExtras.Keys)
      invariant Walk(index, roots, pending, processedExtras)
      decreases AllSlots(index) - Slots(processedExtras), |pending|
    {
      var request, rest := pending[|pending| - 1], pending[..|pending| - 1];
      assert pending == rest + [request];
      var name := request.name;
      var activeExtras := (if name in requestedExtras then requestedExtras[name] else {}) + request.extras;
      requestedExtras := requestedExtras[name := activeExtras];
      if name in processedExtras && activeExtras <= processedExtras[name] {
        assert activeExtras == processedExtras[name];
        WalkSkips(index, roots, rest, request, processedExtras);
        pending := rest;
        continue;
      }
      if name !in index {
        MissingIsNeeded(index, roots, rest, request, processedExtras);
        assert forall m :: Resolves(index, roots, m) ==> Closed(index, roots, m);
        return Failure(name);
      }
      if name !in processedExtras {
        resolved := resolved + [name];
      }
      SlotsLeft(index, rest, processedExtras, request);
      NeededAfter(index, roots, rest, processedExtras, request);
      ghost var was := processedExtras;
      processedExtras := processedExtras[name := activeExtras];
      pending := PushActive(index, roots, rest, name, processedExtras);
      ProgressAfter(index, roots, rest, was, request, pending, processedExtras);
    }
    WalkEnds(index, roots, processedExtras);
    assert Resolves(index, roots, processedExtras);
    return Success(Resolution(resolved, processedExtras));
  }

  /** The inner loop: every active requirement of `name` joins the worklist. */
  method PushActive(index: Index, roots: seq<Name>, rest: seq<Request>, name: Name, m: Extras)
    returns (pending: seq<Request>)
    requires name in m && name in index
    requires WithinUniverse(index, rest, m) && Needed(index, roots, rest, m)
    ensures rest <= pending
    ensures WithinUniverse(index, pending, m) && Needed(index, roots, pending, m)
    ensures RequirementsCovered(pending, m, index[name], m[name])
  {
    pending := rest;
    var i := 0;
    while i < |index[name]|
      invariant 0 <= i <= |index[name]| && rest <= pending
      invariant WithinUniverse(index, pending, m) && Needed(index, roots, pending, m)
      invariant RequirementsCovered(pending, m, index[name][..i], m[name])
    {
      var requirement := index[name][i];
      ghost var earlier := pending;
      if requirement.marker.None? || requirement.marker.value("") ||
         exists e :: e in m[name] && requirement.marker.value(e)
      {
        assert Active(requirement, m[name]);
        assert requirement in index[name];
        assert forall e :: e in requirement.extras ==> e in ExtrasOf(index[name]);
        pending := pending + [Request(requirement.target, requirement.extras)];
        NeededMore(index, roots, earlier, m, name, requirement);
      }
      assert index[name][..i + 1] == index[name][..i] + [requirement];
      i := i + 1;
    }
    assert index[name][..i] == index[name];
  }

  lemma WalkStarts(index: Index, roots: seq<Name>, pending: seq<Request>)
    requires |pending| == |roots| && forall i :: 0 <= i < |roots| ==> pending[i] == Request(roots[i], {})
    ensures Walk(index, roots, pending, map[])
  {
    forall n | n in roots ensures Request(n, {}) in pending {
      var i :| 0 <= i < |roots| && roots[i] == n;
      assert pending[i] == Request(n, {});
    }
  }

  lemma WalkSkips(index: Index, roots: seq<Name>, rest: seq<Request>, q: Request, m: Extras)
    requires Walk(index, roots, rest + [q], m) && Satisfied(m, q.name, q.extras)
    ensures Walk(index, roots, rest, m)
  {
    NeededAfter(index, roots, rest, m, q);
    assert m[q.name] + q.extras == m[q.name];
    assert m == m[q.name := m[q.name]];
    assert q in rest + [q];
    ProgressAfter(index, roots, rest, m, q, rest, m);
  }

  lemma MissingIsNeeded(index: Index, roots: seq<Name>, rest: seq<Request>, q: Request, m: Extras)
    requires Needed(index, roots, rest + [q], m)
    ensures forall c :: Closed(index, roots, c) ==> q.name in c
  {
    assert q in rest + [q];
  }

  lemma WalkEnds(index: Index, roots: seq<Name>, m: Extras)
    requires Walk(index, roots, [], m)
    ensures IsLeastClosed(index, roots, m) && m.Keys <= index.Keys
  {
    forall n, r | n in m && n in index && r in index[n] && Active(r, m[n])
      ensures Satisfied(m, r.target, r.extras)
    {
      assert Covered([], m, r.target, r.extras);
    }
    forall n | n in roots ensures n in m { assert Covered([], m, n, {}); }
  }

  lemma SlotsMonotone(m: Extras, m': Extras)
    requires Below(m, m')
    ensures Slots(m) <= Slots(m')
  {
    forall n, o | n in m && o in {None} + WithExtra(m[n]) ensures (n, o) in Slots(m') {
      assert Satisfied(m', n, m[n]);
    }
  }

  lemma SlotsGrow(index: Index, m: Extras, name: Name, extras: set<Extra>)
    requires name in m ==> m[name] <= extras && m[name] != extras
    requires m.Keys <= index.Keys && name in index && extras <= Universe(index)
    requires forall n :: n in m ==> m[n] <= Universe(index)
    ensures AllSlots(index) - Slots(m[name := extras]) < AllSlots(index) - Slots(m)
  {
    var grown := m[name := extras];
    SlotsMonotone(m, grown);
    SlotsMonotone(grown, map n | n in index :: Universe(index));
    if name in m {
      var e :| e in extras && e !in m[name];
      assert Some(e) in WithExtra(extras) && Some(e) !in WithExtra(m[name]);
      assert (name, Some(e)) in Slots(grown) && (name, Some(e)) !in Slots(m);
    } else {
      assert (name, None) in Slots(grown) && (name, None) !in Slots(m);
    }
  }

  /** Each revisit that brings something uses up a slot of the finite universe. */
  lemma SlotsLeft(index: Index, rest: seq<Request>, m: Extras, q: Request)
    requires WithinUniverse(index, rest + [q], m) && q.name in index && !Satisfied(m, q.name, q.extras)
    ensures var grown := m[q.name := (if q.name in m then m[q.name] else {}) + q.extras];
            && AllSlots(index) - Slots(grown) < AllSlots(index) - Slots(m)
            && WithinUniverse(index, rest, grown)
  {
    assert q in rest + [q];
    assert forall p :: p in rest ==> p in rest + [q];
    SlotsGrow(index, m, q.name, (if q.name in m then m[q.name] else {}) + q.extras);
  }

  lemma NeededAfter(index: Index, roots: seq<Name>, rest: seq<Request>, m: Extras, q: Request)
    requires Needed(index, roots, rest + [q], m)
    ensures Needed(index, roots, rest, m[q.name := (if q.name in m then m[q.name] else {}) + q.extras])
  {
    var m' := m[q.name := (if q.name in m then m[q.name] else {}) + q.extras];
    forall c | Closed(index, roots, c)
      ensures Below(m', c) && forall p :: p in rest ==> Satisfied(c, p.name, p.extras)
    {
      assert q in rest + [q];
      assert forall p :: p in rest ==> p in rest + [q];
    }
  }

  lemma NeededMore(index: Index, roots: seq<Name>, pending: seq<Request>, m: Extras, name: Name, r: Requirement)
    requires Needed(index, roots, pending, m)
    requires name in m && name in index && r in index[name] && Active(r, m[name])
    ensures Needed(index, roots, pending + [Request(r.target, r.extras)], m)
  {
    forall c | Closed(index, roots, c)
      ensures Satisfied(c, r.target, r.extras)
    {
      assert Satisfied(c, name, m[name]);
      assert Active(r, c[name]);
    }
  }

  lemma ProgressAfter(index: Index, roots: seq<Name>, rest: seq<Request>, m: Extras, q: Request,
                      pending: seq<Request>, m': Extras)
    requires Progress(index, roots, rest + [q], m) && rest <= pending
    requires m' == m[q.name := (if q.name in m then m[q.name] else {}) + q.extras]
    requires q.name in index && RequirementsCovered(pending, m', index[q.name], m'[q.name])
    ensures Progress(index, roots, pending, m')
  {
    forall target, extras | Covered(rest + [q], m, target, extras) ensures Covered(pending, m', target, extras) {
      if Request(target, extras) in rest + [q] && Request(target, extras) != q {
        assert Request(target, extras) in rest;
      }
    }
  }

  // ----- what the result means

  /** Two least closed maps are equal, so the answer is a property of the graph alone. */
  lemma LeastClosedUnique(index: Index, roots: seq<Name>, m: Extras, m': Extras)
    requires IsLeastClosed(index, roots, m) && IsLeastClosed(index, roots, m')
    ensures m == m'
  {
    assert Below(m, m') && Below(m', m);
    assert m.Keys == m'.Keys;
    forall n | n in m ensures m[n] == m'[n] {
      assert Satisfied(m', n, m[n]) && Satisfied(m, n, m'[n]);
    }
  }

  ghost predicate SameGraph(index: Index, roots: seq<Name>, index': Index, roots': seq<Name>) {
    && (forall n :: n in roots <==> n in roots')
    && index.Keys == index'.Keys
    && (forall n, r :: n in index ==> (r in index[n] <==> r in index'[n]))
  }

  lemma ClosedIgnoresOrder(index: Index, roots: seq<Name>, index': Index, roots': seq<Name>, m: Extras)
    requires SameGraph(index, roots, index', roots') && Closed(index, roots, m)
    ensures Closed(index', roots', m)
  {
  }

  lemma SameClosedMaps(index: Index, roots: seq<Name>, index': Index, roots': seq<Name>)
    requires SameGraph(index, roots, index', roots')
    ensures forall c :: Closed(index, roots, c) <==> Closed(index', roots', c)
  {
    forall c ensures Closed(index, roots, c) <==> Closed(index', roots', c) {
      if Closed(index, roots, c) { ClosedIgnoresOrder(index, roots, index', roots', c); }
      if Closed(index', roots', c) { ClosedIgnoresOrder(index', roots', index, roots, c); }
    }
  }

  /**
   Reordering or repeating roots and requirements changes neither the resolved extras nor success: what resolves
   one order resolves the other.
   */
  lemma SuccessIgnoresOrder(index: Index, roots: seq<Name>, index': Index, roots': seq<Name>)
    requires SameGraph(index, roots, index', roots')
    ensures forall m :: Resolves(index, roots, m) <==> Resolves(index', roots', m)
  {
    SameClosedMaps(index, roots, index', roots');
    hide Closed;
    forall m ensures Resolves(index, roots, m) <==> Resolves(index', roots', m) {
    }
  }

  /** The resolved extras of two orders are the same. */
  lemma OrderIndependent(index: Index, roots: seq<Name>, m: Extras, index': Index, roots': seq<Name>, m': Extras)
    requires SameGraph(index, roots, index', roots')
    requires IsLeastClosed(index, roots, m) && IsLeastClosed(index', roots', m')
    ensures m == m' && (Resolves(index, roots, m) <==> Resolves(index', roots', m'))
  {
    SameClosedMaps(index, roots, index', roots');
    LeastClosedUnique(index, roots, m, m');
  }

  // ----- reachability: the same answer without a fixed point

  ghost predicate Demands(index: Index, q: Request, next: Request) {
    && q.name in index
    && exists r :: r in index[q.name] && Active(r, q.extras) && next == Request(r.target, r.extras)
  }

  /** `path` starts at a root and each request is demanded by the one before it, taken on its own. */
  ghost predicate Path(index: Index, roots: seq<Name>, path: seq<Request>) {
    && path != []
    && path[0].name in roots && path[0].extras == {}
    && forall i :: 0 < i < |path| ==> Demands(index, path[i - 1], path[i])
  }

  ghost predicate Reached(index: Index, roots: seq<Name>, name: Name) {
    exists path: seq<Request> :: Path(index, roots, path) && path[|path| - 1].name == name
  }

  ghost predicate ReachedWith(index: Index, roots: seq<Name>, name: Name, e: Extra) {
    exists path: seq<Request> ::
      Path(index, roots, path) && path[|path| - 1].name == name && e in path[|path| - 1].extras
  }

  /** The end of a path of demands is in every closed map. */
  lemma {:induction false} PathIsResolved(index: Index, roots: seq<Name>, m: Extras, path: seq<Request>)
    requires Closed(index, roots, m) && Path(index, roots, path)
    ensures Satisfied(m, path[|path| - 1].name, path[|path| - 1].extras)
    decreases |path|
  {
    if |path| > 1 {
      PathIsResolved(index, roots, m, path[..|path| - 1]);
      var q := path[|path| - 2];
      assert Demands(index, q, path[|path| - 1]);
      var r :| r in index[q.name] && Active(r, q.extras) && path[|path| - 1] == Request(r.target, r.extras);
      assert Active(r, m[q.name]);
    }
  }

  /** The part of `m` that paths reach. */
  ghost function ReachedPart(index: Index, roots: seq<Name>, m: Extras): Extras {
    map n | n in m && Reached(index, roots, n) :: set e | e in m[n] && ReachedWith(index, roots, n, e)
  }

  lemma DemandExtendsPath(index: Index, roots: seq<Name>, path: seq<Request>, r: Requirement)
    requires Path(index, roots, path)
    requires var q := path[|path| - 1]; q.name in index && r in index[q.name] && Active(r, q.extras)
    ensures Reached(index, roots, r.target)
    ensures forall e :: e in r.extras ==> ReachedWith(index, roots, r.target, e)
  {
    var longer := path + [Request(r.target, r.extras)];
    forall i | 0 < i < |longer| ensures Demands(index, longer[i - 1], longer[i]) {
      if i < |path| { assert Demands(index, path[i - 1], path[i]); }
    }
    assert Path(index, roots, longer);
  }

  lemma ReachedPartClosed(index: Index, roots: seq<Name>, m: Extras)
    requires Closed(index, roots, m)
    ensures Closed(index, roots, ReachedPart(index, roots, m))
  {
    var part := ReachedPart(index, roots, m);
    forall n | n in roots ensures n in part {
      assert Path(index, roots, [Request(n, {})]);
    }
    forall n, r | n in part && n in index && r in index[n] && Active(r, part[n])
      ensures Satisfied(part, r.target, r.extras)
    {
      assert Active(r, m[n]);
      ActiveExtendsSomePath(index, roots, m, n, r);
    }
  }

  /** A marker reads one extra at a time, so one path that brought that extra is enough. */
  lemma ActiveExtendsSomePath(index: Index, roots: seq<Name>, m: Extras, n: Name, r: Requirement)
    requires n in ReachedPart(index, roots, m) && n in index && r in index[n]
    requires Active(r, ReachedPart(index, roots, m)[n])
    ensures Reached(index, roots, r.target)
    ensures forall e :: e in r.extras ==> ReachedWith(index, roots, r.target, e)
  {
    if r.marker.None? || r.marker.value("") {
      var path: seq<Request> :| Path(index, roots, path) && path[|path| - 1].name == n;
      assert "" in {""} + path[|path| - 1].extras;
      DemandExtendsPath(index, roots, path, r);
    } else {
      var e :| e in ReachedPart(index, roots, m)[n] && r.marker.value(e);
      var path: seq<Request> :|
        Path(index, roots, path) && path[|path| - 1].name == n && e in path[|path| - 1].extras;
      assert e in {""} + path[|path| - 1].extras;
      DemandExtendsPath(index, roots, path, r);
    }
  }

  /**
   Accumulating extras package by package finds nothing that single chains of requirements do not:
   a package is resolved exactly when some chain reaches it, with exactly the extras the chains ask of it.
   */
  lemma ResolvedIffReached(index: Index, roots: seq<Name>, m: Extras)
    requires IsLeastClosed(index, roots, m)
    ensures forall n :: n in m <==> Reached(index, roots, n)
    ensures forall n, e :: n in m ==> (e in m[n] <==> ReachedWith(index, roots, n, e))
  {
    ReachedPartClosed(index, roots, m);
    var part := ReachedPart(index, roots, m);
    assert Below(m, part);
    forall n | n in m ensures Reached(index, roots, n) && forall e :: e in m[n] ==> ReachedWith(index, roots, n, e) {
      assert Satisfied(part, n, m[n]);
    }
    forall path: seq<Request> | Path(index, roots, path)
      ensures Satisfied(m, path[|path| - 1].name, path[|path| - 1].extras)
    {
      PathIsResolved(index, roots, m, path);
    }
  }
}
