/**
 Greedy matching of predicted to expected memories
 (src/stata_research_agent/application/agent_benchmarks.py, the inner loop of `evaluate_memory_predictions`).
 Contents and markers are given in normalised form.
 */
module FirstFitMatching {
  import opened Wrappers
  import opened Sequences

  /** `Malformed` is an array element that is not an object. */
  datatype Prediction =
    | Malformed
    | Predicted(content: string, kind: string, lifecycle: string, source: Option<string>)

  datatype Expected = Expected(kind: string, markers: seq<string>, lifecycle: string, source: Option<string>)

  predicate Fits(p: Prediction, e: Expected) {
    p.Predicted? && p.kind == e.kind && forall k | 0 <= k < |e.markers| :: Occurs(e.markers[k], p.content)
  }

  /** For each prediction the index of the expected memory it was matched to. */
  type Assignment = seq<Option<nat>>

  function Taken(a: Assignment): set<nat> {
    if a == [] then {} else Taken(a[..|a| - 1]) + if a[|a| - 1].Some? then {a[|a| - 1].value} else {}
  }

  lemma {:induction false} TakenIff(a: Assignment, i: nat)
    ensures i in Taken(a) <==> exists k | 0 <= k < |a| :: a[k] == Some(i)
    decreases |a|
  {
    if a != [] {
      var init := a[..|a| - 1];
      TakenIff(init, i);
      if k :| 0 <= k < |init| && init[k] == Some(i) { assert a[k] == Some(i); }
      if k :| 0 <= k < |a| && a[k] == Some(i) && k < |init| { assert init[k] == Some(i); }
    }
  }

  /** The positions of the matched predictions. */
  function AssignedIn(a: Assignment): set<nat> {
    if a == [] then {} else AssignedIn(a[..|a| - 1]) + if a[|a| - 1].Some? then {|a| - 1} else {}
  }

  lemma {:induction false} AssignedIff(a: Assignment, k: nat)
    ensures k in AssignedIn(a) <==> k < |a| && a[k].Some?
    decreases |a|
  {
    if a != [] { AssignedIff(a[..|a| - 1], k); }
  }

  function Indices(n: nat): set<nat> {
    if n == 0 then {} else Indices(n - 1) + {n - 1}
  }

  lemma {:induction false} IndicesCount(n: nat)
    ensures |Indices(n)| == n && forall i: nat :: i in Indices(n) <==> i < n
  {
    if n > 0 { IndicesCount(n - 1); }
  }

  /** The first expected memory from `from` on that is still free and fits. */
  function FirstFree(expected: seq<Expected>, p: Prediction, taken: set<nat>, from: nat): (choice: Option<nat>)
    requires from <= |expected|
    ensures choice.Some? ==>
              && from <= choice.value < |expected| && choice.value !in taken && Fits(p, expected[choice.value])
              && (forall i | from <= i < choice.value :: i in taken || !Fits(p, expected[i]))
    ensures choice.None? ==> forall i | from <= i < |expected| :: i in taken || !Fits(p, expected[i])
    decreases |expected| - from
  {
    if from == |expected| then None
    else if from !in taken && Fits(p, expected[from]) then Some(from)
    else FirstFree(expected, p, taken, from + 1)
  }

  function FirstFit(expected: seq<Expected>, predicted: seq<Prediction>): (a: Assignment)
    ensures |a| == |predicted|
  {
    if predicted == [] then []
    else
      var earlier := FirstFit(expected, predicted[..|predicted| - 1]);
      earlier + [FirstFree(expected, predicted[|predicted| - 1], Taken(earlier), 0)]
  }

  function Matched(a: Assignment): nat {
    if a == [] then 0 else Matched(a[..|a| - 1]) + if a[|a| - 1].Some? then 1 else 0
  }

  // ----- what first fit guarantees

  /** Every match fits, and no expected memory is matched twice. */
  ghost predicate Sound(expected: seq<Expected>, predicted: seq<Prediction>, a: Assignment) {
    && |a| == |predicted|
    && (forall k | 0 <= k < |a| && a[k].Some? :: a[k].value < |expected| && Fits(predicted[k], expected[a[k].value]))
    && (forall j, k | 0 <= j < k < |a| && a[j].Some? && a[k].Some? :: a[j] != a[k])
  }

  /** An unmatched prediction fits only memories that are matched already. */
  ghost predicate Maximal(expected: seq<Expected>, predicted: seq<Prediction>, a: Assignment) {
    && |a| == |predicted|
    && (forall k, i | 0 <= k < |a| && a[k].None? && 0 <= i < |expected| && Fits(predicted[k], expected[i]) ::
          exists j | 0 <= j < |a| :: a[j] == Some(i))
  }

  lemma {:induction false} FirstFitIsSoundAndMaximal(expected: seq<Expected>, predicted: seq<Prediction>)
    ensures Sound(expected, predicted, FirstFit(expected, predicted))
    ensures Maximal(expected, predicted, FirstFit(expected, predicted))
    decreases |predicted|
  {
    if predicted != [] {
      hide Fits, FirstFree, Taken;
      var init, last := predicted[..|predicted| - 1], predicted[|predicted| - 1];
      FirstFitIsSoundAndMaximal(expected, init);
      OneMoreMatch(expected, init, FirstFit(expected, init), last);
      assert predicted == init + [last];
    }
  }

  lemma OneMoreMatch(expected: seq<Expected>, predicted: seq<Prediction>, a: Assignment, p: Prediction)
    requires Sound(expected, predicted, a) && Maximal(expected, predicted, a)
    ensures var a' := a + [FirstFree(expected, p, Taken(a), 0)];
            Sound(expected, predicted + [p], a') && Maximal(expected, predicted + [p], a')
  {
    hide Fits, FirstFree;
    var choice := FirstFree(expected, p, Taken(a), 0);
    var all, a' := predicted + [p], a + [choice];
    assert forall i :: Some(i) in a ==> Some(i) in a';
    assert forall k | 0 <= k < |a| :: a'[k] == a[k] && all[k] == predicted[k];
    forall i: nat ensures i in Taken(a) <==> exists k | 0 <= k < |a| :: a[k] == Some(i) {
      TakenIff(a, i);
    }
    hide Taken;
  }

  /** A match depends only on what came before it. */
  lemma {:induction false} EarlierMatchesStand(expected: seq<Expected>, predicted: seq<Prediction>, n: nat)
    requires n <= |predicted|
    ensures FirstFit(expected, predicted[..n]) == FirstFit(expected, predicted)[..n]
    decreases |predicted|
  {
    if n == |predicted| {
      assert predicted[..n] == predicted;
    } else {
      var init := predicted[..|predicted| - 1];
      EarlierMatchesStand(expected, init, n);
      assert init[..n] == predicted[..n];
    }
  }

  lemma {:induction false} MatchedIsTaken(a: Assignment)
    requires forall j, k | 0 <= j < k < |a| && a[j].Some? && a[k].Some? :: a[j] != a[k]
    ensures Matched(a) == |Taken(a)| == |AssignedIn(a)|
    decreases |a|
  {
    if a != [] {
      var init, last := a[..|a| - 1], a[|a| - 1];
      MatchedIsTaken(init);
      if last.Some? {
        TakenIff(init, last.value);
        AssignedIff(init, |a| - 1);
      }
    }
  }

  // ----- against every other matching

  /** Any way of pairing predictions with expected memories that fit, one to one. */
  ghost predicate IsMatching(expected: seq<Expected>, predicted: seq<Prediction>, m: map<nat, nat>) {
    && (forall k | k in m :: k < |predicted| && m[k] < |expected| && Fits(predicted[k], expected[m[k]]))
    && (forall j, k | j in m && k in m && j != k :: m[j] != m[k])
  }

  lemma {:induction false} InjectiveImage(keys: set<nat>, m: map<nat, nat>, image: set<nat>)
    requires forall k | k in keys :: k in m && m[k] in image
    requires forall j, k | j in keys && k in keys && j != k :: m[j] != m[k]
    ensures |keys| <= |image|
    decreases |keys|
  {
    if keys != {} {
      var k :| k in keys;
      InjectiveImage(keys - {k}, m, image - {m[k]});
    }
  }

  lemma SubsetIsSmaller(a: set<nat>, b: set<nat>)
    requires a <= b
    ensures |a| <= |b|
  {
    if a != {} {
      var k :| k in a;
      SubsetIsSmaller(a - {k}, b - {k});
    }
  }

  /** No matching has more than twice as many pairs as first fit finds. */
  lemma FirstFitIsHalfOptimal(expected: seq<Expected>, predicted: seq<Prediction>, m: map<nat, nat>)
    requires IsMatching(expected, predicted, m)
    ensures |m| <= 2 * Matched(FirstFit(expected, predicted))
  {
    hide Fits, FirstFit, Matched;
    var a := FirstFit(expected, predicted);
    FirstFitIsSoundAndMaximal(expected, predicted);
    MatchedIsTaken(a);
    var both, blocked := m.Keys * AssignedIn(a), m.Keys - AssignedIn(a);
    assert m.Keys == both + blocked && both !! blocked;
    SubsetIsSmaller(both, AssignedIn(a));
    forall k | k in blocked ensures m[k] in Taken(a) {
      AssignedIff(a, k);
      TakenIff(a, m[k]);
    }
    InjectiveImage(blocked, m, Taken(a));
  }

  /** First fit itself is such a matching. */
  lemma FirstFitIsMatching(expected: seq<Expected>, predicted: seq<Prediction>)
    ensures var a := FirstFit(expected, predicted);
            exists m :: IsMatching(expected, predicted, m) && |m| == Matched(a)
  {
    var a := FirstFit(expected, predicted);
    FirstFitIsSoundAndMaximal(expected, predicted);
    MatchedIsTaken(a);
    hide Fits, FirstFit, Matched;
    forall k: nat ensures k in AssignedIn(a) <==> k < |a| && a[k].Some? { AssignedIff(a, k); }
    PairsMatch(expected, predicted, a, AssignedIn(a));
  }

  lemma PairsMatch(expected: seq<Expected>, predicted: seq<Prediction>, a: Assignment, positions: set<nat>)
    requires Sound(expected, predicted, a) && forall k: nat :: k in positions <==> k < |a| && a[k].Some?
    ensures exists m :: IsMatching(expected, predicted, m) && |m| == |positions|
  {
    hide Fits;
    var m := map k: nat | k in positions :: a[k].value;
    assert m.Keys == positions;
    assert IsMatching(expected, predicted, m);
  }

  lemma MatchedBound(expected: seq<Expected>, predicted: seq<Prediction>)
    ensures Matched(FirstFit(expected, predicted)) <= |predicted|
    ensures Matched(FirstFit(expected, predicted)) <= |expected|
  {
    var a := FirstFit(expected, predicted);
    FirstFitIsSoundAndMaximal(expected, predicted);
    MatchedIsTaken(a);
    IndicesCount(|expected|);
    IndicesCount(|predicted|);
    forall i: nat | i in Taken(a) ensures i in Indices(|expected|) { TakenIff(a, i); }
    forall k: nat | k in AssignedIn(a) ensures k in Indices(|predicted|) { AssignedIff(a, k); }
    SubsetIsSmaller(Taken(a), Indices(|expected|));
    SubsetIsSmaller(AssignedIn(a), Indices(|predicted|));
  }

  /** Half is as bad as it gets, and it does get that bad: the order of the expected memories matters. */
  lemma HalfIsReached(general: Expected, special: Expected, both: Prediction, one: Prediction)
    requires Fits(both, general) && Fits(both, special) && Fits(one, general) && !Fits(one, special)
    ensures Matched(FirstFit([general, special], [both, one])) == 1
    ensures Matched(FirstFit([special, general], [both, one])) == 2
    ensures IsMatching([general, special], [both, one], map[0 := 1, 1 := 0])
  {
    hide Fits;
    TwoPredictions([general, special], both, one);
    TwoPredictions([special, general], both, one);
  }

  lemma TwoPredictions(expected: seq<Expected>, first: Prediction, second: Prediction)
    ensures var x := FirstFree(expected, first, {}, 0);
            var y := FirstFree(expected, second, if x.Some? then {x.value} else {}, 0);
            && FirstFit(expected, [first, second]) == [x, y]
            && Matched([x, y]) == (if x.Some? then 1 else 0) + (if y.Some? then 1 else 0)
  {
    hide FirstFree;
    var x := FirstFree(expected, first, {}, 0);
    assert [first, second][..1] == [first] && [first][..0] == [];
    assert FirstFit(expected, [first]) == [x];
    var y := FirstFree(expected, second, Taken([x]), 0);
    assert Taken([x]) == if x.Some? then {x.value} else {};
    var two, one: Assignment := [x, y], [x];
    assert two[..1] == one && |one[..0]| == 0;
    assert Matched(one) == if x.Some? then 1 else 0;
  }
}
