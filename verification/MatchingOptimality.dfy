/**
 When first fit finds as many pairs as any matching could: exactly when no alternating path leads from an unmatched
 prediction to an unmatched memory.
 */
module MatchingOptimality {
  import opened Wrappers
  import opened Sequences
  import opened FirstFitMatching

  ghost predicate IsMaximum(expected: seq<Expected>, predicted: seq<Prediction>, n: nat) {
    forall m :: IsMatching(expected, predicted, m) ==> |m| <= n
  }

  predicate IsFree(a: Assignment, i: nat) {
    forall k | 0 <= k < |a| :: a[k] != Some(i)
  }

  /**
   A path of predictions: the first is unmatched, and each other one holds a memory that the one before it fits.
   */
  predicate Alternates(expected: seq<Expected>, predicted: seq<Prediction>, a: Assignment, path: seq<nat>) {
    && |a| == |predicted| && path != []
    && (forall j | 0 <= j < |path| :: path[j] < |a|)
    && a[path[0]].None?
    && (forall j | 0 <= j < |path| - 1 :: Hands(expected, predicted, a, path[j], path[j + 1]))
  }

  predicate Hands(expected: seq<Expected>, predicted: seq<Prediction>, a: Assignment, from: nat, to: nat)
    requires from < |a| && to < |a| && |a| == |predicted|
  {
    a[to].Some? && a[to].value < |expected| && Fits(predicted[from], expected[a[to].value])
  }

  /** The path ends at a prediction that fits an unmatched memory. */
  predicate Augments(expected: seq<Expected>, predicted: seq<Prediction>, a: Assignment, path: seq<nat>, i: nat) {
    && Alternates(expected, predicted, a, path)
    && i < |expected| && IsFree(a, i) && Fits(predicted[path[|path| - 1]], expected[i])
  }

  ghost predicate Augmentable(expected: seq<Expected>, predicted: seq<Prediction>, a: Assignment) {
    exists path, i :: Augments(expected, predicted, a, path, i)
  }

  // ----- a path gives a larger matching

  lemma Reassign(expected: seq<Expected>, predicted: seq<Prediction>, a: Assignment, k: nat, i: nat)
    requires Sound(expected, predicted, a) && k < |a| && i < |expected| && IsFree(a, i) &&
             Fits(predicted[k], expected[i])
    ensures var b := a[k := Some(i)];
            Sound(expected, predicted, b) && Matched(b) == Matched(a) + if a[k].None? then 1 else 0
  {
    hide Fits, Matched;
    ReassignedIsSound(expected, predicted, a, k, i);
    MatchedIsTaken(a);
    MatchedIsTaken(a[k := Some(i)]);
    hide Sound;
    ReassignedPositions(a, k, i);
  }

  lemma ReassignedIsSound(expected: seq<Expected>, predicted: seq<Prediction>, a: Assignment, k: nat, i: nat)
    requires Sound(expected, predicted, a) && k < |a| && i < |expected| && IsFree(a, i) &&
             Fits(predicted[k], expected[i])
    ensures Sound(expected, predicted, a[k := Some(i)])
  {
    hide Fits;
    var b := a[k := Some(i)];
    assert forall j | 0 <= j < |b| && j != k :: b[j] == a[j] && b[j] != Some(i);
  }

  lemma ReassignedPositions(a: Assignment, k: nat, i: nat)
    requires k < |a|
    ensures |AssignedIn(a[k := Some(i)])| == |AssignedIn(a)| + if a[k].None? then 1 else 0
  {
    var b := a[k := Some(i)];
    forall n: nat ensures n in AssignedIn(b) <==> n in AssignedIn(a) || n == k {
      AssignedIff(a, n);
      AssignedIff(b, n);
    }
    AssignedIff(a, k);
    hide AssignedIn;
    assert AssignedIn(b) == AssignedIn(a) + {k};
    assert a[k].Some? ==> AssignedIn(b) == AssignedIn(a);
  }

  /** Handing the memories on along a path matches one prediction more; a path that returns is cut short first. */
  lemma {:induction false} Augment(
    expected: seq<Expected>, predicted: seq<Prediction>, a: Assignment, path: seq<nat>, i: nat) returns (b: Assignment)
    requires Sound(expected, predicted, a) && Augments(expected, predicted, a, path, i)
    ensures Sound(expected, predicted, b) && Matched(b) == Matched(a) + 1
    decreases |path|
  {
    hide Fits, Matched, Sound;
    var n := |path| - 1;
    var last := path[n];
    if m :| 0 <= m < n && path[m] == last {
      Shortened(expected, predicted, a, path, m, i);
      b := Augment(expected, predicted, a, path[..m + 1], i);
    } else {
      Reassign(expected, predicted, a, last, i);
      b := a[last := Some(i)];
      if n > 0 {
        HandedBack(expected, predicted, a, path, i);
        b := Augment(expected, predicted, b, path[..n], a[last].value);
      }
    }
  }

  lemma Shortened(expected: seq<Expected>, predicted: seq<Prediction>, a: Assignment, path: seq<nat>, m: nat, i: nat)
    requires Augments(expected, predicted, a, path, i) && m < |path| && path[m] == path[|path| - 1]
    ensures Augments(expected, predicted, a, path[..m + 1], i)
  {
    hide Hands;
    var shorter := path[..m + 1];
    assert forall j | 0 <= j <= m :: shorter[j] == path[j];
    forall j | 0 <= j < |shorter| - 1 ensures Hands(expected, predicted, a, shorter[j], shorter[j + 1]) {
      assert Hands(expected, predicted, a, path[j], path[j + 1]);
    }
  }

  /** The last prediction of a path takes the free memory, and the memory it held is free for the one before it. */
  lemma HandedBack(expected: seq<Expected>, predicted: seq<Prediction>, a: Assignment, path: seq<nat>, i: nat)
    requires Sound(expected, predicted, a) && Augments(expected, predicted, a, path, i) && |path| > 1
    requires forall m | 0 <= m < |path| - 1 :: path[m] != path[|path| - 1]
    ensures var n := |path| - 1;
            a[path[n]].Some? && Augments(expected, predicted, a[path[n] := Some(i)], path[..n], a[path[n]].value)
  {
    hide Fits;
    var n := |path| - 1;
    var last, front := path[n], path[..n];
    assert Hands(expected, predicted, a, path[n - 1], path[n]);
    var held := a[last].value;
    var b := a[last := Some(i)];
    assert forall j | 0 <= j < n :: front[j] == path[j] && b[front[j]] == a[path[j]];
    forall j | 0 <= j < n - 1 ensures Hands(expected, predicted, b, front[j], front[j + 1]) {
      assert Hands(expected, predicted, a, path[j], path[j + 1]);
    }
    assert a[last] == Some(held) && i != held;
    forall k | 0 <= k < |b| ensures b[k] != Some(held) {
      if k != last { assert b[k] == a[k]; }
    }
  }

  /** An assignment read as a matching. */
  lemma SoundIsMatching(expected: seq<Expected>, predicted: seq<Prediction>, a: Assignment)
    requires Sound(expected, predicted, a)
    ensures exists m :: IsMatching(expected, predicted, m) && |m| == Matched(a)
  {
    hide Fits;
    MatchedIsTaken(a);
    forall k: nat ensures k in AssignedIn(a) <==> k < |a| && a[k].Some? { AssignedIff(a, k); }
    PairsMatch(expected, predicted, a, AssignedIn(a));
  }

  // ----- without a path nothing is larger

  ghost predicate ReachedBy(expected: seq<Expected>, predicted: seq<Prediction>, a: Assignment, k: nat) {
    exists path :: Alternates(expected, predicted, a, path) && path[|path| - 1] == k
  }

  lemma UnmatchedIsReached(expected: seq<Expected>, predicted: seq<Prediction>, a: Assignment, k: nat)
    requires |a| == |predicted| && k < |a| && a[k].None?
    ensures ReachedBy(expected, predicted, a, k)
  {
    assert Alternates(expected, predicted, a, [k]) && [k][|[k]| - 1] == k;
  }

  /** What a reached prediction fits is held by a reached prediction. */
  lemma FittedIsHeld(expected: seq<Expected>, predicted: seq<Prediction>, a: Assignment, k: nat, i: nat)
    returns (holder: nat)
    requires |a| == |predicted| && !Augmentable(expected, predicted, a)
    requires ReachedBy(expected, predicted, a, k) && i < |expected| && k < |a| && Fits(predicted[k], expected[i])
    ensures holder < |a| && a[holder] == Some(i) && ReachedBy(expected, predicted, a, holder)
  {
    hide Fits;
    var path :| Alternates(expected, predicted, a, path) && path[|path| - 1] == k;
    assert !Augments(expected, predicted, a, path, i);
    holder :| 0 <= holder < |a| && a[holder] == Some(i);
    var longer := path + [holder];
    forall j | 0 <= j < |longer| - 1 ensures Hands(expected, predicted, a, longer[j], longer[j + 1]) {
      if j < |path| - 1 { assert Hands(expected, predicted, a, path[j], path[j + 1]); }
    }
    assert Alternates(expected, predicted, a, longer) && longer[|longer| - 1] == holder;
  }

  /**
   The reached predictions' memories and the other matched predictions touch every pair of every matching, and there
   are only as many of them as pairs in the assignment.
   */
  lemma NothingIsLarger(expected: seq<Expected>, predicted: seq<Prediction>, a: Assignment, m: map<nat, nat>)
    requires Sound(expected, predicted, a) && !Augmentable(expected, predicted, a) && IsMatching(expected, predicted, m)
    ensures |m| <= Matched(a)
  {
    hide Fits, Matched, ReachedBy, Augmentable;
    MatchedIsTaken(a);
    var reached := set k | k in m.Keys + AssignedIn(a) && ReachedBy(expected, predicted, a, k);
    SplitCount(m.Keys, reached);
    SplitCount(AssignedIn(a), reached);
    forall k | k in m.Keys - reached ensures k in AssignedIn(a) - reached {
      AssignedIff(a, k);
      if a[k].None? { UnmatchedIsReached(expected, predicted, a, k); }
    }
    hide Sound, IsMatching, AssignedIn;
    SubsetIsSmaller(m.Keys - reached, AssignedIn(a) - reached);
    InsideIsHeld(expected, predicted, a, m, m.Keys * reached, reached);
  }

  lemma SplitCount(whole: set<nat>, part: set<nat>)
    ensures |whole| == |whole * part| + |whole - part|
  {
    assert whole == (whole * part) + (whole - part);
  }

  lemma InsideIsHeld(
    expected: seq<Expected>, predicted: seq<Prediction>, a: Assignment, m: map<nat, nat>, inside: set<nat>,
    reached: set<nat>)
    requires |a| == |predicted| && !Augmentable(expected, predicted, a) && IsMatching(expected, predicted, m)
    requires inside <= m.Keys && forall k | k in inside :: ReachedBy(expected, predicted, a, k)
    requires forall k | k in AssignedIn(a) && ReachedBy(expected, predicted, a, k) :: k in reached
    ensures |inside| <= |AssignedIn(a) * reached|
  {
    hide Fits, ReachedBy, Augmentable;
    forall k | k in inside ensures exists h: nat :: h in AssignedIn(a) * reached && h < |a| && a[h] == Some(m[k]) {
      var h := FittedIsHeld(expected, predicted, a, k, m[k]);
      AssignedIff(a, h);
    }
    var holders := map k | k in inside :: HolderIn(a, AssignedIn(a) * reached, m[k]);
    InjectiveImage(inside, holders, AssignedIn(a) * reached);
  }

  ghost function HolderIn(a: Assignment, among: set<nat>, i: nat): (h: nat)
    requires exists h: nat :: h in among && h < |a| && a[h] == Some(i)
    ensures h in among && h < |a| && a[h] == Some(i)
  {
    var h: nat :| h in among && h < |a| && a[h] == Some(i);
    h
  }

  // ----- the exact condition

  lemma MaximumIff(expected: seq<Expected>, predicted: seq<Prediction>, a: Assignment)
    requires Sound(expected, predicted, a)
    ensures IsMaximum(expected, predicted, Matched(a)) <==> !Augmentable(expected, predicted, a)
  {
    hide Sound, IsMatching, Augments, Matched;
    if path, i :| Augments(expected, predicted, a, path, i) {
      var b := Augment(expected, predicted, a, path, i);
      SoundIsMatching(expected, predicted, b);
    } else {
      forall m | IsMatching(expected, predicted, m) ensures |m| <= Matched(a) {
        NothingIsLarger(expected, predicted, a, m);
      }
    }
  }

  /** First fit is a maximum matching if and only if it leaves no alternating path to an unmatched memory. */
  lemma FirstFitIsMaximumIff(expected: seq<Expected>, predicted: seq<Prediction>)
    ensures var a := FirstFit(expected, predicted);
            IsMaximum(expected, predicted, Matched(a)) <==> !Augmentable(expected, predicted, a)
  {
    FirstFitIsSoundAndMaximal(expected, predicted);
    MaximumIff(expected, predicted, FirstFit(expected, predicted));
  }

  // ----- conditions that can be checked beforehand

  predicate FitsAtMostOne(expected: seq<Expected>, p: Prediction) {
    forall i, j | 0 <= i < j < |expected| :: !(Fits(p, expected[i]) && Fits(p, expected[j]))
  }

  predicate FittedByAtMostOne(predicted: seq<Prediction>, e: Expected) {
    forall i, j | 0 <= i < j < |predicted| :: !(Fits(predicted[i], e) && Fits(predicted[j], e))
  }

  /** If no prediction fits two memories, or no memory is fitted by two predictions, no matching is larger. */
  lemma UnambiguousIsMaximum(expected: seq<Expected>, predicted: seq<Prediction>)
    requires (forall k | 0 <= k < |predicted| :: FitsAtMostOne(expected, predicted[k]))
             || (forall i | 0 <= i < |expected| :: FittedByAtMostOne(predicted, expected[i]))
    ensures IsMaximum(expected, predicted, Matched(FirstFit(expected, predicted)))
  {
    hide Fits, FirstFit, Matched;
    var a := FirstFit(expected, predicted);
    FirstFitIsSoundAndMaximal(expected, predicted);
    MatchedIsTaken(a);
    forall m | IsMatching(expected, predicted, m) ensures |m| <= Matched(a) {
      if forall k | 0 <= k < |predicted| :: FitsAtMostOne(expected, predicted[k]) {
        forall k | k in m.Keys ensures m[k] in Taken(a) {
          TakenIff(a, m[k]);
          if a[k].Some? && a[k].value != m[k] { assert FitsAtMostOne(expected, predicted[k]); }
        }
        InjectiveImage(m.Keys, m, Taken(a));
      } else {
        forall k | k in m.Keys ensures k in AssignedIn(a) {
          AssignedIff(a, k);
          OnlyFitter(expected, predicted, a, k, m[k]);
        }
        SubsetIsSmaller(m.Keys, AssignedIn(a));
      }
    }
  }

  lemma OnlyFitter(expected: seq<Expected>, predicted: seq<Prediction>, a: Assignment, k: nat, i: nat)
    requires Sound(expected, predicted, a) && Maximal(expected, predicted, a)
    requires k < |predicted| && i < |expected| && Fits(predicted[k], expected[i]) &&
             FittedByAtMostOne(predicted, expected[i])
    ensures a[k].Some?
  {
    hide Fits;
    if a[k].None? {
      var h: nat :| h < |a| && a[h] == Some(i);
      SameFitter(predicted, expected[i], h, k);
    }
  }

  lemma SameFitter(predicted: seq<Prediction>, e: Expected, h: nat, k: nat)
    requires h < |predicted| && k < |predicted| && Fits(predicted[h], e) && Fits(predicted[k], e) &&
             FittedByAtMostOne(predicted, e)
    ensures h == k
  {
    hide Fits;
  }

  // ----- the bound of one half is reached

  const GENERAL := Expected("preference", ["red"], "active", None)
  const SPECIAL := Expected("preference", ["blue"], "active", None)
  const BOTH := Predicted("red and blue", "preference", "active", None)
  const ONE := Predicted("red", "preference", "active", None)

  lemma WhatFits()
    ensures Fits(BOTH, GENERAL) && Fits(BOTH, SPECIAL) && Fits(ONE, GENERAL) && !Fits(ONE, SPECIAL)
  {
    assert OccursAt("red", "red and blue", 0) && OccursAt("blue", "red and blue", 8) && OccursAt("red", "red", 0);
    assert Occurs("red", "red and blue") && Occurs("blue", "red and blue") && Occurs("red", "red");
    assert !Occurs("blue", "red") && SPECIAL.markers[0] == "blue";
  }

  /** Both predictions can be matched, however the memories are listed. */
  lemma BothCanBeMatched()
    ensures IsMatching([GENERAL, SPECIAL], [BOTH, ONE], map[0 := 1, 1 := 0])
  {
    WhatFits();
    HalfIsReached(GENERAL, SPECIAL, BOTH, ONE);
  }

  /** Listing the same two memories in the other order doubles the true positives of the same two predictions. */
  lemma OrderHalvesTheScore()
    ensures Matched(FirstFit([GENERAL, SPECIAL], [BOTH, ONE])) == 1
    ensures Matched(FirstFit([SPECIAL, GENERAL], [BOTH, ONE])) == 2
  {
    WhatFits();
    HalfIsReached(GENERAL, SPECIAL, BOTH, ONE);
  }
}
