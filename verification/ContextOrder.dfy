/**
 What the compiled context is in terms of its inputs: the fields of the candidates decide which duplicate is kept, in
 which order groups are considered and which of them fit, and the kind of a static item decides whether it must be
 included (`ContextCompiler.compile` in src/stata_research_agent/application/context_compiler.py).
 */
module ContextOrder {
  import opened Wrappers
  import opened Sequences
  import opened ContextSelection
  import opened ContextGuarantees
  import opened ContextCompiler

  // ----- the order of selection

  /** A smaller priority comes first, and of equal priorities the larger recency. */
  lemma SelectionOrderByFields(cs: seq<Candidate>)
    ensures var order := SelectionOrder(cs);
            forall i, j :: 0 <= i < j < |order| ==>
              || order[i].priority < order[j].priority
              || (order[i].priority == order[j].priority && order[i].recency >= order[j].recency)
  {
    SelectionOrderSorts(cs);
  }

  /** The candidates of one priority and recency. */
  function Ranked(cs: seq<Candidate>, priority: nat, recency: int): seq<Candidate> {
    if cs == [] then []
    else Ranked(cs[..|cs| - 1], priority, recency) + RankedOne(cs[|cs| - 1], priority, recency)
  }

  function RankedOne(c: Candidate, priority: nat, recency: int): seq<Candidate> {
    if c.priority == priority && c.recency == recency then [c] else []
  }

  lemma RankedSnoc(cs: seq<Candidate>, c: Candidate, priority: nat, recency: int)
    ensures Ranked(cs + [c], priority, recency) == Ranked(cs, priority, recency) + RankedOne(c, priority, recency)
  {
    assert (cs + [c])[..|cs|] == cs;
  }

  lemma {:induction false} InsertKeepsRanks(sorted: seq<Candidate>, c: Candidate, priority: nat, recency: int)
    ensures Ranked(Insert(sorted, c), priority, recency)
         == Ranked(sorted, priority, recency) + RankedOne(c, priority, recency)
    decreases |sorted|
  {
    if sorted == [] || !Before(c, sorted[|sorted| - 1]) {
      RankedSnoc(sorted, c, priority, recency);
    } else {
      var front, last := sorted[..|sorted| - 1], sorted[|sorted| - 1];
      InsertKeepsRanks(front, c, priority, recency);
      RankedSnoc(Insert(front, c), last, priority, recency);
      RanksApart(c, last, priority, recency);
      SwapOne(Ranked(front, priority, recency), RankedOne(c, priority, recency), RankedOne(last, priority, recency));
      hide Before, RankedOne;
    }
  }

  lemma RanksApart(c: Candidate, d: Candidate, priority: nat, recency: int)
    requires Before(c, d)
    ensures RankedOne(c, priority, recency) == [] || RankedOne(d, priority, recency) == []
  {
  }

  lemma SwapOne(a: seq<Candidate>, b: seq<Candidate>, c: seq<Candidate>)
    requires b == [] || c == []
    ensures a + b + c == a + c + b
  {
  }

  /** Candidates of equal priority and recency keep their original order. */
  lemma {:induction false} TiesKeepOrder(cs: seq<Candidate>, priority: nat, recency: int)
    ensures Ranked(SelectionOrder(cs), priority, recency) == Ranked(cs, priority, recency)
    decreases |cs|
  {
    if cs != [] {
      var front, c := cs[..|cs| - 1], cs[|cs| - 1];
      TiesKeepOrder(front, priority, recency);
      InsertKeepsRanks(SelectionOrder(front), c, priority, recency);
    }
  }

  /** A key that comes before another appeared before every candidate of the other. */
  lemma {:induction false} EarlierKey(cs: seq<Candidate>, i: nat, j: nat, y: nat) returns (x: nat)
    requires i < j < |KeysInOrder(cs)| && y < |cs| && KeyOf(cs[y]) == KeysInOrder(cs)[j]
    ensures x < y && KeyOf(cs[x]) == KeysInOrder(cs)[i]
    decreases |cs|
  {
    hide KeyOf;
    var front, last := cs[..|cs| - 1], cs[|cs| - 1];
    var keys := KeysInOrder(front);
    KeysCover(front);
    assert front + [last] == cs;
    KeysSnoc(front, last);
    hide KeysInOrder;
    if j < |keys| {
      var y' := y;
      if y == |front| {
        var d :| d in front && KeyOf(d) == keys[j];
        y' :| 0 <= y' < |front| && front[y'] == d;
      }
      x := EarlierKey(front, i, j, y');
    } else {
      assert y == |front| && KeysInOrder(cs)[i] == keys[i] && keys[i] in keys;
      var d :| d in front && KeyOf(d) == keys[i];
      x :| 0 <= x < |front| && front[x] == d;
    }
  }

  /** Whatever belongs to a group, some member of each group considered before has to come first by its fields. */
  lemma GroupsByFields(cs: seq<Candidate>, i: nat, j: nat, d: Candidate) returns (c: Candidate)
    requires var keys := KeysInOrder(SelectionOrder(cs)); i < j < |keys| && d in cs && KeyOf(d) == keys[j]
    ensures c in cs && KeyOf(c) == KeysInOrder(SelectionOrder(cs))[i]
    ensures c.priority < d.priority || (c.priority == d.priority && c.recency >= d.recency)
  {
    var order := SelectionOrder(cs);
    SelectionOrderSorts(cs);
    SelectionOrderByFields(cs);
    assert d in multiset(order);
    var y :| 0 <= y < |order| && order[y] == d;
    var x := EarlierKey(order, i, j, y);
    c := order[x];
    assert c in multiset(order);
  }

  // ----- the greedy pass

  /**
   `included` is what the groups considered in the order of `keys` come to: a group is in exactly if it may be sent and
   fits beside the groups that were considered and included before it.
   */
  ghost predicate TakenInOrder(cs: seq<Candidate>, keys: seq<GroupKey>, remote: bool, budget: nat,
                               included: set<GroupKey>)
  {
    && included <= SetOf(keys)
    && forall g :: 0 <= g < |keys| ==>
         (keys[g] in included <==>
            && !Withheld(cs, keys[g], remote)
            && Tokens(WithKey(cs, included * SetOf(keys[..g]))) + Tokens(Members(cs, keys[g])) <= budget)
  }

  lemma TakenSnoc(cs: seq<Candidate>, front: seq<GroupKey>, key: GroupKey, remote: bool, budget: nat,
                  before: set<GroupKey>, after: set<GroupKey>)
    requires key !in SetOf(front) && TakenInOrder(cs, front, remote, budget, before)
    requires after ==
               before + if !Withheld(cs, key, remote)
                           && Tokens(WithKey(cs, before)) + Tokens(Members(cs, key)) <= budget then {key} else {}
    ensures TakenInOrder(cs, front + [key], remote, budget, after)
  {
    hide WithKey, Members, Tokens, Withheld;
    var keys := front + [key];
    assert SetOf(keys) == SetOf(front) + {key};
    forall g | 0 <= g < |front|
      ensures keys[..g] == front[..g] && after * SetOf(keys[..g]) == before * SetOf(front[..g])
    {
      assert keys[..g] == front[..g] && key !in SetOf(keys[..g]);
    }
    assert keys[..|front|] == front && after * SetOf(front) == before;
  }

  lemma {:induction false} GreedyByOrder(cs: seq<Candidate>, keys: seq<GroupKey>, remote: bool, budget: nat)
    requires Distinct(keys) && Greedy(cs, keys, remote, budget).Success?
    ensures TakenInOrder(cs, keys, remote, budget, Greedy(cs, keys, remote, budget).value.included)
    decreases |keys|
  {
    hide WithKey, Members, Tokens, Consider, TakenInOrder, Fair;
    if keys == [] {
      NothingTaken(cs, remote, budget);
    } else {
      var front, key := keys[..|keys| - 1], keys[|keys| - 1];
      GreedyByOrder(cs, front, remote, budget);
      var before := Greedy(cs, front, remote, budget).value;
      GreedyIsFair(cs, front, remote, budget);
      UsedIs(cs, SetOf(front), remote, budget, before);
      ConsiderIncludes(before, key, Members(cs, key), remote, budget);
      TakenSnoc(cs, front, key, remote, budget, before.included, Greedy(cs, keys, remote, budget).value.included);
      assert keys == front + [key];
    }
  }

  lemma NothingTaken(cs: seq<Candidate>, remote: bool, budget: nat)
    ensures TakenInOrder(cs, [], remote, budget, {})
  {
  }

  lemma ConsiderIncludes(sel: Selection, key: GroupKey, group: seq<Candidate>, remote: bool, budget: nat)
    ensures var next := Consider(sel, key, group, remote, budget);
            next.Success? ==>
              next.value.included ==
                sel.included + if !(remote && AnyLocal(group)) && sel.used + Tokens(group) <= budget then {key} else {}
  {
    hide AnyLocal, AnyMandatory, Tokens, Decide;
  }

  lemma UsedIs(cs: seq<Candidate>, keys: set<GroupKey>, remote: bool, budget: nat, sel: Selection)
    requires Fair(cs, keys, remote, budget, sel)
    ensures sel.used == Tokens(WithKey(cs, sel.included))
  {
  }

  /** The members of the groups, group after group. */
  function Grouped(cs: seq<Candidate>, keys: seq<GroupKey>): seq<Candidate> {
    if keys == [] then [] else Grouped(cs, keys[..|keys| - 1]) + Members(cs, keys[|keys| - 1])
  }

  /** Decisions are recorded group after group, in the order in which the groups are considered. */
  lemma {:induction false} DecisionsInOrder(cs: seq<Candidate>, keys: seq<GroupKey>, remote: bool, budget: nat)
    requires Greedy(cs, keys, remote, budget).Success?
    ensures Subjects(Greedy(cs, keys, remote, budget).value.decisions) == Grouped(cs, keys)
    decreases |keys|
  {
    hide Members, Consider, Subjects;
    if keys == [] {
      NoSubjects();
    } else {
      var front, key := keys[..|keys| - 1], keys[|keys| - 1];
      DecisionsInOrder(cs, front, remote, budget);
      ConsiderDecides(Greedy(cs, front, remote, budget).value, key, Members(cs, key), remote, budget);
    }
  }

  lemma NoSubjects()
    ensures Subjects([]) == []
  {
  }

  lemma ConsiderDecides(sel: Selection, key: GroupKey, group: seq<Candidate>, remote: bool, budget: nat)
    ensures var next := Consider(sel, key, group, remote, budget);
            next.Success? ==> Subjects(next.value.decisions) == Subjects(sel.decisions) + group
  {
    hide AnyLocal, AnyMandatory, Tokens;
    var next := Consider(sel, key, group, remote, budget);
    if next.Success? {
      var added := next.value.decisions[|sel.decisions|..];
      assert next.value.decisions == sel.decisions + added;
      assert Subjects(added) == group;
    }
  }

  /** Why a pass failed: a mandatory member in a group that may not be sent, or in one that did not fit. */
  lemma {:induction false} FailureMeans(cs: seq<Candidate>, keys: seq<GroupKey>, remote: bool, budget: nat)
    requires Distinct(keys) && Greedy(cs, keys, remote, budget).Failure?
    ensures exists g ::
              && 0 <= g < |keys| && AnyMandatory(Members(cs, keys[g]))
              && Greedy(cs, keys[..g], remote, budget).Success?
              && Greedy(cs, keys, remote, budget).error ==
                   (if Withheld(cs, keys[g], remote) then PrivacyBoundary else BudgetExceeded)
              && (!Withheld(cs, keys[g], remote) ==>
                    Tokens(WithKey(cs, Greedy(cs, keys[..g], remote, budget).value.included)) +
                    Tokens(Members(cs, keys[g])) > budget)
    decreases |keys|
  {
    hide WithKey, Members, Tokens, AnyLocal, AnyMandatory, Fair;
    if keys != [] {
      var front := keys[..|keys| - 1];
      if Greedy(cs, front, remote, budget).Failure? {
        FailureMeans(cs, front, remote, budget);
        assert forall g :: 0 <= g < |front| ==> keys[..g] == front[..g];
      } else {
        GreedyIsFair(cs, front, remote, budget);
        UsedIs(cs, SetOf(front), remote, budget, Greedy(cs, front, remote, budget).value);
        assert keys[..|front|] == front;
      }
    }
  }

  /** A compiled context has the items of the groups taken in order, and their decisions in that order. */
  lemma CompilationByOrder(candidates: seq<Candidate>, remote: bool, budget: Option<int>)
    ensures var cs := Deduplicate(candidates);
            var keys, result := KeysInOrder(SelectionOrder(cs)), CompileCandidates(candidates, remote, budget);
            && (result == Failure(NoBudget) <==> budget.None? || budget.value < 1)
            && (result.Success? ==>
                  && Subjects(result.value.decisions) == Grouped(cs, keys)
                  && exists included ::
                       && TakenInOrder(cs, keys, remote, budget.value, included)
                       && result.value.items == ItemsOf(WithKey(cs, included)))
  {
    var cs, result := Deduplicate(candidates), CompileCandidates(candidates, remote, budget);
    var keys := KeysInOrder(SelectionOrder(cs));
    KeysCover(SelectionOrder(cs));
    hide Deduplicate, SelectionOrder, KeysInOrder, Greedy, WithKey, Tokens, Members, Grouped, AnyLocal, AnyMandatory;
    if result.Success? {
      GreedyByOrder(cs, keys, remote, budget.value);
      DecisionsInOrder(cs, keys, remote, budget.value);
      assert TakenInOrder(cs, keys, remote, budget.value, Select(cs, remote, budget.value).value.included);
    } else if result.error.NoBudget? && budget.Some? && budget.value >= 1 {
      FailureMeans(cs, keys, remote, budget.value);
    }
  }

  // ----- duplicates

  /**
   What is kept under a key is mandatory if anything under it is, then has the smallest priority and then the largest
   recency; of several such it is the first.
   */
  ghost predicate KeptByFields(cs: seq<Candidate>, i: nat) {
    i < |cs| && forall j :: 0 <= j < |cs| && cs[j].item.key == cs[i].item.key ==>
      && (cs[j].mandatory ==> cs[i].mandatory)
      && (cs[j].mandatory == cs[i].mandatory ==>
            || cs[i].priority < cs[j].priority
            || (cs[i].priority == cs[j].priority
                && (cs[i].recency > cs[j].recency || (cs[i].recency == cs[j].recency && i <= j))))
  }

  lemma DeduplicateByFields(cs: seq<Candidate>, d: Candidate)
    requires d in Deduplicate(cs)
    ensures exists i: nat :: KeptByFields(cs, i) && cs[i] == d
  {
    DeduplicateKeepsBest(cs);
    hide Deduplicate;
    var i: nat :| FirstBest(cs, i) && cs[i] == d;
    FirstBestByFields(cs, i);
  }

  lemma FirstBestByFields(cs: seq<Candidate>, i: nat)
    requires FirstBest(cs, i)
    ensures KeptByFields(cs, i)
  {
  }

  lemma MandatorySurvives(cs: seq<Candidate>, c: Candidate) returns (d: Candidate)
    requires c in cs && c.mandatory
    ensures d in Deduplicate(cs) && d.item.key == c.item.key && d.mandatory
  {
    DeduplicateKeys(cs);
    var j :| 0 <= j < |cs| && cs[j] == c;
    var keys, kept := ItemKeys(cs), Deduplicate(cs);
    var k :| 0 <= k < |keys| && keys[k] == c.item.key;
    d := kept[k];
    DeduplicateByFields(cs, d);
    var i: nat :| KeptByFields(cs, i) && cs[i] == d;
  }

  // ----- static and transient items

  /** The candidates of a compilation. */
  function Inputs(collected: seq<Candidate>, staticItems: seq<Item>, transientItems: seq<Item>): seq<Candidate> {
    collected + Wrap(staticItems, WrapStatic) + Wrap(transientItems, WrapTransient)
  }

  predicate IsUserMessage(item: Item) {
    item.key.0 == "user_message"
  }

  /** Transient items and user messages join as mandatory candidates, the transient ones as the most recent. */
  lemma MandatoryJoins(collected: seq<Candidate>, staticItems: seq<Item>, transientItems: seq<Item>, item: Item)
    requires item in transientItems || (item in staticItems && IsUserMessage(item))
    ensures exists c :: c in Inputs(collected, staticItems, transientItems) && c.item == item && c.mandatory
              && c.priority == 0 && c.recency == if item in transientItems then 1_000_000_000 else 0
  {
    var all := Inputs(collected, staticItems, transientItems);
    if item in transientItems {
      var i :| 0 <= i < |transientItems| && transientItems[i] == item;
      assert all[|collected| + |staticItems| + i] == WrapTransient(item);
    } else {
      var i :| 0 <= i < |staticItems| && staticItems[i] == item;
      assert all[|collected| + i] == WrapStatic(item);
    }
  }

  /** Other static items join as optional ones of P1, each a group of its own. */
  lemma OptionalJoins(collected: seq<Candidate>, staticItems: seq<Item>, transientItems: seq<Item>, item: Item)
    requires item in staticItems && !IsUserMessage(item)
    ensures exists c :: c in Inputs(collected, staticItems, transientItems)
              && c.item == item && !c.mandatory && c.priority == 1 && KeyOf(c) == Single(item.key) && c.recency == 0
  {
    var i :| 0 <= i < |staticItems| && staticItems[i] == item;
    assert Inputs(collected, staticItems, transientItems)[|collected| + i] == WrapStatic(item);
  }

  /** No other candidate becomes mandatory by joining. */
  lemma MandatoryComesFrom(collected: seq<Candidate>, staticItems: seq<Item>, transientItems: seq<Item>, c: Candidate)
    requires c in Inputs(collected, staticItems, transientItems) && c.mandatory
    ensures c in collected || c.item in transientItems || (c.item in staticItems && IsUserMessage(c.item))
  {
    var statics, transients := Wrap(staticItems, WrapStatic), Wrap(transientItems, WrapTransient);
    assert c in collected || c in statics || c in transients;
    if c in statics {
      var k :| 0 <= k < |statics| && statics[k] == c;
      assert c == WrapStatic(staticItems[k]);
    } else if c in transients {
      var k :| 0 <= k < |transients| && transients[k] == c;
      assert c == WrapTransient(transientItems[k]);
    }
  }

  /** A compilation that succeeds includes every transient item and every user message, by its key. */
  lemma MandatoryIsIncluded(
    collected: seq<Candidate>, staticItems: seq<Item>, transientItems: seq<Item>, remote: bool, budget: Option<int>,
    item: Item)
    requires item in transientItems || (item in staticItems && IsUserMessage(item))
    ensures var result := CompileCandidates(Inputs(collected, staticItems, transientItems), remote, budget);
            result.Success? ==> exists x :: x in result.value.items && x.key == item.key
  {
    var all := Inputs(collected, staticItems, transientItems);
    var result := CompileCandidates(all, remote, budget);
    MandatoryJoins(collected, staticItems, transientItems, item);
    var c :| c in all && c.item == item && c.mandatory;
    var d := MandatorySurvives(all, c);
    if result.Success? {
      CompilationIsFair(all, remote, budget);
      var included :| CompiledFair(Deduplicate(all), remote, budget.value, result.value, included);
      KeptIsListed(Deduplicate(all), included, d);
    }
  }

  lemma KeptIsListed(cs: seq<Candidate>, included: set<GroupKey>, d: Candidate)
    requires d in cs && KeyOf(d) in included
    ensures d.item in ItemsOf(WithKey(cs, included))
  {
    WithKeyMembers(cs, included);
    var kept := WithKey(cs, included);
    var i :| 0 <= i < |kept| && kept[i] == d;
    assert ItemsOf(kept)[i] == d.item;
  }

  /** With a positive budget and nothing mandatory, compilation always succeeds. */
  lemma OptionalNeverFails(
    collected: seq<Candidate>, staticItems: seq<Item>, remote: bool, budget: int)
    requires budget >= 1
    requires forall c :: c in collected ==> !c.mandatory
    requires forall item :: item in staticItems ==> !IsUserMessage(item)
    ensures CompileCandidates(Inputs(collected, staticItems, []), remote, Some(budget)).Success?
  {
    var all := Inputs(collected, staticItems, []);
    forall c | c in all ensures !c.mandatory {
      if c.mandatory { MandatoryComesFrom(collected, staticItems, [], c); }
    }
    var cs := Deduplicate(all);
    var keys := KeysInOrder(SelectionOrder(cs));
    if Select(cs, remote, budget).Failure? {
      KeysCover(SelectionOrder(cs));
      FailureMeans(cs, keys, remote, budget);
      var g :| 0 <= g < |keys| && AnyMandatory(Members(cs, keys[g]));
      var i :| 0 <= i < |Members(cs, keys[g])| && Members(cs, keys[g])[i].mandatory;
      MembersHaveKey(cs, keys[g]);
      DeduplicateByFields(all, Members(cs, keys[g])[i]);
      assert false;
    }
  }
}
