/**
 What the selected context guarantees: conservation, atomic groups, the budget, and that lower priorities never
 displace the groups that hold P0 context.
 */
module ContextGuarantees {
  import opened Wrappers
  import opened Sequences
  import opened ContextSelection

  // ----- lists of candidates

  ghost predicate Ordered(cs: seq<Candidate>) {
    forall i, j :: 0 <= i < j < |cs| ==> !Before(cs[j], cs[i])
  }

  lemma {:induction false} InsertMembers(sorted: seq<Candidate>, c: Candidate)
    ensures multiset(Insert(sorted, c)) == multiset(sorted) + multiset{c}
    decreases |sorted|
  {
    if sorted != [] && Before(c, sorted[|sorted| - 1]) {
      InsertMembers(sorted[..|sorted| - 1], c);
      assert sorted == sorted[..|sorted| - 1] + [sorted[|sorted| - 1]];
    }
  }

  lemma OrderedSnoc(front: seq<Candidate>, last: Candidate)
    requires Ordered(front) && forall x :: x in front ==> !Before(last, x)
    ensures Ordered(front + [last])
  {
  }

  lemma {:induction false} InsertOrdered(sorted: seq<Candidate>, c: Candidate)
    requires Ordered(sorted)
    ensures Ordered(Insert(sorted, c))
    decreases |sorted|
  {
    if sorted == [] {
      OrderedSnoc([], c);
    } else if Before(c, sorted[|sorted| - 1]) {
      var front, last := sorted[..|sorted| - 1], sorted[|sorted| - 1];
      InsertOrdered(front, c);
      InsertMembers(front, c);
      forall x | x in Insert(front, c) ensures !Before(last, x) {
        assert x in multiset(Insert(front, c));
      }
      OrderedSnoc(Insert(front, c), last);
    } else {
      LastIsGreatest(sorted, c);
      OrderedSnoc(sorted, c);
    }
  }

  /** What does not come before the last element of an ordered list comes before none of them. */
  lemma LastIsGreatest(sorted: seq<Candidate>, c: Candidate)
    requires Ordered(sorted) && sorted != [] && !Before(c, sorted[|sorted| - 1])
    ensures forall x :: x in sorted ==> !Before(c, x)
  {
    forall i | 0 <= i < |sorted| ensures !Before(c, sorted[i]) {
      if i < |sorted| - 1 { assert !Before(sorted[|sorted| - 1], sorted[i]); }
    }
  }

  lemma {:induction false} SelectionOrderSorts(cs: seq<Candidate>)
    ensures Ordered(SelectionOrder(cs)) && multiset(SelectionOrder(cs)) == multiset(cs)
    decreases |cs|
  {
    if cs != [] {
      var front := cs[..|cs| - 1];
      SelectionOrderSorts(front);
      InsertOrdered(SelectionOrder(front), cs[|cs| - 1]);
      InsertMembers(SelectionOrder(front), cs[|cs| - 1]);
      assert cs == front + [cs[|cs| - 1]];
    }
  }

  lemma OrderSnoc(front: seq<Candidate>, c: Candidate)
    ensures SelectionOrder(front + [c]) == Insert(SelectionOrder(front), c)
  {
    assert (front + [c])[..|front|] == front;
  }

  /** Sorting the candidates of some groups is sorting all and keeping those groups. */
  lemma {:induction false} SortCommutes(cs: seq<Candidate>, keys: set<GroupKey>)
    ensures SelectionOrder(WithKey(cs, keys)) == WithKey(SelectionOrder(cs), keys)
    decreases |cs|
  {
    hide Insert;
    if cs != [] {
      var front, c := cs[..|cs| - 1], cs[|cs| - 1];
      SortCommutes(front, keys);
      SelectionOrderSorts(front);
      InsertCommutes(SelectionOrder(front), c, keys);
      OrderSnoc(WithKey(front, keys), c);
      assert WithKey(front, keys) + [] == WithKey(front, keys);
    }
  }

  lemma WithKeySnoc(front: seq<Candidate>, c: Candidate, keys: set<GroupKey>)
    ensures WithKey(front + [c], keys) == WithKey(front, keys) + Keep(c, keys)
  {
    assert (front + [c])[..|front|] == front;
  }

  lemma {:induction false} WithKeyMembers(cs: seq<Candidate>, keys: set<GroupKey>)
    ensures forall c :: c in WithKey(cs, keys) <==> c in cs && KeyOf(c) in keys
    decreases |cs|
  {
    if cs != [] {
      WithKeyMembers(cs[..|cs| - 1], keys);
      assert cs == cs[..|cs| - 1] + [cs[|cs| - 1]];
    }
  }

  lemma {:induction false} InsertCommutes(sorted: seq<Candidate>, c: Candidate, keys: set<GroupKey>)
    requires Ordered(sorted)
    ensures WithKey(Insert(sorted, c), keys) ==
            if KeyOf(c) in keys then Insert(WithKey(sorted, keys), c) else WithKey(sorted, keys)
    decreases |sorted|
  {
    if sorted == [] {
      WithKeySnoc([], c, keys);
    } else if Before(c, sorted[|sorted| - 1]) {
      var front, last := sorted[..|sorted| - 1], sorted[|sorted| - 1];
      InsertCommutes(front, c, keys);
      InsertPast(front, last, c, keys);
    } else {
      WithKeySnoc(sorted, c, keys);
      InsertAtEnd(sorted, c, keys);
    }
  }

  lemma InsertPast(front: seq<Candidate>, last: Candidate, c: Candidate, keys: set<GroupKey>)
    requires Before(c, last)
    requires WithKey(Insert(front, c), keys) ==
             if KeyOf(c) in keys then Insert(WithKey(front, keys), c) else WithKey(front, keys)
    ensures WithKey(Insert(front, c) + [last], keys) ==
            if KeyOf(c) in keys then Insert(WithKey(front + [last], keys), c) else WithKey(front + [last], keys)
  {
    hide WithKey, Insert;
    WithKeySnoc(front, last, keys);
    WithKeySnoc(Insert(front, c), last, keys);
    var kept := WithKey(front, keys);
    InsertBeforeLast(kept, last, c);
    assert kept + [] == kept && Insert(kept, c) + [] == Insert(kept, c);
  }

  lemma InsertBeforeLast(kept: seq<Candidate>, last: Candidate, c: Candidate)
    requires Before(c, last)
    ensures Insert(kept + [last], c) == Insert(kept, c) + [last]
  {
    assert (kept + [last])[..|kept|] == kept;
  }

  lemma InsertAtEnd(sorted: seq<Candidate>, c: Candidate, keys: set<GroupKey>)
    requires Ordered(sorted) && sorted != [] && !Before(c, sorted[|sorted| - 1])
    ensures Insert(WithKey(sorted, keys), c) == WithKey(sorted, keys) + [c]
  {
    LastIsGreatest(sorted, c);
    WithKeyMembers(sorted, keys);
    var kept := WithKey(sorted, keys);
    if kept != [] { assert kept[|kept| - 1] in kept; }
  }

  // ----- keys and members

  lemma KeysSnoc(cs: seq<Candidate>, c: Candidate)
    ensures KeysInOrder(cs + [c]) ==
              if KeyOf(c) in KeysInOrder(cs) then KeysInOrder(cs) else KeysInOrder(cs) + [KeyOf(c)]
  {
    assert (cs + [c])[..|cs|] == cs;
  }

  ghost predicate Distinct(keys: seq<GroupKey>) {
    forall i, j :: 0 <= i < j < |keys| ==> keys[i] != keys[j]
  }

  lemma {:induction false} KeysCover(cs: seq<Candidate>)
    ensures Distinct(KeysInOrder(cs))
    ensures forall c :: c in cs ==> KeyOf(c) in KeysInOrder(cs)
    ensures forall k :: k in KeysInOrder(cs) ==> exists c :: c in cs && KeyOf(c) == k
    decreases |cs|
  {
    if cs != [] {
      KeysCover(cs[..|cs| - 1]);
      assert cs == cs[..|cs| - 1] + [cs[|cs| - 1]];
      assert cs[|cs| - 1] in cs;
    }
  }

  /** Appending candidates only appends keys; candidates of known groups append none. */
  lemma {:induction false} KeysConcat(a: seq<Candidate>, b: seq<Candidate>)
    ensures KeysInOrder(a) <= KeysInOrder(a + b)
    ensures (forall c :: c in b ==> KeyOf(c) in KeysInOrder(a)) ==> KeysInOrder(a + b) == KeysInOrder(a)
    decreases |b|
  {
    if b == [] {
      assert a + b == a;
    } else {
      var front, last := b[..|b| - 1], b[|b| - 1];
      KeysConcat(a, front);
      KeysSnoc(a + front, last);
      assert a + b == (a + front) + [last] && b == front + [last];
      assert last in b;
    }
  }

  lemma {:induction false} TokensConcat(a: seq<Candidate>, b: seq<Candidate>)
    ensures Tokens(a + b) == Tokens(a) + Tokens(b)
    decreases |b|
  {
    if b == [] {
      assert a + b == a;
    } else {
      assert (a + b)[..|a + b| - 1] == a + b[..|b| - 1];
      TokensConcat(a, b[..|b| - 1]);
    }
  }

  lemma TokensKeep(cs: seq<Candidate>, c: Candidate, keys: set<GroupKey>)
    ensures Tokens(cs + Keep(c, keys)) == Tokens(cs) + if KeyOf(c) in keys then EstimateTokens(c.item) else 0
  {
    if KeyOf(c) in keys { assert (cs + [c])[..|cs|] == cs; } else { assert cs + [] == cs; }
  }

  /** A group adds its own tokens to those of the groups already taken. */
  lemma {:induction false} AddGroupTokens(cs: seq<Candidate>, keys: set<GroupKey>, key: GroupKey)
    requires key !in keys
    ensures Tokens(WithKey(cs, keys + {key})) == Tokens(WithKey(cs, keys)) + Tokens(Members(cs, key))
    decreases |cs|
  {
    hide KeyOf, EstimateTokens;
    if cs != [] {
      var front, c := cs[..|cs| - 1], cs[|cs| - 1];
      AddGroupTokens(front, keys, key);
      TokensKeep(WithKey(front, keys + {key}), c, keys + {key});
      TokensKeep(WithKey(front, keys), c, keys);
      TokensKeep(WithKey(front, {key}), c, {key});
    }
  }

  lemma {:induction false} AddGroupMembers(cs: seq<Candidate>, keys: set<GroupKey>, key: GroupKey)
    requires key !in keys
    ensures multiset(WithKey(cs, keys + {key})) == multiset(WithKey(cs, keys)) + multiset(Members(cs, key))
    decreases |cs|
  {
    hide KeyOf;
    if cs != [] { AddGroupMembers(cs[..|cs| - 1], keys, key); }
  }

  lemma {:induction false} WithAllKeys(cs: seq<Candidate>, keys: set<GroupKey>)
    requires forall c :: c in cs ==> KeyOf(c) in keys
    ensures WithKey(cs, keys) == cs
    decreases |cs|
  {
    if cs != [] {
      assert cs == cs[..|cs| - 1] + [cs[|cs| - 1]];
      assert cs[|cs| - 1] in cs;
      WithAllKeys(cs[..|cs| - 1], keys);
    }
  }

  lemma {:induction false} WithKeyTwice(cs: seq<Candidate>, keys: set<GroupKey>, fewer: set<GroupKey>)
    requires fewer <= keys
    ensures WithKey(WithKey(cs, keys), fewer) == WithKey(cs, fewer)
    decreases |cs|
  {
    if cs != [] {
      var front, c := cs[..|cs| - 1], cs[|cs| - 1];
      WithKeyTwice(front, keys, fewer);
      if KeyOf(c) in keys { WithKeySnoc(WithKey(front, keys), c, fewer); }
      assert WithKey(front, keys) + [] == WithKey(front, keys) && WithKey(front, fewer) + [] == WithKey(front, fewer);
    }
  }

  lemma {:induction false} WithKeyConcat(a: seq<Candidate>, b: seq<Candidate>, keys: set<GroupKey>)
    ensures WithKey(a + b, keys) == WithKey(a, keys) + WithKey(b, keys)
    decreases |b|
  {
    if b == [] {
      assert a + b == a && WithKey(a, keys) + [] == WithKey(a, keys);
    } else {
      var front, last := b[..|b| - 1], b[|b| - 1];
      assert (a + b)[..|a + b| - 1] == a + front;
      WithKeyConcat(a, front, keys);
      Regroup(WithKey(a, keys), WithKey(front, keys), Keep(last, keys));
    }
  }

  lemma {:induction false} TokensMonotone(cs: seq<Candidate>, fewer: set<GroupKey>, keys: set<GroupKey>)
    requires fewer <= keys
    ensures Tokens(WithKey(cs, fewer)) <= Tokens(WithKey(cs, keys))
    decreases |cs|
  {
    hide Tokens, EstimateTokens, KeyOf;
    if cs != [] {
      var front, c := cs[..|cs| - 1], cs[|cs| - 1];
      TokensMonotone(front, fewer, keys);
      TokensKeep(WithKey(front, fewer), c, fewer);
      TokensKeep(WithKey(front, keys), c, keys);
    }
  }

  // ----- the selection

  function Subjects(ds: seq<Decision>): seq<Candidate> {
    seq(|ds|, i requires 0 <= i < |ds| => ds[i].subject)
  }

  predicate Withheld(cs: seq<Candidate>, key: GroupKey, remote: bool) {
    remote && AnyLocal(Members(cs, key))
  }

  /**
   What holds once the groups in `keys` have been considered: the tokens are those of the included groups and
   fit, each considered candidate has one decision and it says what happened to its group, no included group
   is withheld, every group left out holds nothing mandatory, and one left out for its size would not fit.
   */
  ghost predicate Fair(cs: seq<Candidate>, keys: set<GroupKey>, remote: bool, budget: nat, sel: Selection) {
    && sel.included <= keys
    && sel.used == Tokens(WithKey(cs, sel.included)) <= budget
    && multiset(Subjects(sel.decisions)) == multiset(WithKey(cs, keys))
    && (forall d :: d in sel.decisions ==> VerdictFits(cs, remote, sel.included, d))
    && (forall k :: k in keys ==> GroupFair(cs, remote, budget, sel, k))
  }

  ghost predicate VerdictFits(cs: seq<Candidate>, remote: bool, included: set<GroupKey>, d: Decision) {
    var key := KeyOf(d.subject);
    match d.verdict
    case Included => key in included
    case ProviderPolicy => key !in included && Withheld(cs, key, remote)
    case TokenBudget => key !in included && !Withheld(cs, key, remote)
  }

  ghost predicate GroupFair(cs: seq<Candidate>, remote: bool, budget: nat, sel: Selection, key: GroupKey) {
    if key in sel.included then !Withheld(cs, key, remote)
    else
      && !AnyMandatory(Members(cs, key))
      && (Withheld(cs, key, remote) || sel.used + Tokens(Members(cs, key)) > budget)
  }

  function SetOf(keys: seq<GroupKey>): set<GroupKey> {
    set k | k in keys
  }

  lemma NothingConsidered(cs: seq<Candidate>, remote: bool, budget: nat)
    ensures Fair(cs, {}, remote, budget, Selection({}, 0, []))
  {
    NoKeys(cs);
  }

  lemma {:induction false} NoKeys(cs: seq<Candidate>)
    ensures WithKey(cs, {}) == []
    decreases |cs|
  {
    if cs != [] { NoKeys(cs[..|cs| - 1]); }
  }

  lemma {:induction false} GreedyIsFair(cs: seq<Candidate>, keys: seq<GroupKey>, remote: bool, budget: nat)
    requires Distinct(keys)
    ensures var result := Greedy(cs, keys, remote, budget);
            result.Success? ==> Fair(cs, SetOf(keys), remote, budget, result.value)
    decreases |keys|
  {
    hide Fair, Consider, Members;
    if keys == [] {
      NothingConsidered(cs, remote, budget);
      assert SetOf(keys) == {};
    } else {
      var front, key := keys[..|keys| - 1], keys[|keys| - 1];
      GreedyIsFair(cs, front, remote, budget);
      assert SetOf(keys) == SetOf(front) + {key} && key !in SetOf(front);
      var earlier := Greedy(cs, front, remote, budget);
      if earlier.Success? && Greedy(cs, keys, remote, budget).Success? {
        ConsiderIsFair(cs, SetOf(front), remote, budget, earlier.value, key);
      }
    }
  }

  /** What considering one group does, and what it is decided to be. */
  function VerdictOn(sel: Selection, group: seq<Candidate>, remote: bool, budget: nat): Verdict {
    if remote && AnyLocal(group) then ProviderPolicy
    else if sel.used + Tokens(group) <= budget then Included
    else TokenBudget
  }

  lemma MembersHaveKey(cs: seq<Candidate>, key: GroupKey)
    ensures forall c :: c in Members(cs, key) <==> c in cs && KeyOf(c) == key
  {
    WithKeyMembers(cs, {key});
  }

  lemma ConsiderIsFair(cs: seq<Candidate>, keys: set<GroupKey>, remote: bool, budget: nat, sel: Selection,
                       key: GroupKey)
    requires Fair(cs, keys, remote, budget, sel) && key !in keys
    requires Consider(sel, key, Members(cs, key), remote, budget).Success?
    ensures Fair(cs, keys + {key}, remote, budget, Consider(sel, key, Members(cs, key), remote, budget).value)
  {
    hide WithKey, Members, Tokens, AnyLocal, AnyMandatory, KeyOf, Decide, Subjects, VerdictFits;
    var group := Members(cs, key);
    var next := Consider(sel, key, group, remote, budget).value;
    var verdict := VerdictOn(sel, group, remote, budget);
    AddGroupTokens(cs, sel.included, key);
    AddGroupMembers(cs, keys, key);
    DecisionsAdded(sel.decisions, group, verdict);
    DecisionsStayFair(cs, keys, remote, sel, key, verdict);
    forall k | k in keys + {key} ensures GroupFair(cs, remote, budget, next, k) {
      if k != key { assert GroupFair(cs, remote, budget, sel, k); }
    }
  }

  lemma DecisionsAdded(ds: seq<Decision>, group: seq<Candidate>, verdict: Verdict)
    ensures multiset(Subjects(ds + Decide(group, verdict))) == multiset(Subjects(ds)) + multiset(group)
  {
    assert Subjects(ds + Decide(group, verdict)) == Subjects(ds) + group;
  }

  lemma DecisionsStayFair(cs: seq<Candidate>, keys: set<GroupKey>, remote: bool, sel: Selection, key: GroupKey,
                          verdict: Verdict)
    requires key !in keys && key !in sel.included
    requires multiset(Subjects(sel.decisions)) == multiset(WithKey(cs, keys))
    requires forall d :: d in sel.decisions ==> VerdictFits(cs, remote, sel.included, d)
    requires verdict.ProviderPolicy? <==> Withheld(cs, key, remote)
    ensures var included := if verdict.Included? then sel.included + {key} else sel.included;
            forall d :: d in sel.decisions + Decide(Members(cs, key), verdict) ==> VerdictFits(cs, remote, included, d)
  {
    hide WithKey, Members, KeyOf, AnyLocal, Subjects;
    var group := Members(cs, key);
    var included := if verdict.Included? then sel.included + {key} else sel.included;
    MembersHaveKey(cs, key);
    WithKeyMembers(cs, keys);
    forall d | d in sel.decisions ensures VerdictFits(cs, remote, included, d) {
      SubjectKnown(sel.decisions, d);
      assert d.subject in multiset(WithKey(cs, keys));
    }
    forall d | d in Decide(group, verdict) ensures VerdictFits(cs, remote, included, d) {
      assert d.subject in group;
    }
  }

  lemma SubjectKnown(ds: seq<Decision>, d: Decision)
    requires d in ds
    ensures d.subject in multiset(Subjects(ds))
  {
    var i :| 0 <= i < |ds| && ds[i] == d;
    assert Subjects(ds)[i] == d.subject;
  }

  /** Conservation, atomic groups, the budget and privacy, for the whole selection. */
  lemma SelectionIsFair(cs: seq<Candidate>, remote: bool, budget: nat)
    ensures var result := Select(cs, remote, budget);
            result.Success? ==>
              && Fair(cs, SetOf(KeysInOrder(SelectionOrder(cs))), remote, budget, result.value)
              && multiset(Subjects(result.value.decisions)) == multiset(cs)
              && (forall c :: c in cs && c.mandatory ==> KeyOf(c) in result.value.included)
              && (forall c :: c in cs && remote && c.item.localOnly ==> KeyOf(c) !in result.value.included)
  {
    var keys, result := KeysInOrder(SelectionOrder(cs)), Select(cs, remote, budget);
    KeysCover(SelectionOrder(cs));
    SelectionOrderSorts(cs);
    GreedyIsFair(cs, keys, remote, budget);
    forall c | c in cs ensures KeyOf(c) in SetOf(keys) {
      assert c in multiset(SelectionOrder(cs));
    }
    WithAllKeys(cs, SetOf(keys));
    if result.Success? {
      forall c | c in cs
        ensures c.mandatory ==> KeyOf(c) in result.value.included
        ensures remote && c.item.localOnly ==> KeyOf(c) !in result.value.included
      {
        WithKeyMembers(cs, {KeyOf(c)});
        assert c in Members(cs, KeyOf(c));
        assert GroupFair(cs, remote, budget, result.value, KeyOf(c));
      }
    }
  }
}
