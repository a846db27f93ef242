/**
 Lower priorities never displace the groups that hold P0 context, the mandatory ones among them: selection
 among those groups, and any error, depends on those groups alone.
 */
module ContextPriority {
  import opened Wrappers
  import opened ContextSelection
  import opened ContextGuarantees

  /** The groups that hold a P0 candidate. */
  function CoreKeys(cs: seq<Candidate>): set<GroupKey> {
    set c | c in cs && c.priority == 0 :: KeyOf(c)
  }

  /** All members of those groups, whatever their own priority. */
  function Core(cs: seq<Candidate>): seq<Candidate> {
    WithKey(cs, CoreKeys(cs))
  }

  /** The P0 candidates of an ordered list are its front. */
  function CoreFront(sorted: seq<Candidate>): nat {
    if sorted == [] then 0
    else if sorted[|sorted| - 1].priority == 0 then |sorted|
    else CoreFront(sorted[..|sorted| - 1])
  }

  lemma {:induction false} FrontIsCore(sorted: seq<Candidate>)
    requires Ordered(sorted)
    ensures CoreFront(sorted) <= |sorted|
    ensures forall i :: 0 <= i < |sorted| ==> (sorted[i].priority == 0 <==> i < CoreFront(sorted))
    decreases |sorted|
  {
    if sorted != [] {
      var front, last := sorted[..|sorted| - 1], sorted[|sorted| - 1];
      FrontIsCore(front);
      if last.priority == 0 {
        forall i | 0 <= i < |sorted| ensures sorted[i].priority == 0 {
          assert i < |sorted| - 1 ==> !Before(last, sorted[i]);
        }
      }
    }
  }

  /** The keys of the P0 candidates are the core keys. */
  lemma FrontKeys(cs: seq<Candidate>, sorted: seq<Candidate>, n: nat)
    requires multiset(sorted) == multiset(cs) && n <= |sorted|
    requires forall i :: 0 <= i < |sorted| ==> (sorted[i].priority == 0 <==> i < n)
    ensures SetOf(KeysInOrder(sorted[..n])) == CoreKeys(cs)
  {
    hide KeysInOrder, KeyOf;
    var front := sorted[..n];
    KeysCover(front);
    SameMembers(cs, sorted);
    forall c | c in cs && c.priority == 0 ensures KeyOf(c) in KeysInOrder(front) {
      var i :| 0 <= i < |sorted| && sorted[i] == c;
      assert front[i] == c;
    }
    forall k | k in KeysInOrder(front) ensures k in CoreKeys(cs) {
      var c :| c in front && KeyOf(c) == k;
      assert c in sorted && c.priority == 0;
    }
  }

  /** Keeping the core groups of an ordered list keeps its front and adds no key. */
  lemma CoreOfSorted(front: seq<Candidate>, back: seq<Candidate>, keys: set<GroupKey>)
    requires SetOf(KeysInOrder(front)) == keys
    ensures KeysInOrder(WithKey(front + back, keys)) == KeysInOrder(front) <= KeysInOrder(front + back)
  {
    hide KeysInOrder, KeyOf, WithKey;
    KeysCover(front);
    WithKeyConcat(front, back, keys);
    WithAllKeys(front, keys);
    WithKeyMembers(back, keys);
    KeysConcat(front, WithKey(back, keys));
    KeysConcat(front, back);
  }

  /** In selection order the core groups come first, in the order they have among themselves. */
  lemma CoreKeysFirst(cs: seq<Candidate>)
    ensures var keys, coreKeys := KeysInOrder(SelectionOrder(cs)), KeysInOrder(SelectionOrder(Core(cs)));
            coreKeys <= keys && SetOf(coreKeys) == CoreKeys(cs)
  {
    hide SelectionOrder, KeysInOrder, WithKey, CoreKeys;
    var sorted := SelectionOrder(cs);
    SelectionOrderSorts(cs);
    FrontIsCore(sorted);
    var n := CoreFront(sorted);
    FrontKeys(cs, sorted, n);
    assert sorted == sorted[..n] + sorted[n..];
    CoreOfSorted(sorted[..n], sorted[n..], CoreKeys(cs));
    SortCommutes(cs, CoreKeys(cs));
  }

  lemma SameMembers(cs: seq<Candidate>, sorted: seq<Candidate>)
    requires multiset(cs) == multiset(sorted)
    ensures forall c :: c in cs <==> c in sorted
  {
    forall c ensures c in cs <==> c in sorted {
      assert c in cs <==> c in multiset(cs);
    }
  }

  /** Greedy selection sees only the members of the groups it considers. */
  lemma {:induction false} GreedyDependsOnMembers(
    cs: seq<Candidate>, cs': seq<Candidate>, keys: seq<GroupKey>, remote: bool, budget: nat)
    requires forall k :: k in keys ==> Members(cs, k) == Members(cs', k)
    ensures Greedy(cs, keys, remote, budget) == Greedy(cs', keys, remote, budget)
    decreases |keys|
  {
    hide Members, Consider;
    if keys != [] {
      assert keys[|keys| - 1] in keys;
      GreedyDependsOnMembers(cs, cs', keys[..|keys| - 1], remote, budget);
    }
  }

  /** Considering groups without mandatory members afterwards cannot fail, nor undo what came first. */
  lemma {:induction false} LaterGroupsAreHarmless(
    cs: seq<Candidate>, first: seq<GroupKey>, keys: seq<GroupKey>, remote: bool, budget: nat)
    requires first <= keys && Distinct(keys)
    requires forall i :: |first| <= i < |keys| ==> !AnyMandatory(Members(cs, keys[i]))
    ensures var early, late := Greedy(cs, first, remote, budget), Greedy(cs, keys, remote, budget);
            && (early.Failure? ==> late == early)
            && (early.Success? ==>
                  late.Success? && late.value.included * SetOf(first) == early.value.included * SetOf(first))
    decreases |keys|
  {
    hide Members, AnyMandatory, AnyLocal, Tokens, Decide;
    if |keys| > |first| {
      var front, key := keys[..|keys| - 1], keys[|keys| - 1];
      LaterGroupsAreHarmless(cs, first, front, remote, budget);
      assert !AnyMandatory(Members(cs, key));
      assert key !in SetOf(first);
    } else {
      assert first == keys;
    }
  }

  lemma CoreMembers(cs: seq<Candidate>, coreKeys: seq<GroupKey>)
    requires SetOf(coreKeys) == CoreKeys(cs)
    ensures forall k :: k in coreKeys ==> Members(cs, k) == Members(Core(cs), k)
  {
    forall k | k in coreKeys ensures Members(cs, k) == Members(Core(cs), k) {
      assert k in SetOf(coreKeys);
      WithKeyTwice(cs, CoreKeys(cs), {k});
    }
  }

  lemma OtherGroupsAreOptional(cs: seq<Candidate>, coreKeys: seq<GroupKey>, keys: seq<GroupKey>)
    requires SetOf(coreKeys) == CoreKeys(cs) && coreKeys <= keys && Distinct(keys)
    ensures forall i :: |coreKeys| <= i < |keys| ==> !AnyMandatory(Members(cs, keys[i]))
  {
    hide Members, KeyOf;
    forall i | |coreKeys| <= i < |keys| ensures !AnyMandatory(Members(cs, keys[i])) {
      assert forall j :: 0 <= j < |coreKeys| ==> coreKeys[j] == keys[j];
      assert keys[i] !in SetOf(coreKeys);
      MembersHaveKey(cs, keys[i]);
    }
  }

  lemma CoreDecides(cs: seq<Candidate>, remote: bool, budget: nat)
    ensures var core, all := Select(Core(cs), remote, budget), Select(cs, remote, budget);
            && (core.Failure? ==> all == core)
            && (core.Success? ==> all.Success? && all.value.included * CoreKeys(cs) == core.value.included)
  {
    hide Greedy, KeysInOrder, SelectionOrder, Core, CoreKeys, Members, AnyMandatory;
    var keys, coreKeys := KeysInOrder(SelectionOrder(cs)), KeysInOrder(SelectionOrder(Core(cs)));
    CoreKeysFirst(cs);
    KeysCover(SelectionOrder(cs));
    CoreMembers(cs, coreKeys);
    GreedyDependsOnMembers(cs, Core(cs), coreKeys, remote, budget);
    OtherGroupsAreOptional(cs, coreKeys, keys);
    LaterGroupsAreHarmless(cs, coreKeys, keys, remote, budget);
    KeysCover(SelectionOrder(Core(cs)));
    IncludedAreKeys(Core(cs), coreKeys, remote, budget);
  }

  lemma IncludedAreKeys(cs: seq<Candidate>, keys: seq<GroupKey>, remote: bool, budget: nat)
    requires Distinct(keys)
    ensures var result := Greedy(cs, keys, remote, budget);
            result.Success? ==> result.value.included <= SetOf(keys)
  {
    hide Greedy;
    GreedyIsFair(cs, keys, remote, budget);
  }

  /** Both selections fail with the same error, or the same candidates of the given groups are kept. */
  ghost predicate SameFate(
    cs: seq<Candidate>, r: Result<Selection, CompileError>, cs': seq<Candidate>, r': Result<Selection, CompileError>,
    keys: set<GroupKey>)
  {
    match r
    case Failure(e) => r' == Failure(e)
    case Success(sel) => r'.Success? && WithKey(cs, sel.included * keys) == WithKey(cs', r'.value.included * keys)
  }

  /**
   Two candidate lists with the same core fail alike, with the same error, or keep the same core groups:
   adding, removing or reordering groups that hold no P0 candidate makes no difference.
   */
  lemma LowerPrioritiesDoNotInterfere(cs: seq<Candidate>, cs': seq<Candidate>, remote: bool, budget: nat)
    requires Core(cs) == Core(cs')
    ensures SameFate(cs, Select(cs, remote, budget), cs', Select(cs', remote, budget), CoreKeys(cs))
  {
    hide Select;
    CoreDecides(cs, remote, budget);
    CoreDecides(cs', remote, budget);
    CoreKeysOfCore(cs);
    CoreKeysOfCore(cs');
    var r, r' := Select(cs, remote, budget), Select(cs', remote, budget);
    if r.Success? {
      var kept := r.value.included * CoreKeys(cs);
      WithKeyTwice(cs, CoreKeys(cs), kept);
      WithKeyTwice(cs', CoreKeys(cs'), kept);
    }
  }

  lemma CoreKeysOfCore(cs: seq<Candidate>)
    ensures CoreKeys(Core(cs)) == CoreKeys(cs)
  {
    WithKeyMembers(cs, CoreKeys(cs));
  }

  // ----- when mandatory context is certain to fit

  lemma {:induction false} GreedyUsesWhatItConsiders(cs: seq<Candidate>, keys: seq<GroupKey>, remote: bool, budget: nat)
    requires Distinct(keys) && Tokens(WithKey(cs, SetOf(keys))) <= budget
    ensures Greedy(cs, keys, remote, budget) != Failure(BudgetExceeded)
    ensures var result := Greedy(cs, keys, remote, budget);
            result.Success? ==> result.value.used <= Tokens(WithKey(cs, SetOf(keys)))
    decreases |keys|
  {
    hide WithKey, Members, Tokens, AnyMandatory, AnyLocal, Decide;
    if keys != [] {
      var front, key := keys[..|keys| - 1], keys[|keys| - 1];
      assert SetOf(keys) == SetOf(front) + {key} && key !in SetOf(front);
      AddGroupTokens(cs, SetOf(front), key);
      GreedyUsesWhatItConsiders(cs, front, remote, budget);
    } else {
      assert SetOf(keys) == {};
    }
  }

  /** If everything in the core groups fits, mandatory context is never refused for its size. */
  lemma CoreFitsNoBudgetError(cs: seq<Candidate>, remote: bool, budget: nat)
    requires Tokens(Core(cs)) <= budget
    ensures Select(cs, remote, budget) != Failure(BudgetExceeded)
  {
    hide Greedy;
    var coreKeys := KeysInOrder(SelectionOrder(Core(cs)));
    CoreDecides(cs, remote, budget);
    CoreKeysFirst(cs);
    KeysCover(SelectionOrder(Core(cs)));
    WithKeyTwice(cs, CoreKeys(cs), CoreKeys(cs));
    GreedyUsesWhatItConsiders(Core(cs), coreKeys, remote, budget);
  }
}
