/**
 The context compiler as it is written (`ContextCompiler.compile` and `_deduplicate` in
 src/stata_research_agent/application/context_compiler.py): a dictionary and an order list, sorts by key,
 groups found through a position table, and a greedy pass.  Proved equal to the selection on candidate lists.
 */
module ContextCompiler {
  import opened Wrappers
  import opened ContextSelection
  import opened ContextGuarantees

  /** A candidate with its position after deduplication. */
  type Entry = (nat, Candidate)

  datatype Compiled = Compiled(items: seq<Item>, decisions: seq<Decision>, tokens: nat)

  const TRANSIENT_RECENCY := 1_000_000_000

  function WrapStatic(item: Item): Candidate {
    var mandatory := item.key.0 == "user_message";
    RawCandidate(item, if mandatory then 0 else 1, if mandatory then "turn_baseline" else "workspace_relevance",
                 mandatory, None, 0)
  }

  function WrapTransient(item: Item): Candidate {
    RawCandidate(item, 0, "runtime_feedback", true, None, TRANSIENT_RECENCY)
  }

  function Wrap(items: seq<Item>, wrap: Item -> Candidate): seq<Candidate> {
    seq(|items|, i requires 0 <= i < |items| => wrap(items[i]))
  }

  // ----- the library sort, by a strict order

  function InsertEntry(sorted: seq<Entry>, e: Entry, less: (Entry, Entry) -> bool): seq<Entry> {
    if sorted == [] || !less(e, sorted[|sorted| - 1]) then sorted + [e]
    else InsertEntry(sorted[..|sorted| - 1], e, less) + [sorted[|sorted| - 1]]
  }

  /** A stable sort. */
  function Sort(es: seq<Entry>, less: (Entry, Entry) -> bool): seq<Entry> {
    if es == [] then [] else InsertEntry(Sort(es[..|es| - 1], less), es[|es| - 1], less)
  }

  const SelectionLess := (e: Entry, f: Entry) => Before(e.1, f.1) || (!Before(f.1, e.1) && e.0 < f.0)

  const OrdinalLess := (e: Entry, f: Entry) => e.0 < f.0

  function Strip(es: seq<Entry>): seq<Candidate> {
    seq(|es|, i requires 0 <= i < |es| => es[i].1)
  }

  function Enumerate(cs: seq<Candidate>): seq<Entry> {
    seq(|cs|, i requires 0 <= i < |cs| => (i, cs[i]))
  }

  function EntriesWith(es: seq<Entry>, keys: set<GroupKey>): seq<Entry> {
    if es == [] then [] else EntriesWith(es[..|es| - 1], keys) + KeepEntry(es[|es| - 1], keys)
  }

  function KeepEntry(e: Entry, keys: set<GroupKey>): seq<Entry> {
    if KeyOf(e.1) in keys then [e] else []
  }

  ghost predicate InPosition(es: seq<Entry>) {
    forall i, j :: 0 <= i < j < |es| ==> es[i].0 < es[j].0
  }

  // ----- deduplication

  method DeduplicateCandidates(cs: seq<Candidate>) returns (unique: seq<Candidate>)
    ensures unique == Deduplicate(cs)
  {
    var chosen: map<ItemKey, Candidate> := map[];
    var order: seq<ItemKey> := [];
    for n := 0 to |cs|
      invariant Represents(chosen, order, Deduplicate(cs[..n]))
    {
      assert cs[..n + 1][..n] == cs[..n];
      var candidate := cs[n];
      var key := candidate.item.key;
      RepresentsAfter(chosen, order, Deduplicate(cs[..n]), candidate);
      if key !in chosen {
        order := order + [key];
        chosen := chosen[key := candidate];
      } else if Better(candidate, chosen[key]) {
        chosen := chosen[key := candidate];
      }
    }
    assert cs[..|cs|] == cs;
    unique := seq(|order|, i requires 0 <= i < |order| && order[i] in chosen => chosen[order[i]]);
  }

  ghost predicate Represents(chosen: map<ItemKey, Candidate>, order: seq<ItemKey>, unique: seq<Candidate>) {
    && KeyedBy(unique, order)
    && DistinctItems(unique)
    && (forall key :: key in chosen <==> key in order)
    && (forall i :: 0 <= i < |order| ==> order[i] in chosen && chosen[order[i]] == unique[i])
  }

  lemma RepresentsAfter(chosen: map<ItemKey, Candidate>, order: seq<ItemKey>, unique: seq<Candidate>, c: Candidate)
    requires Represents(chosen, order, unique)
    ensures var key := c.item.key;
            if key !in chosen then Represents(chosen[key := c], order + [key], Merge(unique, c))
            else if Better(c, chosen[key]) then Represents(chosen[key := c], order, Merge(unique, c))
            else Represents(chosen, order, Merge(unique, c))
  {
    MergeKeys(unique, order, c);
    var p := Position(unique, c.item.key);
    if p.Some? {
      assert order[p.value] == c.item.key;
    } else {
      assert forall i :: 0 <= i < |order| ==> order[i] == unique[i].item.key;
    }
  }

  // ----- sorting entries

  lemma {:induction false} InsertEntryMembers(sorted: seq<Entry>, e: Entry, less: (Entry, Entry) -> bool)
    ensures multiset(InsertEntry(sorted, e, less)) == multiset(sorted) + multiset{e}
    decreases |sorted|
  {
    if sorted != [] && less(e, sorted[|sorted| - 1]) {
      InsertEntryMembers(sorted[..|sorted| - 1], e, less);
      assert sorted == sorted[..|sorted| - 1] + [sorted[|sorted| - 1]];
    }
  }

  lemma {:induction false} SortMembers(es: seq<Entry>, less: (Entry, Entry) -> bool)
    ensures multiset(Sort(es, less)) == multiset(es)
    decreases |es|
  {
    if es != [] {
      SortMembers(es[..|es| - 1], less);
      InsertEntryMembers(Sort(es[..|es| - 1], less), es[|es| - 1], less);
      assert es == es[..|es| - 1] + [es[|es| - 1]];
    }
  }

  lemma StripSnoc(es: seq<Entry>, e: Entry)
    ensures Strip(es + [e]) == Strip(es) + [e.1]
  {
  }

  /** With the position as tie-breaker an entry is inserted where its candidate is. */
  lemma {:induction false} InsertStrips(sorted: seq<Entry>, e: Entry)
    requires forall i :: 0 <= i < |sorted| ==> sorted[i].0 < e.0
    ensures Strip(InsertEntry(sorted, e, SelectionLess)) == Insert(Strip(sorted), e.1)
    decreases |sorted|
  {
    if sorted == [] {
      StripSnoc([], e);
    } else {
      var front, last := sorted[..|sorted| - 1], sorted[|sorted| - 1];
      assert sorted == front + [last];
      StripSnoc(front, last);
      if Before(e.1, last.1) {
        InsertStrips(front, e);
        StripSnoc(InsertEntry(front, e, SelectionLess), last);
        assert Strip(sorted)[..|Strip(sorted)| - 1] == Strip(front);
      } else {
        StripSnoc(sorted, e);
      }
    }
  }

  lemma PositionsBelow(es: seq<Entry>, less: (Entry, Entry) -> bool, n: nat)
    requires forall i :: 0 <= i < |es| ==> es[i].0 < n
    ensures forall i :: 0 <= i < |Sort(es, less)| ==> Sort(es, less)[i].0 < n
  {
    SortMembers(es, less);
    forall i | 0 <= i < |Sort(es, less)| ensures Sort(es, less)[i].0 < n {
      assert Sort(es, less)[i] in multiset(es);
    }
  }

  lemma {:induction false} SortStrips(cs: seq<Candidate>)
    ensures Strip(Sort(Enumerate(cs), SelectionLess)) == SelectionOrder(cs)
    decreases |cs|
  {
    hide InsertEntry, Insert, SelectionLess, Before;
    if cs != [] {
      var n := |cs| - 1;
      var es := Enumerate(cs[..n]);
      SortStrips(cs[..n]);
      assert Enumerate(cs)[..n] == es && Enumerate(cs)[n] == (n, cs[n]);
      PositionsBelow(es, SelectionLess, n);
      InsertStrips(Sort(es, SelectionLess), (n, cs[n]));
    }
  }

  lemma InPositionSnoc(front: seq<Entry>, e: Entry)
    requires InPosition(front) && forall x :: x in front ==> x.0 < e.0
    ensures InPosition(front + [e])
  {
  }

  lemma {:induction false} InsertInPosition(sorted: seq<Entry>, e: Entry)
    requires InPosition(sorted) && forall x :: x in sorted ==> x.0 != e.0
    ensures InPosition(InsertEntry(sorted, e, OrdinalLess))
    decreases |sorted|
  {
    if sorted == [] {
      InPositionSnoc([], e);
    } else {
      var front, last := sorted[..|sorted| - 1], sorted[|sorted| - 1];
      if OrdinalLess(e, last) {
        InsertInPosition(front, e);
        InsertEntryMembers(front, e, OrdinalLess);
        forall x | x in InsertEntry(front, e, OrdinalLess) ensures x.0 < last.0 {
          assert x in multiset(InsertEntry(front, e, OrdinalLess));
        }
        InPositionSnoc(InsertEntry(front, e, OrdinalLess), last);
      } else {
        forall x | x in sorted ensures x.0 < e.0 { LastIsFurthest(sorted, x); assert last in sorted; }
        InPositionSnoc(sorted, e);
      }
    }
  }

  lemma LastIsFurthest(es: seq<Entry>, x: Entry)
    requires InPosition(es) && x in es
    ensures x == es[|es| - 1] || x.0 < es[|es| - 1].0
  {
  }

  ghost predicate DistinctPositions(es: seq<Entry>) {
    forall i, j :: 0 <= i < j < |es| ==> es[i].0 != es[j].0
  }

  lemma {:induction false} SortInPosition(es: seq<Entry>)
    requires DistinctPositions(es)
    ensures InPosition(Sort(es, OrdinalLess))
    decreases |es|
  {
    if es != [] {
      var front, last := es[..|es| - 1], es[|es| - 1];
      SortInPosition(front);
      SortMembers(front, OrdinalLess);
      forall x | x in Sort(front, OrdinalLess) ensures x.0 != last.0 {
        assert x in multiset(Sort(front, OrdinalLess));
        assert x in front;
      }
      InsertInPosition(Sort(front, OrdinalLess), last);
    }
  }

  lemma SameLast(es: seq<Entry>, fs: seq<Entry>)
    requires InPosition(es) && InPosition(fs) && multiset(es) == multiset(fs) && es != [] && fs != []
    ensures es[|es| - 1] == fs[|fs| - 1]
  {
    var e, f := es[|es| - 1], fs[|fs| - 1];
    assert e in multiset(fs) && f in multiset(es);
    LastIsFurthest(es, f);
    LastIsFurthest(fs, e);
  }

  /** Entries in position order are determined by which entries they are. */
  lemma {:induction false} PositionOrderUnique(es: seq<Entry>, fs: seq<Entry>)
    requires InPosition(es) && InPosition(fs) && multiset(es) == multiset(fs)
    ensures es == fs
    decreases |es|
  {
    SameLength(es, fs);
    if es != [] {
      SameLast(es, fs);
      var n := |es| - 1;
      DropLast(es);
      DropLast(fs);
      CancelEntry(multiset(es[..n]), multiset(fs[..n]), es[n]);
      PositionOrderUnique(es[..n], fs[..n]);
      assert es == es[..n] + [es[n]] && fs == fs[..n] + [fs[n]];
    }
  }

  lemma SameLength(es: seq<Entry>, fs: seq<Entry>)
    requires multiset(es) == multiset(fs)
    ensures |es| == |fs|
  {
    assert |es| == |multiset(es)|;
  }

  lemma DropLast(es: seq<Entry>)
    requires es != []
    ensures multiset(es) == multiset(es[..|es| - 1]) + multiset{es[|es| - 1]}
  {
    assert es == es[..|es| - 1] + [es[|es| - 1]];
  }

  lemma CancelEntry(m: multiset<Entry>, n: multiset<Entry>, x: Entry)
    requires m + multiset{x} == n + multiset{x}
    ensures m == n
  {
    assert m == (m + multiset{x}) - multiset{x};
    assert n == (n + multiset{x}) - multiset{x};
  }

  // ----- keeping groups

  lemma {:induction false} EntriesWithStrip(es: seq<Entry>, keys: set<GroupKey>)
    ensures Strip(EntriesWith(es, keys)) == WithKey(Strip(es), keys)
    decreases |es|
  {
    if es != [] {
      var front, last := es[..|es| - 1], es[|es| - 1];
      EntriesWithStrip(front, keys);
      assert Strip(es)[..|es| - 1] == Strip(front);
      if KeyOf(last.1) in keys { StripSnoc(EntriesWith(front, keys), last); }
    }
  }

  lemma {:induction false} EntriesWithCount(es: seq<Entry>, keys: set<GroupKey>)
    ensures forall x :: multiset(EntriesWith(es, keys))[x] == if KeyOf(x.1) in keys then multiset(es)[x] else 0
    decreases |es|
  {
    if es != [] {
      EntriesWithCount(es[..|es| - 1], keys);
      assert es == es[..|es| - 1] + [es[|es| - 1]];
    }
  }

  lemma {:induction false} EntriesWithInPosition(es: seq<Entry>, keys: set<GroupKey>)
    requires InPosition(es)
    ensures InPosition(EntriesWith(es, keys)) && forall x :: x in EntriesWith(es, keys) ==> x in es
    decreases |es|
  {
    hide KeyOf, InPosition;
    if es == [] {
      NothingInPosition();
    } else {
      var front, last := es[..|es| - 1], es[|es| - 1];
      assert es == front + [last];
      FrontInPosition(front, last);
      EntriesWithInPosition(front, keys);
      AppendedInPosition(front, last, EntriesWith(front, keys));
      assert EntriesWith(front, keys) + [] == EntriesWith(front, keys);
    }
  }

  lemma NothingInPosition()
    ensures InPosition([])
  {
  }

  lemma FrontInPosition(front: seq<Entry>, last: Entry)
    requires InPosition(front + [last])
    ensures InPosition(front) && forall x :: x in front ==> x.0 < last.0
  {
    var es := front + [last];
    assert forall i :: 0 <= i < |front| ==> es[i] == front[i];
    assert es[|front|] == last;
  }

  lemma AppendedInPosition(front: seq<Entry>, last: Entry, kept: seq<Entry>)
    requires InPosition(kept) && (forall x :: x in kept ==> x in front) && forall x :: x in front ==> x.0 < last.0
    ensures InPosition(kept + [last])
    ensures forall x :: x in kept + [last] ==> x in front + [last]
  {
    hide InPosition;
    InPositionSnoc(kept, last);
  }

  /** However a choice of groups was collected, sorting it by position gives the candidates in their own order. */
  lemma PositionSortRestores(cs: seq<Candidate>, collected: seq<Entry>, keys: set<GroupKey>)
    requires multiset(collected) == multiset(EntriesWith(Enumerate(cs), keys))
    ensures Sort(collected, OrdinalLess) == EntriesWith(Enumerate(cs), keys)
    ensures Strip(Sort(collected, OrdinalLess)) == WithKey(cs, keys)
  {
    hide EntriesWith, Sort, WithKey, OrdinalLess;
    var kept := EntriesWith(Enumerate(cs), keys);
    EntriesWithInPosition(Enumerate(cs), keys);
    DistinctFromMembers(kept, collected);
    SortInPosition(collected);
    SortMembers(collected, OrdinalLess);
    PositionOrderUnique(Sort(collected, OrdinalLess), kept);
    EntriesWithStrip(Enumerate(cs), keys);
    assert Strip(Enumerate(cs)) == cs;
  }

  lemma DistinctFromMembers(es: seq<Entry>, fs: seq<Entry>)
    requires InPosition(es) && multiset(es) == multiset(fs)
    ensures DistinctPositions(fs)
  {
    forall i, j | 0 <= i < j < |fs| ensures fs[i].0 != fs[j].0 {
      if fs[i] == fs[j] {
        TwiceInMultiset(fs, i, j);
        OnceInPosition(es, fs[i]);
      } else {
        assert fs[i] in multiset(es) && fs[j] in multiset(es);
      }
    }
  }

  lemma TwiceInMultiset(fs: seq<Entry>, i: nat, j: nat)
    requires i < j < |fs| && fs[i] == fs[j]
    ensures multiset(fs)[fs[i]] >= 2
  {
    assert fs == fs[..j] + fs[j..];
    assert fs[..j][i] == fs[i] && fs[j..][0] == fs[j];
    assert fs[i] in multiset(fs[..j]) && fs[i] in multiset(fs[j..]);
  }

  lemma {:induction false} OnceInPosition(es: seq<Entry>, x: Entry)
    requires InPosition(es)
    ensures multiset(es)[x] <= 1
    decreases |es|
  {
    if es != [] {
      var n := |es| - 1;
      OnceInPosition(es[..n], x);
      assert es == es[..n] + [es[n]];
      if x == es[n] { assert x !in es[..n]; }
    }
  }

  // ----- grouping

  ghost predicate Grouped(sorted: seq<Entry>, grouped: seq<seq<Entry>>, positions: map<GroupKey, nat>) {
    var keys := KeysInOrder(Strip(sorted));
    && |grouped| == |keys|
    && (forall key :: key in positions <==> key in keys)
    && (forall g :: 0 <= g < |keys| ==> positions[keys[g]] == g && grouped[g] == EntriesWith(sorted, {keys[g]}))
  }

  method GroupEntries(sorted: seq<Entry>) returns (grouped: seq<seq<Entry>>)
    ensures var keys := KeysInOrder(Strip(sorted));
            |grouped| == |keys| && forall g :: 0 <= g < |keys| ==> grouped[g] == EntriesWith(sorted, {keys[g]})
  {
    grouped := [];
    var positions: map<GroupKey, nat> := map[];
    for n := 0 to |sorted|
      invariant Grouped(sorted[..n], grouped, positions)
    {
      var entry := sorted[n];
      var key := KeyOf(entry.1);
      assert sorted[..n + 1] == sorted[..n] + [entry];
      GroupedAfter(sorted[..n], grouped, positions, entry);
      if key !in positions {
        positions := positions[key := |grouped|];
        grouped := grouped + [[entry]];
      } else {
        var position := positions[key];
        grouped := grouped[position := grouped[position] + [entry]];
      }
    }
    assert sorted[..|sorted|] == sorted;
  }

  lemma EntriesSnoc(es: seq<Entry>, e: Entry, key: GroupKey)
    ensures EntriesWith(es + [e], {key}) ==
              if KeyOf(e.1) == key then EntriesWith(es, {key}) + [e] else EntriesWith(es, {key})
  {
    assert (es + [e])[..|es|] == es;
    assert EntriesWith(es, {key}) + [] == EntriesWith(es, {key});
  }

  lemma GroupedAfter(sorted: seq<Entry>, grouped: seq<seq<Entry>>, positions: map<GroupKey, nat>, e: Entry)
    requires Grouped(sorted, grouped, positions)
    ensures var key := KeyOf(e.1);
            if key !in positions then Grouped(sorted + [e], grouped + [[e]], positions[key := |grouped|])
            else positions[key] < |grouped|
                 && Grouped(sorted + [e], grouped[positions[key] := grouped[positions[key]] + [e]], positions)
  {
    hide EntriesWith, KeysInOrder, Strip, KeyOf;
    var keys, key := KeysInOrder(Strip(sorted)), KeyOf(e.1);
    StripSnoc(sorted, e);
    KeysSnoc(Strip(sorted), e.1);
    KeysCover(Strip(sorted));
    forall k
      ensures EntriesWith(sorted + [e], {k}) ==
                if key == k then EntriesWith(sorted, {k}) + [e] else EntriesWith(sorted, {k})
    {
      EntriesSnoc(sorted, e, k);
    }
    if key !in positions { NoEntriesWith(sorted, key); }
  }

  lemma {:induction false} NoEntriesWith(es: seq<Entry>, key: GroupKey)
    requires key !in KeysInOrder(Strip(es))
    ensures EntriesWith(es, {key}) == []
    decreases |es|
  {
    if es != [] {
      assert es == es[..|es| - 1] + [es[|es| - 1]];
      StripSnoc(es[..|es| - 1], es[|es| - 1]);
      KeysSnoc(Strip(es[..|es| - 1]), es[|es| - 1].1);
      NoEntriesWith(es[..|es| - 1], key);
    }
  }

  // ----- compilation

  method Compile(collected: seq<Candidate>, staticItems: seq<Item>, transientItems: seq<Item>, remote: bool,
                 stepBudget: Option<int>, defaultBudget: Option<int>)
    returns (result: Result<Compiled, CompileError>)
    ensures result == CompileCandidates(
                        collected + Wrap(staticItems, WrapStatic) + Wrap(transientItems, WrapTransient), remote,
                        if stepBudget.Some? then stepBudget else defaultBudget)
  {
    var budget := if stepBudget.Some? then stepBudget else defaultBudget;
    if budget.None? || budget.value < 1 {
      return Failure(NoBudget);
    }
    var candidates := collected;
    candidates := candidates + Wrap(staticItems, WrapStatic);
    candidates := candidates + Wrap(transientItems, WrapTransient);
    candidates := DeduplicateCandidates(candidates);
    result := SelectGroups(candidates, remote, budget.value);
  }

  /** What compilation means: deduplicate, select, and give the included candidates in their own order. */
  function CompileCandidates(candidates: seq<Candidate>, remote: bool, budget: Option<int>)
    : Result<Compiled, CompileError>
  {
    if budget.None? || budget.value < 1 then Failure(NoBudget)
    else CompiledFrom(Deduplicate(candidates), remote, budget.value)
  }

  function CompiledFrom(cs: seq<Candidate>, remote: bool, budget: nat): Result<Compiled, CompileError> {
    match Select(cs, remote, budget)
    case Failure(e) => Failure(e)
    case Success(sel) => Success(Compiled(ItemsOf(WithKey(cs, sel.included)), sel.decisions, sel.used))
  }

  function ItemsOf(cs: seq<Candidate>): seq<Item> {
    seq(|cs|, i requires 0 <= i < |cs| => cs[i].item)
  }

  method SelectGroups(cs: seq<Candidate>, remote: bool, budget: nat) returns (result: Result<Compiled, CompileError>)
    ensures result == CompiledFrom(cs, remote, budget)
  {
    hide Sort, EntriesWith, Enumerate, Strip, KeysInOrder, SelectionOrder, WithKey, AnyLocal, AnyMandatory, Decide,
         Tokens, SelectionLess, OrdinalLess, SetOf, Distinct;
    var indexed := Sort(Enumerate(cs), SelectionLess);
    SortStrips(cs);
    var grouped := GroupEntries(indexed);
    ghost var keys := KeysInOrder(SelectionOrder(cs));
    KeysCover(SelectionOrder(cs));
    var included: seq<Entry> := [];
    var decisions: seq<Decision> := [];
    var used: nat := 0;
    ghost var taken: set<GroupKey> := {};
    NothingCollected(cs);
    assert SetOf(keys[..0]) >= {};
    for g := 0 to |grouped|
      invariant |grouped| == |keys|
      invariant Greedy(cs, keys[..g], remote, budget) == Success(Selection(taken, used, decisions))
      invariant taken <= SetOf(keys[..g])
      invariant multiset(included) == multiset(EntriesWith(Enumerate(cs), taken))
    {
      GroupRestored(cs, indexed, grouped[g], keys[g]);
      ghost var key := keys[g];
      assert keys[..g + 1][..g] == keys[..g] && keys[..g + 1][g] == key;
      NewKey(keys, g);
      ghost var sel := Selection(taken, used, decisions);
      var group := Sort(grouped[g], OrdinalLess);
      var sources := Strip(group);
      var groupTokens := Tokens(sources);
      if remote && AnyLocal(sources) {
        if AnyMandatory(sources) {
          GreedyStops(cs, keys, g + 1, remote, budget);
          return Failure(PrivacyBoundary);
        }
        decisions := decisions + Decide(sources, ProviderPolicy);
        continue;
      }
      if used + groupTokens <= budget {
        Collected(cs, included, group, taken, key);
        taken := taken + {key};
        included := included + group;
        used := used + groupTokens;
        decisions := decisions + Decide(sources, Included);
        continue;
      }
      if AnyMandatory(sources) {
        GreedyStops(cs, keys, g + 1, remote, budget);
        return Failure(BudgetExceeded);
      }
      decisions := decisions + Decide(sources, TokenBudget);
    }
    assert keys[..|keys|] == keys;
    PositionSortRestores(cs, included, taken);
    included := Sort(included, OrdinalLess);
    return Success(Compiled(ItemsOf(Strip(included)), decisions, used));
  }

  lemma {:induction false} NothingCollected(cs: seq<Candidate>)
    ensures EntriesWith(Enumerate(cs), {}) == []
  {
    NoneKept(Enumerate(cs));
  }

  lemma {:induction false} NoneKept(es: seq<Entry>)
    ensures EntriesWith(es, {}) == []
    decreases |es|
  {
    if es != [] { NoneKept(es[..|es| - 1]); }
  }

  /** A group collected in selection order and sorted by position holds its members in their own order. */
  lemma GroupRestored(cs: seq<Candidate>, indexed: seq<Entry>, group: seq<Entry>, key: GroupKey)
    requires indexed == Sort(Enumerate(cs), SelectionLess) && group == EntriesWith(indexed, {key})
    ensures Strip(Sort(group, OrdinalLess)) == Members(cs, key)
    ensures Sort(group, OrdinalLess) == EntriesWith(Enumerate(cs), {key})
  {
    hide Sort, EntriesWith, WithKey, OrdinalLess, SelectionLess;
    SortMembers(Enumerate(cs), SelectionLess);
    EntriesWithCount(indexed, {key});
    EntriesWithCount(Enumerate(cs), {key});
    PositionSortRestores(cs, group, {key});
  }

  lemma NewKey(keys: seq<GroupKey>, g: nat)
    requires Distinct(keys) && g < |keys|
    ensures keys[g] !in SetOf(keys[..g]) && SetOf(keys[..g + 1]) == SetOf(keys[..g]) + {keys[g]}
  {
    assert keys[..g + 1] == keys[..g] + [keys[g]];
  }

  lemma Collected(cs: seq<Candidate>, included: seq<Entry>, group: seq<Entry>, taken: set<GroupKey>, key: GroupKey)
    requires multiset(included) == multiset(EntriesWith(Enumerate(cs), taken)) && key !in taken
    requires group == EntriesWith(Enumerate(cs), {key})
    ensures multiset(included + group) == multiset(EntriesWith(Enumerate(cs), taken + {key}))
  {
    hide EntriesWith;
    EntriesWithCount(Enumerate(cs), taken);
    EntriesWithCount(Enumerate(cs), {key});
    EntriesWithCount(Enumerate(cs), taken + {key});
    assert multiset(included + group) == multiset(included) + multiset(group);
  }

  /** An error ends the pass whatever groups remain. */
  lemma {:induction false} GreedyStops(cs: seq<Candidate>, keys: seq<GroupKey>, g: nat, remote: bool, budget: nat)
    requires g <= |keys|
    ensures Greedy(cs, keys[..g], remote, budget).Failure? ==>
              Greedy(cs, keys, remote, budget) == Greedy(cs, keys[..g], remote, budget)
    decreases |keys|
  {
    if g < |keys| {
      GreedyStops(cs, keys[..|keys| - 1], g, remote, budget);
      assert keys[..|keys| - 1][..g] == keys[..g];
    } else {
      assert keys[..g] == keys;
    }
  }

  /** The guarantees of a compiled context that includes exactly the groups in `included`. */
  ghost predicate CompiledFair(cs: seq<Candidate>, remote: bool, budget: nat, compiled: Compiled,
                               included: set<GroupKey>)
  {
    && compiled.items == ItemsOf(WithKey(cs, included))
    && compiled.tokens == Tokens(WithKey(cs, included)) <= budget
    && multiset(Subjects(compiled.decisions)) == multiset(cs)
    && (forall d :: d in compiled.decisions ==> VerdictFits(cs, remote, included, d))
    && (forall c :: c in cs && c.mandatory ==> KeyOf(c) in included)
    && (forall c :: c in cs && remote && c.item.localOnly ==> KeyOf(c) !in included)
    && (forall c :: c in cs && KeyOf(c) !in included && !Withheld(cs, KeyOf(c), remote) ==>
          compiled.tokens + Tokens(Members(cs, KeyOf(c))) > budget)
  }

  lemma CompilationIsFair(candidates: seq<Candidate>, remote: bool, budget: Option<int>)
    ensures var result := CompileCandidates(candidates, remote, budget);
            result.Success? ==>
              exists included :: CompiledFair(Deduplicate(candidates), remote, budget.value, result.value, included)
  {
    hide Deduplicate, SelectionOrder, KeysInOrder, Greedy, WithKey, Tokens, VerdictFits, AnyLocal, Subjects, ItemsOf;
    var cs, result := Deduplicate(candidates), CompileCandidates(candidates, remote, budget);
    if result.Success? {
      SelectionIsFair(cs, remote, budget.value);
      var sel := Select(cs, remote, budget.value).value;
      KeysCover(SelectionOrder(cs));
      SelectionOrderSorts(cs);
      forall c | c in cs && KeyOf(c) !in sel.included && !Withheld(cs, KeyOf(c), remote)
        ensures sel.used + Tokens(Members(cs, KeyOf(c))) > budget.value
      {
        assert c in multiset(SelectionOrder(cs));
        assert KeyOf(c) in SetOf(KeysInOrder(SelectionOrder(cs)));
        assert GroupFair(cs, remote, budget.value, sel, KeyOf(c));
      }
      assert CompiledFair(cs, remote, budget.value, result.value, sel.included);
    }
  }
}
