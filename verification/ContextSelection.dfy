/**
 Which context a model step may see (`ContextCompiler.compile` in
 src/stata_research_agent/application/context_compiler.py), as functions on the list of candidates.

 After deduplication the item key of a candidate determines its position, so a candidate without a group key
 forms a group under its own item key.
 */
module ContextSelection {
  import opened Wrappers

  type ItemKey = (string, string, string)

  /** Kind, object type and object id; the content is represented by its length in bytes. */
  datatype Item = Item(key: ItemKey, localOnly: bool, contentBytes: nat)

  datatype RawCandidate =
    RawCandidate(item: Item, priority: nat, reason: string, mandatory: bool, group: Option<string>, recency: int)

  /** Priorities P0 to P3; mandatory context is P0. */
  type Candidate = c: RawCandidate | c.priority <= 3 && (c.mandatory ==> c.priority == 0)
    witness RawCandidate(Item(("", "", ""), false, 0), 0, "", false, None, 0)

  function Max(x: nat, y: nat): nat {
    if x >= y then x else y
  }

  /** Four bytes a token, rounded up, and twelve tokens for the wrapper. */
  function EstimateTokens(item: Item): nat {
    Max(1, (item.contentBytes + 3) / 4 + 12)
  }

  // ----- deduplication

  /** Strictly preferable under the same item key: mandatory first, then priority, then recency. */
  predicate Better(c: Candidate, prior: Candidate) {
    if c.mandatory != prior.mandatory then c.mandatory
    else if c.priority != prior.priority then c.priority < prior.priority
    else c.recency > prior.recency
  }

  function Position(cs: seq<Candidate>, key: ItemKey): (r: Option<nat>)
    ensures r.Some? ==> r.value < |cs| && cs[r.value].item.key == key
    ensures r.None? ==> forall i :: 0 <= i < |cs| ==> cs[i].item.key != key
  {
    if cs == [] then None
    else if cs[|cs| - 1].item.key == key then Some(|cs| - 1)
    else Position(cs[..|cs| - 1], key)
  }

  /** The first of the best candidates for every item key, in order of the keys' first appearance. */
  function Deduplicate(cs: seq<Candidate>): seq<Candidate> {
    if cs == [] then [] else Merge(Deduplicate(cs[..|cs| - 1]), cs[|cs| - 1])
  }

  function Merge(chosen: seq<Candidate>, c: Candidate): seq<Candidate> {
    match Position(chosen, c.item.key)
    case None => chosen + [c]
    case Some(i) => if Better(c, chosen[i]) then chosen[i := c] else chosen
  }

  // ----- order and groups

  /** Strictly earlier in selection order; equal candidates keep their original order. */
  predicate Before(c: Candidate, d: Candidate) {
    c.priority < d.priority || (c.priority == d.priority && c.recency > d.recency)
  }

  function Insert(sorted: seq<Candidate>, c: Candidate): seq<Candidate> {
    if sorted == [] || !Before(c, sorted[|sorted| - 1]) then sorted + [c]
    else Insert(sorted[..|sorted| - 1], c) + [sorted[|sorted| - 1]]
  }

  function SelectionOrder(cs: seq<Candidate>): seq<Candidate> {
    if cs == [] then [] else Insert(SelectionOrder(cs[..|cs| - 1]), cs[|cs| - 1])
  }

  datatype GroupKey = Named(name: string) | Single(key: ItemKey)

  /** An empty group key counts as none. */
  function KeyOf(c: Candidate): GroupKey {
    if c.group.Some? && c.group.value != "" then Named(c.group.value) else Single(c.item.key)
  }

  function KeysInOrder(cs: seq<Candidate>): seq<GroupKey> {
    if cs == [] then []
    else
      var keys, key := KeysInOrder(cs[..|cs| - 1]), KeyOf(cs[|cs| - 1]);
      if key in keys then keys else keys + [key]
  }

  function WithKey(cs: seq<Candidate>, keys: set<GroupKey>): seq<Candidate> {
    if cs == [] then [] else WithKey(cs[..|cs| - 1], keys) + Keep(cs[|cs| - 1], keys)
  }

  function Keep(c: Candidate, keys: set<GroupKey>): seq<Candidate> {
    if KeyOf(c) in keys then [c] else []
  }

  function Members(cs: seq<Candidate>, key: GroupKey): seq<Candidate> {
    WithKey(cs, {key})
  }

  function Tokens(cs: seq<Candidate>): nat {
    if cs == [] then 0 else Tokens(cs[..|cs| - 1]) + EstimateTokens(cs[|cs| - 1].item)
  }

  // ----- greedy selection

  datatype Verdict = Included | ProviderPolicy | TokenBudget

  datatype Decision = Decision(subject: Candidate, verdict: Verdict)

  datatype CompileError = NoBudget | PrivacyBoundary | BudgetExceeded

  datatype Selection = Selection(included: set<GroupKey>, used: nat, decisions: seq<Decision>)

  predicate AnyMandatory(cs: seq<Candidate>) {
    exists i :: 0 <= i < |cs| && cs[i].mandatory
  }

  predicate AnyLocal(cs: seq<Candidate>) {
    exists i :: 0 <= i < |cs| && cs[i].item.localOnly
  }

  function Decide(cs: seq<Candidate>, verdict: Verdict): (ds: seq<Decision>)
    ensures |ds| == |cs| && forall i :: 0 <= i < |cs| ==> ds[i] == Decision(cs[i], verdict)
  {
    seq(|cs|, i requires 0 <= i < |cs| => Decision(cs[i], verdict))
  }

  function Consider(sel: Selection, key: GroupKey, group: seq<Candidate>, remote: bool, budget: nat)
    : Result<Selection, CompileError>
  {
    if remote && AnyLocal(group) then
      if AnyMandatory(group) then Failure(PrivacyBoundary)
      else Success(sel.(decisions := sel.decisions + Decide(group, ProviderPolicy)))
    else if sel.used + Tokens(group) <= budget then
      Success(Selection(sel.included + {key}, sel.used + Tokens(group), sel.decisions + Decide(group, Included)))
    else if AnyMandatory(group) then Failure(BudgetExceeded)
    else Success(sel.(decisions := sel.decisions + Decide(group, TokenBudget)))
  }

  function Greedy(cs: seq<Candidate>, keys: seq<GroupKey>, remote: bool, budget: nat): Result<Selection, CompileError> {
    if keys == [] then Success(Selection({}, 0, []))
    else
      var key := keys[|keys| - 1];
      match Greedy(cs, keys[..|keys| - 1], remote, budget)
      case Failure(e) => Failure(e)
      case Success(sel) => Consider(sel, key, Members(cs, key), remote, budget)
  }

  function Select(cs: seq<Candidate>, remote: bool, budget: nat): Result<Selection, CompileError> {
    Greedy(cs, KeysInOrder(SelectionOrder(cs)), remote, budget)
  }

  // ----- what deduplication keeps

  ghost predicate DistinctItems(cs: seq<Candidate>) {
    forall i, j :: 0 <= i < j < |cs| ==> cs[i].item.key != cs[j].item.key
  }

  /** `cs[i]` is the first of the best candidates of `cs` for its item key. */
  ghost predicate FirstBest(cs: seq<Candidate>, i: nat) {
    && i < |cs|
    && (forall j :: 0 <= j < i && cs[j].item.key == cs[i].item.key ==> Better(cs[i], cs[j]))
    && (forall j :: i < j < |cs| && cs[j].item.key == cs[i].item.key ==> !Better(cs[j], cs[i]))
  }

  /** The item keys of `cs` in order of first appearance. */
  function ItemKeys(cs: seq<Candidate>): seq<ItemKey> {
    if cs == [] then [] else AddKey(ItemKeys(cs[..|cs| - 1]), cs[|cs| - 1].item.key)
  }

  function AddKey(keys: seq<ItemKey>, key: ItemKey): seq<ItemKey> {
    if key in keys then keys else keys + [key]
  }

  ghost predicate KeyedBy(cs: seq<Candidate>, keys: seq<ItemKey>) {
    |cs| == |keys| && forall i :: 0 <= i < |cs| ==> cs[i].item.key == keys[i]
  }

  ghost predicate Chosen(cs: seq<Candidate>, d: Candidate) {
    exists i: nat :: FirstBest(cs, i) && cs[i] == d
  }

  /** One candidate for every item key, in order of first appearance. */
  lemma {:induction false} DeduplicateKeys(cs: seq<Candidate>)
    ensures DistinctItems(Deduplicate(cs)) && KeyedBy(Deduplicate(cs), ItemKeys(cs))
    ensures forall i :: 0 <= i < |cs| ==> cs[i].item.key in ItemKeys(cs)
    decreases |cs|
  {
    hide Merge, AddKey;
    if cs != [] {
      DeduplicateKeys(cs[..|cs| - 1]);
      MergeKeys(Deduplicate(cs[..|cs| - 1]), ItemKeys(cs[..|cs| - 1]), cs[|cs| - 1]);
    }
  }

  lemma MergeKeys(chosen: seq<Candidate>, keys: seq<ItemKey>, c: Candidate)
    requires DistinctItems(chosen) && KeyedBy(chosen, keys)
    ensures DistinctItems(Merge(chosen, c)) && KeyedBy(Merge(chosen, c), AddKey(keys, c.item.key))
    ensures c.item.key in AddKey(keys, c.item.key) && forall k :: k in keys ==> k in AddKey(keys, c.item.key)
  {
    var p := Position(chosen, c.item.key);
    if p.Some? {
      assert keys[p.value] == c.item.key;
    } else {
      assert forall i :: 0 <= i < |keys| ==> keys[i] == chosen[i].item.key;
    }
  }

  /** Each of them is the first of the best for its key. */
  lemma {:induction false} DeduplicateKeepsBest(cs: seq<Candidate>)
    ensures forall d :: d in Deduplicate(cs) ==> Chosen(cs, d)
    decreases |cs|
  {
    hide Merge, Chosen;
    if cs != [] {
      var front, c := cs[..|cs| - 1], cs[|cs| - 1];
      var chosen := Deduplicate(front);
      DeduplicateKeepsBest(front);
      DeduplicateKeys(front);
      MergeMembers(chosen, ItemKeys(front), c);
      assert front + [c] == cs;
      forall d | d in Merge(chosen, c) ensures Chosen(front + [c], d) {
        if d in chosen && (d.item.key != c.item.key || !Better(c, d)) {
          StillChosen(front, c, d);
        } else {
          NewlyChosen(front, c, Position(chosen, c.item.key), chosen);
        }
      }
    }
  }

  lemma MergeMembers(chosen: seq<Candidate>, keys: seq<ItemKey>, c: Candidate)
    requires DistinctItems(chosen) && KeyedBy(chosen, keys)
    ensures var p := Position(chosen, c.item.key);
            && (p.None? ==> c.item.key !in keys)
            && (p.Some? ==> chosen[p.value] in chosen)
            && forall d :: d in Merge(chosen, c) ==>
                 || (d in chosen && (d.item.key != c.item.key || !Better(c, d)))
                 || (d == c && (p.Some? ==> Better(c, chosen[p.value])))
  {
    var p := Position(chosen, c.item.key);
    if p.None? { assert forall i :: 0 <= i < |keys| ==> keys[i] == chosen[i].item.key; }
  }

  lemma StillChosen(front: seq<Candidate>, c: Candidate, d: Candidate)
    requires Chosen(front, d) && (d.item.key != c.item.key || !Better(c, d))
    ensures Chosen(front + [c], d)
  {
    var i: nat :| FirstBest(front, i) && front[i] == d;
    assert FirstBest(front + [c], i);
  }

  lemma NewlyChosen(front: seq<Candidate>, c: Candidate, p: Option<nat>, chosen: seq<Candidate>)
    requires p == Position(chosen, c.item.key)
    requires p.None? ==> forall i :: 0 <= i < |front| ==> front[i].item.key != c.item.key
    requires p.Some? ==> Chosen(front, chosen[p.value]) && Better(c, chosen[p.value])
    ensures Chosen(front + [c], c)
  {
    if p.Some? {
      var i: nat :| FirstBest(front, i) && front[i] == chosen[p.value];
      BetterThanAll(front, i, c);
    }
    assert FirstBest(front + [c], |front|);
  }

  lemma BetterThanAll(front: seq<Candidate>, i: nat, c: Candidate)
    requires FirstBest(front, i) && front[i].item.key == c.item.key && Better(c, front[i])
    ensures forall j :: 0 <= j < |front| && front[j].item.key == c.item.key ==> Better(c, front[j])
  {
  }
}
