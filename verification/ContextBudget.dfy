/**
 The token budget of one model step (`DynamicContextBudgetPolicy.allocate` in
 src/stata_research_agent/application/context_budget.py) and the size check the gateway applies to the same
 input (src/stata_research_agent/application/model_gateway_service.py).  Texts are their lengths in bytes.
 */
module ContextBudget {
  import opened Wrappers
  import opened ContextSelection
  import opened ContextCompiler

  datatype ModelLimits = ModelLimits(contextWindow: int, maxOutput: int, reservedRuntime: nat)

  datatype Allocation = Allocation(
    contextWindow: int, reservedOutput: int, hardInputLimit: int, fixedInput: nat, safetyReserve: nat, itemBudget: int)

  datatype BudgetError = OutputReserveExhaustsWindow | PrefixExhaustsInput

  /** Four bytes a token, rounded up. */
  function RoundUp(bytes: nat): nat {
    (bytes + 3) / 4
  }

  function Allocate(model: ModelLimits, prefixBytes: nat): Result<Allocation, BudgetError> {
    var hardInputLimit := model.contextWindow - model.maxOutput;
    if hardInputLimit < 1 then Failure(OutputReserveExhaustsWindow)
    else
      var fixed := Max(1, RoundUp(prefixBytes));
      var itemBudget := hardInputLimit - fixed - model.reservedRuntime;
      if itemBudget < 1 then Failure(PrefixExhaustsInput)
      else
        Success(Allocation(
          model.contextWindow, model.maxOutput, hardInputLimit, fixed, model.reservedRuntime, itemBudget))
  }

  /** The window is divided without loss, and refused exactly when a part would be left with nothing. */
  lemma WindowIsDivided(model: ModelLimits, prefixBytes: nat)
    ensures var r := Allocate(model, prefixBytes);
            && (r.Success? ==>
                  && r.value.reservedOutput + r.value.fixedInput + r.value.safetyReserve + r.value.itemBudget
                       == model.contextWindow
                  && r.value.contextWindow == model.contextWindow && r.value.reservedOutput == model.maxOutput
                  && r.value.hardInputLimit == model.contextWindow - model.maxOutput
                  && r.value.safetyReserve == model.reservedRuntime
                  && r.value.itemBudget >= 1 && r.value.fixedInput >= 1 && 4 * r.value.fixedInput >= prefixBytes
                  && (r.value.fixedInput == 1 || 4 * (r.value.fixedInput - 1) < prefixBytes))
            && (r == Failure(OutputReserveExhaustsWindow) <==> model.maxOutput >= model.contextWindow)
            && (r.Success? <==>
                  model.maxOutput + Max(1, RoundUp(prefixBytes)) + model.reservedRuntime < model.contextWindow)
  {
  }

  // ----- the gateway's check of the normalized input

  function ContentBytes(items: seq<Item>): nat {
    if items == [] then 0 else ContentBytes(items[..|items| - 1]) + items[|items| - 1].contentBytes
  }

  /** `overhead` is every byte of wrapping, escaping and separation around the contents. */
  predicate GatewayAccepts(prefixBytes: nat, items: seq<Item>, overhead: nat, inputTokenLimit: int) {
    RoundUp(prefixBytes + ContentBytes(items) + overhead) <= inputTokenLimit
  }

  function ItemTokens(items: seq<Item>): nat {
    if items == [] then 0 else ItemTokens(items[..|items| - 1]) + EstimateTokens(items[|items| - 1])
  }

  /** The estimate of each item covers its content and leaves twelve tokens for its wrapper. */
  lemma {:induction false} EstimatesCoverContent(items: seq<Item>)
    ensures ContentBytes(items) + 48 * |items| <= 4 * ItemTokens(items)
    ensures (forall i :: 0 <= i < |items| ==> items[i].contentBytes % 4 == 0) ==>
              ContentBytes(items) + 48 * |items| == 4 * ItemTokens(items)
    decreases |items|
  {
    if items != [] { EstimatesCoverContent(items[..|items| - 1]); }
  }

  lemma {:induction false} TokensOfItems(cs: seq<Candidate>)
    ensures ItemTokens(ItemsOf(cs)) == Tokens(cs)
    decreases |cs|
  {
    if cs != [] {
      TokensOfItems(cs[..|cs| - 1]);
      assert ItemsOf(cs)[..|cs| - 1] == ItemsOf(cs[..|cs| - 1]);
    }
  }

  /** Whatever was compiled within the allocation passes the gateway, if the wrapping stays within its share. */
  lemma CompiledContextIsAccepted(
    model: ModelLimits, prefixBytes: nat, a: Allocation, candidates: seq<Candidate>, remote: bool, compiled: Compiled,
    overhead: nat)
    requires Allocate(model, prefixBytes) == Success(a)
    requires CompileCandidates(candidates, remote, Some(a.itemBudget)) == Success(compiled)
    requires overhead <= 4 * (12 * |compiled.items| + a.safetyReserve)
    ensures GatewayAccepts(prefixBytes, compiled.items, overhead, a.hardInputLimit)
  {
    CompiledTokens(candidates, remote, a.itemBudget, compiled);
    EstimatesCoverContent(compiled.items);
  }

  lemma CompiledTokens(candidates: seq<Candidate>, remote: bool, budget: int, compiled: Compiled)
    requires CompileCandidates(candidates, remote, Some(budget)) == Success(compiled)
    ensures ItemTokens(compiled.items) == compiled.tokens <= budget
  {
    hide Deduplicate, Select, WithKey, Tokens, ItemTokens;
    CompilationIsFair(candidates, remote, Some(budget));
    var included :| CompiledFair(Deduplicate(candidates), remote, budget, compiled, included);
    TokensOfItems(WithKey(Deduplicate(candidates), included));
  }

  /** That share cannot be widened: when contents come in whole tokens and use up the budget, it is the exact limit. */
  lemma OverheadShareIsExact(model: ModelLimits, prefixBytes: nat, a: Allocation, items: seq<Item>, overhead: nat)
    requires Allocate(model, prefixBytes) == Success(a)
    requires prefixBytes > 0 && prefixBytes % 4 == 0
    requires forall i :: 0 <= i < |items| ==> items[i].contentBytes % 4 == 0
    requires ItemTokens(items) == a.itemBudget
    ensures GatewayAccepts(prefixBytes, items, overhead, a.hardInputLimit)
            <==> overhead <= 4 * (12 * |items| + a.safetyReserve)
  {
    EstimatesCoverContent(items);
  }
}
