/**
 The provider circuit registry (`ProviderCircuitRegistry` in
 src/stata_research_agent/application/model_gateway_service.py).

 The registry keeps a counter and an opening time for each provider key and resets them lazily, when a query
 finds the cooldown over.  It is shown to refine a history of queries, failures and successes.
 */
module CircuitRegistry {
  import opened Wrappers

  /** Delay, circuit and fallback settings, within the bounds their constructor enforces. */
  datatype Policy = Policy(
    retryBase: real, retryMax: real, jitterRatio: real,
    threshold: nat, cooldown: real, attemptsBeforeFallback: nat)
  {
    predicate Valid() {
      && 0.0 <= retryBase <= retryMax && 0.0 <= jitterRatio <= 1.0
      && threshold >= 1 && cooldown > 0.0 && attemptsBeforeFallback >= 1
    }
  }

  /** Provider profile and endpoint origin. */
  type Key = (string, string)

  datatype CircuitState = CircuitState(consecutiveFailures: nat, openedAt: Option<real>)

  datatype CircuitEvent = Queried(key: Key, now: real) | Failed(key: Key, now: real) | Succeeded(key: Key)

  type History = seq<CircuitEvent>

  // ----- what a history means for one key

  ghost predicate Elapsed(policy: Policy, failures: seq<real>, now: real)
    requires failures != []
  {
    now - failures[|failures| - 1] >= policy.cooldown
  }

  ghost predicate Tripped(policy: Policy, failures: seq<real>) {
    failures != [] && |failures| >= policy.threshold
  }

  /**
   The times of the failures of `key` since its last success, or since the last query that found a tripped
   circuit whose cooldown was over.
   */
  ghost function Streak(policy: Policy, history: History, key: Key): seq<real> {
    if history == [] then []
    else StreakStep(policy, Streak(policy, history[..|history| - 1], key), key, history[|history| - 1])
  }

  ghost function StreakStep(policy: Policy, failures: seq<real>, key: Key, event: CircuitEvent): seq<real> {
    if event.key != key then failures
    else if event.Failed? then failures + [event.now]
    else if event.Succeeded? then []
    else if Tripped(policy, failures) && Elapsed(policy, failures, event.now) then []
    else failures
  }

  ghost predicate OpenAt(policy: Policy, history: History, key: Key, now: real) {
    var failures := Streak(policy, history, key);
    Tripped(policy, failures) && !Elapsed(policy, failures, now)
  }

  // ----- the registry

  class ProviderCircuitRegistry {
    var states: map<Key, CircuitState>
    ghost var history: History
    ghost const policy: Policy

    /** Every key's counter and opening time summarise its streak. */
    ghost predicate Valid()
      reads this
    {
      && policy.Valid()
      && forall key :: Summarises(StateOf(key), Streak(policy, history, key))
    }

    ghost function StateOf(key: Key): CircuitState
      reads this
    {
      if key in states then states[key] else CircuitState(0, None)
    }

    ghost predicate Summarises(state: CircuitState, failures: seq<real>) {
      && state.consecutiveFailures == |failures|
      && state.openedAt == if Tripped(policy, failures) then Some(failures[|failures| - 1]) else None
    }

    constructor (ghost fixed: Policy)
      requires fixed.Valid()
      ensures Valid() && policy == fixed && history == []
    {
      states, history, policy := map[], [], fixed;
    }

    method IsOpen(key: Key, now: real, settings: Policy) returns (open: bool)
      requires Valid() && settings == policy
      modifies this
      ensures Valid() && history == old(history) + [Queried(key, now)]
      ensures open <==> OpenAt(policy, old(history), key, now)
    {
      StreakAfter(policy, history, Queried(key, now));
      history := history + [Queried(key, now)];
      if key !in states || states[key].openedAt.None? {
        return false;
      }
      if now - states[key].openedAt.value >= settings.cooldown {
        states := states[key := CircuitState(0, None)];
        return false;
      }
      return true;
    }

    method RecordFailure(key: Key, now: real, settings: Policy)
      requires Valid() && settings == policy
      modifies this
      ensures Valid() && history == old(history) + [Failed(key, now)]
    {
      StreakAfter(policy, history, Failed(key, now));
      history := history + [Failed(key, now)];
      var state := if key in states then states[key] else CircuitState(0, None);
      state := state.(consecutiveFailures := state.consecutiveFailures + 1);
      if state.consecutiveFailures >= settings.threshold {
        state := state.(openedAt := Some(now));
      }
      states := states[key := state];
    }

    method RecordSuccess(key: Key)
      requires Valid()
      modifies this
      ensures Valid() && history == old(history) + [Succeeded(key)]
    {
      StreakAfter(policy, history, Succeeded(key));
      history := history + [Succeeded(key)];
      states := states - {key};
    }
  }

  lemma StreakAfter(policy: Policy, history: History, event: CircuitEvent)
    ensures forall key :: Streak(policy, history + [event], key) ==
              StreakStep(policy, Streak(policy, history, key), key, event)
  {
    assert (history + [event])[..|history|] == history;
  }

  // ----- consequences for callers

  function OfKey(history: History, key: Key): History {
    if history == [] then []
    else
      var earlier, last := OfKey(history[..|history| - 1], key), history[|history| - 1];
      if last.key == key then earlier + [last] else earlier
  }

  /** What happens to other providers is irrelevant. */
  lemma {:induction false} KeysAreIndependent(policy: Policy, history: History, key: Key)
    ensures Streak(policy, history, key) == Streak(policy, OfKey(history, key), key)
    decreases |history|
  {
    if history != [] {
      var front, last := history[..|history| - 1], history[|history| - 1];
      KeysAreIndependent(policy, front, key);
      if last.key == key {
        StreakAfter(policy, front, last);
        StreakAfter(policy, OfKey(front, key), last);
        assert front + [last] == history;
      }
    }
  }

  /** Once a query finds the circuit closed it stays closed until another failure is recorded. */
  lemma {:induction false} ClosedUntilNextFailure(
    policy: Policy, history: History, key: Key, now: real, more: History, later: real)
    requires !OpenAt(policy, history, key, now) && policy.Valid()
    requires forall e :: e in more ==> !(e.Failed? && e.key == key)
    ensures !OpenAt(policy, history + [Queried(key, now)] + more, key, later)
    ensures !Tripped(policy, Streak(policy, history + [Queried(key, now)] + more, key))
    decreases |more|
  {
    var queried := history + [Queried(key, now)];
    if more == [] {
      StreakAfter(policy, history, Queried(key, now));
      assert queried + more == queried;
    } else {
      var front, last := more[..|more| - 1], more[|more| - 1];
      ClosedUntilNextFailure(policy, history, key, now, front, later);
      StreakAfter(policy, queried + front, last);
      assert queried + more == (queried + front) + [last];
    }
  }

  /** The failures of a streak are all in the history, after the key's last success, in order. */
  function FailuresSinceSuccess(history: History, key: Key): seq<real> {
    if history == [] then []
    else
      var earlier, last := FailuresSinceSuccess(history[..|history| - 1], key), history[|history| - 1];
      if last.key != key then earlier
      else if last.Failed? then earlier + [last.now]
      else if last.Succeeded? then []
      else earlier
  }

  lemma {:induction false} StreakIsRecent(policy: Policy, history: History, key: Key)
    ensures var all, streak := FailuresSinceSuccess(history, key), Streak(policy, history, key);
            |streak| <= |all| && all[|all| - |streak|..] == streak
    decreases |history|
  {
    if history != [] {
      StreakIsRecent(policy, history[..|history| - 1], key);
    }
  }

  /** No query that this history contains came a cooldown or more after a failure then outstanding. */
  ghost predicate NeverCooledDown(policy: Policy, history: History, key: Key) {
    forall i :: 0 <= i < |history| && history[i].Queried? && history[i].key == key ==>
      var failures := FailuresSinceSuccess(history[..i], key);
      Tripped(policy, failures) ==> !Elapsed(policy, failures, history[i].now)
  }

  /** Without a lazy reset, open means: enough failures since the last success, the latest within the cooldown. */
  lemma {:induction false} OpenWithoutReset(policy: Policy, history: History, key: Key, now: real)
    requires NeverCooledDown(policy, history, key)
    ensures var failures := FailuresSinceSuccess(history, key);
            OpenAt(policy, history, key, now) <==> Tripped(policy, failures) && !Elapsed(policy, failures, now)
    ensures Streak(policy, history, key) == FailuresSinceSuccess(history, key)
    decreases |history|
  {
    if history != [] {
      var front := history[..|history| - 1];
      assert forall i :: 0 <= i < |front| ==> front[..i] == history[..i];
      OpenWithoutReset(policy, front, key, now);
      assert history[|history| - 1].Queried? && history[|history| - 1].key == key ==>
          history[..|history| - 1] == front;
    }
  }

  /** Dropping the part of a history before a lazy reset, or before a success, changes nothing afterwards. */
  lemma {:induction false} ResetForgets(policy: Policy, history: History, more: History, key: Key)
    requires Streak(policy, history, key) == []
    ensures Streak(policy, history + more, key) == Streak(policy, more, key)
    decreases |more|
  {
    if more == [] {
      assert history + more == history;
    } else {
      var front, last := more[..|more| - 1], more[|more| - 1];
      ResetForgets(policy, history, front, key);
      StreakAfter(policy, history + front, last);
      StreakAfter(policy, front, last);
      assert history + more == (history + front) + [last] && more == front + [last];
    }
  }
}
