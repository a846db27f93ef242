/**
 One model invocation with bounded provider attempts (`ModelGatewayService._execute_step` in
 src/stata_research_agent/application/model_gateway_service.py).

 The answers of the clock, the credential resolver, the transport and the output gate are inputs, one record
 per attempt.  What the gateway does is a journal: the commands it gives the repository, what it tells the
 circuit registry, and the delays it asks for, in order.
 */
module ModelGateway {
  import opened Wrappers
  import opened Sequences
  import opened CircuitRegistry

  /**
   A provider route; `origin` is None when no attempt can be prepared for it: its endpoint is not a URL this
   invocation may use, or the request for it cannot be encoded.
   */
  datatype Route = Route(profile: string, origin: Option<string>)

  datatype Config = Config(routes: seq<Route>, limit: nat, policy: Policy) {
    predicate Valid() {
      routes != [] && limit >= 1 && policy.Valid()
    }
  }

  datatype RawDispatchError =
    RawDispatchError(code: string, retrySafe: bool, deliveryUnknown: bool, retryAfter: Option<real>)

  /** A classified failure as its constructor leaves it: an unknown delivery is never safe to retry. */
  type DispatchError = e: RawDispatchError |
    !(e.retrySafe && e.deliveryUnknown) && (e.retryAfter.Some? ==> e.retryAfter.value >= 0.0)
    witness RawDispatchError("", false, false, None)

  datatype Credential = Resolved | Unavailable

  datatype Transport = Responded | Refused(error: DispatchError) | Broken

  /**
   Whether an output that passed the gate can be stored: `NotJson` has no JSON text, `NotText` no UTF-8 form, and
   `NotStored` is refused by the repository.
   */
  datatype Output = Storable | NotJson | NotText | NotStored

  /** `GateDown` is the error the gate declares, `GateRaised` any other exception during the inspection. */
  datatype Gate = Safe(output: Output) | Sensitive | GateDown | GateRaised

  /** What the world answers during one attempt. */
  datatype Answers = Answers(
    queriedAt: real, failedAt: real, credential: Credential, transport: Transport, gate: Gate, jitter: real)

  /** The answers by attempt ordinal. */
  type World = nat -> Answers

  /** Why an attempt was closed. */
  datatype Cause =
    | CircuitOpen
    | CredentialUnavailable
    | DispatchFailed(error: DispatchError)
    | TransportUnclassified
    | GateUnavailable
    | SensitiveOutput
    | Delivered

  datatype Entry =
    | Prepared(ordinal: nat, route: nat)
    | Circuit(event: CircuitEvent)
    | DispatchStarted(ordinal: nat)
    | Closed(ordinal: nat, cause: Cause, terminal: bool)
    | Slept(seconds: real)

  /** `Abandoned`: an exception escaped after the dispatch, and nothing more was recorded. */
  datatype Outcome =
    | Ended(cause: Cause)
    | Abandoned
    | EndpointRejected
    | LimitPassed

  // ----- the delay before a retry

  function Pow2(n: nat): real {
    if n == 0 then 1.0 else 2.0 * Pow2(n - 1)
  }

  function Min(x: real, y: real): real {
    if x <= y then x else y
  }

  function Max(x: real, y: real): real {
    if x >= y then x else y
  }

  function RetryDelay(policy: Policy, ordinal: nat, error: DispatchError, jitter: real): real
    requires ordinal >= 1
  {
    Jittered(RetryBase(policy, ordinal, error), policy.jitterRatio, jitter)
  }

  /** What the provider asked for, or exponential backoff, up to the limit. */
  function RetryBase(policy: Policy, ordinal: nat, error: DispatchError): real
    requires ordinal >= 1
  {
    if error.retryAfter.Some? then Min(error.retryAfter.value, policy.retryMax)
    else Min(policy.retryMax, policy.retryBase * Pow2(ordinal - 1))
  }

  /** Jitter in the unit interval, as a swing between -1 and 1. */
  function Swing(jitter: real): (s: real)
    ensures -1.0 <= s <= 1.0 && (s >= 0.0 <==> jitter >= 0.5)
  {
    2.0 * Min(1.0, Max(0.0, jitter)) - 1.0
  }

  function Jittered(base: real, ratio: real, jitter: real): real {
    Max(0.0, base * (1.0 + ratio * Swing(jitter)))
  }

  // ----- the loop as a function

  datatype Next = Done(outcome: Outcome) | SameRoute | NextRoute

  function KeyOf(route: Route): Key
    requires route.origin.Some?
  {
    (route.profile, route.origin.value)
  }

  /** What a failed or finished attempt leads to when another attempt is possible or not. */
  ghost function Attempt(c: Config, w: Answers, h: History, ordinal: nat, route: nat, onRoute: nat): (seq<Entry>, Next)
    requires c.Valid() && route < |c.routes| && c.routes[route].origin.Some? && ordinal >= 1
    ensures Attempt(c, w, h, ordinal, route, onRoute).1.NextRoute? ==> route + 1 < |c.routes|
  {
    var key := KeyOf(c.routes[route]);
    var opening := [Prepared(ordinal, route), Circuit(Queried(key, w.queriedAt))];
    if OpenAt(c.policy, h, key, w.queriedAt) then
      var terminal := route + 1 >= |c.routes| || ordinal == c.limit;
      (opening + [Closed(ordinal, CircuitOpen, terminal)], if terminal then Done(Ended(CircuitOpen)) else NextRoute)
    else if w.credential.Unavailable? then
      (opening + [Closed(ordinal, CredentialUnavailable, true)], Done(Ended(CredentialUnavailable)))
    else
      var dispatched := opening + [DispatchStarted(ordinal)];
      match w.transport
      case Broken => (dispatched + [Closed(ordinal, TransportUnclassified, true)], Done(Ended(TransportUnclassified)))
      case Refused(e) =>
        var terminal := !e.retrySafe || ordinal >= c.limit;
        var reported := if e.retrySafe then dispatched + [Circuit(Failed(key, w.failedAt))] else dispatched;
        var closed := reported + [Closed(ordinal, DispatchFailed(e), terminal)];
        if terminal then (closed, Done(Ended(DispatchFailed(e))))
        else
          (closed + [Slept(RetryDelay(c.policy, ordinal, e, w.jitter))],
           if onRoute >= c.policy.attemptsBeforeFallback && route + 1 < |c.routes| then NextRoute else SameRoute)
      case Responded =>
        match w.gate
        case GateDown => (dispatched + [Closed(ordinal, GateUnavailable, true)], Done(Ended(GateUnavailable)))
        case Sensitive => (dispatched + [Closed(ordinal, SensitiveOutput, true)], Done(Ended(SensitiveOutput)))
        case GateRaised => (dispatched, Done(Abandoned))
        case Safe(output) =>
          var reported := dispatched + [Circuit(Succeeded(key))];
          match output
          case NotJson => (dispatched, Done(Abandoned))
          case NotText | NotStored => (reported, Done(Abandoned))
          case Storable => (reported + [Closed(ordinal, Delivered, true)], Done(Ended(Delivered)))
  }

  /** The registry's share of a journal. */
  function CircuitEvents(journal: seq<Entry>): History {
    if journal == [] then []
    else
      var earlier, last := CircuitEvents(journal[..|journal| - 1]), journal[|journal| - 1];
      if last.Circuit? then earlier + [last.event] else earlier
  }

  /** The entries of each attempt from `ordinal` on, with `onRoute` attempts already made on route `route`. */
  ghost function Run(c: Config, world: World, h: History, ordinal: nat, route: nat, onRoute: nat)
    : (seq<seq<Entry>>, Outcome)
    requires c.Valid() && route < |c.routes| && ordinal >= 1
    decreases c.limit + 1 - ordinal
  {
    if ordinal > c.limit then ([], LimitPassed)
    else if c.routes[route].origin.None? then ([], EndpointRejected)
    else
      var (entries, next) := Attempt(c, world(ordinal), h, ordinal, route, onRoute + 1);
      var rest := match next
        case Done(outcome) => ([], outcome)
        case SameRoute => Run(c, world, h + CircuitEvents(entries), ordinal + 1, route, onRoute + 1)
        case NextRoute => Run(c, world, h + CircuitEvents(entries), ordinal + 1, route + 1, 0);
      ([entries] + rest.0, rest.1)
  }

  function Flatten(attempts: seq<seq<Entry>>): seq<Entry> {
    if attempts == [] then []
    else Flatten(attempts[..|attempts| - 1]) + attempts[|attempts| - 1]
  }

  // ----- the loop as it is written

  method ExecuteStep(c: Config, world: World, registry: ProviderCircuitRegistry)
    returns (outcome: Outcome, journal: seq<Entry>)
    requires c.Valid() && registry.Valid() && registry.policy == c.policy
    modifies registry
    ensures registry.Valid()
    ensures var run := Run(c, world, old(registry.history), 1, 0, 0);
            journal == Flatten(run.0) && outcome == run.1
    ensures registry.history == old(registry.history) + CircuitEvents(journal)
  {
    journal := [];
    var routeIndex, attemptsOnRoute := 0, 0;
    ghost var start, attempts := registry.history, [];
    ghost var whole := Run(c, world, start, 1, 0, 0);
    RunStarts(c, world, start);
    for ordinal := 1 to c.limit + 1
      invariant routeIndex < |c.routes|
      invariant registry.Valid() && registry.policy == c.policy
      invariant registry.history == start + CircuitEvents(journal)
      invariant journal == Flatten(attempts)
      invariant Reached(c, world, registry.history, ordinal, routeIndex, attemptsOnRoute, whole, attempts)
    {
      ghost var here := registry.history;
      attemptsOnRoute := attemptsOnRoute + 1;
      if c.routes[routeIndex].origin.None? {
        RunStops(c, world, here, ordinal, routeIndex, attemptsOnRoute - 1, whole, attempts);
        return EndpointRejected, journal;
      }
      var made, next := AttemptOnce(c, world(ordinal), registry, ordinal, routeIndex, attemptsOnRoute);
      CircuitEventsConcat(journal, made);
      Regroup(start, CircuitEvents(journal), CircuitEvents(made));
      RunContinues(c, world, here, ordinal, routeIndex, attemptsOnRoute - 1, whole, attempts, made, next,
                   registry.history);
      journal := journal + made;
      FlattenSnoc(attempts, made);
      attempts := attempts + [made];
      if next.Done? {
        return next.outcome, journal;
      }
      if next.NextRoute? {
        routeIndex := routeIndex + 1;
        attemptsOnRoute := 0;
      }
    }
    RunStops(c, world, registry.history, c.limit + 1, routeIndex, attemptsOnRoute, whole, attempts);
    return LimitPassed, journal;
  }

  lemma FlattenSnoc(attempts: seq<seq<Entry>>, made: seq<Entry>)
    ensures Flatten(attempts + [made]) == Flatten(attempts) + made
  {
    assert (attempts + [made])[..|attempts|] == attempts;
  }

  /** `whole` is the attempts made already, followed by the run from here. */
  ghost predicate Reached(c: Config, world: World, h: History, ordinal: nat, route: nat, onRoute: nat,
                          whole: (seq<seq<Entry>>, Outcome), attempts: seq<seq<Entry>>)
    requires c.Valid() && route < |c.routes| && ordinal >= 1
  {
    var rest := Run(c, world, h, ordinal, route, onRoute);
    whole == (attempts + rest.0, rest.1)
  }

  lemma RunStarts(c: Config, world: World, h: History)
    requires c.Valid()
    ensures h + CircuitEvents([]) == h && Reached(c, world, h, 1, 0, 0, Run(c, world, h, 1, 0, 0), [])
  {
    var whole := Run(c, world, h, 1, 0, 0);
    assert [] + whole.0 == whole.0;
  }

  lemma RunStops(c: Config, world: World, h: History, ordinal: nat, route: nat, onRoute: nat,
                 whole: (seq<seq<Entry>>, Outcome), attempts: seq<seq<Entry>>)
    requires c.Valid() && route < |c.routes| && ordinal >= 1
    requires Reached(c, world, h, ordinal, route, onRoute, whole, attempts)
    requires ordinal > c.limit || c.routes[route].origin.None?
    ensures whole == (attempts, if ordinal > c.limit then LimitPassed else EndpointRejected)
  {
    assert attempts + [] == attempts;
  }

  lemma RunContinues(c: Config, world: World, h: History, ordinal: nat, route: nat, onRoute: nat,
                     whole: (seq<seq<Entry>>, Outcome), attempts: seq<seq<Entry>>,
                     entries: seq<Entry>, next: Next, later: History)
    requires c.Valid() && route < |c.routes| && 1 <= ordinal <= c.limit && c.routes[route].origin.Some?
    requires Reached(c, world, h, ordinal, route, onRoute, whole, attempts)
    requires (entries, next) == Attempt(c, world(ordinal), h, ordinal, route, onRoute + 1)
    requires later == h + CircuitEvents(entries)
    ensures next.Done? ==> whole == (attempts + [entries], next.outcome)
    ensures next.SameRoute? ==> Reached(c, world, later, ordinal + 1, route, onRoute + 1, whole, attempts + [entries])
    ensures next.NextRoute? ==>
              route + 1 < |c.routes| && Reached(c, world, later, ordinal + 1, route + 1, 0, whole, attempts + [entries])
  {
    match next
    case Done(_) => assert [entries] + [] == [entries];
    case SameRoute => Regroup(attempts, [entries], Run(c, world, later, ordinal + 1, route, onRoute + 1).0);
    case NextRoute => Regroup(attempts, [entries], Run(c, world, later, ordinal + 1, route + 1, 0).0);
  }

  /** A run is its first attempt followed by what that attempt leads to. */
  lemma RunStep(c: Config, world: World, h: History, ordinal: nat, route: nat, onRoute: nat)
    returns (rest: (seq<seq<Entry>>, Outcome))
    requires c.Valid() && route < |c.routes| && 1 <= ordinal <= c.limit && c.routes[route].origin.Some?
    ensures var (entries, next) := Attempt(c, world(ordinal), h, ordinal, route, onRoute + 1);
            && Run(c, world, h, ordinal, route, onRoute) == ([entries] + rest.0, rest.1)
            && (next.Done? ==> rest == ([], next.outcome))
            && (next.SameRoute? ==> rest == Run(c, world, h + CircuitEvents(entries), ordinal + 1, route, onRoute + 1))
            && (next.NextRoute? ==>
                  route + 1 < |c.routes| &&
                  rest == Run(c, world, h + CircuitEvents(entries), ordinal + 1, route + 1, 0))
  {
    hide Attempt;
    var (entries, next) := Attempt(c, world(ordinal), h, ordinal, route, onRoute + 1);
    match next
    case Done(outcome) => rest := ([], outcome);
    case SameRoute => rest := Run(c, world, h + CircuitEvents(entries), ordinal + 1, route, onRoute + 1);
    case NextRoute => rest := Run(c, world, h + CircuitEvents(entries), ordinal + 1, route + 1, 0);
  }

  /** The body of the loop for a usable endpoint. */
  method AttemptOnce(c: Config, w: Answers, registry: ProviderCircuitRegistry, ordinal: nat, routeIndex: nat,
                     attemptsOnRoute: nat)
    returns (journal: seq<Entry>, next: Next)
    requires c.Valid() && registry.Valid() && registry.policy == c.policy
    requires routeIndex < |c.routes| && c.routes[routeIndex].origin.Some? && 1 <= ordinal <= c.limit
    modifies registry
    ensures registry.Valid()
    ensures (journal, next) == Attempt(c, w, old(registry.history), ordinal, routeIndex, attemptsOnRoute)
    ensures registry.history == old(registry.history) + CircuitEvents(journal)
  {
    assert CircuitEvents([]) == [];
    hide OpenAt, RetryDelay, CircuitEvents;
    var key := KeyOf(c.routes[routeIndex]);
    ghost var start := registry.history;
    journal := Append([], Prepared(ordinal, routeIndex), start, start);
    var circuitOpen := registry.IsOpen(key, w.queriedAt, c.policy);
    journal := Append(journal, Circuit(Queried(key, w.queriedAt)), start, registry.history);
    assert journal == [Prepared(ordinal, routeIndex), Circuit(Queried(key, w.queriedAt))];
    if circuitOpen {
      var hasFallback := routeIndex + 1 < |c.routes|;
      var terminal := !hasFallback || ordinal == c.limit;
      journal := Append(journal, Closed(ordinal, CircuitOpen, terminal), start, registry.history);
      return journal, if terminal then Done(Ended(CircuitOpen)) else NextRoute;
    }
    if w.credential.Unavailable? {
      journal := Append(journal, Closed(ordinal, CredentialUnavailable, true), start, registry.history);
      return journal, Done(Ended(CredentialUnavailable));
    }
    journal := Append(journal, DispatchStarted(ordinal), start, registry.history);
    match w.transport {
      case Broken =>
        journal := Append(journal, Closed(ordinal, TransportUnclassified, true), start, registry.history);
        return journal, Done(Ended(TransportUnclassified));
      case Refused(error) =>
        if error.retrySafe {
          registry.RecordFailure(key, w.failedAt, c.policy);
          journal := Append(journal, Circuit(Failed(key, w.failedAt)), start, registry.history);
        }
        var routeExhausted := attemptsOnRoute >= c.policy.attemptsBeforeFallback;
        var hasFallback := routeIndex + 1 < |c.routes|;
        var canRetry := !error.deliveryUnknown && error.retrySafe && ordinal < c.limit;
        journal := Append(journal, Closed(ordinal, DispatchFailed(error), !canRetry), start, registry.history);
        if !canRetry {
          return journal, Done(Ended(DispatchFailed(error)));
        }
        journal := Append(journal, Slept(RetryDelay(c.policy, ordinal, error, w.jitter)), start, registry.history);
        return journal, if routeExhausted && hasFallback then NextRoute else SameRoute;
      case Responded =>
        match w.gate {
          case GateDown =>
            journal := Append(journal, Closed(ordinal, GateUnavailable, true), start, registry.history);
            return journal, Done(Ended(GateUnavailable));
          case Sensitive =>
            journal := Append(journal, Closed(ordinal, SensitiveOutput, true), start, registry.history);
            return journal, Done(Ended(SensitiveOutput));
          case GateRaised =>
            return journal, Done(Abandoned);
          case Safe(output) =>
            if output.NotJson? {
              return journal, Done(Abandoned);
            }
            registry.RecordSuccess(key);
            journal := Append(journal, Circuit(Succeeded(key)), start, registry.history);
            if !output.Storable? {
              return journal, Done(Abandoned);
            }
            journal := Append(journal, Closed(ordinal, Delivered, true), start, registry.history);
            return journal, Done(Ended(Delivered));
        }
    }
  }

  /** Adds one entry; `now` is the registry's history once the entry is made. */
  method Append(journal: seq<Entry>, e: Entry, ghost start: History, ghost now: History) returns (longer: seq<Entry>)
    requires if e.Circuit? then now == start + CircuitEvents(journal) + [e.event]
             else now == start + CircuitEvents(journal)
    ensures longer == journal + [e]
    ensures now == start + CircuitEvents(longer)
  {
    CircuitEventsSnoc(journal, e);
    longer := journal + [e];
  }

  lemma CircuitEventsSnoc(journal: seq<Entry>, e: Entry)
    ensures CircuitEvents(journal + [e]) == CircuitEvents(journal) + if e.Circuit? then [e.event] else []
  {
    assert (journal + [e])[..|journal|] == journal;
  }

  lemma {:induction false} CircuitEventsConcat(a: seq<Entry>, b: seq<Entry>)
    ensures CircuitEvents(a + b) == CircuitEvents(a) + CircuitEvents(b)
    decreases |b|
  {
    if b == [] {
      assert a + b == a && CircuitEvents(a) + [] == CircuitEvents(a);
    } else {
      var front, last := b[..|b| - 1], b[|b| - 1];
      CircuitEventsConcat(a, front);
      CircuitEventsSnoc(a + front, last);
      CircuitEventsSnoc(front, last);
      assert a + b == (a + front) + [last] && b == front + [last];
    }
  }
}
