/**
 What every gateway run guarantees, whatever the clock, the credential resolver, the transport, the output
 gate and the earlier history of the circuit registry do.
 */
module GatewaySafety {
  import opened Wrappers
  import opened Sequences
  import opened CircuitRegistry
  import opened ModelGateway

  // ----- reading one attempt

  /** The last entry but for the delay an attempt may ask for: the one that closes it, if anything does. */
  function ClosingIndex(entries: seq<Entry>): int {
    if entries != [] && entries[|entries| - 1].Slept? then |entries| - 2 else |entries| - 1
  }

  /** Why an attempt was closed, or None when it was left open. */
  function CauseOf(entries: seq<Entry>): Option<Cause> {
    var last := ClosingIndex(entries);
    if last >= 0 && entries[last].Closed? then Some(entries[last].cause) else None
  }

  /**
   An attempt opens with its preparation and a circuit query, dispatches at most once, and reports to the circuit
   only after that.
   */
  predicate OpensAs(entries: seq<Entry>, ordinal: nat, route: nat, last: nat) {
    && 2 <= last <= |entries|
    && entries[0] == Prepared(ordinal, route)
    && entries[1].Circuit? && entries[1].event.Queried?
    && (last > 2 ==> entries[2] == DispatchStarted(ordinal))
    && (forall i :: 3 <= i < last ==> entries[i].Circuit? && !entries[i].event.Queried?)
  }

  /** It then closes exactly once, at the end, or is left open after it was dispatched. */
  predicate IsAttempt(entries: seq<Entry>, ordinal: nat, route: nat, cause: Option<Cause>, terminal: bool) {
    match cause
    case Some(why) =>
      var last := ClosingIndex(entries);
      && last >= 2 && OpensAs(entries, ordinal, route, last)
      && entries[last] == Closed(ordinal, why, terminal)
    case None => |entries| > 2 && OpensAs(entries, ordinal, route, |entries|)
  }

  predicate Ends(entries: seq<Entry>) {
    var last := ClosingIndex(entries);
    last >= 0 && entries[last].Closed? && entries[last].terminal
  }

  function RouteOf(entries: seq<Entry>): nat {
    if entries != [] && entries[0].Prepared? then entries[0].route else 0
  }

  predicate Dispatched(entries: seq<Entry>) {
    exists i :: 0 <= i < |entries| && entries[i].DispatchStarted?
  }

  function SleepOf(entries: seq<Entry>): real {
    if entries != [] && entries[|entries| - 1].Slept? then entries[|entries| - 1].seconds else 0.0
  }

  /**
   Another attempt may follow an open circuit that has a successor route, and a refusal that is known to be
   safe to retry; nothing else.
   */
  predicate StopsRun(c: Config, cause: Option<Cause>, ordinal: nat, route: nat) {
    match cause
    case Some(CircuitOpen) => route + 1 >= |c.routes| || ordinal >= c.limit
    case Some(DispatchFailed(e)) => e.deliveryUnknown || !e.retrySafe || ordinal >= c.limit
    case _ => true
  }

  function OutcomeOf(cause: Option<Cause>): Outcome {
    if cause.Some? then Ended(cause.value) else Abandoned
  }

  predicate LeavesRoute(c: Config, cause: Option<Cause>, route: nat, onRoute: nat) {
    route + 1 < |c.routes| && (cause == Some(CircuitOpen) || onRoute >= c.policy.attemptsBeforeFallback)
  }

  /** The transport answered, and inspecting the answer raised, or the gate let it pass and it cannot be stored. */
  predicate Escapes(w: Answers) {
    w.transport.Responded? && (w.gate.GateRaised? || (w.gate.Safe? && !w.gate.output.Storable?))
  }

  /** The circuit is asked about this route first; an open one is never dispatched to. */
  ghost predicate Guarded(c: Config, h: History, entries: seq<Entry>, route: nat) {
    && route < |c.routes| && c.routes[route].origin.Some?
    && |entries| >= 2 && entries[1].Circuit? && entries[1].event.Queried?
    && var key, now := entries[1].event.key, entries[1].event.now;
       && key == KeyOf(c.routes[route])
       && (OpenAt(c.policy, h, key, now) <==> CauseOf(entries) == Some(CircuitOpen))
       && (OpenAt(c.policy, h, key, now) ==> !Dispatched(entries))
  }

  function MaxDelay(p: Policy): real {
    p.retryMax * (1.0 + p.jitterRatio)
  }

  lemma AttemptShape(c: Config, w: Answers, h: History, ordinal: nat, route: nat, onRoute: nat)
    requires c.Valid() && route < |c.routes| && c.routes[route].origin.Some? && 1 <= ordinal <= c.limit
    ensures var (entries, next) := Attempt(c, w, h, ordinal, route, onRoute);
            var cause := CauseOf(entries);
            && IsAttempt(entries, ordinal, route, cause, StopsRun(c, cause, ordinal, route))
            && Guarded(c, h, entries, route)
            && (cause.Some? && cause.value.DispatchFailed? ==> w.transport == Refused(cause.value.error))
            && (cause.None? <==> Dispatched(entries) && Escapes(w))
            && next == if StopsRun(c, cause, ordinal, route) then Done(OutcomeOf(cause))
                       else if LeavesRoute(c, cause, route, onRoute) then NextRoute else SameRoute
  {
    hide OpenAt, RetryDelay, CircuitEvents;
  }

  // ----- what an attempt owes to the world's answers

  /** The circuit was closed when the attempt asked. */
  ghost predicate Admitted(c: Config, w: Answers, h: History, route: nat)
    requires route < |c.routes| && c.routes[route].origin.Some?
  {
    !OpenAt(c.policy, h, KeyOf(c.routes[route]), w.queriedAt)
  }

  /** The provider is asked, and answers, through a closed circuit and with a credential. */
  ghost predicate Arrives(c: Config, w: Answers, h: History, route: nat)
    requires route < |c.routes| && c.routes[route].origin.Some?
  {
    Admitted(c, w, h, route) && w.credential.Resolved? && w.transport.Responded?
  }

  /** Whether an attempt is dispatched, and why it is closed, is settled by the circuit and the world's answers. */
  ghost predicate Follows(c: Config, w: Answers, h: History, entries: seq<Entry>, route: nat) {
    && route < |c.routes| && c.routes[route].origin.Some?
    && var cause, dispatched := CauseOf(entries), Dispatched(entries);
       && (dispatched <==> Admitted(c, w, h, route) && w.credential.Resolved?)
       && (cause == Some(CircuitOpen) <==> !Admitted(c, w, h, route))
       && (cause == Some(CredentialUnavailable) <==> Admitted(c, w, h, route) && w.credential.Unavailable?)
       && (cause == Some(TransportUnclassified) <==> dispatched && w.transport.Broken?)
       && (cause.Some? && cause.value.DispatchFailed? <==> dispatched && w.transport.Refused?)
       && (cause.Some? && cause.value.DispatchFailed? ==> w.transport == Refused(cause.value.error))
       && (cause == Some(GateUnavailable) <==> Arrives(c, w, h, route) && w.gate.GateDown?)
       && (cause == Some(SensitiveOutput) <==> Arrives(c, w, h, route) && w.gate.Sensitive?)
       && (cause == Some(Delivered) <==> Arrives(c, w, h, route) && w.gate == Safe(Storable))
       && (cause.None? <==> Arrives(c, w, h, route) && Escapes(w))
  }

  /** The circuit hears of retry-safe refusals and of outputs that have JSON text, and of nothing else. */
  ghost predicate Reports(c: Config, w: Answers, h: History, entries: seq<Entry>, route: nat) {
    && route < |c.routes| && c.routes[route].origin.Some?
    && var key, events := KeyOf(c.routes[route]), CircuitEvents(entries);
       && events != [] && events[0] == Queried(key, w.queriedAt)
       && events[1..] ==
            if Dispatched(entries) && w.transport.Refused? && w.transport.error.retrySafe then
              [Failed(key, w.failedAt)]
            else if Arrives(c, w, h, route) && w.gate.Safe? && !w.gate.output.NotJson? then [Succeeded(key)]
            else []
  }

  /** A refusal that another attempt follows is waited out as long as the policy says, and nothing else is. */
  ghost predicate Waits(c: Config, w: Answers, entries: seq<Entry>, ordinal: nat, route: nat)
    requires ordinal >= 1
  {
    var cause := CauseOf(entries);
    var waits := cause.Some? && cause.value.DispatchFailed? && !StopsRun(c, cause, ordinal, route);
    && (waits <==> entries != [] && entries[|entries| - 1].Slept?)
    && (waits ==> SleepOf(entries) == RetryDelay(c.policy, ordinal, cause.value.error, w.jitter))
  }

  ghost predicate Obeys(c: Config, w: Answers, h: History, entries: seq<Entry>, ordinal: nat, route: nat)
    requires ordinal >= 1
  {
    Follows(c, w, h, entries, route) && Reports(c, w, h, entries, route) && Waits(c, w, entries, ordinal, route)
  }

  lemma AttemptFollows(c: Config, w: Answers, h: History, ordinal: nat, route: nat, onRoute: nat)
    requires c.Valid() && route < |c.routes| && c.routes[route].origin.Some? && 1 <= ordinal <= c.limit
    ensures var entries := Attempt(c, w, h, ordinal, route, onRoute).0;
            Follows(c, w, h, entries, route) && Waits(c, w, entries, ordinal, route)
  {
    hide OpenAt, RetryDelay, CircuitEvents;
    var entries := Attempt(c, w, h, ordinal, route, onRoute).0;
    if |entries| > 2 && entries[2].DispatchStarted? { assert Dispatched(entries); }
  }

  lemma AttemptObeys(c: Config, w: Answers, h: History, ordinal: nat, route: nat, onRoute: nat)
    requires c.Valid() && route < |c.routes| && c.routes[route].origin.Some? && 1 <= ordinal <= c.limit
    ensures var entries := Attempt(c, w, h, ordinal, route, onRoute).0;
            Obeys(c, w, h, entries, ordinal, route) && RouteOf(entries) == route
  {
    AttemptFollows(c, w, h, ordinal, route, onRoute);
    AttemptReports(c, w, h, ordinal, route, onRoute);
    AttemptShape(c, w, h, ordinal, route, onRoute);
    hide Attempt, Follows, Reports, Waits, Guarded;
  }

  lemma AttemptReports(c: Config, w: Answers, h: History, ordinal: nat, route: nat, onRoute: nat)
    requires c.Valid() && route < |c.routes| && c.routes[route].origin.Some? && 1 <= ordinal <= c.limit
    ensures Reports(c, w, h, Attempt(c, w, h, ordinal, route, onRoute).0, route)
  {
    var entries, key := Attempt(c, w, h, ordinal, route, onRoute).0, KeyOf(c.routes[route]);
    AttemptFollows(c, w, h, ordinal, route, onRoute);
    assert CircuitEvents([]) == [];
    hide OpenAt, RetryDelay, CircuitEvents;
    var opening := [Prepared(ordinal, route)] + [Circuit(Queried(key, w.queriedAt))];
    CircuitEventsSnoc([], Prepared(ordinal, route));
    CircuitEventsSnoc([Prepared(ordinal, route)], Circuit(Queried(key, w.queriedAt)));
    assert [] + [Prepared(ordinal, route)] == [Prepared(ordinal, route)];
    TailReports(opening, entries);
  }

  /** The circuit events of a journal, one entry after the other, behind its first two. */
  lemma TailReports(opening: seq<Entry>, entries: seq<Entry>)
    requires 2 <= |entries| <= 6 && |opening| == 2 && entries[..2] == opening
    ensures CircuitEvents(entries) == CircuitEvents(opening) + EventAt(entries, 2) + EventAt(entries, 3) +
                                      EventAt(entries, 4) + EventAt(entries, 5)
  {
    hide CircuitEvents;
    var n := |entries|;
    assert entries[..n] == entries;
    forall k | 2 <= k < n ensures CircuitEvents(entries[..k + 1]) == CircuitEvents(entries[..k]) + EventAt(entries, k) {
      assert entries[..k + 1] == entries[..k] + [entries[k]];
      CircuitEventsSnoc(entries[..k], entries[k]);
    }
  }

  function EventAt(entries: seq<Entry>, k: nat): History {
    if k < |entries| && entries[k].Circuit? then [entries[k].event] else []
  }

  lemma AttemptSleep(c: Config, w: Answers, h: History, ordinal: nat, route: nat, onRoute: nat)
    requires c.Valid() && route < |c.routes| && c.routes[route].origin.Some? && 1 <= ordinal <= c.limit
    ensures var entries := Attempt(c, w, h, ordinal, route, onRoute).0;
            0.0 <= SleepOf(entries) <= if Ends(entries) || CauseOf(entries).None? then 0.0 else MaxDelay(c.policy)
  {
    if w.transport.Refused? { DelayBounds(c.policy, ordinal, w.transport.error, w.jitter); }
    ProductMonotone(c.policy.retryMax, 0.0, 1.0 + c.policy.jitterRatio);
  }

  lemma DelayBounds(p: Policy, ordinal: nat, error: DispatchError, jitter: real)
    requires p.Valid() && ordinal >= 1
    ensures 0.0 <= RetryDelay(p, ordinal, error, jitter) <= MaxDelay(p)
  {
    BaseBounds(p, ordinal, error);
    JitterBounds(RetryBase(p, ordinal, error), p.retryMax, p.jitterRatio, jitter);
  }

  lemma BaseBounds(p: Policy, ordinal: nat, error: DispatchError)
    requires p.Valid() && ordinal >= 1
    ensures 0.0 <= RetryBase(p, ordinal, error) <= p.retryMax
  {
    Pow2Positive(ordinal - 1);
    ProductMonotone(p.retryBase, 0.0, Pow2(ordinal - 1));
  }

  lemma JitterBounds(base: real, most: real, ratio: real, jitter: real)
    requires 0.0 <= base <= most && 0.0 <= ratio
    ensures 0.0 <= Jittered(base, ratio, jitter) <= most * (1.0 + ratio)
  {
    SwingBounds(ratio, Swing(jitter));
    FactorBounds(base, most, 1.0 + ratio * Swing(jitter), 1.0 + ratio);
  }

  lemma SwingBounds(ratio: real, swing: real)
    requires 0.0 <= ratio && swing <= 1.0
    ensures ratio * swing <= ratio
  {
    ProductMonotone(ratio, swing, 1.0);
  }

  lemma FactorBounds(x: real, y: real, a: real, b: real)
    requires 0.0 <= x <= y && a <= b && 0.0 <= b
    ensures x * a <= y * b && 0.0 <= y * b
  {
    ProductMonotone(x, a, b);
    ProductMonotone(b, x, y);
    ProductMonotone(y, 0.0, b);
  }

  lemma ProductMonotone(factor: real, x: real, y: real)
    requires factor >= 0.0 && x <= y
    ensures factor * x <= factor * y && x * factor <= y * factor
  {
  }

  predicate Honoured(p: Policy, ordinal: nat, error: DispatchError, jitter: real)
    requires ordinal >= 1 && error.retryAfter.Some?
  {
    RetryDelay(p, ordinal, error, jitter) >= error.retryAfter.value
  }

  /**
   A provider's own delay within the limit is honoured exactly when the jitter does not shorten it; above the limit,
   exactly when the jitter makes up for what the limit takes away.
   */
  lemma RetryAfterHonoured(p: Policy, ordinal: nat, error: DispatchError, jitter: real)
    requires p.Valid() && ordinal >= 1 && error.retryAfter.Some?
    ensures var wait := error.retryAfter.value;
            Honoured(p, ordinal, error, jitter) <==>
              if wait <= p.retryMax then wait == 0.0 || p.jitterRatio == 0.0 || jitter >= 0.5
              else p.retryMax * (p.jitterRatio * Swing(jitter)) >= wait - p.retryMax
  {
    var base := RetryBase(p, ordinal, error);
    BaseBounds(p, ordinal, error);
    JitteredIs(base, p.jitterRatio, jitter);
    Shortens(base, p.jitterRatio, Swing(jitter));
    hide Jittered, Swing;
  }

  lemma Shortens(base: real, ratio: real, swing: real)
    requires base >= 0.0 && ratio >= 0.0
    ensures base * (ratio * swing) >= 0.0 <==> base == 0.0 || ratio == 0.0 || swing >= 0.0
  {
    ProductSign(ratio, swing);
    ProductSign(base, ratio * swing);
  }

  /** The jitter is small enough for the delay never to be cut off at zero. */
  lemma JitteredIs(base: real, ratio: real, jitter: real)
    requires 0.0 <= base && 0.0 <= ratio <= 1.0
    ensures Jittered(base, ratio, jitter) == base + base * (ratio * Swing(jitter))
  {
    var change := ratio * Swing(jitter);
    ChangeBounds(ratio, Swing(jitter));
    Distribute(base, change);
    NonNegativeProduct(base, 1.0 + change);
    hide Swing;
  }

  lemma ChangeBounds(ratio: real, swing: real)
    requires 0.0 <= ratio <= 1.0 && -1.0 <= swing <= 1.0
    ensures -1.0 <= ratio * swing <= ratio
  {
    NonNegativeProduct(ratio, 1.0 + swing);
    Distribute(ratio, swing);
    SwingBounds(ratio, swing);
  }

  /** Before the jitter is known: honoured for certain only without jitter, and possible up to the longest delay. */
  lemma RetryAfterForEveryJitter(p: Policy, ordinal: nat, error: DispatchError)
    requires p.Valid() && ordinal >= 1 && error.retryAfter.Some?
    ensures var wait := error.retryAfter.value;
            && ((forall jitter :: Honoured(p, ordinal, error, jitter)) <==>
                  wait == 0.0 || (wait <= p.retryMax && p.jitterRatio == 0.0))
            && ((exists jitter :: Honoured(p, ordinal, error, jitter)) <==> wait <= MaxDelay(p))
  {
    var wait := error.retryAfter.value;
    forall jitter ensures Honoured(p, ordinal, error, jitter) ==> wait <= MaxDelay(p) {
      DelayBounds(p, ordinal, error, jitter);
    }
    forall jitter | wait == 0.0 || (wait <= p.retryMax && p.jitterRatio == 0.0)
      ensures Honoured(p, ordinal, error, jitter)
    {
      RetryAfterHonoured(p, ordinal, error, jitter);
    }
    RetryAfterHonoured(p, ordinal, error, 0.0);
    RetryAfterHonoured(p, ordinal, error, 1.0);
    assert Swing(0.0) == -1.0 && Swing(1.0) == 1.0;
    ProductSign(p.retryMax, p.jitterRatio);
    Negated(p.retryMax, p.jitterRatio);
    Distribute(p.retryMax, p.jitterRatio);
  }

  lemma Negated(x: real, y: real)
    ensures x * (y * -1.0) == -(x * y)
  {
  }

  /**
   Without a wish of the provider's, the delay before jitter starts at the base, doubles with every attempt and stops
   at the limit; a wish counts up to the limit.
   */
  lemma BackoffDoubles(p: Policy, ordinal: nat, error: DispatchError)
    requires p.Valid() && ordinal >= 1
    ensures error.retryAfter.None? ==>
              && RetryBase(p, 1, error) == Min(p.retryBase, p.retryMax)
              && RetryBase(p, ordinal + 1, error) == Min(2.0 * RetryBase(p, ordinal, error), p.retryMax)
    ensures error.retryAfter.Some? ==> RetryBase(p, ordinal, error) == Min(error.retryAfter.value, p.retryMax)
  {
    assert Pow2(0) == 1.0 && Pow2(ordinal) == 2.0 * Pow2(ordinal - 1);
    Doubled(p.retryBase, Pow2(ordinal - 1));
    BaseBounds(p, ordinal, error);
    hide Pow2;
  }

  lemma Doubled(x: real, y: real)
    ensures x * (2.0 * y) == 2.0 * (x * y)
  {
  }

  /** The policy the gateway uses by default. */
  const DEFAULT_POLICY := Policy(0.1, 8.0, 0.2, 3, 30.0, 2)

  /** With it, a provider that asks for five seconds may be asked again after four. */
  lemma RetryAfterUndercut()
    ensures DEFAULT_POLICY.Valid()
    ensures var error := RawDispatchError("rate_limited", true, false, Some(5.0));
            RetryDelay(DEFAULT_POLICY, 1, error, 0.0) == 4.0 && !Honoured(DEFAULT_POLICY, 1, error, 0.0)
  {
    assert Swing(0.0) == -1.0;
  }

  lemma Distribute(x: real, y: real)
    ensures x * (1.0 + y) == x + x * y
  {
  }

  lemma NonNegativeProduct(x: real, y: real)
    requires x >= 0.0 && y >= 0.0
    ensures x * y >= 0.0
  {
  }

  lemma ProductSign(x: real, y: real)
    requires x >= 0.0
    ensures y >= 0.0 ==> x * y >= 0.0
    ensures y < 0.0 && x > 0.0 ==> x * y < 0.0
    ensures x == 0.0 ==> x * y == 0.0
  {
  }

  lemma {:induction false} Pow2Positive(n: nat)
    ensures Pow2(n) >= 1.0
    decreases n
  {
    if n > 0 { Pow2Positive(n - 1); }
  }

  // ----- whole runs

  /**
   A legal run from attempt `ordinal`: what each attempt may look like, when the run stops, and which route
   the next attempt takes.
   */
  ghost predicate Legal(c: Config, h: History, attempts: seq<seq<Entry>>, outcome: Outcome,
                        ordinal: nat, route: nat, onRoute: nat)
    decreases |attempts|
  {
    route < |c.routes| &&
    if attempts == [] then
      if ordinal > c.limit then outcome == LimitPassed
      else outcome == EndpointRejected && c.routes[route].origin.None?
    else
      var entries, cause := attempts[0], CauseOf(attempts[0]);
      var ends := StopsRun(c, cause, ordinal, route);
      && ordinal <= c.limit && LegalAttempt(c, h, entries, ordinal, route)
      && if ends then |attempts| == 1 && outcome == OutcomeOf(cause)
         else if LeavesRoute(c, cause, route, onRoute + 1) then
           Legal(c, h + CircuitEvents(entries), attempts[1..], outcome, ordinal + 1, route + 1, 0)
         else Legal(c, h + CircuitEvents(entries), attempts[1..], outcome, ordinal + 1, route, onRoute + 1)
  }

  /** An attempt as `Legal` wants it; it is followed by another one unless it ends the invocation. */
  ghost predicate LegalAttempt(c: Config, h: History, entries: seq<Entry>, ordinal: nat, route: nat) {
    var ends := StopsRun(c, CauseOf(entries), ordinal, route);
    && route < |c.routes| && c.routes[route].origin.Some?
    && IsAttempt(entries, ordinal, route, CauseOf(entries), ends)
    && Guarded(c, h, entries, route)
    && 0.0 <= SleepOf(entries) <= (if ends then 0.0 else MaxDelay(c.policy))
  }

  lemma AttemptIsLegal(c: Config, w: Answers, h: History, ordinal: nat, route: nat, onRoute: nat)
    requires c.Valid() && route < |c.routes| && c.routes[route].origin.Some? && 1 <= ordinal <= c.limit
    ensures var (entries, next) := Attempt(c, w, h, ordinal, route, onRoute);
            var cause := CauseOf(entries);
            && LegalAttempt(c, h, entries, ordinal, route)
            && next == if StopsRun(c, cause, ordinal, route) then Done(OutcomeOf(cause))
                       else if LeavesRoute(c, cause, route, onRoute) then NextRoute else SameRoute
  {
    AttemptShape(c, w, h, ordinal, route, onRoute);
    AttemptSleep(c, w, h, ordinal, route, onRoute);
  }

  lemma {:induction false} RunIsLegal(c: Config, world: World, h: History, ordinal: nat, route: nat, onRoute: nat)
    requires c.Valid() && route < |c.routes| && 1 <= ordinal
    ensures var run := Run(c, world, h, ordinal, route, onRoute);
            Legal(c, h, run.0, run.1, ordinal, route, onRoute)
    decreases c.limit + 1 - ordinal
  {
    hide Attempt, Guarded, IsAttempt, SleepOf;
    if ordinal > c.limit || c.routes[route].origin.None? {
      return;
    }
    AttemptIsLegal(c, world(ordinal), h, ordinal, route, onRoute + 1);
    var entries := Attempt(c, world(ordinal), h, ordinal, route, onRoute + 1).0;
    var rest := RunStep(c, world, h, ordinal, route, onRoute);
    if StopsRun(c, CauseOf(entries), ordinal, route) {
      assert [entries] + [] == [entries];
    } else {
      var place := NextPlace(c, entries, route, onRoute);
      RunIsLegal(c, world, h + CircuitEvents(entries), ordinal + 1, place.0, place.1);
      LegalCons(c, h, entries, rest.0, rest.1, ordinal, route, onRoute);
    }
  }

  /** A legal attempt that does not end the invocation, before a legal run from the place it leads to. */
  lemma LegalCons(c: Config, h: History, entries: seq<Entry>, later: seq<seq<Entry>>, outcome: Outcome,
                  ordinal: nat, route: nat, onRoute: nat)
    requires ordinal <= c.limit && LegalAttempt(c, h, entries, ordinal, route)
    requires !StopsRun(c, CauseOf(entries), ordinal, route)
    requires var place := NextPlace(c, entries, route, onRoute);
             Legal(c, h + CircuitEvents(entries), later, outcome, ordinal + 1, place.0, place.1)
    ensures Legal(c, h, [entries] + later, outcome, ordinal, route, onRoute)
  {
    hide LegalAttempt, StopsRun;
    assert ([entries] + later)[1..] == later;
    assert route < |c.routes|;
  }

  /** Attempts are numbered from `first`, and each but the last closes once without ending the invocation. */
  predicate ClosesInTurn(attempts: seq<seq<Entry>>, first: nat) {
    && (forall k :: 0 <= k < |attempts| ==>
          IsAttempt(attempts[k], first + k, RouteOf(attempts[k]), CauseOf(attempts[k]), Ends(attempts[k])))
    && (forall k :: 0 <= k < |attempts| - 1 ==> CauseOf(attempts[k]).Some? && !Ends(attempts[k]))
  }

  predicate LastEnds(attempts: seq<seq<Entry>>, outcome: Outcome) {
    match outcome
    case Ended(cause) =>
      attempts != [] && Ends(attempts[|attempts| - 1]) && CauseOf(attempts[|attempts| - 1]) == Some(cause)
    case Abandoned => attempts != [] && CauseOf(attempts[|attempts| - 1]).None?
    case EndpointRejected =>
      attempts == [] || (CauseOf(attempts[|attempts| - 1]).Some? && !Ends(attempts[|attempts| - 1]))
    case LimitPassed => false
  }

  /**
   Every run stays within the limit and closes every attempt it prepares, with one exception: the last one is left
   open when the run is abandoned.  Exactly its last attempt ends the invocation, unless the run is abandoned or an
   endpoint is rejected: then none does.  The error after the loop is never reached.
   */
  lemma {:induction false} EveryAttemptCloses(
    c: Config, h: History, attempts: seq<seq<Entry>>, outcome: Outcome, ordinal: nat, route: nat, onRoute: nat)
    requires Legal(c, h, attempts, outcome, ordinal, route, onRoute) && ordinal <= c.limit
    ensures |attempts| <= c.limit + 1 - ordinal
    ensures ClosesInTurn(attempts, ordinal) && LastEnds(attempts, outcome)
    decreases |attempts|
  {
    if attempts != [] && !StopsRun(c, CauseOf(attempts[0]), ordinal, route) {
      var (route', onRoute') := NextPlace(c, attempts[0], route, onRoute);
      EveryAttemptCloses(c, h + CircuitEvents(attempts[0]), attempts[1..], outcome, ordinal + 1, route', onRoute');
      assert forall k :: 0 < k < |attempts| ==> attempts[k] == attempts[1..][k - 1];
    }
  }

  function NextPlace(c: Config, entries: seq<Entry>, route: nat, onRoute: nat): (nat, nat) {
    if LeavesRoute(c, CauseOf(entries), route, onRoute + 1) then (route + 1, 0) else (route, onRoute + 1)
  }

  /** No attempt follows an unknown delivery, an unsafe refusal, or a credential, transport or output failure. */
  predicate OnlySafeRetries(attempts: seq<seq<Entry>>) {
    forall k :: 0 <= k < |attempts| - 1 ==>
      var cause := CauseOf(attempts[k]);
      && cause.Some?
      && (cause.value.CircuitOpen? ||
           (cause.value.DispatchFailed? && cause.value.error.retrySafe && !cause.value.error.deliveryUnknown))
  }

  lemma {:induction false} RetriesAreSafe(
    c: Config, h: History, attempts: seq<seq<Entry>>, outcome: Outcome, ordinal: nat, route: nat, onRoute: nat)
    requires Legal(c, h, attempts, outcome, ordinal, route, onRoute)
    ensures OnlySafeRetries(attempts)
    decreases |attempts|
  {
    if attempts != [] && !StopsRun(c, CauseOf(attempts[0]), ordinal, route) {
      var (route', onRoute') := NextPlace(c, attempts[0], route, onRoute);
      RetriesAreSafe(c, h + CircuitEvents(attempts[0]), attempts[1..], outcome, ordinal + 1, route', onRoute');
      assert forall k :: 0 < k < |attempts| ==> attempts[k] == attempts[1..][k - 1];
    }
  }

  // ----- routes, circuits and delays along a run

  function AttemptsOn(attempts: seq<seq<Entry>>, route: nat): nat {
    if attempts == [] then 0
    else AttemptsOn(attempts[1..], route) + if RouteOf(attempts[0]) == route then 1 else 0
  }

  /** Routes are taken in order, one step at a time, and an open circuit is always left behind. */
  predicate RoutesAdvance(c: Config, attempts: seq<seq<Entry>>, route: nat) {
    && (attempts != [] ==> RouteOf(attempts[0]) == route)
    && (forall k :: 0 <= k < |attempts| ==> RouteOf(attempts[k]) < |c.routes|)
    && (forall k :: 0 <= k < |attempts| - 1 ==>
          RouteOf(attempts[k + 1]) - RouteOf(attempts[k])
            in if CauseOf(attempts[k]) == Some(CircuitOpen) then {1} else {0, 1})
  }

  lemma {:induction false} RoutesInOrder(
    c: Config, h: History, attempts: seq<seq<Entry>>, outcome: Outcome, ordinal: nat, route: nat, onRoute: nat)
    requires Legal(c, h, attempts, outcome, ordinal, route, onRoute)
    ensures RoutesAdvance(c, attempts, route)
    decreases |attempts|
  {
    if attempts != [] && !StopsRun(c, CauseOf(attempts[0]), ordinal, route) {
      var (route', onRoute') := NextPlace(c, attempts[0], route, onRoute);
      RoutesInOrder(c, h + CircuitEvents(attempts[0]), attempts[1..], outcome, ordinal + 1, route', onRoute');
      assert forall k :: 0 < k < |attempts| ==> attempts[k] == attempts[1..][k - 1];
    }
  }

  /** No route that has a successor gets more attempts than the policy allows before falling back. */
  lemma {:induction false} FallbackInTime(
    c: Config, h: History, attempts: seq<seq<Entry>>, outcome: Outcome, ordinal: nat, route: nat, onRoute: nat, r: nat)
    requires Legal(c, h, attempts, outcome, ordinal, route, onRoute) && c.Valid()
    requires route + 1 < |c.routes| ==> onRoute < c.policy.attemptsBeforeFallback
    ensures r < route ==> AttemptsOn(attempts, r) == 0
    ensures r + 1 < |c.routes| ==>
              AttemptsOn(attempts, r) + (if r == route then onRoute else 0) <= c.policy.attemptsBeforeFallback
    decreases |attempts|
  {
    if attempts != [] {
      if StopsRun(c, CauseOf(attempts[0]), ordinal, route) {
        assert attempts[1..] == [];
      } else {
        var (route', onRoute') := NextPlace(c, attempts[0], route, onRoute);
        FallbackInTime(c, h + CircuitEvents(attempts[0]), attempts[1..], outcome, ordinal + 1, route', onRoute', r);
      }
    }
  }

  /** Each attempt asked first whether its circuit was open, at that moment, and an open one was not dispatched to. */
  ghost predicate AllGuarded(c: Config, h: History, attempts: seq<seq<Entry>>) {
    forall k :: 0 <= k < |attempts| ==>
      Guarded(c, h + CircuitEvents(Flatten(attempts[..k])), attempts[k], RouteOf(attempts[k]))
  }

  lemma {:induction false} OpenCircuitsAreSkipped(
    c: Config, h: History, attempts: seq<seq<Entry>>, outcome: Outcome, ordinal: nat, route: nat, onRoute: nat)
    requires Legal(c, h, attempts, outcome, ordinal, route, onRoute)
    ensures AllGuarded(c, h, attempts)
    decreases |attempts|
  {
    if attempts != [] {
      var later := h + CircuitEvents(attempts[0]);
      if !StopsRun(c, CauseOf(attempts[0]), ordinal, route) {
        var (route', onRoute') := NextPlace(c, attempts[0], route, onRoute);
        OpenCircuitsAreSkipped(c, later, attempts[1..], outcome, ordinal + 1, route', onRoute');
      }
      forall k | 0 <= k < |attempts|
        ensures Guarded(c, h + CircuitEvents(Flatten(attempts[..k])), attempts[k], RouteOf(attempts[k]))
      {
        if k == 0 {
          assert h + CircuitEvents(Flatten(attempts[..0])) == h;
        } else {
          HistoryShift(h, attempts, k);
          assert attempts[k] == attempts[1..][k - 1];
        }
      }
    }
  }

  lemma HistoryShift(h: History, attempts: seq<seq<Entry>>, k: nat)
    requires 0 < k <= |attempts|
    ensures h + CircuitEvents(Flatten(attempts[..k])) ==
            (h + CircuitEvents(attempts[0])) + CircuitEvents(Flatten(attempts[1..][..k - 1]))
  {
    var rest := attempts[1..][..k - 1];
    assert attempts[..k] == [attempts[0]] + rest;
    FlattenCons(attempts[0], rest);
    CircuitEventsConcat(attempts[0], Flatten(rest));
    Regroup(h, CircuitEvents(attempts[0]), CircuitEvents(Flatten(rest)));
  }

  lemma {:induction false} FlattenCons(first: seq<Entry>, rest: seq<seq<Entry>>)
    ensures Flatten([first] + rest) == first + Flatten(rest)
    decreases |rest|
  {
    if rest == [] {
      FlattenSnoc([], first);
      assert [first] + rest == [] + [first] && [] + first == first + [];
    } else {
      var front, last := rest[..|rest| - 1], rest[|rest| - 1];
      assert rest == front + [last];
      FlattenCons(first, front);
      Regroup([first], front, [last]);
      FlattenSnoc([first] + front, last);
      FlattenSnoc(front, last);
      Regroup(first, Flatten(front), last);
    }
  }

  function TotalSleep(attempts: seq<seq<Entry>>): real {
    if attempts == [] then 0.0 else SleepOf(attempts[0]) + TotalSleep(attempts[1..])
  }

  function Times(n: nat, x: real): real {
    if n == 0 then 0.0 else x + Times(n - 1, x)
  }

  lemma {:induction false} TimesIsProduct(n: nat, x: real)
    ensures Times(n, x) == n as real * x
    decreases n
  {
    if n > 0 {
      TimesIsProduct(n - 1, x);
      assert n as real * x == (n - 1) as real * x + x;
    }
  }

  /** Each delay is the policy's maximum at most, and the attempt that ends the run asks for none. */
  lemma {:induction false} SleepIsBounded(
    c: Config, h: History, attempts: seq<seq<Entry>>, outcome: Outcome, ordinal: nat, route: nat, onRoute: nat)
    requires Legal(c, h, attempts, outcome, ordinal, route, onRoute)
    ensures outcome.Ended? || outcome.Abandoned? ==> attempts != []
    ensures 0.0 <= TotalSleep(attempts)
         <= Times(if outcome.Ended? || outcome.Abandoned? then |attempts| - 1 else |attempts|, MaxDelay(c.policy))
    decreases |attempts|
  {
    hide Guarded, IsAttempt, SleepOf, MaxDelay;
    if attempts != [] {
      if StopsRun(c, CauseOf(attempts[0]), ordinal, route) {
        assert attempts[1..] == [];
      } else {
        var (route', onRoute') := NextPlace(c, attempts[0], route, onRoute);
        SleepIsBounded(c, h + CircuitEvents(attempts[0]), attempts[1..], outcome, ordinal + 1, route', onRoute');
      }
    }
  }

  /** The guarantees of one invocation. */
  ghost predicate Guaranteed(c: Config, h: History, attempts: seq<seq<Entry>>, outcome: Outcome) {
    && |attempts| <= c.limit && ClosesInTurn(attempts, 1) && LastEnds(attempts, outcome)
    && OnlySafeRetries(attempts)
    && RoutesAdvance(c, attempts, 0)
    && (forall r: nat :: r + 1 < |c.routes| ==> AttemptsOn(attempts, r) <= c.policy.attemptsBeforeFallback)
    && AllGuarded(c, h, attempts)
    && (outcome.Ended? || outcome.Abandoned? ==>
          0.0 <= TotalSleep(attempts) <= (|attempts| - 1) as real * MaxDelay(c.policy))
  }

  lemma LegalIsGuaranteed(c: Config, h: History, attempts: seq<seq<Entry>>, outcome: Outcome)
    requires c.Valid() && Legal(c, h, attempts, outcome, 1, 0, 0)
    ensures Guaranteed(c, h, attempts, outcome)
  {
    hide Legal, ClosesInTurn, LastEnds, OnlySafeRetries, RoutesAdvance, AllGuarded, AttemptsOn, TotalSleep, MaxDelay;
    EveryAttemptCloses(c, h, attempts, outcome, 1, 0, 0);
    RetriesAreSafe(c, h, attempts, outcome, 1, 0, 0);
    RoutesInOrder(c, h, attempts, outcome, 1, 0, 0);
    forall r: nat | r + 1 < |c.routes| ensures AttemptsOn(attempts, r) <= c.policy.attemptsBeforeFallback {
      FallbackInTime(c, h, attempts, outcome, 1, 0, 0, r);
    }
    OpenCircuitsAreSkipped(c, h, attempts, outcome, 1, 0, 0);
    SleepIsBounded(c, h, attempts, outcome, 1, 0, 0);
    if outcome.Ended? || outcome.Abandoned? { TimesIsProduct(|attempts| - 1, MaxDelay(c.policy)); }
  }

  /** Which attempts are left open: those whose answer arrived and then raised. */
  ghost predicate LeftOpenIff(world: World, attempts: seq<seq<Entry>>, first: nat) {
    forall k :: 0 <= k < |attempts| ==>
      (CauseOf(attempts[k]).None? <==> Dispatched(attempts[k]) && Escapes(world(first + k)))
  }

  lemma {:induction false} OpenAttempts(c: Config, world: World, h: History, ordinal: nat, route: nat, onRoute: nat)
    requires c.Valid() && route < |c.routes| && 1 <= ordinal
    ensures LeftOpenIff(world, Run(c, world, h, ordinal, route, onRoute).0, ordinal)
    decreases c.limit + 1 - ordinal
  {
    hide Attempt, Escapes, Dispatched;
    if ordinal > c.limit || c.routes[route].origin.None? {
      assert Run(c, world, h, ordinal, route, onRoute).0 == [];
    } else {
      AttemptShape(c, world(ordinal), h, ordinal, route, onRoute + 1);
      var (entries, next) := Attempt(c, world(ordinal), h, ordinal, route, onRoute + 1);
      var rest := RunStep(c, world, h, ordinal, route, onRoute);
      if next.SameRoute? {
        OpenAttempts(c, world, h + CircuitEvents(entries), ordinal + 1, route, onRoute + 1);
      } else if next.NextRoute? {
        OpenAttempts(c, world, h + CircuitEvents(entries), ordinal + 1, route + 1, 0);
      }
      LeftOpenCons(world, entries, rest.0, ordinal);
    }
  }

  lemma LeftOpenCons(world: World, entries: seq<Entry>, later: seq<seq<Entry>>, first: nat)
    requires CauseOf(entries).None? <==> Dispatched(entries) && Escapes(world(first))
    requires LeftOpenIff(world, later, first + 1)
    ensures LeftOpenIff(world, [entries] + later, first)
  {
    hide Dispatched, Escapes, CauseOf;
    var all := [entries] + later;
    assert forall k :: 0 < k < |all| ==> all[k] == later[k - 1] && first + k == first + 1 + (k - 1);
  }

  /** Every attempt of a run obeys the answers it got, given the circuit's whole history at that moment. */
  ghost predicate AllObey(c: Config, world: World, h: History, attempts: seq<seq<Entry>>, first: nat)
    requires first >= 1
  {
    forall k :: 0 <= k < |attempts| ==>
      Obeys(c, world(first + k), h + CircuitEvents(Flatten(attempts[..k])), attempts[k], first + k,
            RouteOf(attempts[k]))
  }

  lemma {:induction false} RunObeys(c: Config, world: World, h: History, ordinal: nat, route: nat, onRoute: nat)
    requires c.Valid() && route < |c.routes| && 1 <= ordinal
    ensures AllObey(c, world, h, Run(c, world, h, ordinal, route, onRoute).0, ordinal)
    decreases c.limit + 1 - ordinal
  {
    hide Attempt, Obeys;
    if ordinal > c.limit || c.routes[route].origin.None? {
      assert Run(c, world, h, ordinal, route, onRoute).0 == [];
    } else {
      AttemptObeys(c, world(ordinal), h, ordinal, route, onRoute + 1);
      var (entries, next) := Attempt(c, world(ordinal), h, ordinal, route, onRoute + 1);
      var rest := RunStep(c, world, h, ordinal, route, onRoute);
      if next.SameRoute? {
        RunObeys(c, world, h + CircuitEvents(entries), ordinal + 1, route, onRoute + 1);
      } else if next.NextRoute? {
        RunObeys(c, world, h + CircuitEvents(entries), ordinal + 1, route + 1, 0);
      }
      ObeyCons(c, world, h, entries, rest.0, ordinal);
    }
  }

  lemma ObeyCons(c: Config, world: World, h: History, entries: seq<Entry>, later: seq<seq<Entry>>, first: nat)
    requires first >= 1 && Obeys(c, world(first), h, entries, first, RouteOf(entries))
    requires AllObey(c, world, h + CircuitEvents(entries), later, first + 1)
    ensures AllObey(c, world, h, [entries] + later, first)
  {
    hide Obeys, CircuitEvents, Flatten, RouteOf;
    var all := [entries] + later;
    assert all[1..] == later;
    forall k | 0 <= k < |all|
      ensures Obeys(c, world(first + k), h + CircuitEvents(Flatten(all[..k])), all[k], first + k, RouteOf(all[k]))
    {
      if k == 0 {
        NothingBefore(h, all);
      } else {
        HistoryShift(h, all, k);
        assert all[k] == later[k - 1] && first + k == first + 1 + (k - 1);
      }
    }
  }

  lemma NothingBefore(h: History, attempts: seq<seq<Entry>>)
    ensures h + CircuitEvents(Flatten(attempts[..0])) == h
  {
  }

  /**
   They hold whatever the world answers.  The run is abandoned exactly when an attempt was dispatched whose answer
   arrived and then raised, and that is the attempt left open.
   */
  lemma InvocationGuarantees(c: Config, world: World, h: History)
    requires c.Valid()
    ensures var (attempts, outcome) := Run(c, world, h, 1, 0, 0);
            && Guaranteed(c, h, attempts, outcome)
            && AllObey(c, world, h, attempts, 1)
            && LeftOpenIff(world, attempts, 1)
            && (outcome.Abandoned? <==>
                  exists k :: 0 <= k < |attempts| && Dispatched(attempts[k]) && Escapes(world(1 + k)))
  {
    hide Dispatched, Escapes, Run;
    var (attempts, outcome) := Run(c, world, h, 1, 0, 0);
    RunIsLegal(c, world, h, 1, 0, 0);
    LegalIsGuaranteed(c, h, attempts, outcome);
    OpenAttempts(c, world, h, 1, 0, 0);
    RunObeys(c, world, h, 1, 0, 0);
    AbandonedIff(world, attempts, outcome);
  }

  lemma AbandonedIff(world: World, attempts: seq<seq<Entry>>, outcome: Outcome)
    requires ClosesInTurn(attempts, 1) && LastEnds(attempts, outcome) && LeftOpenIff(world, attempts, 1)
    ensures outcome.Abandoned? <==>
              exists k :: 0 <= k < |attempts| && Dispatched(attempts[k]) && Escapes(world(1 + k))
  {
    hide Dispatched, Escapes, IsAttempt;
    if outcome.Abandoned? {
      var k := |attempts| - 1;
      assert Dispatched(attempts[k]) && Escapes(world(1 + k));
    }
  }

  // ----- an answer that strands its invocation

  /** Everything works at once, up to the gate's verdict. */
  function Answered(gate: Gate): Answers {
    Answers(0.0, 0.0, Resolved, Responded, gate, 0.0)
  }

  /** From a fresh registry, the first such answer leaves its attempt and its invocation open, exactly if it raises. */
  lemma StrandedByItsAnswer(c: Config, gate: Gate)
    requires c.Valid() && c.routes[0].origin.Some?
    ensures var (attempts, outcome) := Run(c, _ => Answered(gate), [], 1, 0, 0);
            && |attempts| == 1 && Dispatched(attempts[0])
            && (outcome == Abandoned <==> Escapes(Answered(gate)))
            && (CauseOf(attempts[0]).None? <==> Escapes(Answered(gate)))
            && (outcome == Ended(SensitiveOutput) <==> gate == Sensitive)
            && (outcome == Ended(GateUnavailable) <==> gate == GateDown)
            && (outcome == Ended(Delivered) <==> gate == Safe(Storable))
  {
    var entries := Attempt(c, Answered(gate), [], 1, 0, 1).0;
    assert !OpenAt(c.policy, [], KeyOf(c.routes[0]), 0.0);
    assert entries[2] == DispatchStarted(1);
  }

  // ----- when an endpoint can strand an invocation

  /** The routes a run can reach before its attempts run out. */
  predicate ReachableRoutesValid(c: Config) {
    forall i :: 0 <= i < |c.routes| && i < c.limit ==> c.routes[i].origin.Some?
  }

  lemma {:induction false} ValidRoutesNeverRejected(
    c: Config, h: History, attempts: seq<seq<Entry>>, outcome: Outcome, ordinal: nat, route: nat, onRoute: nat)
    requires Legal(c, h, attempts, outcome, ordinal, route, onRoute) && route < ordinal
    requires ReachableRoutesValid(c)
    ensures !outcome.EndpointRejected?
    decreases |attempts|
  {
    if attempts != [] && !StopsRun(c, CauseOf(attempts[0]), ordinal, route) {
      var (route', onRoute') := NextPlace(c, attempts[0], route, onRoute);
      ValidRoutesNeverRejected(c, h + CircuitEvents(attempts[0]), attempts[1..], outcome, ordinal + 1,
                              route', onRoute');
    }
  }

  const STILL := Answers(0.0, 0.0, Resolved, Broken, GateDown, 0.0)

  /** Every circuit is open at time zero and stays so while only queries at time zero are recorded. */
  ghost predicate AllOpen(c: Config, h: History) {
    forall i :: 0 <= i < |c.routes| && c.routes[i].origin.Some? ==>
      OpenAt(c.policy, h, KeyOf(c.routes[i]), 0.0)
  }

  lemma {:induction false} OpenCircuitsReachRoute(c: Config, h: History, bad: nat, route: nat)
    requires c.Valid() && route <= bad < |c.routes| && bad < c.limit
    requires c.routes[bad].origin.None? && forall i :: 0 <= i < bad ==> c.routes[i].origin.Some?
    requires AllOpen(c, h)
    ensures Run(c, _ => STILL, h, route + 1, route, 0).1.EndpointRejected?
    decreases bad - route
  {
    hide AllOpen, OpenAt, Attempt;
    var world: World := _ => STILL;
    if route < bad {
      var key := KeyOf(c.routes[route]);
      OneOfAllOpen(c, h, route);
      SkippedAtOnce(c, h, route);
      QueryOnly(Prepared(route + 1, route), Queried(key, 0.0), Closed(route + 1, CircuitOpen, false));
      QueryKeepsOpen(c, h, key);
      var rest := RunStep(c, world, h, route + 1, route, 0);
      OpenCircuitsReachRoute(c, h + [Queried(key, 0.0)], bad, route + 1);
    }
  }

  lemma SkippedAtOnce(c: Config, h: History, route: nat)
    requires c.Valid() && route + 1 < |c.routes| && route + 1 < c.limit && c.routes[route].origin.Some? && AllOpen(c, h)
    ensures var key := KeyOf(c.routes[route]);
            Attempt(c, STILL, h, route + 1, route, 1) ==
            ([Prepared(route + 1, route), Circuit(Queried(key, 0.0))] + [Closed(route + 1, CircuitOpen, false)],
             NextRoute)
  {
  }

  lemma QueryKeepsOpen(c: Config, h: History, key: Key)
    requires c.Valid() && AllOpen(c, h) && OpenAt(c.policy, h, key, 0.0)
    ensures AllOpen(c, h + [Queried(key, 0.0)])
  {
    StreakAfter(c.policy, h, Queried(key, 0.0));
  }

  lemma OneOfAllOpen(c: Config, h: History, route: nat)
    requires AllOpen(c, h) && route < |c.routes| && c.routes[route].origin.Some?
    ensures OpenAt(c.policy, h, KeyOf(c.routes[route]), 0.0)
  {
  }

  lemma QueryOnly(first: Entry, event: CircuitEvent, last: Entry)
    requires first.Prepared? && last.Closed?
    ensures CircuitEvents([first, Circuit(event)] + [last]) == [event]
  {
    CircuitEventsSnoc([], first);
    CircuitEventsSnoc([first], Circuit(event));
    CircuitEventsSnoc([first, Circuit(event)], last);
    assert [] + [first] == [first] && [first] + [Circuit(event)] == [first, Circuit(event)];
  }

  /** `n` failures at time zero of one key. */
  function Failures(key: Key, n: nat): History {
    if n == 0 then [] else Failures(key, n - 1) + [Failed(key, 0.0)]
  }

  /** Enough failures at time zero for each of the first `count` routes. */
  function Outage(c: Config, count: nat): History
    requires count <= |c.routes|
  {
    if count == 0 then []
    else if c.routes[count - 1].origin.None? then Outage(c, count - 1)
    else Outage(c, count - 1) + Failures(KeyOf(c.routes[count - 1]), c.policy.threshold)
  }

  ghost predicate AllZero(times: seq<real>) {
    forall i :: 0 <= i < |times| ==> times[i] == 0.0
  }

  lemma {:induction false} FailuresAccumulate(p: Policy, h: History, failing: Key, n: nat, key: Key)
    requires AllZero(Streak(p, h, key))
    ensures var streak := Streak(p, h + Failures(failing, n), key);
            AllZero(streak) && |streak| == |Streak(p, h, key)| + if key == failing then n else 0
    decreases n
  {
    if n == 0 {
      assert h + [] == h;
    } else {
      FailuresAccumulate(p, h, failing, n - 1, key);
      StreakAfter(p, h + Failures(failing, n - 1), Failed(failing, 0.0));
      Regroup(h, Failures(failing, n - 1), [Failed(failing, 0.0)]);
    }
  }

  lemma {:induction false} OutageOpens(c: Config, count: nat, key: Key)
    requires c.Valid() && count <= |c.routes|
    ensures var streak := Streak(c.policy, Outage(c, count), key);
            && AllZero(streak)
            && ((exists i :: 0 <= i < count && c.routes[i].origin.Some? && KeyOf(c.routes[i]) == key)
                  ==> |streak| >= c.policy.threshold)
    decreases count
  {
    if count > 0 {
      OutageOpens(c, count - 1, key);
      if c.routes[count - 1].origin.Some? {
        FailuresAccumulate(c.policy, Outage(c, count - 1), KeyOf(c.routes[count - 1]), c.policy.threshold, key);
      }
    }
  }

  /** No answer raises once it has arrived. */
  ghost predicate NothingEscapes(world: World) {
    forall n: nat :: !Escapes(world(n))
  }

  /** With allowed endpoints and answers that do not raise, every invocation is ended by its last attempt. */
  lemma ValidRunsEnd(c: Config, world: World, h: History)
    requires c.Valid() && ReachableRoutesValid(c) && NothingEscapes(world)
    ensures Run(c, world, h, 1, 0, 0).1.Ended?
  {
    hide Run, Escapes;
    var (attempts, outcome) := Run(c, world, h, 1, 0, 0);
    InvocationGuarantees(c, world, h);
    RunIsLegal(c, world, h, 1, 0, 0);
    ValidRoutesNeverRejected(c, h, attempts, outcome, 1, 0, 0);
  }

  /**
   Provided that no answer raises, every invocation is ended whatever happens if and only if the routes it may reach,
   the first `limit` of them, all have allowed endpoints.
   */
  lemma NeverStrandedIff(c: Config)
    requires c.Valid()
    ensures ReachableRoutesValid(c) <==>
            forall world: World, h: History :: NothingEscapes(world) ==> Run(c, world, h, 1, 0, 0).1.Ended?
  {
    if ReachableRoutesValid(c) {
      forall world: World, h: History | NothingEscapes(world) ensures Run(c, world, h, 1, 0, 0).1.Ended? {
        ValidRunsEnd(c, world, h);
      }
    } else {
      var bad := FirstBad(c, 0);
      var h := Outage(c, |c.routes|);
      forall i | 0 <= i < |c.routes| && c.routes[i].origin.Some? ensures OpenAt(c.policy, h, KeyOf(c.routes[i]), 0.0) {
        OutageOpens(c, |c.routes|, KeyOf(c.routes[i]));
      }
      OpenCircuitsReachRoute(c, h, bad, 0);
      assert NothingEscapes(_ => STILL);
    }
  }

  lemma FirstBad(c: Config, from: nat) returns (bad: nat)
    requires from <= |c.routes| && !ReachableRoutesValid(c)
    requires forall i :: 0 <= i < from ==> c.routes[i].origin.Some?
    ensures bad < |c.routes| && bad < c.limit && c.routes[bad].origin.None?
    ensures forall i :: 0 <= i < bad ==> c.routes[i].origin.Some?
    decreases |c.routes| - from
  {
    if from < |c.routes| && c.routes[from].origin.Some? { bad := FirstBad(c, from + 1); } else { bad := from; }
  }
}
