/**
 What happens to a provider's answer once it has arrived: its inspection by `SensitiveOutputGate.inspect_json`
 (src/stata_research_agent/application/sensitive_output.py), and then, outside any handler, its JSON text, the hash
 of that text and the completion of the attempt (src/stata_research_agent/application/model_gateway_service.py and
 src/stata_research_agent/persistence/model_gateway_store.py).

 Each traversal of the answer recurses once per level and has room for so many levels only.
 */
module OutputInspection {
  import opened Wrappers
  import opened CircuitRegistry
  import opened ModelGateway
  import opened GatewaySafety

  /** Code points, lone surrogates included. */
  type Text = seq<nat>

  datatype Member = Member(key: Text, value: Value)

  /** `Float` has no number for NaN and the infinities; `Other` is anything that JSON has no type for. */
  datatype Value =
    | Null
    | Bool(truth: bool)
    | Int(number: int)
    | Float(finite: Option<real>)
    | Str(text: Text)
    | List(items: seq<Value>)
    | Mapping(members: seq<Member>)
    | Other

  function Children(v: Value): (children: seq<Value>)
    ensures forall i :: 0 <= i < |children| ==> children[i] < v
  {
    match v
    case List(items) => items
    case Mapping(members) => seq(|members|, i requires 0 <= i < |members| => members[i].value)
    case _ => []
  }

  /** The value with its children replaced. */
  function WithChildren(v: Value, children: seq<Value>): Value
    requires |children| == |Children(v)|
  {
    match v
    case List(_) => List(children)
    case Mapping(members) =>
      Mapping(seq(|members|, i requires 0 <= i < |members| => Member(members[i].key, children[i])))
    case _ => v
  }

  function Largest(ns: seq<nat>): (n: nat)
    ensures forall i :: 0 <= i < |ns| ==> ns[i] <= n
    ensures n == 0 || n in ns
  {
    if ns == [] then 0
    else
      var n := Largest(ns[1..]);
      if ns[0] >= n then ns[0] else n
  }

  /** How many levels a value has. */
  function Depth(v: Value): nat
    decreases v
  {
    var children := Children(v);
    1 + Largest(seq(|children|, i requires 0 <= i < |children| => Depth(children[i])))
  }

  /** Some part of the value has the property. */
  ghost predicate Somewhere(v: Value, p: Value -> bool)
    decreases v
  {
    p(v) || exists i :: 0 <= i < |Children(v)| && Somewhere(Children(v)[i], p)
  }

  // ----- the inspection

  /** The patterns and protected values the gate looks for, and what it makes of a text that holds some. */
  datatype Patterns = Patterns(finds: Text -> bool, redacted: Text -> Text) {
    function Inspect(t: Text): Text {
      if finds(t) then redacted(t) else t
    }
  }

  datatype Trouble = Untyped | TooDeep | NotFinite

  datatype Inspected = Inspected(safe: Value, found: bool)

  /** The results in order, or the first trouble. */
  function Collect<T>(results: seq<Result<T, Trouble>>): (all: Result<seq<T>, Trouble>)
    ensures all.Success? <==> forall i :: 0 <= i < |results| ==> results[i].Success?
    ensures all.Success? ==>
              |all.value| == |results| && forall i :: 0 <= i < |results| ==> all.value[i] == results[i].value
    ensures all.Failure? ==> exists i :: 0 <= i < |results| && results[i].Failure? && results[i].error == all.error
  {
    if results == [] then Success([])
    else
      match results[0]
      case Failure(e) => Failure(e)
      case Success(first) =>
        match Collect(results[1..])
        case Failure(e) => Failure(e)
        case Success(rest) => Success([first] + rest)
  }

  /** `visit`, with room for so many levels of recursion; the keys of mappings are not inspected. */
  function Visit(p: Patterns, v: Value, room: nat): Result<Inspected, Trouble>
    decreases v
  {
    if room == 0 then Failure(TooDeep)
    else if v.Other? then Failure(Untyped)
    else if v.Str? then Success(Inspected(Str(p.Inspect(v.text)), p.finds(v.text)))
    else
      var children := Children(v);
      match Collect(seq(|children|, i requires 0 <= i < |children| => Visit(p, children[i], room - 1)))
      case Failure(e) => Failure(e)
      case Success(parts) => Success(Assembled(v, parts))
  }

  /** A value put together from its inspected children. */
  function Assembled(v: Value, parts: seq<Inspected>): Inspected
    requires |parts| == |Children(v)|
  {
    Inspected(
      WithChildren(v, seq(|parts|, i requires 0 <= i < |parts| => parts[i].safe)),
      exists i :: 0 <= i < |parts| && parts[i].found)
  }

  // ----- text, hash and completion

  /** The characters that the JSON text of a value takes from its keys and strings. */
  function Dumps(v: Value, room: nat): Result<Text, Trouble>
    decreases v
  {
    if room == 0 then Failure(TooDeep)
    else if v.Other? then Failure(Untyped)
    else if v.Float? && v.finite.None? then Failure(NotFinite)
    else if v.Str? then Success(v.text)
    else
      var children := Children(v);
      match Collect(seq(|children|, i requires 0 <= i < |children| => Dumps(children[i], room - 1)))
      case Failure(e) => Failure(e)
      case Success(parts) => Success(Keys(v) + Joined(parts))
  }

  function Keys(v: Value): Text {
    if v.Mapping? then Joined(seq(|v.members|, i requires 0 <= i < |v.members| => v.members[i].key)) else []
  }

  function Joined(parts: seq<Text>): Text {
    if parts == [] then [] else parts[0] + Joined(parts[1..])
  }

  predicate IsSurrogate(c: nat) {
    0xD800 <= c <= 0xDFFF
  }

  predicate HasSurrogate(t: Text) {
    exists i :: 0 <= i < |t| && IsSurrogate(t[i])
  }

  /** The token counts of a response, as far as it has them. */
  datatype Usage = Usage(input: Option<nat>, output: Option<nat>, cached: Option<nat>, uncached: Option<nat>)

  /** The database's integers have 64 bits. */
  predicate Fits(count: Option<nat>) {
    count.Some? ==> count.value < 0x8000_0000_0000_0000
  }

  predicate UsageFits(u: Usage) {
    Fits(u.input) && Fits(u.output) && Fits(u.cached) && Fits(u.uncached)
  }

  /** How many levels the inspection, the JSON encoder and the database's JSON check have room for. */
  datatype Limits = Limits(visitor: nat, encoder: nat, database: nat)

  function OutputOf(v: Value, usage: Usage, limits: Limits): Output {
    match Dumps(v, limits.encoder)
    case Failure(_) => NotJson
    case Success(written) =>
      if HasSurrogate(written) then NotText
      else if !UsageFits(usage) || Depth(v) > limits.database then NotStored
      else Storable
  }

  /** The answer's way through the gate. */
  function GateOf(available: bool, p: Patterns, v: Value, usage: Usage, limits: Limits): Gate {
    if !available then GateDown
    else
      match Visit(p, v, limits.visitor)
      case Failure(Untyped) => GateDown
      case Failure(_) => GateRaised
      case Success(inspected) =>
        if inspected.found then Sensitive else Safe(OutputOf(inspected.safe, usage, limits))
  }

  // ----- what each traversal needs

  predicate IsOther(v: Value) {
    v.Other?
  }

  predicate IsNotFinite(v: Value) {
    v.Float? && v.finite.None?
  }

  /** A string, or a key of a mapping, with a lone surrogate. */
  predicate HoldsSurrogate(v: Value) {
    HasSurrogate(Keys(v)) || (v.Str? && HasSurrogate(v.text))
  }

  ghost predicate IsJson(v: Value) {
    !Somewhere(v, IsOther)
  }

  ghost predicate Finds(p: Patterns, v: Value) {
    Somewhere(v, (x: Value) => x.Str? && p.finds(x.text))
  }

  lemma DepthOfChildren(v: Value, room: nat)
    ensures Depth(v) <= room <==>
              room > 0 && forall i :: 0 <= i < |Children(v)| ==> Depth(Children(v)[i]) <= room - 1
  {
    var children := Children(v);
    var depths := seq(|children|, i requires 0 <= i < |children| => Depth(children[i]));
    assert Depth(v) == 1 + Largest(depths);
    hide Children, Largest, Depth;
    if room > 0 { LargestAtMost(depths, room - 1); }
    assert forall i :: 0 <= i < |children| ==> depths[i] == Depth(children[i]);
  }

  lemma LargestAtMost(ns: seq<nat>, most: nat)
    ensures Largest(ns) <= most <==> forall i :: 0 <= i < |ns| ==> ns[i] <= most
  {
    hide Largest;
  }

  lemma SameChildren(v: Value, children: seq<Value>)
    requires children == Children(v)
    ensures WithChildren(v, children) == v
  {
    if v.Mapping? {
      var again := WithChildren(v, children).members;
      assert forall i :: 0 <= i < |again| ==> again[i] == v.members[i];
    }
  }

  /** What `Visit` tells about a value. */
  ghost predicate VisitTells(p: Patterns, v: Value, room: nat, r: Result<Inspected, Trouble>) {
    && (r.Success? <==> Depth(v) <= room && IsJson(v))
    && (r.Success? ==> (r.value.found <==> Finds(p, v)) && (!r.value.found ==> r.value.safe == v))
    && (r.Failure? ==> if r.error.TooDeep? then Depth(v) > room else r.error.Untyped? && !IsJson(v))
  }

  /**
   The inspection comes to its end if and only if there is room and every part has a JSON type; it then reports
   whether some string holds a pattern, and if none does the value it passes on is the one it was given.
   */
  lemma {:induction false} VisitSucceedsIff(p: Patterns, v: Value, room: nat)
    ensures VisitTells(p, v, room, Visit(p, v, room))
    decreases v
  {
    hide VisitTells, Children;
    if room == 0 || v.Str? || v.Other? {
      VisitOfLeaf(p, v, room);
    } else {
      var children := Children(v);
      var results := seq(|children|, i requires 0 <= i < |children| => Visit(p, children[i], room - 1));
      forall i | 0 <= i < |children| ensures VisitTells(p, children[i], room - 1, results[i]) {
        VisitSucceedsIff(p, children[i], room - 1);
      }
      AssembledTells(p, v, room, results);
    }
  }

  lemma VisitOfLeaf(p: Patterns, v: Value, room: nat)
    requires room == 0 || v.Str? || v.Other?
    ensures VisitTells(p, v, room, Visit(p, v, room))
  {
    DepthOfChildren(v, room);
  }

  lemma AssembledTells(p: Patterns, v: Value, room: nat, results: seq<Result<Inspected, Trouble>>)
    requires room > 0 && !v.Str? && !v.Other? && |results| == |Children(v)|
    requires forall i :: 0 <= i < |results| ==> VisitTells(p, Children(v)[i], room - 1, results[i])
    ensures VisitTells(p, v, room,
                       match Collect(results)
                       case Failure(e) => Failure(e)
                       case Success(parts) => Success(Assembled(v, parts)))
  {
    hide Depth, WithChildren, Children, IsJson, Finds;
    DepthOfChildren(v, room);
    PartsAreJson(v);
    PartsFind(p, v);
    match Collect(results)
    case Failure(_) =>
    case Success(parts) =>
      if !Assembled(v, parts).found {
        var safes := seq(|parts|, i requires 0 <= i < |parts| => parts[i].safe);
        assert safes == Children(v);
        SameChildren(v, safes);
      }
  }

  /** Redaction that leaves nothing to find makes the whole value clean, apart from the keys of its mappings. */
  lemma {:induction false} RedactionIsClean(p: Patterns, v: Value, room: nat)
    requires forall t :: !p.finds(p.redacted(t))
    ensures var r := Visit(p, v, room);
            r.Success? ==> !Finds(p, r.value.safe)
    decreases v
  {
    hide *;
    if v.Str? {
      RedactedText(p, v, room);
    } else if Visit(p, v, room).Success? {
      var parts := VisitedParts(p, v, room);
      forall i | 0 <= i < |parts| ensures !Finds(p, parts[i].safe) {
        RedactionIsClean(p, Children(v)[i], room - 1);
      }
      AssembledChildren(v, parts);
      PartsFind(p, Assembled(v, parts).safe);
    }
  }

  lemma RedactedText(p: Patterns, v: Value, room: nat)
    requires v.Str? && forall t :: !p.finds(p.redacted(t))
    ensures Visit(p, v, room).Success? ==> !Finds(p, Visit(p, v, room).value.safe)
  {
    var safe := Str(p.Inspect(v.text));
    assert !p.finds(safe.text);
    PartsHold(safe, (x: Value) => x.Str? && p.finds(x.text));
    assert Children(safe) == [];
  }

  /** A value that was inspected is put together from its children, each inspected on its own. */
  lemma VisitedParts(p: Patterns, v: Value, room: nat) returns (parts: seq<Inspected>)
    requires !v.Str? && Visit(p, v, room).Success?
    ensures room > 0 && |parts| == |Children(v)| && Visit(p, v, room).value == Assembled(v, parts)
    ensures forall i :: 0 <= i < |parts| ==> Visit(p, Children(v)[i], room - 1) == Success(parts[i])
  {
    var children := Children(v);
    var results := seq(|children|, i requires 0 <= i < |children| => Visit(p, children[i], room - 1));
    parts := Collect(results).value;
    hide Children, Assembled;
    assert forall i :: 0 <= i < |parts| ==> results[i] == Visit(p, children[i], room - 1);
  }

  lemma AssembledChildren(v: Value, parts: seq<Inspected>)
    requires !v.Str? && |parts| == |Children(v)|
    ensures var safe := Assembled(v, parts).safe;
            && !safe.Str? && |Children(safe)| == |parts|
            && forall i :: 0 <= i < |parts| ==> Children(safe)[i] == parts[i].safe
  {
  }

  lemma PartsAreJson(v: Value)
    ensures IsJson(v) <==> !v.Other? && forall i :: 0 <= i < |Children(v)| ==> IsJson(Children(v)[i])
  {
  }

  lemma PartsFind(p: Patterns, v: Value)
    requires !v.Str?
    ensures Finds(p, v) <==> exists i :: 0 <= i < |Children(v)| && Finds(p, Children(v)[i])
  {
  }

  /** What `Dumps` tells about a value. */
  ghost predicate DumpsTells(v: Value, room: nat, r: Result<Text, Trouble>) {
    && (r.Success? <==> Depth(v) <= room && IsJson(v) && !Somewhere(v, IsNotFinite))
    && (r.Success? ==> (HasSurrogate(r.value) <==> Somewhere(v, HoldsSurrogate)))
  }

  /** A value has JSON text if and only if there is room, every part has a JSON type and every number is finite. */
  lemma {:induction false} DumpsSucceedsIff(v: Value, room: nat)
    ensures DumpsTells(v, room, Dumps(v, room))
    decreases v
  {
    hide DumpsTells, Children;
    if room == 0 || v.Str? || v.Other? || IsNotFinite(v) {
      DumpsOfLeaf(v, room);
    } else {
      var children := Children(v);
      var results := seq(|children|, i requires 0 <= i < |children| => Dumps(children[i], room - 1));
      forall i | 0 <= i < |children| ensures DumpsTells(children[i], room - 1, results[i]) {
        DumpsSucceedsIff(children[i], room - 1);
      }
      JoinedTells(v, room, results);
    }
  }

  lemma DumpsOfLeaf(v: Value, room: nat)
    requires room == 0 || v.Str? || v.Other? || IsNotFinite(v)
    ensures DumpsTells(v, room, Dumps(v, room))
  {
    DepthOfChildren(v, room);
  }

  lemma JoinedTells(v: Value, room: nat, results: seq<Result<Text, Trouble>>)
    requires room > 0 && !v.Str? && !v.Other? && !IsNotFinite(v) && |results| == |Children(v)|
    requires forall i :: 0 <= i < |results| ==> DumpsTells(Children(v)[i], room - 1, results[i])
    ensures DumpsTells(v, room,
                       match Collect(results)
                       case Failure(e) => Failure(e)
                       case Success(parts) => Success(Keys(v) + Joined(parts)))
  {
    hide Depth, Children, IsJson, Somewhere, Keys, HasSurrogate;
    DepthOfChildren(v, room);
    PartsAreJson(v);
    PartsHold(v, IsNotFinite);
    PartsHold(v, HoldsSurrogate);
    match Collect(results)
    case Failure(_) =>
    case Success(parts) =>
      SurrogateInJoined(parts);
      SurrogateInBoth(Keys(v), Joined(parts));
  }

  lemma PartsHold(v: Value, q: Value -> bool)
    ensures Somewhere(v, q) <==> q(v) || exists i :: 0 <= i < |Children(v)| && Somewhere(Children(v)[i], q)
  {
  }

  lemma SurrogateInBoth(s: Text, t: Text)
    ensures HasSurrogate(s + t) <==> HasSurrogate(s) || HasSurrogate(t)
  {
    if i :| 0 <= i < |s| && IsSurrogate(s[i]) { assert IsSurrogate((s + t)[i]); }
    if i :| 0 <= i < |t| && IsSurrogate(t[i]) { assert IsSurrogate((s + t)[|s| + i]); }
  }

  lemma {:induction false} SurrogateInJoined(parts: seq<Text>)
    ensures HasSurrogate(Joined(parts)) <==> exists i :: 0 <= i < |parts| && HasSurrogate(parts[i])
    decreases |parts|
  {
    if parts != [] {
      SurrogateInJoined(parts[1..]);
      SurrogateInBoth(parts[0], Joined(parts[1..]));
      assert forall i :: 0 < i < |parts| ==> parts[i] == parts[1..][i - 1];
      assert forall i :: 0 <= i < |parts| - 1 ==> parts[1..][i] == parts[i + 1];
    }
  }

  // ----- which answers raise

  /** What makes an answer raise after it passed the gate. */
  ghost predicate CannotBeStored(v: Value, usage: Usage, limits: Limits) {
    || Somewhere(v, IsNotFinite)
    || Somewhere(v, HoldsSurrogate)
    || Depth(v) > limits.encoder || Depth(v) > limits.database
    || !UsageFits(usage)
  }

  lemma StorableIff(v: Value, usage: Usage, limits: Limits)
    requires IsJson(v)
    ensures OutputOf(v, usage, limits).Storable? <==> !CannotBeStored(v, usage, limits)
  {
    hide Depth, IsJson, Somewhere, HasSurrogate, UsageFits;
    DumpsSucceedsIff(v, limits.encoder);
  }

  /**
   An answer in JSON raises if and only if it is too deep for the inspection, or holds nothing sensitive and is too
   deep for storage, holds a number that is not finite or a lone surrogate, or comes with a token count that does not
   fit.  Any other value within reach of the inspection is refused in the declared way.
   */
  lemma AnswerRaisesIff(p: Patterns, v: Value, usage: Usage, limits: Limits)
    ensures var w := Answered(GateOf(true, p, v, usage, limits));
            && (IsJson(v) ==>
                  (Escapes(w) <==>
                     Depth(v) > limits.visitor || (!Finds(p, v) && CannotBeStored(v, usage, limits))))
            && (!IsJson(v) && Depth(v) <= limits.visitor ==> w.gate == GateDown)
            && !Escapes(Answered(GateOf(false, p, v, usage, limits)))
  {
    hide Depth, IsJson, Finds, CannotBeStored, OutputOf;
    VisitSucceedsIff(p, v, limits.visitor);
    if IsJson(v) { StorableIff(v, usage, limits); }
  }

  /** What the gate decides about an answer in JSON, and which trouble a passed answer runs into first. */
  lemma GateDecides(p: Patterns, v: Value, usage: Usage, limits: Limits)
    requires IsJson(v)
    ensures var gate := GateOf(true, p, v, usage, limits);
            && (gate == GateRaised <==> Depth(v) > limits.visitor)
            && (gate == Sensitive <==> Depth(v) <= limits.visitor && Finds(p, v))
            && (gate == Safe(NotJson) <==>
                  Depth(v) <= limits.visitor && !Finds(p, v)
                  && (Depth(v) > limits.encoder || Somewhere(v, IsNotFinite)))
            && (gate == Safe(NotText) <==>
                  Depth(v) <= limits.visitor && !Finds(p, v) && Depth(v) <= limits.encoder
                  && !Somewhere(v, IsNotFinite) && Somewhere(v, HoldsSurrogate))
            && (gate == Safe(Storable) <==>
                  Depth(v) <= limits.visitor && !Finds(p, v) && !CannotBeStored(v, usage, limits))
            && gate != GateDown && GateOf(false, p, v, usage, limits) == GateDown
  {
    hide Depth, IsJson, Finds, Somewhere, HasSurrogate, UsageFits;
    VisitSucceedsIff(p, v, limits.visitor);
    DumpsSucceedsIff(v, limits.encoder);
    StorableIff(v, usage, limits);
  }

  /** The invocation that gets such an answer first ends as the gate decides. */
  lemma AnswerEndsAs(c: Config, p: Patterns, v: Value, usage: Usage, limits: Limits)
    requires c.Valid() && c.routes[0].origin.Some? && IsJson(v)
    ensures var outcome := Run(c, _ => Answered(GateOf(true, p, v, usage, limits)), [], 1, 0, 0).1;
            && (outcome == Ended(SensitiveOutput) <==> Depth(v) <= limits.visitor && Finds(p, v))
            && (outcome == Ended(Delivered) <==>
                  Depth(v) <= limits.visitor && !Finds(p, v) && !CannotBeStored(v, usage, limits))
  {
    hide Depth, IsJson, Finds, CannotBeStored, GateOf, Run, Escapes;
    GateDecides(p, v, usage, limits);
    StrandedByItsAnswer(c, GateOf(true, p, v, usage, limits));
  }

  // ----- answers that leave their invocation open

  /** A list in a list, and so on. */
  function Nested(n: nat): Value {
    if n == 0 then Null else List([Nested(n - 1)])
  }

  lemma {:induction false} NestedIsDeep(n: nat)
    ensures Depth(Nested(n)) == n + 1 && IsJson(Nested(n))
    decreases n
  {
    if n > 0 {
      NestedIsDeep(n - 1);
      var children := Children(Nested(n));
      assert children == [Nested(n - 1)];
      assert seq(|children|, i requires 0 <= i < |children| => Depth(children[i])) == [n];
    }
  }

  /** `{"text": "", "tool_calls": […]}` with one call. */
  function Reply(call: Value): Value {
    Mapping([Member([0x74, 0x65, 0x78, 0x74], Str([])),
             Member([0x74, 0x6F, 0x6F, 0x6C, 0x5F, 0x63, 0x61, 0x6C, 0x6C, 0x73], List([call]))])
  }

  lemma ReplyHolds(call: Value, q: Value -> bool)
    ensures var v := Reply(call);
            Somewhere(v, q) <==> q(v) || q(Str([])) || q(List([call])) || Somewhere(call, q)
  {
    var v, calls := Reply(call), List([call]);
    assert |Children(v)| == 2 && Children(v)[0] == Str([]) && Children(v)[1] == calls;
    assert |Children(calls)| == 1 && Children(calls)[0] == call;
    PartsHold(v, q);
    PartsHold(Str([]), q);
    PartsHold(calls, q);
    hide Somewhere;
  }

  lemma ReplyIsDeeper(call: Value)
    ensures Depth(call) < Depth(Reply(call)) && (IsJson(Reply(call)) <==> IsJson(call))
  {
    hide Depth;
    var v, calls := Reply(call), List([call]);
    assert Children(v)[1] == calls && Children(calls)[0] == call;
    DepthOfChildren(v, Depth(v));
    DepthOfChildren(calls, Depth(calls));
    ReplyHolds(call, IsOther);
  }

  /** For whatever room the inspection has there is an answer too deep for it, sensitive or not. */
  lemma DeepAnswerRaises(p: Patterns, usage: Usage, limits: Limits)
    ensures Escapes(Answered(GateOf(true, p, Reply(Nested(limits.visitor)), usage, limits)))
  {
    hide Depth, IsJson, GateOf, Escapes;
    NestedIsDeep(limits.visitor);
    ReplyIsDeeper(Nested(limits.visitor));
    AnswerRaisesIff(p, Reply(Nested(limits.visitor)), usage, limits);
  }

  /** So does NaN. */
  lemma NotANumberRaises(p: Patterns, usage: Usage, limits: Limits)
    requires !p.finds([])
    ensures Escapes(Answered(GateOf(true, p, Reply(Float(None)), usage, limits)))
  {
    hide Depth, GateOf, Escapes;
    assert Children(Float(None)) == [];
    ReplyIsDeeper(Float(None));
    ReplyHolds(Float(None), IsNotFinite);
    ReplyHolds(Float(None), (x: Value) => x.Str? && p.finds(x.text));
    AnswerRaisesIff(p, Reply(Float(None)), usage, limits);
  }

  /** So does a lone surrogate that is not taken for something sensitive. */
  lemma SurrogateRaises(p: Patterns, usage: Usage, limits: Limits)
    requires !p.finds([]) && !p.finds([0xD800])
    ensures Escapes(Answered(GateOf(true, p, Reply(Str([0xD800])), usage, limits)))
  {
    hide Depth, GateOf, Escapes;
    var held := Str([0xD800]);
    assert Children(held) == [] && IsSurrogate(held.text[0]);
    ReplyIsDeeper(held);
    ReplyHolds(held, HoldsSurrogate);
    ReplyHolds(held, (x: Value) => x.Str? && p.finds(x.text));
    AnswerRaisesIff(p, Reply(held), usage, limits);
  }

  /** And so does a harmless answer one of whose token counts has more than 63 bits. */
  lemma CountedAnswerRaises(p: Patterns, usage: Usage, limits: Limits)
    requires !p.finds([])
    requires exists count :: count in {usage.input, usage.output, usage.cached, usage.uncached} && !Fits(count)
    ensures Escapes(Answered(GateOf(true, p, Reply(Mapping([])), usage, limits)))
  {
    hide Depth, GateOf, Escapes, Fits;
    var call := Mapping([]);
    assert Children(call) == [];
    ReplyIsDeeper(call);
    ReplyHolds(call, (x: Value) => x.Str? && p.finds(x.text));
    AnswerRaisesIff(p, Reply(call), usage, limits);
  }

  lemma FitsIff(count: Option<nat>)
    ensures Fits(count) <==> count.None? || count.value <= 9_223_372_036_854_775_807
  {
  }

  /** Which parts hold a lone surrogate: strings and the keys of mappings, wherever in them it is. */
  lemma HoldsSurrogateIff(v: Value)
    ensures HoldsSurrogate(v) <==>
              || (v.Str? && exists c :: c in v.text && 0xD800 <= c < 0xE000)
              || (v.Mapping? && exists i :: 0 <= i < |v.members| && HasSurrogate(v.members[i].key))
    ensures forall c: nat, t: Text :: c in t && 0xD800 <= c < 0xE000 ==> HasSurrogate(t)
  {
    forall c: nat, t: Text | c in t && 0xD800 <= c < 0xE000 ensures HasSurrogate(t) {
      var i :| 0 <= i < |t| && t[i] == c;
      assert IsSurrogate(t[i]);
    }
    if v.Mapping? {
      var keys := seq(|v.members|, i requires 0 <= i < |v.members| => v.members[i].key);
      SurrogateInJoined(keys);
      assert forall i :: 0 <= i < |keys| ==> keys[i] == v.members[i].key;
    }
    if v.Str? && HasSurrogate(v.text) {
      var i :| 0 <= i < |v.text| && IsSurrogate(v.text[i]);
      assert v.text[i] in v.text;
    }
  }

  /** The invocation that gets such an answer first is left open, and no other answer to it is. */
  lemma AnswerStrandsIff(c: Config, p: Patterns, v: Value, usage: Usage, limits: Limits)
    requires c.Valid() && c.routes[0].origin.Some? && IsJson(v)
    ensures Run(c, _ => Answered(GateOf(true, p, v, usage, limits)), [], 1, 0, 0).1 == Abandoned <==>
              Depth(v) > limits.visitor || (!Finds(p, v) && CannotBeStored(v, usage, limits))
  {
    hide Depth, IsJson, Finds, CannotBeStored, GateOf, Run, Escapes;
    AnswerRaisesIff(p, v, usage, limits);
    StrandedByItsAnswer(c, GateOf(true, p, v, usage, limits));
  }
}
