/**
 The JSON Schema to TypeScript compiler (`schema_to_ts` in tools/generate_contracts.py).

 Schemas and types both get a meaning: the JSON values a schema accepts, and the JSON values that inhabit a
 structural type.  References are followed to a finite depth; a value is valid, or an inhabitant, when some
 depth settles it.
 */
module SchemaTypes {
  import opened Wrappers

  datatype Json =
    | Null
    | Bool(b: bool)
    | Num(n: real)
    | Str(s: string)
    | Arr(elements: seq<Json>)
    | Obj(members: map<string, Json>)

  /** The value of the `type` keyword; `Other` is any string that names no JSON type. */
  datatype TypeName = TString | TInteger | TNumber | TBoolean | TNull | TArray | TObject | Other(name: string)

  datatype TypeKeyword = NoType | OneType(name: TypeName) | TypeList(names: seq<TypeName>)

  datatype Additional = NoAdditional | AdditionalFlag(allowed: bool) | AdditionalSchema(schema: Schema)

  datatype Alternatives = NoAlternatives | Alternatives(schemas: seq<Schema>)

  datatype Properties = NoProperties | Properties(fields: map<string, Schema>)

  /** A schema object: one field for every keyword the compiler looks at, and `prefixItems`, which it ignores. */
  datatype Schema = Schema(
    ref: Option<string>,
    constant: Option<Json>,
    choices: Option<seq<Json>>,
    anyOf: Alternatives,
    oneOf: Alternatives,
    typ: TypeKeyword,
    items: Option<Schema>,
    prefixItems: seq<Schema>,
    properties: Properties,
    additional: Additional,
    required: set<string>
  )

  const ANY :=
    Schema(None, None, None, NoAlternatives, NoAlternatives, NoType, None, [], NoProperties, NoAdditional, {})

  type Schemas = map<string, Schema>

  // ----- what a schema accepts (JSON Schema 2020-12)

  predicate HasType(v: Json, t: TypeName) {
    match t
    case TString => v.Str?
    case TInteger => v.Num? && v.n == v.n.Floor as real
    case TNumber => v.Num?
    case TBoolean => v.Bool?
    case TNull => v.Null?
    case TArray => v.Arr?
    case TObject => v.Obj?
    case Other(_) => false
  }

  const COMPONENT_PREFIX := "#/components/schemas/"

  /** The component a local reference resolves to, by its full path. */
  function Resolve(defs: Schemas, ref: string): Option<Schema> {
    if COMPONENT_PREFIX <= ref && ref[|COMPONENT_PREFIX|..] in defs
    then Some(defs[ref[|COMPONENT_PREFIX|..]])
    else None
  }

  /** The compiler reads only the keywords it knows; each keyword present must hold. */
  ghost predicate Accepts(defs: Schemas, s: Schema, v: Json, depth: nat)
    decreases depth, s
  {
    && (s.ref.Some? ==>
          depth > 0 && Resolve(defs, s.ref.value).Some?
          && Accepts(defs, Resolve(defs, s.ref.value).value, v, depth - 1))
    && (s.constant.Some? ==> v == s.constant.value)
    && (s.choices.Some? ==> v in s.choices.value)
    && (s.anyOf.Alternatives? ==>
          exists i :: 0 <= i < |s.anyOf.schemas| && Accepts(defs, s.anyOf.schemas[i], v, depth))
    && (s.oneOf.Alternatives? ==>
          exists i :: 0 <= i < |s.oneOf.schemas| && Accepts(defs, s.oneOf.schemas[i], v, depth)
            && forall j :: 0 <= j < |s.oneOf.schemas| && j != i ==> !Accepts(defs, s.oneOf.schemas[j], v, depth))
    && (match s.typ
        case NoType => true
        case OneType(t) => HasType(v, t)
        case TypeList(ts) => exists i :: 0 <= i < |ts| && HasType(v, ts[i]))
    && (v.Arr? ==> AcceptsElements(defs, s, v.elements, depth))
    && (v.Obj? ==> AcceptsMembers(defs, s, v.members, depth))
  }

  ghost predicate AcceptsElements(defs: Schemas, s: Schema, vs: seq<Json>, depth: nat)
    decreases depth, s, 0
  {
    && (forall i :: 0 <= i < |s.prefixItems| && i < |vs| ==> Accepts(defs, s.prefixItems[i], vs[i], depth))
    && (s.items.Some? ==> forall i :: |s.prefixItems| <= i < |vs| ==> Accepts(defs, s.items.value, vs[i], depth))
  }

  ghost predicate AcceptsMembers(defs: Schemas, s: Schema, ms: map<string, Json>, depth: nat)
    decreases depth, s, 0
  {
    && s.required <= ms.Keys
    && (s.properties.Properties? ==>
          forall k :: k in s.properties.fields && k in ms ==> Accepts(defs, s.properties.fields[k], ms[k], depth))
    && (forall k :: k in ms && !(s.properties.Properties? && k in s.properties.fields) ==>
          match s.additional
          case NoAdditional => true
          case AdditionalFlag(allowed) => allowed
          case AdditionalSchema(a) => Accepts(defs, a, ms[k], depth))
  }

  // ----- what a type contains (structural TypeScript types over JSON values)

  datatype TsField = TsField(optional: bool, typ: TsType)

  datatype TsType =
    | TsString
    | TsNumber
    | TsBoolean
    | TsNull
    | TsNever
    | TsUnknown
    | TsLiteral(literal: Json)
    | TsName(name: string)
    | TsUnion(alternatives: seq<TsType>)
    | TsReadonlyArray(element: TsType)
    | TsRecord(value: TsType)
    | TsObject(fields: map<string, TsField>)

  /** Membership in a literal type: arrays are tuples, and objects may carry further members. */
  ghost predicate InLiteral(v: Json, literal: Json)
    decreases literal
  {
    match literal
    case Arr(ls) => v.Arr? && |v.elements| == |ls| && forall i :: 0 <= i < |ls| ==> InLiteral(v.elements[i], ls[i])
    case Obj(ms) => v.Obj? && forall k :: k in ms ==> k in v.members && InLiteral(v.members[k], ms[k])
    case _ => v == literal
  }

  ghost predicate Inhabits(types: map<string, TsType>, t: TsType, v: Json, depth: nat)
    decreases depth, t
  {
    match t
    case TsString => v.Str?
    case TsNumber => v.Num?
    case TsBoolean => v.Bool?
    case TsNull => v.Null?
    case TsNever => false
    case TsUnknown => true
    case TsLiteral(literal) => InLiteral(v, literal)
    case TsName(name) => depth > 0 && name in types && Inhabits(types, types[name], v, depth - 1)
    case TsUnion(ts) => exists i :: 0 <= i < |ts| && Inhabits(types, ts[i], v, depth)
    case TsReadonlyArray(e) =>
      v.Arr? && forall i :: 0 <= i < |v.elements| ==> Inhabits(types, e, v.elements[i], depth)
    case TsRecord(e) => v.Obj? && forall k :: k in v.members ==> Inhabits(types, e, v.members[k], depth)
    case TsObject(fields) =>
      v.Obj? && forall k :: k in fields ==>
        if k in v.members then Inhabits(types, fields[k].typ, v.members[k], depth) else fields[k].optional
  }

  // ----- the compiler

  /** The text after the last slash. */
  function LastSegment(ref: string): string {
    if '/' !in ref then ref
    else LastSegment(ref[1..])
  }

  function SchemaToTs(s: Schema): TsType
    decreases s, 2
  {
    if s.ref.Some? then TsName(LastSegment(s.ref.value))
    else if s.constant.Some? then TsLiteral(s.constant.value)
    else if s.choices.Some? then
      TsUnion(seq(|s.choices.value|, i requires 0 <= i < |s.choices.value| => TsLiteral(s.choices.value[i])))
    else if s.anyOf.Alternatives? then
      TsUnion(seq(|s.anyOf.schemas|, i requires 0 <= i < |s.anyOf.schemas| => SchemaToTs(s.anyOf.schemas[i])))
    else if s.oneOf.Alternatives? then
      TsUnion(seq(|s.oneOf.schemas|, i requires 0 <= i < |s.oneOf.schemas| => SchemaToTs(s.oneOf.schemas[i])))
    else
      match s.typ
      case NoType => TypedToTs(s, None)
      case OneType(t) => TypedToTs(s, Some(t))
      case TypeList(ts) => TsUnion(seq(|ts|, i requires 0 <= i < |ts| => TypedToTs(s, Some(ts[i]))))
  }

  /** The type of `s` read as if its `type` keyword were the single name `t`, or absent. */
  function TypedToTs(s: Schema, t: Option<TypeName>): TsType
    decreases s, 1
  {
    match t
    case Some(TString) => TsString
    case Some(TInteger) => TsNumber
    case Some(TNumber) => TsNumber
    case Some(TBoolean) => TsBoolean
    case Some(TNull) => TsNull
    case Some(TArray) => TsReadonlyArray(if s.items.Some? then SchemaToTs(s.items.value) else TsUnknown)
    case Some(TObject) => ObjectToTs(s)
    case _ => if s.properties.Properties? then ObjectToTs(s) else TsUnknown
  }

  function ObjectToTs(s: Schema): TsType
    decreases s, 0
  {
    var fields := if s.properties.Properties? then s.properties.fields else map[];
    if fields == map[] then
      match s.additional
      case NoAdditional => TsRecord(TsNever)
      case AdditionalFlag(allowed) => TsRecord(if allowed then TsUnknown else TsNever)
      case AdditionalSchema(a) => TsRecord(SchemaToTs(a))
    else
      TsObject(map k | k in fields :: TsField(k !in s.required, SchemaToTs(fields[k])))
  }

  /** One exported alias for every component. */
  function GenerateTypes(defs: Schemas): map<string, TsType> {
    map n | n in defs :: SchemaToTs(defs[n])
  }

  // ----- acceptance implies membership

  /** A reference straight to a component, the only kind whose last segment names what it resolves to. */
  predicate ComponentReference(ref: string) {
    COMPONENT_PREFIX <= ref && '/' !in ref[|COMPONENT_PREFIX|..]
  }

  /** The schemas the compiler is right about, checked along the branches it takes. */
  ghost predicate Supported(s: Schema)
    decreases s, 1
  {
    if s.ref.Some? then ComponentReference(s.ref.value)
    else if s.constant.Some? || s.choices.Some? then true
    else if s.anyOf.Alternatives? then forall i :: 0 <= i < |s.anyOf.schemas| ==> Supported(s.anyOf.schemas[i])
    else if s.oneOf.Alternatives? then forall i :: 0 <= i < |s.oneOf.schemas| ==> Supported(s.oneOf.schemas[i])
    else
      match s.typ
      case NoType => s.properties.NoProperties?
      case OneType(t) => TypedSupported(s, t)
      case TypeList(ts) => forall i :: 0 <= i < |ts| ==> TypedSupported(s, ts[i])
  }

  ghost predicate TypedSupported(s: Schema, t: TypeName)
    decreases s, 0
  {
    match t
    case TArray => s.items.Some? ==> s.prefixItems == [] && Supported(s.items.value)
    case TObject =>
      if HasFields(s) then forall k :: k in s.properties.fields ==> Supported(s.properties.fields[k])
      else
        !s.additional.NoAdditional? && (s.additional.AdditionalSchema? ==> Supported(s.additional.schema))
    case _ => true
  }

  predicate HasFields(s: Schema) {
    s.properties.Properties? && s.properties.fields != map[]
  }

  ghost predicate AllSupported(defs: Schemas) {
    forall n :: n in defs ==> Supported(defs[n])
  }

  lemma {:induction false} LastSegmentAfterSlash(before: string, name: string)
    requires '/' !in name
    ensures LastSegment(before + ['/'] + name) == name
    decreases |before|
  {
    var ref := before + ['/'] + name;
    assert ref[|before|] == '/';
    if before == [] {
      assert ref[1..] == name;
    } else {
      assert ref[1..] == before[1..] + ['/'] + name;
      LastSegmentAfterSlash(before[1..], name);
    }
  }

  lemma ReferenceName(ref: string)
    requires ComponentReference(ref)
    ensures LastSegment(ref) == ref[|COMPONENT_PREFIX|..]
  {
    var name := ref[|COMPONENT_PREFIX|..];
    assert ref == COMPONENT_PREFIX[..|COMPONENT_PREFIX| - 1] + ['/'] + name;
    LastSegmentAfterSlash(COMPONENT_PREFIX[..|COMPONENT_PREFIX| - 1], name);
  }

  lemma {:induction false} LiteralHoldsItself(v: Json)
    ensures InLiteral(v, v)
    decreases v
  {
    match v
    case Arr(vs) => forall i | 0 <= i < |vs| ensures InLiteral(vs[i], vs[i]) { LiteralHoldsItself(vs[i]); }
    case Obj(ms) => forall k | k in ms ensures InLiteral(ms[k], ms[k]) { LiteralHoldsItself(ms[k]); }
    case _ =>
  }

  /** Compilation preserves meaning: at every depth, an accepted value inhabits the emitted type. */
  lemma {:induction false} Sound(defs: Schemas, s: Schema, v: Json, depth: nat)
    requires AllSupported(defs) && Supported(s) && Accepts(defs, s, v, depth)
    ensures Inhabits(GenerateTypes(defs), SchemaToTs(s), v, depth)
    decreases depth, s, 1
  {
    var types := GenerateTypes(defs);
    if s.ref.Some? {
      ReferenceName(s.ref.value);
      Sound(defs, Resolve(defs, s.ref.value).value, v, depth - 1);
    } else if s.constant.Some? {
      LiteralHoldsItself(v);
    } else if s.choices.Some? {
      var i :| 0 <= i < |s.choices.value| && s.choices.value[i] == v;
      LiteralHoldsItself(v);
      assert Inhabits(types, SchemaToTs(s).alternatives[i], v, depth);
    } else if s.anyOf.Alternatives? {
      var i :| 0 <= i < |s.anyOf.schemas| && Accepts(defs, s.anyOf.schemas[i], v, depth);
      Sound(defs, s.anyOf.schemas[i], v, depth);
      assert Inhabits(types, SchemaToTs(s).alternatives[i], v, depth);
    } else if s.oneOf.Alternatives? {
      var i :| 0 <= i < |s.oneOf.schemas| && Accepts(defs, s.oneOf.schemas[i], v, depth);
      Sound(defs, s.oneOf.schemas[i], v, depth);
      assert Inhabits(types, SchemaToTs(s).alternatives[i], v, depth);
    } else {
      match s.typ
      case NoType => assert TypedToTs(s, None) == TsUnknown;
      case OneType(t) => TypedSound(defs, s, t, v, depth);
      case TypeList(ts) =>
        var i :| 0 <= i < |ts| && HasType(v, ts[i]);
        TypedSound(defs, s, ts[i], v, depth);
        assert Inhabits(types, SchemaToTs(s).alternatives[i], v, depth);
    }
  }

  lemma {:induction false} TypedSound(defs: Schemas, s: Schema, t: TypeName, v: Json, depth: nat)
    requires AllSupported(defs) && TypedSupported(s, t) && HasType(v, t) && Accepts(defs, s, v, depth)
    ensures Inhabits(GenerateTypes(defs), TypedToTs(s, Some(t)), v, depth)
    decreases depth, s, 0
  {
    match t
    case TArray =>
      if s.items.Some? {
        forall i | 0 <= i < |v.elements|
          ensures Inhabits(GenerateTypes(defs), SchemaToTs(s.items.value), v.elements[i], depth)
        {
          Sound(defs, s.items.value, v.elements[i], depth);
        }
      }
    case TObject =>
      assert TypedToTs(s, Some(t)) == ObjectToTs(s);
      if HasFields(s) {
        forall k | k in s.properties.fields && k in v.members
          ensures Inhabits(GenerateTypes(defs), SchemaToTs(s.properties.fields[k]), v.members[k], depth)
        {
          Sound(defs, s.properties.fields[k], v.members[k], depth);
        }
      } else if s.additional.AdditionalSchema? {
        forall k | k in v.members
          ensures Inhabits(GenerateTypes(defs), SchemaToTs(s.additional.schema), v.members[k], depth)
        {
          Sound(defs, s.additional.schema, v.members[k], depth);
        }
      }
    case _ =>
  }

  /** Valid once references are followed far enough; an exclusive choice may need more than its first match. */
  ghost predicate Valid(defs: Schemas, s: Schema, v: Json) {
    exists enough: nat :: AcceptsFrom(defs, s, v, enough)
  }

  ghost predicate AcceptsFrom(defs: Schemas, s: Schema, v: Json, enough: nat) {
    forall depth :: depth >= enough ==> Accepts(defs, s, v, depth)
  }

  ghost predicate Inhabitant(types: map<string, TsType>, t: TsType, v: Json) {
    exists depth: nat :: Inhabits(types, t, v, depth)
  }

  lemma ValidValuesInhabit(defs: Schemas, s: Schema, v: Json)
    requires AllSupported(defs) && Supported(s) && Valid(defs, s, v)
    ensures Inhabitant(GenerateTypes(defs), SchemaToTs(s), v)
  {
    var enough: nat :| AcceptsFrom(defs, s, v, enough);
    Sound(defs, s, v, enough);
  }

  // ----- membership implies acceptance, where the type says everything the schema says

  /** A literal type with no object in it contains one value only. */
  ghost predicate Rigid(j: Json)
    decreases j
  {
    !j.Obj? && (j.Arr? ==> forall i :: 0 <= i < |j.elements| ==> Rigid(j.elements[i]))
  }

  ghost predicate Unconstrained(s: Schema) {
    s.items.None? && s.prefixItems == [] && s.properties.NoProperties? && s.additional.NoAdditional? && s.required == {}
  }

  /** Schemas without a keyword that TypeScript cannot express or the compiler passes over. */
  ghost predicate Exact(s: Schema)
    decreases s, 1
  {
    if s.ref.Some? then s == ANY.(ref := s.ref) && ComponentReference(s.ref.value)
    else if s.constant.Some? then s == ANY.(constant := s.constant) && Rigid(s.constant.value)
    else if s.choices.Some? then
      s == ANY.(choices := s.choices) && forall i :: 0 <= i < |s.choices.value| ==> Rigid(s.choices.value[i])
    else if s.anyOf.Alternatives? then
      s == ANY.(anyOf := s.anyOf) && forall i :: 0 <= i < |s.anyOf.schemas| ==> Exact(s.anyOf.schemas[i])
    else
      && s.oneOf.NoAlternatives?
      && match s.typ
         case NoType => Unconstrained(s)
         case OneType(t) => TypedExact(s, t)
         case TypeList(ts) => forall i :: 0 <= i < |ts| ==> TypedExact(s, ts[i])
  }

  ghost predicate TypedExact(s: Schema, t: TypeName)
    decreases s, 0
  {
    match t
    case TInteger => false
    case TArray => s.prefixItems == [] && (s.items.Some? ==> Exact(s.items.value))
    case TObject =>
      if HasFields(s) then
        && s.additional.NoAdditional? && s.required <= s.properties.fields.Keys
        && forall k :: k in s.properties.fields ==> Exact(s.properties.fields[k])
      else
        && s.required == {} && !s.additional.NoAdditional?
        && (s.additional.AdditionalSchema? ==> Exact(s.additional.schema))
    case Other(_) => false
    case _ => true
  }

  ghost predicate AllExact(defs: Schemas) {
    forall n :: n in defs ==> Exact(defs[n])
  }

  lemma {:induction false} ExactIsSupported(s: Schema)
    requires Exact(s)
    ensures Supported(s)
    decreases s
  {
    if s.anyOf.Alternatives? {
      forall i | 0 <= i < |s.anyOf.schemas| ensures Supported(s.anyOf.schemas[i]) {
        ExactIsSupported(s.anyOf.schemas[i]);
      }
    }
    if s.items.Some? && Exact(s.items.value) { ExactIsSupported(s.items.value); }
    if s.additional.AdditionalSchema? && Exact(s.additional.schema) { ExactIsSupported(s.additional.schema); }
    if s.properties.Properties? {
      forall k | k in s.properties.fields && Exact(s.properties.fields[k]) ensures Supported(s.properties.fields[k]) {
        ExactIsSupported(s.properties.fields[k]);
      }
    }
  }

  lemma {:induction false} RigidLiteral(v: Json, literal: Json)
    requires Rigid(literal) && InLiteral(v, literal)
    ensures v == literal
    decreases literal
  {
    if literal.Arr? {
      forall i | 0 <= i < |literal.elements| ensures v.elements[i] == literal.elements[i] {
        RigidLiteral(v.elements[i], literal.elements[i]);
      }
      assert v.elements == literal.elements;
    }
  }

  /** Nothing is widened: an inhabitant of the type of an exact schema is accepted by that schema. */
  lemma {:induction false} Complete(defs: Schemas, s: Schema, v: Json, depth: nat)
    requires AllExact(defs) && Exact(s) && Inhabits(GenerateTypes(defs), SchemaToTs(s), v, depth)
    ensures Accepts(defs, s, v, depth)
    decreases depth, s, 2
  {
    if s.ref.Some? {
      ReferenceComplete(defs, s, v, depth);
    } else if s.constant.Some? {
      RigidLiteral(v, s.constant.value);
    } else if s.choices.Some? {
      ChoiceComplete(defs, s, v, depth);
    } else if s.anyOf.Alternatives? {
      AlternativeComplete(defs, s, v, depth);
    } else {
      KeywordComplete(defs, s, v, depth);
    }
  }

  lemma {:induction false} ReferenceComplete(defs: Schemas, s: Schema, v: Json, depth: nat)
    requires AllExact(defs) && Exact(s) && Inhabits(GenerateTypes(defs), SchemaToTs(s), v, depth) && s.ref.Some?
    ensures Accepts(defs, s, v, depth)
    decreases depth, s, 1
  {
    hide *;
    var target := ReferenceTarget(defs, s, v, depth);
    Complete(defs, target, v, depth - 1);
    ReferenceAccepts(defs, s, v, depth);
  }

  /** An inhabitant of the emitted name is one of the type of the schema that the reference resolves to. */
  lemma ReferenceTarget(defs: Schemas, s: Schema, v: Json, depth: nat) returns (target: Schema)
    requires AllExact(defs) && Exact(s) && Inhabits(GenerateTypes(defs), SchemaToTs(s), v, depth) && s.ref.Some?
    ensures s == ANY.(ref := s.ref) && Resolve(defs, s.ref.value) == Some(target) && Exact(target)
    ensures depth > 0 && Inhabits(GenerateTypes(defs), SchemaToTs(target), v, depth - 1)
  {
    ReferenceOnly(s);
    hide Exact, Inhabits, SchemaToTs;
    ReferenceName(s.ref.value);
    NamedInhabitant(GenerateTypes(defs), LastSegment(s.ref.value), v, depth);
    target := defs[LastSegment(s.ref.value)];
  }

  lemma ReferenceOnly(s: Schema)
    requires Exact(s) && s.ref.Some?
    ensures s == ANY.(ref := s.ref) && ComponentReference(s.ref.value)
    ensures SchemaToTs(s) == TsName(LastSegment(s.ref.value))
  {
  }

  lemma NamedInhabitant(types: map<string, TsType>, name: string, v: Json, depth: nat)
    requires Inhabits(types, TsName(name), v, depth)
    ensures depth > 0 && name in types && Inhabits(types, types[name], v, depth - 1)
  {
  }

  lemma ReferenceAccepts(defs: Schemas, s: Schema, v: Json, depth: nat)
    requires s.ref.Some? && s == ANY.(ref := s.ref)
    ensures Accepts(defs, s, v, depth) <==>
              && depth > 0 && Resolve(defs, s.ref.value).Some?
              && Accepts(defs, Resolve(defs, s.ref.value).value, v, depth - 1)
  {
  }

  lemma {:induction false} AlternativeComplete(defs: Schemas, s: Schema, v: Json, depth: nat)
    requires AllExact(defs) && Exact(s) && Inhabits(GenerateTypes(defs), SchemaToTs(s), v, depth)
    requires s.ref.None? && s.constant.None? && s.choices.None? && s.anyOf.Alternatives?
    ensures Accepts(defs, s, v, depth)
    decreases depth, s, 1
  {
    var i :| 0 <= i < |s.anyOf.schemas| && Inhabits(GenerateTypes(defs), SchemaToTs(s).alternatives[i], v, depth);
    Complete(defs, s.anyOf.schemas[i], v, depth);
  }

  lemma ChoiceComplete(defs: Schemas, s: Schema, v: Json, depth: nat)
    requires s.ref.None? && s.constant.None? && s.choices.Some? && Exact(s)
    requires Inhabits(GenerateTypes(defs), SchemaToTs(s), v, depth)
    ensures Accepts(defs, s, v, depth)
  {
    var i :| 0 <= i < |s.choices.value| && Inhabits(GenerateTypes(defs), SchemaToTs(s).alternatives[i], v, depth);
    RigidLiteral(v, s.choices.value[i]);
  }

  lemma {:induction false} KeywordComplete(defs: Schemas, s: Schema, v: Json, depth: nat)
    requires AllExact(defs) && Exact(s) && Inhabits(GenerateTypes(defs), SchemaToTs(s), v, depth)
    requires s.ref.None? && s.constant.None? && s.choices.None? && s.anyOf.NoAlternatives?
    ensures Accepts(defs, s, v, depth)
    decreases depth, s, 1
  {
    match s.typ
    case NoType =>
    case OneType(t) => TypedComplete(defs, s, t, v, depth);
    case TypeList(ts) =>
      var i :| 0 <= i < |ts| && Inhabits(GenerateTypes(defs), SchemaToTs(s).alternatives[i], v, depth);
      TypedComplete(defs, s, ts[i], v, depth);
  }

  lemma {:induction false} TypedComplete(defs: Schemas, s: Schema, t: TypeName, v: Json, depth: nat)
    requires AllExact(defs) && TypedExact(s, t) && Inhabits(GenerateTypes(defs), TypedToTs(s, Some(t)), v, depth)
    ensures HasType(v, t)
    ensures v.Arr? ==> AcceptsElements(defs, s, v.elements, depth)
    ensures v.Obj? ==> AcceptsMembers(defs, s, v.members, depth)
    decreases depth, s, 0
  {
    match t
    case TArray =>
      if s.items.Some? {
        forall i | 0 <= i < |v.elements| ensures Accepts(defs, s.items.value, v.elements[i], depth) {
          Complete(defs, s.items.value, v.elements[i], depth);
        }
      }
    case TObject =>
      assert TypedToTs(s, Some(t)) == ObjectToTs(s);
      if HasFields(s) {
        assert forall k :: k in s.properties.fields ==> k in ObjectToTs(s).fields;
        forall k | k in s.properties.fields && k in v.members
          ensures Accepts(defs, s.properties.fields[k], v.members[k], depth)
        {
          Complete(defs, s.properties.fields[k], v.members[k], depth);
        }
      } else if s.additional.AdditionalSchema? {
        forall k | k in v.members ensures Accepts(defs, s.additional.schema, v.members[k], depth) {
          Complete(defs, s.additional.schema, v.members[k], depth);
        }
      }
    case _ =>
  }

  lemma ExactIff(defs: Schemas, s: Schema, v: Json, depth: nat)
    requires AllExact(defs) && Exact(s)
    ensures Accepts(defs, s, v, depth) <==> Inhabits(GenerateTypes(defs), SchemaToTs(s), v, depth)
  {
    ExactIsSupported(s);
    forall n | n in defs ensures Supported(defs[n]) { ExactIsSupported(defs[n]); }
    if Accepts(defs, s, v, depth) { Sound(defs, s, v, depth); }
    if Inhabits(GenerateTypes(defs), SchemaToTs(s), v, depth) { Complete(defs, s, v, depth); }
  }

  // ----- what the type of any schema holds, keyword by keyword

  /** None of the keywords that the compiler looks at before `type`. */
  predicate ReachesType(s: Schema) {
    s.ref.None? && s.constant.None? && s.choices.None? && s.anyOf.NoAlternatives? && s.oneOf.NoAlternatives?
  }

  /** A schema that the compiler reads as an object: it says so, or has `properties` and no `type`. */
  predicate ReadAsObject(s: Schema) {
    ReachesType(s) && (s.typ == OneType(TObject) || (s.typ.NoType? && s.properties.Properties?))
  }

  /**
   With fields declared, the type holds the objects that have every required one of them and whose members under
   declared names inhabit the types of those fields.  Whatever `additionalProperties` says is lost, and so are required
   names that no field declares.
   */
  lemma FieldsInhabit(types: map<string, TsType>, s: Schema, v: Json, depth: nat)
    requires ReadAsObject(s) && HasFields(s)
    ensures Inhabits(types, SchemaToTs(s), v, depth) <==>
              && v.Obj?
              && (forall k :: k in s.required && k in s.properties.fields ==> k in v.members)
              && (forall k :: k in s.properties.fields && k in v.members ==>
                    Inhabits(types, SchemaToTs(s.properties.fields[k]), v.members[k], depth))
  {
    var t := SchemaToTs(s);
    ObjectRead(s);
    assert t.TsObject? && t.fields.Keys == s.properties.fields.Keys;
  }

  /** Without fields, the type holds the objects whose members all inhabit the type of `additionalProperties`. */
  lemma MembersInhabit(types: map<string, TsType>, s: Schema, v: Json, depth: nat)
    requires ReadAsObject(s) && !HasFields(s)
    ensures Inhabits(types, SchemaToTs(s), v, depth) <==>
              && v.Obj?
              && forall k :: k in v.members ==>
                   match s.additional
                   case NoAdditional => false
                   case AdditionalFlag(allowed) => allowed
                   case AdditionalSchema(a) => Inhabits(types, SchemaToTs(a), v.members[k], depth)
  {
    ObjectRead(s);
  }

  lemma ObjectRead(s: Schema)
    requires ReadAsObject(s)
    ensures SchemaToTs(s) == ObjectToTs(s)
  {
    assert SchemaToTs(s) == TypedToTs(s, if s.typ.NoType? then None else Some(TObject));
  }

  /** For exact fields the type is the schema without `additionalProperties`. */
  lemma FieldsIff(defs: Schemas, s: Schema, v: Json, depth: nat)
    requires AllExact(defs) && ReachesType(s) && s.typ == OneType(TObject) && HasFields(s)
    requires s.required <= s.properties.fields.Keys
    requires forall k :: k in s.properties.fields ==> Exact(s.properties.fields[k])
    ensures Inhabits(GenerateTypes(defs), SchemaToTs(s), v, depth) <==>
              Accepts(defs, s.(additional := NoAdditional), v, depth)
  {
    FieldsInhabit(GenerateTypes(defs), s, v, depth);
    if v.Obj? {
      forall k | k in s.properties.fields && k in v.members
        ensures Accepts(defs, s.properties.fields[k], v.members[k], depth) <==>
                  Inhabits(GenerateTypes(defs), SchemaToTs(s.properties.fields[k]), v.members[k], depth)
      {
        ExactIff(defs, s.properties.fields[k], v.members[k], depth);
      }
    }
    FieldsAccept(defs, s, v, depth);
  }

  lemma FieldsAccept(defs: Schemas, s: Schema, v: Json, depth: nat)
    requires ReachesType(s) && s.typ == OneType(TObject) && HasFields(s)
    ensures Accepts(defs, s.(additional := NoAdditional), v, depth) <==>
              && v.Obj? && s.required <= v.members.Keys
              && (forall k :: k in s.properties.fields && k in v.members ==>
                    Accepts(defs, s.properties.fields[k], v.members[k], depth))
  {
  }

  /** The types that a schema's alternatives, or the names in its type list, contribute. */
  function Branches(s: Schema): seq<TsType> {
    if s.anyOf.Alternatives? then
      seq(|s.anyOf.schemas|, i requires 0 <= i < |s.anyOf.schemas| => SchemaToTs(s.anyOf.schemas[i]))
    else if s.oneOf.Alternatives? then
      seq(|s.oneOf.schemas|, i requires 0 <= i < |s.oneOf.schemas| => SchemaToTs(s.oneOf.schemas[i]))
    else if s.typ.TypeList? then
      seq(|s.typ.names|, i requires 0 <= i < |s.typ.names| => SchemaToTs(s.(typ := OneType(s.typ.names[i]))))
    else []
  }

  /** A choice between schemas, exclusive or not, or between type names is inhabited exactly if one of them is. */
  lemma AlternativesInhabit(types: map<string, TsType>, s: Schema, v: Json, depth: nat)
    requires s.ref.None? && s.constant.None? && s.choices.None?
    requires s.anyOf.Alternatives? || s.oneOf.Alternatives? || s.typ.TypeList?
    ensures Inhabits(types, SchemaToTs(s), v, depth) <==>
              exists i :: 0 <= i < |Branches(s)| && Inhabits(types, Branches(s)[i], v, depth)
  {
    var t := SchemaToTs(s);
    if s.anyOf.NoAlternatives? && s.oneOf.NoAlternatives? {
      forall i | 0 <= i < |s.typ.names| ensures t.alternatives[i] == Branches(s)[i] {
        SameBranch(s, s.typ.names[i]);
      }
    }
    assert t.alternatives == Branches(s);
  }

  /** A name in a type list is compiled as if it stood alone. */
  lemma SameBranch(s: Schema, t: TypeName)
    requires ReachesType(s)
    ensures TypedToTs(s, Some(t)) == SchemaToTs(s.(typ := OneType(t)))
  {
    var alone := s.(typ := OneType(t));
    assert ObjectToTs(s) == ObjectToTs(alone);
    assert SchemaToTs(alone) == TypedToTs(alone, Some(t));
  }

  /** A constant, or one of the choices, is what their types hold, up to further members of objects. */
  lemma LiteralsInhabit(types: map<string, TsType>, s: Schema, v: Json, depth: nat)
    requires s.ref.None? && (s.constant.Some? || s.choices.Some?)
    ensures Inhabits(types, SchemaToTs(s), v, depth) <==>
              if s.constant.Some? then InLiteral(v, s.constant.value)
              else exists i :: 0 <= i < |s.choices.value| && InLiteral(v, s.choices.value[i])
  {
    if s.constant.None? {
      var t := SchemaToTs(s);
      assert forall i :: 0 <= i < |s.choices.value| ==> t.alternatives[i] == TsLiteral(s.choices.value[i]);
    }
  }

  /**
   The type of a single type name, apart from objects: integers are any numbers, arrays hold what `items` is compiled
   to at every index, and names that JSON Schema does not know hold everything.
   */
  lemma NamesInhabit(types: map<string, TsType>, s: Schema, t: TypeName, v: Json, depth: nat)
    requires ReachesType(s) && s.typ == OneType(t) && !t.TObject? && (t.Other? ==> s.properties.NoProperties?)
    ensures Inhabits(types, SchemaToTs(s), v, depth) <==>
              match t
              case TInteger => v.Num?
              case TArray =>
                v.Arr? && (s.items.Some? ==>
                             forall i :: 0 <= i < |v.elements| ==>
                               Inhabits(types, SchemaToTs(s.items.value), v.elements[i], depth))
              case Other(_) => true
              case _ => HasType(v, t)
  {
  }

  // ----- what compilation forgets

  /**
   A schema without what its type cannot say: `oneOf` no longer excludes further matches, integers are numbers, and
   an object with fields neither restricts other members nor requires them.
   */
  function Erased(s: Schema): Schema
    decreases s
  {
    var alternatives := if s.anyOf.Alternatives? then s.anyOf else s.oneOf;
    Schema(
      s.ref, s.constant, s.choices,
      match alternatives {
        case NoAlternatives => NoAlternatives
        case Alternatives(xs) => Alternatives(seq(|xs|, i requires 0 <= i < |xs| => Erased(xs[i])))
      },
      NoAlternatives, ErasedTypes(s.typ),
      if s.items.Some? then Some(Erased(s.items.value)) else None,
      s.prefixItems,
      if s.properties.Properties? then Properties(map k | k in s.properties.fields :: Erased(s.properties.fields[k]))
      else NoProperties,
      if HasFields(s) then NoAdditional
      else if s.additional.AdditionalSchema? then AdditionalSchema(Erased(s.additional.schema))
      else s.additional,
      if HasFields(s) then s.required * s.properties.fields.Keys else {})
  }

  function ErasedName(t: TypeName): TypeName {
    if t.TInteger? then TNumber else t
  }

  function ErasedTypes(typ: TypeKeyword): TypeKeyword {
    match typ
    case NoType => NoType
    case OneType(t) => OneType(ErasedName(t))
    case TypeList(ts) => TypeList(seq(|ts|, i requires 0 <= i < |ts| => ErasedName(ts[i])))
  }

  function ErasedAll(defs: Schemas): Schemas {
    map n | n in defs :: Erased(defs[n])
  }

  /** Nothing of what is forgotten reaches the type of any schema. */
  lemma {:induction false} ErasureKeepsType(s: Schema)
    ensures SchemaToTs(Erased(s)) == SchemaToTs(s)
    decreases s, 2
  {
    var e := Erased(s);
    if s.ref.Some? || s.constant.Some? || s.choices.Some? {
    } else if s.anyOf.Alternatives? || s.oneOf.Alternatives? {
      var xs := if s.anyOf.Alternatives? then s.anyOf.schemas else s.oneOf.schemas;
      forall i | 0 <= i < |xs| ensures SchemaToTs(Erased(xs[i])) == SchemaToTs(xs[i]) { ErasureKeepsType(xs[i]); }
      assert SchemaToTs(e).alternatives == SchemaToTs(s).alternatives;
    } else {
      match s.typ
      case NoType => ErasureKeepsTyped(s, None);
      case OneType(t) => ErasureKeepsTyped(s, Some(t));
      case TypeList(ts) =>
        forall i | 0 <= i < |ts| ensures TypedToTs(e, Some(ErasedName(ts[i]))) == TypedToTs(s, Some(ts[i])) {
          ErasureKeepsTyped(s, Some(ts[i]));
        }
        assert SchemaToTs(e).alternatives == SchemaToTs(s).alternatives;
    }
  }

  lemma {:induction false} ErasureKeepsTyped(s: Schema, t: Option<TypeName>)
    ensures TypedToTs(Erased(s), if t.Some? then Some(ErasedName(t.value)) else None) == TypedToTs(s, t)
    decreases s, 1
  {
    if s.items.Some? { ErasureKeepsType(s.items.value); }
    ErasureKeepsObject(s);
    ErasedItems(s);
    SameTyped(Erased(s), s, t);
    hide *;
  }

  /** Where items and members are compiled alike, every type name is. */
  lemma SameTyped(e: Schema, s: Schema, t: Option<TypeName>)
    requires ObjectToTs(e) == ObjectToTs(s) && (e.properties.NoProperties? <==> s.properties.NoProperties?)
    requires e.items.Some? <==> s.items.Some?
    requires s.items.Some? ==> SchemaToTs(e.items.value) == SchemaToTs(s.items.value)
    ensures TypedToTs(e, if t.Some? then Some(ErasedName(t.value)) else None) == TypedToTs(s, t)
  {
    hide ObjectToTs, SchemaToTs;
  }

  lemma ErasedItems(s: Schema)
    ensures Erased(s).items == if s.items.Some? then Some(Erased(s.items.value)) else None
  {
  }

  lemma {:induction false} ErasureKeepsObject(s: Schema)
    ensures s.properties.NoProperties? <==> Erased(s).properties.NoProperties?
    ensures ObjectToTs(Erased(s)) == ObjectToTs(s)
    decreases s, 0
  {
    if HasFields(s) {
      var fields := s.properties.fields;
      forall k | k in fields ensures SchemaToTs(Erased(fields[k])) == SchemaToTs(fields[k]) {
        ErasureKeepsType(fields[k]);
      }
      ErasureKeepsFields(s);
    } else if s.additional.AdditionalSchema? {
      ErasureKeepsType(s.additional.schema);
    }
  }

  lemma ErasureKeepsFields(s: Schema)
    requires HasFields(s)
    requires forall k :: k in s.properties.fields ==>
               SchemaToTs(Erased(s.properties.fields[k])) == SchemaToTs(s.properties.fields[k])
    ensures ObjectToTs(Erased(s)) == ObjectToTs(s)
  {
    hide *;
    ErasedFields(s);
    ObjectFields(s);
    ObjectFields(Erased(s));
    var t, u := ObjectToTs(Erased(s)), ObjectToTs(s);
    forall k | k in u.fields ensures t.fields[k] == u.fields[k] {
      assert SchemaToTs(Erased(s.properties.fields[k])) == SchemaToTs(s.properties.fields[k]);
    }
    assert t.fields.Keys == u.fields.Keys;
    assert t.fields == u.fields;
  }

  lemma ErasedFields(s: Schema)
    requires HasFields(s)
    ensures var e := Erased(s);
            && HasFields(e) && e.properties.fields.Keys == s.properties.fields.Keys
            && e.required == s.required * s.properties.fields.Keys
            && forall k :: k in s.properties.fields ==> e.properties.fields[k] == Erased(s.properties.fields[k])
  {
    var k :| k in s.properties.fields;
    assert k in Erased(s).properties.fields;
  }

  lemma ObjectFields(s: Schema)
    requires HasFields(s)
    ensures s.properties.Properties? && ObjectToTs(s).TsObject? && ObjectToTs(s).fields.Keys == s.properties.fields.Keys
    ensures forall k :: k in s.properties.fields ==>
              ObjectToTs(s).fields[k] == TsField(k !in s.required, SchemaToTs(s.properties.fields[k]))
  {
  }

  /** Where only such things stand in the way, the type is exactly the schema without them. */
  lemma ErasedIff(defs: Schemas, s: Schema, v: Json, depth: nat)
    requires AllExact(ErasedAll(defs)) && Exact(Erased(s))
    ensures Inhabits(GenerateTypes(defs), SchemaToTs(s), v, depth) <==> Accepts(ErasedAll(defs), Erased(s), v, depth)
  {
    ErasureKeepsTypes(defs);
    ErasureKeepsType(s);
    ExactIff(ErasedAll(defs), Erased(s), v, depth);
    hide *;
  }

  lemma ErasureKeepsTypes(defs: Schemas)
    ensures GenerateTypes(ErasedAll(defs)) == GenerateTypes(defs)
  {
    hide Erased, SchemaToTs;
    forall n | n in defs ensures GenerateTypes(ErasedAll(defs))[n] == GenerateTypes(defs)[n] {
      ErasureKeepsType(defs[n]);
    }
  }

  // ----- where the compiler is wrong, and exactly when it still gets the value right

  ghost predicate MembersSupported(s: Schema) {
    if HasFields(s) then forall k :: k in s.properties.fields ==> Supported(s.properties.fields[k])
    else s.additional.AdditionalSchema? ==> Supported(s.additional.schema)
  }

  /**
   A schema compiled as an object, whether it says so or only has `properties`: an accepted value inhabits the type
   exactly when it is an object and, where neither fields nor `additionalProperties` are declared, an empty one.
   */
  lemma ObjectBranchIff(defs: Schemas, s: Schema, v: Json, depth: nat)
    requires AllSupported(defs) && ReachesType(s) && MembersSupported(s) && Accepts(defs, s, v, depth)
    requires s.typ == OneType(TObject) || (s.typ.NoType? && s.properties.Properties?)
    ensures Inhabits(GenerateTypes(defs), SchemaToTs(s), v, depth) <==>
              v.Obj? && (HasFields(s) || !s.additional.NoAdditional? || v.members == map[])
  {
    assert TypedToTs(s, Some(TObject)) == ObjectToTs(s);
    assert SchemaToTs(s) == TypedToTs(s, if s.typ.NoType? then None else Some(TObject));
    if v.Obj? && (HasFields(s) || !s.additional.NoAdditional?) {
      TypedSound(defs, s, TObject, v, depth);
    }
  }

  /**
   An object type without fields and without `additionalProperties` accepts every object that has the required
   members; its TypeScript type admits the empty object only.  `type` may be a list of further names.
   */
  lemma BareObject(defs: Schemas, s: Schema, v: Json, depth: nat)
    requires ReachesType(s) && !HasFields(s) && s.additional.NoAdditional? && v.Obj?
    requires s.typ == OneType(TObject)
             || (s.typ.TypeList? && TObject in s.typ.names && forall t :: t in s.typ.names ==> !t.Other?)
    ensures Accepts(defs, s, v, depth) <==> s.required <= v.members.Keys
    ensures Inhabits(GenerateTypes(defs), SchemaToTs(s), v, depth) <==> v.members == map[]
  {
    var types := GenerateTypes(defs);
    forall t: TypeName | !t.Other?
      ensures Inhabits(types, TypedToTs(s, Some(t)), v, depth) <==> t == TObject && v.members == map[]
    {
      BareBranch(types, s, t, v, depth);
    }
    if s.typ.TypeList? {
      var k :| 0 <= k < |s.typ.names| && s.typ.names[k] == TObject;
      assert HasType(v, s.typ.names[k]);
      assert SchemaToTs(s).alternatives[k] == TypedToTs(s, Some(TObject));
    }
  }

  lemma BareBranch(types: map<string, TsType>, s: Schema, t: TypeName, v: Json, depth: nat)
    requires !HasFields(s) && s.additional.NoAdditional? && v.Obj? && !t.Other?
    ensures Inhabits(types, TypedToTs(s, Some(t)), v, depth) <==> t == TObject && v.members == map[]
  {
    match t
    case TObject =>
      assert TypedToTs(s, Some(t)) == TsRecord(TsNever);
      assert v.members == map[] <==> forall k :: k !in v.members;
    case _ =>
  }

  /** `properties` without `type` accepts everything that is not an object or array; the emitted type refuses it. */
  lemma UntypedProperties(defs: Schemas, s: Schema, v: Json, depth: nat)
    requires AllSupported(defs) && ReachesType(s) && MembersSupported(s) && s.typ.NoType? && HasFields(s)
    ensures !v.Obj? ==> (Accepts(defs, s, v, depth) <==> (v.Arr? ==> AcceptsElements(defs, s, v.elements, depth)))
    ensures Accepts(defs, s, v, depth) ==> (Inhabits(GenerateTypes(defs), SchemaToTs(s), v, depth) <==> v.Obj?)
  {
    if Accepts(defs, s, v, depth) { ObjectBranchIff(defs, s, v, depth); }
  }

  /**
   `items` beside `prefixItems` is applied to the leading elements too: an accepted array inhabits the type when
   `items` accepts those as well, and only then if `items` says nothing that a type cannot.
   */
  lemma PrefixedArray(defs: Schemas, s: Schema, v: Json, depth: nat)
    requires AllSupported(defs) && ReachesType(s) && s.typ == OneType(TArray) && s.items.Some? &&
             Supported(s.items.value)
    requires Accepts(defs, s, v, depth)
    ensures LeadingAccepted(defs, s, v.elements, depth) ==> Inhabits(GenerateTypes(defs), SchemaToTs(s), v, depth)
    ensures AllExact(defs) && Exact(s.items.value) ==>
              (Inhabits(GenerateTypes(defs), SchemaToTs(s), v, depth) <==> LeadingAccepted(defs, s, v.elements, depth))
  {
    var types, items := GenerateTypes(defs), s.items.value;
    forall i | 0 <= i < |v.elements|
      ensures Accepts(defs, items, v.elements[i], depth) ==> Inhabits(types, SchemaToTs(items), v.elements[i], depth)
      ensures AllExact(defs) && Exact(items) ==>
                (Accepts(defs, items, v.elements[i], depth) <==>
                    Inhabits(types, SchemaToTs(items), v.elements[i], depth))
    {
      if Accepts(defs, items, v.elements[i], depth) { Sound(defs, items, v.elements[i], depth); }
      if AllExact(defs) && Exact(items) { ExactIff(defs, items, v.elements[i], depth); }
    }
    assert SchemaToTs(s) == TsReadonlyArray(SchemaToTs(items));
  }

  ghost predicate LeadingAccepted(defs: Schemas, s: Schema, vs: seq<Json>, depth: nat)
    requires s.items.Some?
  {
    forall i :: 0 <= i < |s.prefixItems| && i < |vs| ==> Accepts(defs, s.items.value, vs[i], depth)
  }
}
