/** Schemas as they are written, what draft 4 says of them, and what the `Schema` constructor makes of them. */
module SchemaSource {
  import opened Common
  import opened Json
  import opened Schema
  import opened Utf8
  import Hasher

  // ----- schemas as they are written -----

  /** `additionalProperties` and `additionalItems`. */
  datatype Additional = Absent | Flag(allowed: bool) | Given(schema: Source)

  datatype SourceItems = AnyItems | Each(schema: Source) | Tuple(schemas: seq<Source>)

  datatype Named = Named(name: Bytes, schema: Source)

  /** The keywords of a schema object. Lower bounds, `multipleOf` and the lists are zero or
      empty when absent; `defaultValue` is empty unless the default is a string. */
  datatype Source = Source(
    types: Option<set<JsonType>>,
    enums: seq<Value>,
    allOf: seq<Source>,
    anyOf: seq<Source>,
    oneOf: seq<Source>,
    notSchema: Option<Source>,
    properties: seq<Named>,
    required: seq<Bytes>,
    additionalProperties: Additional,
    minProperties: nat,
    maxProperties: Option<nat>,
    items: SourceItems,
    additionalItems: Additional,
    minItems: nat,
    maxItems: Option<nat>,
    uniqueItems: bool,
    minLength: nat,
    maxLength: Option<nat>,
    minimum: Option<Int64Or>,
    maximum: Option<Int64Or>,
    exclusiveMinimum: bool,
    exclusiveMaximum: bool,
    multipleOf: nat,
    doubleOk: Bytes -> bool,
    defaultValue: Bytes)

  /** The schema object without keywords. */
  const EMPTY: Source := Source(
    None, [], [], [], [], None, [], [], Absent, 0, None, AnyItems, Absent, 0, None, false,
    0, None, None, None, false, false, 0, _ => true, [])

  /** The first property of a name. */
  function FindNamed(properties: seq<Named>, name: Bytes): (r: Option<nat>)
    ensures r.Some? ==> r.value < |properties| && properties[r.value].name == name
    ensures r.None? ==> forall i | 0 <= i < |properties| :: properties[i].name != name
  {
    FirstNamed(properties, (p: Named) => p.name, name)
  }

  // ----- what a schema means -----

  /** Draft 4 as written, or with the liberties the compiled schema takes: members that
      `required` names are never additional, an empty tuple is no tuple, and a lower size
      bound of more than 32 bits is none. */
  datatype Reading = Draft4 | AsCompiled

  predicate AtLeast(n: nat, bound: nat, r: Reading) {
    bound <= n || (r.AsCompiled? && bound > NO_LIMIT)
  }

  predicate AtMost(n: nat, bound: Option<nat>) {
    bound.Some? ==> n <= bound.value
  }

  function Times(k: int, m: int): int {
    k * m
  }

  /** Section 5.1.1: dividing by `m` gives an integer. */
  ghost predicate IsMultiple(n: int, m: int) {
    exists k :: Times(k, m) == n
  }

  /** The remainder of the magnitude is the one that decides, below zero as well. */
  lemma MultipleByRemainder(n: int, m: int)
    requires m > 0
    ensures IsMultiple(n, m) <==> Magnitude(n) % m == 0
  {
    var d := Magnitude(n);
    assert d == m * (d / m) + d % m;
    if d % m == 0 {
      assert Times(if n >= 0 then d / m else -(d / m), m) == n;
    }
    if IsMultiple(n, m) {
      var k :| Times(k, m) == n;
      NoRemainder(if n >= 0 then k else -k, m, d);
    }
  }

  lemma NoRemainder(k: int, m: int, d: nat)
    requires m > 0 && d == k * m
    ensures d % m == 0
  {
    assert m * (k - d / m) == d % m;
    FarFromZero(m, k - d / m);
  }

  lemma FarFromZero(m: int, t: int)
    requires m > 0
    ensures t >= 1 ==> m * t >= m
    ensures t <= -1 ==> m * t <= -m
  {
  }

  /** Section 5.1. */
  ghost predicate NumberMeets(s: Source, n: int) {
    && (s.minimum.Some? ==> if s.exclusiveMinimum then n > s.minimum.value else n >= s.minimum.value)
    && (s.maximum.Some? ==> if s.exclusiveMaximum then n < s.maximum.value else n <= s.maximum.value)
    && (s.multipleOf > 0 ==> IsMultiple(n, s.multipleOf))
  }

  /** Sections 5.2.1 and 5.2.2: length in characters. Bytes that are not UTF-8 are not a
      string of JSON, and no length is asked of them. */
  predicate StringMeets(s: Source, str: Bytes, r: Reading) {
    var cps := DecodedAll(str, 0);
    cps.Some? ==> AtLeast(|cps.value|, s.minLength, r) && AtMost(|cps.value|, s.maxLength)
  }

  /** Section 5.5.2: an integer is a number. */
  predicate TypeMeets(s: Source, j: Value) {
    s.types.Some? ==>
      match j
      case Null => NullType in s.types.value
      case Bool(_) => BooleanType in s.types.value
      case Number(_) => IntegerType in s.types.value || NumberType in s.types.value
      case Double(_) => NumberType in s.types.value
      case String(_) => StringType in s.types.value
      case Array(_) => ArrayType in s.types.value
      case Object(_) => ObjectType in s.types.value
  }

  /** Section 5 of the JSON Schema draft 4 validation document, with two choices of the
      implementation: `enum` and `uniqueItems` compare hashes, and a missing required
      property whose schema has a non-empty string default is not an error. */
  ghost predicate Meets(s: Source, j: Value, r: Reading)
    decreases j, s, 1
  {
    && TypeMeets(s, j)
    && (s.enums == [] || exists i | 0 <= i < |s.enums| :: Hasher.HashOf(s.enums[i]) == Hasher.HashOf(j))
    && CombinedMeets(s, j, r)
    && (j.Number? ==> NumberMeets(s, j.n))
    && (j.Double? ==> s.doubleOk(j.image))
    && (j.String? ==> StringMeets(s, j.s, r))
    && (j.Array? ==> ArrayMeets(s, j, r))
    && (j.Object? ==> ObjectMeets(s, j, r))
  }

  /** Sections 5.5.3 to 5.5.6. */
  ghost predicate CombinedMeets(s: Source, j: Value, r: Reading)
    decreases j, s, 0
  {
    && (forall i | 0 <= i < |s.allOf| :: Meets(s.allOf[i], j, r))
    && (s.anyOf == [] || exists i | 0 <= i < |s.anyOf| :: Meets(s.anyOf[i], j, r))
    && (s.oneOf == [] || OneMeets(s.oneOf, j, r))
    && (s.notSchema.Some? ==> !Meets(s.notSchema.value, j, r))
  }

  ghost predicate OneMeets(list: seq<Source>, j: Value, r: Reading)
    decreases j, list, 0
  {
    exists i | 0 <= i < |list| :: Meets(list[i], j, r) && forall k | 0 <= k < |list| && k != i :: !Meets(list[k], j, r)
  }

  /** What `additionalProperties` or `additionalItems` says of one value. */
  ghost predicate AdditionalMeets(a: Additional, j: Value, r: Reading)
    decreases j, a, 2
  {
    match a
    case Absent => true
    case Flag(allowed) => allowed
    case Given(schema) => Meets(schema, j, r)
  }

  /** Section 5.3. */
  ghost predicate ArrayMeets(s: Source, j: Value, r: Reading)
    requires j.Array?
    decreases j, s, 0
  {
    && AtLeast(|j.es|, s.minItems, r) && AtMost(|j.es|, s.maxItems)
    && (s.uniqueItems ==> UniqueHashes(j.es, |j.es|))
    && forall i | 0 <= i < |j.es| :: ItemMeets(s, i, j.es[i], r)
  }

  /** Sections 5.3.1 and 8.2: the schema at the index, else `additionalItems`. */
  ghost predicate ItemMeets(s: Source, i: nat, j: Value, r: Reading)
    decreases j, s, 4
  {
    match s.items
    case AnyItems => true
    case Each(schema) => Meets(schema, j, r)
    case Tuple(schemas) =>
      if i < |schemas| then Meets(schemas[i], j, r)
      else (r.AsCompiled? && |schemas| == 0) || AdditionalMeets(s.additionalItems, j, r)
  }

  /** Section 5.4. */
  ghost predicate ObjectMeets(s: Source, j: Value, r: Reading)
    requires j.Object?
    decreases j, s, 0
  {
    && AtLeast(|j.ms|, s.minProperties, r) && AtMost(|j.ms|, s.maxProperties)
    && (forall k | 0 <= k < |s.required| :: RequiredMeets(s, s.required[k], j.ms))
    && forall i | 0 <= i < |j.ms| :: MemberMeets(s, j.ms[i].name, j.ms[i].value, r)
  }

  predicate Occurs(name: Bytes, ms: seq<Member>) {
    exists i | 0 <= i < |ms| :: ms[i].name == name
  }

  /** Section 5.4.3. */
  predicate RequiredMeets(s: Source, name: Bytes, ms: seq<Member>) {
    Occurs(name, ms) ||
    var k := FindNamed(s.properties, name);
    k.Some? && s.properties[k.value].schema.defaultValue != []
  }

  /** Sections 5.4.4 and 8.3: the schema of the name, else `additionalProperties`. */
  ghost predicate MemberMeets(s: Source, name: Bytes, j: Value, r: Reading)
    decreases j, s, 4
  {
    var k := FindNamed(s.properties, name);
    if k.Some? then Meets(s.properties[k.value].schema, j, r)
    else (r.AsCompiled? && name in s.required) || AdditionalMeets(s.additionalProperties, j, r)
  }

  // ----- the constructor -----

  const ALL_TYPES: set<JsonType> := {NullType, BooleanType, ObjectType, ArrayType, StringType, NumberType, IntegerType}

  /** `AssignIfExist` of a lower bound: one of more than 32 bits is ignored. */
  function LowerBound(bound: nat): nat {
    if bound <= NO_LIMIT then bound else 0
  }

  function UpperBound(bound: Option<nat>): nat {
    if bound.Some? && bound.value <= NO_LIMIT then bound.value else NO_LIMIT
  }

  /** `AddUniqueElement`, for every name of a list. */
  function Gathered(names: seq<Bytes>, more: seq<Bytes>): seq<Bytes>
    decreases |more|
  {
    if more == [] then names else Gathered(if more[0] in names then names else names + [more[0]], more[1..])
  }

  function NamesOf(properties: seq<Named>): (names: seq<Bytes>)
    ensures |names| == |properties|
  {
    seq(|properties|, i requires 0 <= i < |properties| => properties[i].name)
  }

  /** The names that get an entry in `properties_`, in the order they are gathered. */
  function AllNames(s: Source): seq<Bytes> {
    Gathered(Gathered([], NamesOf(s.properties)), s.required)
  }

  function Compile(s: Source): (c: Schema)
    decreases s, 2
  {
    Schema(
      if s.types.None? then ALL_TYPES
      else s.types.value + if NumberType in s.types.value then {IntegerType} else {},
      s.enums, CompileAll(s.allOf), CompileAll(s.anyOf), CompileAll(s.oneOf),
      if s.notSchema.Some? then Some(Compile(s.notSchema.value)) else None,
      CompileProperties(s),
      CompileGiven(s.additionalProperties), Permits(s.additionalProperties),
      LowerBound(s.minProperties), UpperBound(s.maxProperties),
      match s.items
      case AnyItems => NoItems
      case Each(schema) => ItemsList(Compile(schema))
      case Tuple(schemas) => ItemsTuple(CompileAll(schemas)),
      CompileGiven(s.additionalItems), Permits(s.additionalItems),
      LowerBound(s.minItems), UpperBound(s.maxItems), s.uniqueItems,
      LowerBound(s.minLength), UpperBound(s.maxLength),
      s.minimum, s.maximum, s.exclusiveMinimum, s.exclusiveMaximum, s.multipleOf, s.doubleOk, |s.defaultValue|)
  }

  function CompileAll(list: seq<Source>): (cs: seq<Schema>)
    ensures |cs| == |list|
    decreases list, 0
  {
    seq(|list|, i requires 0 <= i < |list| => Compile(list[i]))
  }

  function CompileGiven(a: Additional): Option<Schema>
    decreases a, 0
  {
    if a.Given? then Some(Compile(a.schema)) else None
  }

  function Permits(a: Additional): bool {
    a.Flag? ==> a.allowed
  }

  /** `properties_`: an entry for every name, with the schema `properties` has for it. */
  function CompileProperties(s: Source): (ps: seq<Property>)
    decreases s, 1
  {
    var names := AllNames(s);
    seq(|names|, i requires 0 <= i < |names| => Property(names[i], CompileNamed(s, names[i]), names[i] in s.required))
  }

  function CompileNamed(s: Source, name: Bytes): Schema
    decreases s, 0
  {
    var k := FindNamed(s.properties, name);
    if k.Some? then Compile(s.properties[k.value].schema) else TYPELESS
  }

  // ----- the gathered names -----

  predicate Distinct(names: seq<Bytes>) {
    forall i, k | 0 <= i < k < |names| :: names[i] != names[k]
  }

  lemma {:induction false} GatheredNames(names: seq<Bytes>, more: seq<Bytes>)
    requires Distinct(names)
    ensures Distinct(Gathered(names, more))
    ensures forall x :: x in Gathered(names, more) <==> x in names || x in more
    decreases |more|
  {
    if more != [] { GatheredNames(if more[0] in names then names else names + [more[0]], more[1..]); }
  }

  lemma AllNamesAre(s: Source)
    ensures Distinct(AllNames(s))
    ensures forall x :: x in AllNames(s) <==> FindNamed(s.properties, x).Some? || x in s.required
  {
    var names := NamesOf(s.properties);
    GatheredNames([], names);
    GatheredNames(Gathered([], names), s.required);
    forall x ensures x in names <==> FindNamed(s.properties, x).Some? {
      if FindNamed(s.properties, x).Some? { assert names[FindNamed(s.properties, x).value] == x; }
    }
  }

  /** Which schema the compiled schema chooses for a member. */
  lemma MemberSchemaIs(s: Source, name: Bytes)
    ensures MemberSchema(Compile(s), name) ==
      if FindNamed(s.properties, name).Some? || name in s.required then Some(CompileNamed(s, name))
      else if s.additionalProperties.Given? then Some(Compile(s.additionalProperties.schema))
      else if Permits(s.additionalProperties) then Some(TYPELESS)
      else None
  {
    AllNamesAre(s);
    var names, found := AllNames(s), FindPropertyIndex(Compile(s).properties, name);
    assert Compile(s).properties == CompileProperties(s);
    hide AllNames, CompileNamed, FindPropertyIndex, FindNamed;
    if name in names {
      var i :| 0 <= i < |names| && names[i] == name;
      assert Compile(s).properties[i].name == name;
    }
  }

  // ----- the compiled schema decides the reading that fits it -----

  /** A value the DOM can hold: sizes have 32 bits. */
  predicate Sized(j: Value)
    decreases j
  {
    && (j.String? ==> |j.s| <= NO_LIMIT)
    && (j.Array? ==> |j.es| <= NO_LIMIT && forall i | 0 <= i < |j.es| :: Sized(j.es[i]))
    && (j.Object? ==> |j.ms| <= NO_LIMIT && forall i | 0 <= i < |j.ms| :: Sized(j.ms[i].value))
  }

  lemma {:induction false} TypelessAccepts(j: Value)
    requires Sized(j)
    ensures Valid(TYPELESS, j)
    decreases j
  {
    assert CombinedOk(TYPELESS, j);
    if j.Array? {
      forall i | 0 <= i < |j.es| ensures Valid(TYPELESS, j.es[i]) { TypelessAccepts(j.es[i]); }
      assert ElementsOk(TYPELESS, j, |j.es|);
    } else if j.Object? {
      forall i | 0 <= i < |j.ms| ensures Valid(TYPELESS, j.ms[i].value) { TypelessAccepts(j.ms[i].value); }
      assert MembersOk(TYPELESS, j, |j.ms|);
    } else {
      assert ShallowOk(TYPELESS, j);
    }
  }

  /** No text has more characters than bytes. */
  lemma {:induction false} FewerCharacters(str: Bytes, p: nat)
    requires p <= |str| && DecodedAll(str, p).Some?
    ensures |DecodedAll(str, p).value| <= |str| - p
    decreases |str| - p
  {
    if p < |str| {
      DecodeSound(str, p);
      hide DecodeAt;
      FewerCharacters(str, DecodeAt(str, p).pos);
    }
  }

  lemma LengthIs(s: Source, str: Bytes)
    requires |str| <= NO_LIMIT
    ensures LengthOk(Compile(s), str) <==> StringMeets(s, str, AsCompiled)
  {
    if DecodedAll(str, 0).Some? { FewerCharacters(str, 0); }
    hide DecodedAll, CompileAll, CompileProperties;
  }

  lemma ShallowIs(s: Source, j: Value)
    requires Sized(j)
    ensures ShallowOk(Compile(s), j) <==>
      && TypeMeets(s, j) && (j.Number? ==> NumberMeets(s, j.n)) && (j.Double? ==> s.doubleOk(j.image))
      && (j.String? ==> StringMeets(s, j.s, AsCompiled))
      && (j.Array? ==> AtLeast(|j.es|, s.minItems, AsCompiled) && AtMost(|j.es|, s.maxItems))
      && (j.Object? ==> AtLeast(|j.ms|, s.minProperties, AsCompiled) && AtMost(|j.ms|, s.maxProperties))
  {
    if j.String? { LengthIs(s, j.s); }
    if j.Number? { BoundsAre(s, j.n); }
    hide LengthOk, StringMeets, WithinBounds, NumberMeets, CompileAll, CompileProperties;
  }

  lemma BoundsAre(s: Source, n: int)
    ensures WithinBounds(Compile(s), n) <==> NumberMeets(s, n)
  {
    if s.multipleOf > 0 { MultipleByRemainder(n, s.multipleOf); }
    hide Magnitude, IsMultiple, CompileAll, CompileProperties;
  }

  /** For every schema and every value, the compiled schema accepts what the schema means
      when read as it is compiled. */
  lemma {:induction false} CompiledMeans(s: Source, j: Value)
    requires Sized(j)
    ensures Valid(Compile(s), j) <==> Meets(s, j, AsCompiled)
    decreases j, s, 1
  {
    hide *;
    ShallowIs(s, j);
    CombinedIs(s, j);
    if j.Array? { ElementsAre(s, j); }
    if j.Object? {
      MembersAre(s, j);
      RequiredAre(s, j.ms);
    }
    MeansParts(s, j);
  }

  /** The two definitions, part by part. */
  lemma MeansParts(s: Source, j: Value)
    ensures Valid(Compile(s), j) <==>
      && ShallowOk(Compile(s), j) && (s.enums == [] || exists i | 0 <= i < |s.enums| :: Hasher.HashOf(s.enums[i]) == Hasher.HashOf(j))
      && CombinedOk(Compile(s), j) && (j.Array? ==> ElementsOk(Compile(s), j, |j.es|))
      && (j.Object? ==> MembersOk(Compile(s), j, |j.ms|) && RequiredOk(Compile(s), j.ms))
    ensures Meets(s, j, AsCompiled) <==>
      && TypeMeets(s, j) && (s.enums == [] || exists i | 0 <= i < |s.enums| :: Hasher.HashOf(s.enums[i]) == Hasher.HashOf(j))
      && CombinedMeets(s, j, AsCompiled) && (j.Number? ==> NumberMeets(s, j.n)) && (j.Double? ==> s.doubleOk(j.image))
      && (j.String? ==> StringMeets(s, j.s, AsCompiled))
      && (j.Array? ==>
            AtLeast(|j.es|, s.minItems, AsCompiled) && AtMost(|j.es|, s.maxItems) && (s.uniqueItems ==> UniqueHashes(j.es, |j.es|))
            && forall i | 0 <= i < |j.es| :: ItemMeets(s, i, j.es[i], AsCompiled))
      && (j.Object? ==>
            AtLeast(|j.ms|, s.minProperties, AsCompiled) && AtMost(|j.ms|, s.maxProperties)
            && (forall k | 0 <= k < |s.required| :: RequiredMeets(s, s.required[k], j.ms))
            && forall i | 0 <= i < |j.ms| :: MemberMeets(s, j.ms[i].name, j.ms[i].value, AsCompiled))
  {
    hide ShallowOk, CombinedOk, ElementsOk, MembersOk, RequiredOk, TypeMeets, CombinedMeets, NumberMeets, StringMeets,
      AtLeast, AtMost, UniqueHashes, ItemMeets, MemberMeets, RequiredMeets, Hasher.HashOf, CompileAll, CompileProperties;
    assert Compile(s).enums == s.enums;
  }

  lemma {:induction false} CombinedIs(s: Source, j: Value)
    requires Sized(j)
    ensures CombinedOk(Compile(s), j) <==> CombinedMeets(s, j, AsCompiled)
    decreases j, s, 0
  {
    hide *;
    var c := Compile(s);
    CompiledCombinations(s);
    SameList(c.allOf, s.allOf, j);
    SameList(c.anyOf, s.anyOf, j);
    SameList(c.oneOf, s.oneOf, j);
    if s.notSchema.Some? { CompiledMeans(s.notSchema.value, j); }
    CombinedParts(s, c, j);
  }

  lemma CompiledCombinations(s: Source)
    ensures var c := Compile(s);
      && |c.allOf| == |s.allOf| && (forall i | 0 <= i < |s.allOf| :: c.allOf[i] == Compile(s.allOf[i]))
      && |c.anyOf| == |s.anyOf| && (forall i | 0 <= i < |s.anyOf| :: c.anyOf[i] == Compile(s.anyOf[i]))
      && |c.oneOf| == |s.oneOf| && (forall i | 0 <= i < |s.oneOf| :: c.oneOf[i] == Compile(s.oneOf[i]))
      && c.notSchema == if s.notSchema.Some? then Some(Compile(s.notSchema.value)) else None
  {
    hide CompileProperties;
  }

  lemma {:induction false} SameList(cs: seq<Schema>, list: seq<Source>, j: Value)
    requires Sized(j) && |cs| == |list| && forall i | 0 <= i < |list| :: cs[i] == Compile(list[i])
    ensures forall i | 0 <= i < |list| :: Valid(cs[i], j) <==> Meets(list[i], j, AsCompiled)
    decreases j, list, 2
  {
    hide *;
    forall i | 0 <= i < |list| ensures Valid(cs[i], j) <==> Meets(list[i], j, AsCompiled) { CompiledMeans(list[i], j); }
  }

  lemma CombinedParts(s: Source, c: Schema, j: Value)
    requires |c.allOf| == |s.allOf| && forall i | 0 <= i < |s.allOf| :: Valid(c.allOf[i], j) <==> Meets(s.allOf[i], j, AsCompiled)
    requires |c.anyOf| == |s.anyOf| && forall i | 0 <= i < |s.anyOf| :: Valid(c.anyOf[i], j) <==> Meets(s.anyOf[i], j, AsCompiled)
    requires |c.oneOf| == |s.oneOf| && forall i | 0 <= i < |s.oneOf| :: Valid(c.oneOf[i], j) <==> Meets(s.oneOf[i], j, AsCompiled)
    requires c.notSchema.Some? <==> s.notSchema.Some?
    requires s.notSchema.Some? ==> (Valid(c.notSchema.value, j) <==> Meets(s.notSchema.value, j, AsCompiled))
    ensures CombinedOk(c, j) <==> CombinedMeets(s, j, AsCompiled)
  {
    hide *;
    SameChoice(c.oneOf, s.oneOf, j);
    AllSame(c.allOf, s.allOf, j);
    SomeSame(c.anyOf, s.anyOf, j);
    CombinedOkIs(c, j);
    CombinedMeetsIs(s, j);
  }

  lemma CombinedOkIs(c: Schema, j: Value)
    ensures CombinedOk(c, j) <==>
      && AllValid(c.allOf, j) && (c.anyOf == [] || SomeValid(c.anyOf, j)) && (c.oneOf == [] || OneValid(c.oneOf, j))
      && (c.notSchema.Some? ==> !Valid(c.notSchema.value, j))
  {
    hide Valid, AllValid, SomeValid, OneValid;
  }

  lemma CombinedMeetsIs(s: Source, j: Value)
    ensures CombinedMeets(s, j, AsCompiled) <==>
      && (forall i | 0 <= i < |s.allOf| :: Meets(s.allOf[i], j, AsCompiled))
      && (s.anyOf == [] || exists i | 0 <= i < |s.anyOf| :: Meets(s.anyOf[i], j, AsCompiled))
      && (s.oneOf == [] || OneMeets(s.oneOf, j, AsCompiled))
      && (s.notSchema.Some? ==> !Meets(s.notSchema.value, j, AsCompiled))
  {
    hide Meets, OneMeets;
  }

  lemma AllSame(cs: seq<Schema>, list: seq<Source>, j: Value)
    requires |cs| == |list| && forall i | 0 <= i < |list| :: Valid(cs[i], j) <==> Meets(list[i], j, AsCompiled)
    ensures AllValid(cs, j) <==> forall i | 0 <= i < |list| :: Meets(list[i], j, AsCompiled)
  {
    hide Valid, Meets;
  }

  lemma SomeSame(cs: seq<Schema>, list: seq<Source>, j: Value)
    requires |cs| == |list| && forall i | 0 <= i < |list| :: Valid(cs[i], j) <==> Meets(list[i], j, AsCompiled)
    ensures SomeValid(cs, j) <==> exists i | 0 <= i < |list| :: Meets(list[i], j, AsCompiled)
  {
    hide Valid, Meets;
  }

  lemma OneValidAt(cs: seq<Schema>, j: Value, i: nat)
    requires i < |cs| && Valid(cs[i], j) && forall k | 0 <= k < |cs| && k != i :: !Valid(cs[k], j)
    ensures OneValid(cs, j)
  {
    hide Valid;
  }

  lemma TheOneValid(cs: seq<Schema>, j: Value) returns (i: nat)
    requires OneValid(cs, j)
    ensures i < |cs| && Valid(cs[i], j) && forall k | 0 <= k < |cs| && k != i :: !Valid(cs[k], j)
  {
    hide Valid;
    i :| i < |cs| && Valid(cs[i], j) && forall k | 0 <= k < |cs| && k != i :: !Valid(cs[k], j);
  }

  lemma OneMeetsAt(list: seq<Source>, j: Value, i: nat)
    requires i < |list| && Meets(list[i], j, AsCompiled) && forall k | 0 <= k < |list| && k != i :: !Meets(list[k], j, AsCompiled)
    ensures OneMeets(list, j, AsCompiled)
  {
    hide Meets;
  }

  lemma TheOneMeets(list: seq<Source>, j: Value) returns (i: nat)
    requires OneMeets(list, j, AsCompiled)
    ensures i < |list| && Meets(list[i], j, AsCompiled) && forall k | 0 <= k < |list| && k != i :: !Meets(list[k], j, AsCompiled)
  {
    hide Meets;
    i :| i < |list| && Meets(list[i], j, AsCompiled) && forall k | 0 <= k < |list| && k != i :: !Meets(list[k], j, AsCompiled);
  }

  lemma SameChoice(cs: seq<Schema>, list: seq<Source>, j: Value)
    requires |cs| == |list| && forall i | 0 <= i < |list| :: Valid(cs[i], j) <==> Meets(list[i], j, AsCompiled)
    ensures OneValid(cs, j) <==> OneMeets(list, j, AsCompiled)
  {
    hide *;
    if OneValid(cs, j) {
      var i := TheOneValid(cs, j);
      OneMeetsAt(list, j, i);
    }
    if OneMeets(list, j, AsCompiled) {
      var i := TheOneMeets(list, j);
      OneValidAt(cs, j, i);
    }
  }

  lemma {:induction false} ElementsAre(s: Source, j: Value)
    requires Sized(j) && j.Array?
    ensures ElementsOk(Compile(s), j, |j.es|) <==>
      (s.uniqueItems ==> UniqueHashes(j.es, |j.es|)) && forall i | 0 <= i < |j.es| :: ItemMeets(s, i, j.es[i], AsCompiled)
    decreases j, s, 0
  {
    var c := Compile(s);
    forall i | 0 <= i < |j.es|
      ensures (ItemSchema(c, i).Some? && Valid(ItemSchema(c, i).value, j.es[i])) <==> ItemMeets(s, i, j.es[i], AsCompiled)
    {
      ElementIs(s, i, j.es[i]);
    }
    assert c.uniqueItems == s.uniqueItems;
    hide Valid, Meets, Compile, ItemSchema, ItemMeets, UniqueHashes;
  }

  lemma {:induction false} ElementIs(s: Source, i: nat, e: Value)
    requires Sized(e)
    ensures (ItemSchema(Compile(s), i).Some? && Valid(ItemSchema(Compile(s), i).value, e)) <==> ItemMeets(s, i, e, AsCompiled)
    decreases e, s, 2
  {
    CompiledItems(s);
    TypelessAccepts(e);
    match s.items
    case AnyItems =>
    case Each(schema) => CompiledMeans(schema, e);
    case Tuple(schemas) =>
      if i < |schemas| { CompiledMeans(schemas[i], e); }
      if s.additionalItems.Given? { CompiledMeans(s.additionalItems.schema, e); }
    hide Valid, Meets, Compile;
  }

  lemma CompiledItems(s: Source)
    ensures var c := Compile(s);
      && c.additionalItems == Permits(s.additionalItems)
      && c.additionalItemsSchema == (if s.additionalItems.Given? then Some(Compile(s.additionalItems.schema)) else None)
      && match s.items
         case AnyItems => c.items == NoItems
         case Each(schema) => c.items == ItemsList(Compile(schema))
         case Tuple(schemas) =>
           c.items.ItemsTuple? && |c.items.schemas| == |schemas|
           && forall i | 0 <= i < |schemas| :: c.items.schemas[i] == Compile(schemas[i])
  {
    hide CompileProperties;
  }

  lemma {:induction false} MembersAre(s: Source, j: Value)
    requires Sized(j) && j.Object?
    ensures MembersOk(Compile(s), j, |j.ms|) <==> forall i | 0 <= i < |j.ms| :: MemberMeets(s, j.ms[i].name, j.ms[i].value, AsCompiled)
    decreases j, s, 0
  {
    var c := Compile(s);
    forall i | 0 <= i < |j.ms|
      ensures (MemberSchema(c, j.ms[i].name).Some? && Valid(MemberSchema(c, j.ms[i].name).value, j.ms[i].value))
          <==> MemberMeets(s, j.ms[i].name, j.ms[i].value, AsCompiled)
    {
      MemberIs(s, j.ms[i].name, j.ms[i].value);
    }
    hide Valid, Meets, Compile, MemberSchema, MemberMeets;
  }

  lemma {:induction false} MemberIs(s: Source, name: Bytes, v: Value)
    requires Sized(v)
    ensures (MemberSchema(Compile(s), name).Some? && Valid(MemberSchema(Compile(s), name).value, v)) <==> MemberMeets(s, name, v, AsCompiled)
    decreases v, s, 2
  {
    MemberSchemaIs(s, name);
    TypelessAccepts(v);
    var k := FindNamed(s.properties, name);
    if k.Some? {
      CompiledMeans(s.properties[k.value].schema, v);
    } else if s.additionalProperties.Given? {
      CompiledMeans(s.additionalProperties.schema, v);
    }
    hide Valid, Meets, Compile, MemberSchema, FindNamed;
  }

  lemma RequiredAre(s: Source, ms: seq<Member>)
    ensures RequiredOk(Compile(s), ms) <==> forall k | 0 <= k < |s.required| :: RequiredMeets(s, s.required[k], ms)
  {
    AllNamesAre(s);
    var c, names := Compile(s), AllNames(s);
    assert c.properties == CompileProperties(s);
    forall p | 0 <= p < |names|
      ensures Present(c, ms, |ms|, p) <==> Occurs(names[p], ms)
      ensures c.properties[p].required && c.properties[p].schema.defaultValueLength == 0 ==> names[p] in s.required
      ensures RequiredMeets(s, names[p], ms) <==> Occurs(names[p], ms) || c.properties[p].schema.defaultValueLength != 0
    {
      PresentIs(s, ms, p);
      DefaultIs(s, names[p]);
    }
    forall k | 0 <= k < |s.required| ensures exists p | 0 <= p < |names| :: names[p] == s.required[k] {
      assert s.required[k] in names;
    }
    hide Compile, AllNames, CompileNamed, Present, RequiredMeets, Occurs;
  }

  lemma DefaultIs(s: Source, name: Bytes)
    ensures CompileNamed(s, name).defaultValueLength != 0 <==>
            FindNamed(s.properties, name).Some? && s.properties[FindNamed(s.properties, name).value].schema.defaultValue != []
  {
    hide CompileProperties, CompileAll, FindNamed;
  }

  lemma PresentIs(s: Source, ms: seq<Member>, p: nat)
    requires Distinct(AllNames(s)) && p < |AllNames(s)|
    ensures Present(Compile(s), ms, |ms|, p) <==> Occurs(AllNames(s)[p], ms)
  {
    var ps, names := CompileProperties(s), AllNames(s);
    forall i | 0 <= i < |ms| ensures FindPropertyIndex(ps, ms[i].name) == Some(p) <==> ms[i].name == names[p] {
      FoundAt(ps, names, ms[i].name, p);
    }
    hide CompileProperties, AllNames, FindPropertyIndex;
  }

  lemma FoundAt(ps: seq<Property>, names: seq<Bytes>, name: Bytes, p: nat)
    requires |ps| == |names| && Distinct(names) && p < |names| && forall i | 0 <= i < |names| :: ps[i].name == names[i]
    ensures FindPropertyIndex(ps, name) == Some(p) <==> name == names[p]
  {
    hide FindPropertyIndex;
    var found := FindPropertyIndex(ps, name);
    assert ps[p].name == names[p];
  }

  // ----- the constructor's loops -----

  method AddUniqueElement(a: seq<Bytes>, v: Bytes) returns (names: seq<Bytes>)
    ensures names == if v in a then a else a + [v]
  {
    for i := 0 to |a|
      invariant v !in a[..i]
    {
      if a[i] == v { return a; }
    }
    assert a[..|a|] == a;
    names := a + [v];
  }

  /** Adds every name of a list that is not there yet. */
  method AddAll(a: seq<Bytes>, more: seq<Bytes>) returns (names: seq<Bytes>)
    ensures names == Gathered(a, more)
  {
    names := a;
    assert more[0..] == more;
    for i := 0 to |more|
      invariant Gathered(names, more[i..]) == Gathered(a, more)
    {
      assert more[i..][1..] == more[i + 1..];
      names := AddUniqueElement(names, more[i]);
    }
  }

  /** Gathers the names of `properties` and `required`, makes an entry without a schema for
      each, then fills in the schemas and the required flags. The schema document keeps one
      schema for a name, so of two properties of the same name the first counts. */
  method BuildProperties(s: Source) returns (properties: seq<Property>)
    ensures properties == Compile(s).properties
  {
    var names := AddAll([], NamesOf(s.properties));
    names := AddAll(names, s.required);
    hide *;
    ghost var whole := NamesGathered(s, names);
    properties := Blank(names);
    NothingFilled(s, whole);
    for k := 0 to |s.properties|
      invariant Filled(s, whole, k, properties)
    {
      var index := FindPropertyIndex(properties, s.properties[k].name);
      Fills(s, whole, k, properties);
      properties := properties[index.value := properties[index.value].(schema := CompileNamed(s, s.properties[k].name))];
    }
    NothingFlagged(s, whole, properties);
    for k := 0 to |s.required|
      invariant Flagged(s, whole, k, properties)
    {
      var index := FindPropertyIndex(properties, s.required[k]);
      Flags(s, whole, k, properties);
      properties := properties[index.value := properties[index.value].(required := true)];
    }
    PropertiesAre(s, properties);
  }

  function Blank(names: seq<Bytes>): seq<Property> {
    seq(|names|, i requires 0 <= i < |names| => Property(names[i], TYPELESS, false))
  }

  lemma NamesGathered(s: Source, names: seq<Bytes>) returns (whole: seq<Bytes>)
    requires names == Gathered(Gathered([], NamesOf(s.properties)), s.required)
    ensures names == whole == AllNames(s)
  {
    whole := names;
  }

  /** The first `k` properties have their schemas. */
  ghost predicate Filled(s: Source, names: seq<Bytes>, k: nat, properties: seq<Property>) {
    names == AllNames(s) && k <= |s.properties| && |properties| == |names| && forall i | 0 <= i < |names| ::
      properties[i] == Property(names[i], if Among(s.properties, k, names[i]) then CompileNamed(s, names[i]) else TYPELESS, false)
  }

  /** All have, and the first `k` required names are flagged. */
  ghost predicate Flagged(s: Source, names: seq<Bytes>, k: nat, properties: seq<Property>) {
    names == AllNames(s) && k <= |s.required| && |properties| == |names| && forall i | 0 <= i < |names| ::
      properties[i] == Property(names[i], CompileNamed(s, names[i]), names[i] in s.required[..k])
  }

  lemma NothingFilled(s: Source, names: seq<Bytes>)
    requires names == AllNames(s)
    ensures Filled(s, names, 0, Blank(names))
  {
    hide AllNames, CompileNamed;
  }

  lemma Fills(s: Source, names: seq<Bytes>, k: nat, properties: seq<Property>)
    requires Filled(s, names, k, properties) && k < |s.properties|
    ensures var name := s.properties[k].name;
      var index := FindPropertyIndex(properties, name);
      index.Some? && index.value < |properties|
      && Filled(s, names, k + 1, properties[index.value := properties[index.value].(schema := CompileNamed(s, name))])
  {
    AllNamesAre(s);
    var name := s.properties[k].name;
    hide AllNames, CompileNamed, FindPropertyIndex, FindNamed;
    FindsName(properties, names, name);
    forall x ensures Among(s.properties, k + 1, x) <==> Among(s.properties, k, x) || x == name {
      if Among(s.properties, k, x) {
        var i :| 0 <= i < k && s.properties[i].name == x;
        assert s.properties[i].name == x;
      }
    }
    hide Among;
  }

  lemma NothingFlagged(s: Source, names: seq<Bytes>, properties: seq<Property>)
    requires Filled(s, names, |s.properties|, properties)
    ensures Flagged(s, names, 0, properties)
  {
    AllAmong(s);
    hide AllNames, CompileNamed, Among;
  }

  lemma Flags(s: Source, names: seq<Bytes>, k: nat, properties: seq<Property>)
    requires Flagged(s, names, k, properties) && k < |s.required|
    ensures var index := FindPropertyIndex(properties, s.required[k]);
      index.Some? && index.value < |properties|
      && Flagged(s, names, k + 1, properties[index.value := properties[index.value].(required := true)])
  {
    AllNamesAre(s);
    hide AllNames, CompileNamed, FindPropertyIndex, FindNamed;
    FindsName(properties, names, s.required[k]);
    assert s.required[..k + 1] == s.required[..k] + [s.required[k]];
  }

  predicate Among(properties: seq<Named>, k: nat, name: Bytes)
    requires k <= |properties|
  {
    exists i | 0 <= i < k :: properties[i].name == name
  }

  lemma FindsName(properties: seq<Property>, names: seq<Bytes>, name: Bytes)
    requires |properties| == |names| && Distinct(names) && name in names
    requires forall i | 0 <= i < |names| :: properties[i].name == names[i]
    ensures FindPropertyIndex(properties, name).Some?
    ensures forall i | 0 <= i < |names| :: names[i] == name <==> i == FindPropertyIndex(properties, name).value
  {
    hide FindPropertyIndex;
    var i :| 0 <= i < |names| && names[i] == name;
    assert properties[i].name == name;
  }

  /** A name that is not among the properties has no schema. */
  lemma AllAmong(s: Source)
    ensures forall name :: CompileNamed(s, name) == if Among(s.properties, |s.properties|, name) then CompileNamed(s, name) else TYPELESS
  {
    hide FindNamed, Compile;
  }

  lemma PropertiesAre(s: Source, properties: seq<Property>)
    requires Flagged(s, AllNames(s), |s.required|, properties)
    ensures properties == Compile(s).properties
  {
    hide AllNames, CompileNamed;
    assert s.required[..|s.required|] == s.required;
    assert Compile(s).properties == CompileProperties(s);
  }
}
