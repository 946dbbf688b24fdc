/** A compiled schema (schema.h, class `Schema`) and what it means for a value to be valid against it. */
module Schema {
  import opened Common
  import opened Json
  import opened Hasher
  import opened Utf8

  datatype JsonType = NullType | BooleanType | ObjectType | ArrayType | StringType | NumberType | IntegerType

  datatype Property = Property(name: Bytes, schema: Schema, required: bool)

  datatype Items = NoItems | ItemsList(schema: Schema) | ItemsTuple(schemas: seq<Schema>)

  /** `doubleOk` stands for the floating-point bound and multiple checks of the
      schema on a double given by its image. */
  datatype Schema = Schema(
    types: set<JsonType>,
    enums: seq<Value>,
    allOf: seq<Schema>,
    anyOf: seq<Schema>,
    oneOf: seq<Schema>,
    notSchema: Option<Schema>,
    properties: seq<Property>,
    additionalPropertiesSchema: Option<Schema>,
    additionalProperties: bool,
    minProperties: nat,
    maxProperties: nat,
    items: Items,
    additionalItemsSchema: Option<Schema>,
    additionalItems: bool,
    minItems: nat,
    maxItems: nat,
    uniqueItems: bool,
    minLength: nat,
    maxLength: nat,
    minimum: Option<Int64Or>,
    maximum: Option<Int64Or>,
    exclusiveMinimum: bool,
    exclusiveMaximum: bool,
    multipleOf: nat, // 0 when absent
    doubleOk: Bytes -> bool,
    defaultValueLength: nat)

  /** `SizeType(~0)`, the default of every upper size bound. */
  const NO_LIMIT: nat := 0xFFFF_FFFF

  /** The schema that allows everything. */
  const TYPELESS: Schema := Schema(
    {NullType, BooleanType, ObjectType, ArrayType, StringType, NumberType, IntegerType},
    [], [], [], [], None, [], None, true, 0, NO_LIMIT, NoItems, None, true, 0, NO_LIMIT, false,
    0, NO_LIMIT, None, None, false, false, 0, _ => true, 0)

  // ----- keyword meanings -----

  function Magnitude(n: int): nat {
    if n >= 0 then n else -n
  }

  predicate WithinBounds(s: Schema, n: int) {
    && (s.minimum.Some? ==> if s.exclusiveMinimum then n > s.minimum.value else n >= s.minimum.value)
    && (s.maximum.Some? ==> if s.exclusiveMaximum then n < s.maximum.value else n <= s.maximum.value)
    && (s.multipleOf != 0 ==> Magnitude(n) % s.multipleOf == 0)
  }

  /** Length in code points; a string that is not valid UTF-8 has no length to check. */
  predicate LengthOk(s: Schema, str: Bytes) {
    (s.minLength != 0 || s.maxLength != NO_LIMIT) ==>
      match DecodedAll(str, 0)
      case None => true
      case Some(cps) => s.minLength <= |cps| <= s.maxLength
  }

  /** Keywords that look at a value without looking inside it. */
  predicate ShallowOk(s: Schema, j: Value) {
    match j
    case Null => NullType in s.types
    case Bool(_) => BooleanType in s.types
    case Number(n) => (IntegerType in s.types || NumberType in s.types) && WithinBounds(s, n)
    case Double(image) => NumberType in s.types && s.doubleOk(image)
    case String(str) => StringType in s.types && LengthOk(s, str)
    case Array(es) => ArrayType in s.types && s.minItems <= |es| <= s.maxItems
    case Object(ms) => ObjectType in s.types && s.minProperties <= |ms| <= s.maxProperties
  }

  /** The schema for the element at an index; nothing when the element is not allowed.
      An empty tuple allocates nothing and is as good as no `items` at all. */
  function ItemSchema(s: Schema, index: nat): Option<Schema> {
    match s.items
    case ItemsList(item) => Some(item)
    case ItemsTuple(tuple) =>
      if tuple == [] then Some(TYPELESS)
      else if index < |tuple| then Some(tuple[index])
      else if s.additionalItemsSchema.Some? then s.additionalItemsSchema
      else if s.additionalItems then Some(TYPELESS)
      else None
    case NoItems => Some(TYPELESS)
  }

  /** The first property with a name. */
  function FindPropertyIndex(properties: seq<Property>, name: Bytes): (r: Option<nat>)
    ensures r.Some? ==> r.value < |properties| && properties[r.value].name == name
    ensures r.Some? ==> forall i | 0 <= i < r.value :: properties[i].name != name
    ensures r.None? ==> forall i | 0 <= i < |properties| :: properties[i].name != name
  {
    FirstNamed(properties, (p: Property) => p.name, name)
  }

  /** The schema for the member of a name; nothing when the member is not allowed. */
  function MemberSchema(s: Schema, name: Bytes): Option<Schema> {
    match FindPropertyIndex(s.properties, name)
    case Some(i) => Some(s.properties[i].schema)
    case None =>
      if s.additionalPropertiesSchema.Some? then s.additionalPropertiesSchema
      else if s.additionalProperties then Some(TYPELESS)
      else None
  }

  /** Whether one of the first `k` members is the property at index `p`. */
  predicate Present(s: Schema, ms: seq<Member>, k: nat, p: nat)
    requires k <= |ms|
  {
    exists i | 0 <= i < k :: FindPropertyIndex(s.properties, ms[i].name) == Some(p)
  }

  predicate RequiredOk(s: Schema, ms: seq<Member>) {
    forall p | 0 <= p < |s.properties| ::
      s.properties[p].required && s.properties[p].schema.defaultValueLength == 0 ==> Present(s, ms, |ms|, p)
  }

  predicate UniqueHashes(es: seq<Value>, k: nat)
    requires k <= |es|
  {
    forall a, b | 0 <= a < b < k :: HashOf(es[a]) != HashOf(es[b])
  }

  predicate InEnum(s: Schema, j: Value) {
    s.enums == [] || exists i | 0 <= i < |s.enums| :: HashOf(s.enums[i]) == HashOf(j)
  }

  /** Validity of a value against a compiled schema. `enum` and `uniqueItems` compare hashes,
      and a missing required property with a non-empty string default is not an error. How
      this relates to draft 4 and the schema as written is `DraftFour`'s matter. */
  ghost predicate Valid(s: Schema, j: Value)
    decreases j, s, 1
  {
    && ShallowOk(s, j)
    && InEnum(s, j)
    && CombinedOk(s, j)
    && (j.Array? ==> ElementsOk(s, j, |j.es|))
    && (j.Object? ==> MembersOk(s, j, |j.ms|) && RequiredOk(s, j.ms))
  }

  /** `allOf`, `anyOf`, `oneOf` and `not`. */
  ghost predicate CombinedOk(s: Schema, j: Value)
    decreases j, s, 0
  {
    && AllValid(s.allOf, j)
    && (s.anyOf == [] || SomeValid(s.anyOf, j))
    && (s.oneOf == [] || OneValid(s.oneOf, j))
    && (s.notSchema.Some? ==> !Valid(s.notSchema.value, j))
  }

  ghost predicate AllValid(list: seq<Schema>, j: Value)
    decreases j, list, 0
  {
    forall i | 0 <= i < |list| :: Valid(list[i], j)
  }

  ghost predicate SomeValid(list: seq<Schema>, j: Value)
    decreases j, list, 0
  {
    exists i | 0 <= i < |list| :: Valid(list[i], j)
  }

  /** Exactly one of the schemas accepts the value. */
  ghost predicate OneValid(list: seq<Schema>, j: Value)
    decreases j, list, 0
  {
    exists i | 0 <= i < |list| :: Valid(list[i], j) && forall k | 0 <= k < |list| && k != i :: !Valid(list[k], j)
  }

  /** Every one of the first `k` elements is allowed and valid, and they are distinct
      where the schema asks for it. */
  ghost predicate ElementsOk(s: Schema, j: Value, k: nat)
    requires j.Array? && k <= |j.es|
    decreases j, s, 0
  {
    && (forall i | 0 <= i < k :: ItemSchema(s, i).Some? && Valid(ItemSchema(s, i).value, j.es[i]))
    && (s.uniqueItems ==> UniqueHashes(j.es, k))
  }

  /** Every one of the first `k` members is allowed and valid. */
  ghost predicate MembersOk(s: Schema, j: Value, k: nat)
    requires j.Object? && k <= |j.ms|
    decreases j, s, 0
  {
    forall i | 0 <= i < k ::
      MemberSchema(s, j.ms[i].name).Some? && Valid(MemberSchema(s, j.ms[i].name).value, j.ms[i].value)
  }

  // ----- the checks of the code on one handler call -----

  /** `CheckInt`, with its case split on how the bounds are represented. */
  predicate CheckInt(s: Schema, i: int) {
    && (IntegerType in s.types || NumberType in s.types)
    && (match s.minimum
        case None => true
        case Some(m) =>
          if m < 0x8000_0000_0000_0000 then !(if s.exclusiveMinimum then i <= m else i < m)
          else false)
    && (match s.maximum
        case None => true
        case Some(m) =>
          if m < 0x8000_0000_0000_0000 then !(if s.exclusiveMaximum then i >= m else i > m)
          else true)
    && (s.multipleOf == 0 || Magnitude(i) % s.multipleOf == 0)
  }

  /** `CheckUint`, with its case split on how the bounds are represented. */
  predicate CheckUint(s: Schema, u: nat) {
    && (IntegerType in s.types || NumberType in s.types)
    && (match s.minimum
        case None => true
        case Some(m) => if m >= 0 then !(if s.exclusiveMinimum then u <= m else u < m) else true)
    && (match s.maximum
        case None => true
        case Some(m) => if m >= 0 then !(if s.exclusiveMaximum then u >= m else u > m) else false)
    && (s.multipleOf == 0 || u % s.multipleOf == 0)
  }

  /** The type and value checks a schema makes when a value begins. */
  predicate StartCheck(s: Schema, e: Event) {
    match e
    case NullEv => NullType in s.types
    case BoolEv(_) => BooleanType in s.types
    case IntEv(i) => CheckInt(s, i)
    case Int64Ev(i) => CheckInt(s, i)
    case UintEv(u) => CheckUint(s, u)
    case Uint64Ev(u) => CheckUint(s, u)
    case DoubleEv(image) => NumberType in s.types && s.doubleOk(image)
    case StringEv(str) => StringType in s.types && LengthOk(s, str)
    case StartObjectEv => ObjectType in s.types
    case StartArrayEv => ArrayType in s.types
    case _ => false
  }

  /** Whatever representation a number is sent in, the check is the plain bound and
      multiple check on its value. */
  lemma NumberCheck(s: Schema, n: Int64Or)
    ensures StartCheck(s, NumberEvent(n)) <==> ShallowOk(s, Number(n))
  {
  }

  lemma ScalarCheck(s: Schema, j: Value)
    requires !j.Array? && !j.Object?
    ensures StartCheck(s, Events(j)[0]) <==> ShallowOk(s, j)
  {
    if j.Number? { NumberCheck(s, j.n); }
  }
}
