/** When the validator compiled from a schema decides JSON Schema draft 4, and where it does not. */
module DraftFour {
  import opened Common
  import opened Json
  import opened Schema
  import opened Utf8
  import opened SchemaSource
  import Hasher
  import HashSeparates
  import Machine
  import Validation

  // ----- where the two readings part -----

  /** Nothing in this schema object itself reads differently: every required name is a
      property or may be additional, an empty tuple may have additional items, and lower
      size bounds have 32 bits. */
  predicate PlainHere(s: Source) {
    && (forall k | 0 <= k < |s.required| :: FindNamed(s.properties, s.required[k]).Some? || FreelyPermits(s.additionalProperties))
    && (s.items.Tuple? && |s.items.schemas| == 0 ==> FreelyPermits(s.additionalItems))
    && s.minProperties <= NO_LIMIT && s.minItems <= NO_LIMIT && s.minLength <= NO_LIMIT
  }

  predicate FreelyPermits(a: Additional) {
    a.Absent? || (a.Flag? && a.allowed)
  }

  predicate PlainAdditional(a: Additional)
    decreases a, 0
  {
    a.Given? ==> Plain(a.schema)
  }

  /** Nothing in any schema object below this one reads differently. */
  predicate PlainBelow(s: Source)
    decreases s, 0
  {
    && (forall i | 0 <= i < |s.allOf| :: Plain(s.allOf[i]))
    && (forall i | 0 <= i < |s.anyOf| :: Plain(s.anyOf[i]))
    && (forall i | 0 <= i < |s.oneOf| :: Plain(s.oneOf[i]))
    && (s.notSchema.Some? ==> Plain(s.notSchema.value))
    && (forall i | 0 <= i < |s.properties| :: Plain(s.properties[i].schema))
    && PlainAdditional(s.additionalProperties) && PlainAdditional(s.additionalItems)
    && (s.items.Each? ==> Plain(s.items.schema))
    && (s.items.Tuple? ==> forall i | 0 <= i < |s.items.schemas| :: Plain(s.items.schemas[i]))
  }

  predicate Plain(s: Source)
    decreases s, 1
  {
    PlainHere(s) && PlainBelow(s)
  }

  /** What draft 4 asks of a value that the compiled schema does not: of the members that
      only `required` names, of the elements under an empty tuple, and of its size under a
      bound of more than 32 bits. */
  ghost predicate AsksHere(s: Source, j: Value) {
    && (j.Object? ==> s.minProperties <= NO_LIMIT)
    && (j.Object? ==> forall i | 0 <= i < |j.ms| ::
          j.ms[i].name in s.required && FindNamed(s.properties, j.ms[i].name).None? ==>
            AdditionalMeets(s.additionalProperties, j.ms[i].value, Draft4))
    && (j.Array? ==> s.minItems <= NO_LIMIT)
    && (j.Array? && s.items.Tuple? && |s.items.schemas| == 0 ==>
          forall i | 0 <= i < |j.es| :: AdditionalMeets(s.additionalItems, j.es[i], Draft4))
    && (j.String? && DecodedAll(j.s, 0).Some? ==> s.minLength <= NO_LIMIT)
  }

  /** Where only this schema object can read differently, draft 4 is the compiled reading and
      what draft 4 asks besides. */
  lemma {:induction false} Parts(s: Source, j: Value)
    requires Sized(j) && PlainBelow(s)
    ensures Meets(s, j, Draft4) <==> Meets(s, j, AsCompiled) && AsksHere(s, j)
    decreases j, s, 5
  {
    CombinedParted(s, j);
    if j.Array? { ArrayParted(s, j); }
    if j.Object? { ObjectParted(s, j); }
    if j.String? && DecodedAll(j.s, 0).Some? { FewerCharacters(j.s, 0); }
    hide CombinedMeets, ArrayMeets, ObjectMeets, DecodedAll, AdditionalMeets, NumberMeets, TypeMeets, Hasher.HashOf;
  }

  /** A plain schema reads the same either way. */
  lemma {:induction false} PlainReads(s: Source, j: Value)
    requires Sized(j) && Plain(s)
    ensures Meets(s, j, Draft4) <==> Meets(s, j, AsCompiled)
    decreases j, s, 6
  {
    Parts(s, j);
    PlainAsks(s, j);
    hide Meets, AsksHere;
  }

  lemma PlainAsks(s: Source, j: Value)
    requires PlainHere(s)
    ensures AsksHere(s, j)
  {
    hide Meets, FindNamed, DecodedAll;
    if j.Object? {
      forall i | 0 <= i < |j.ms| && j.ms[i].name in s.required && FindNamed(s.properties, j.ms[i].name).None?
        ensures AdditionalMeets(s.additionalProperties, j.ms[i].value, Draft4)
      {
        var k :| 0 <= k < |s.required| && s.required[k] == j.ms[i].name;
      }
    }
  }

  lemma {:induction false} CombinedParted(s: Source, j: Value)
    requires Sized(j) && PlainBelow(s)
    ensures CombinedMeets(s, j, Draft4) <==> CombinedMeets(s, j, AsCompiled)
    decreases j, s, 0
  {
    PlainLists(s);
    ListParted(s.allOf, j);
    ListParted(s.anyOf, j);
    ListParted(s.oneOf, j);
    if s.notSchema.Some? { PlainReads(s.notSchema.value, j); }
    hide Meets, Plain, PlainBelow, OneMeets;
  }

  lemma PlainLists(s: Source)
    requires PlainBelow(s)
    ensures forall i | 0 <= i < |s.allOf| :: Plain(s.allOf[i])
    ensures forall i | 0 <= i < |s.anyOf| :: Plain(s.anyOf[i])
    ensures forall i | 0 <= i < |s.oneOf| :: Plain(s.oneOf[i])
    ensures s.notSchema.Some? ==> Plain(s.notSchema.value)
  {
    hide Plain;
  }

  lemma {:induction false} ListParted(list: seq<Source>, j: Value)
    requires Sized(j) && forall i | 0 <= i < |list| :: Plain(list[i])
    ensures forall i | 0 <= i < |list| :: Meets(list[i], j, Draft4) <==> Meets(list[i], j, AsCompiled)
    ensures OneMeets(list, j, Draft4) <==> OneMeets(list, j, AsCompiled)
    decreases j, list, 7
  {
    hide Meets, Plain;
    forall i | 0 <= i < |list| ensures Meets(list[i], j, Draft4) <==> Meets(list[i], j, AsCompiled) { PlainReads(list[i], j); }
  }

  lemma {:induction false} AdditionalParted(a: Additional, j: Value)
    requires Sized(j) && PlainAdditional(a)
    ensures AdditionalMeets(a, j, Draft4) <==> AdditionalMeets(a, j, AsCompiled)
    decreases j, a, 7
  {
    if a.Given? { PlainReads(a.schema, j); }
    hide Meets, Plain;
  }

  lemma {:induction false} ArrayParted(s: Source, j: Value)
    requires Sized(j) && PlainBelow(s) && j.Array?
    ensures ArrayMeets(s, j, Draft4) <==> ArrayMeets(s, j, AsCompiled) && AsksHere(s, j)
    decreases j, s, 0
  {
    forall i | 0 <= i < |j.es|
      ensures ItemMeets(s, i, j.es[i], Draft4) <==>
        ItemMeets(s, i, j.es[i], AsCompiled)
        && (s.items.Tuple? && |s.items.schemas| == 0 ==> AdditionalMeets(s.additionalItems, j.es[i], Draft4))
    {
      AdditionalParted(s.additionalItems, j.es[i]);
      if s.items.Each? { PlainReads(s.items.schema, j.es[i]); }
      if s.items.Tuple? && i < |s.items.schemas| { PlainReads(s.items.schemas[i], j.es[i]); }
      hide Meets, Plain, AdditionalMeets;
    }
    hide Meets, Plain, AdditionalMeets, ItemMeets, PlainBelow, UniqueHashes;
  }

  lemma {:induction false} ObjectParted(s: Source, j: Value)
    requires Sized(j) && PlainBelow(s) && j.Object?
    ensures ObjectMeets(s, j, Draft4) <==> ObjectMeets(s, j, AsCompiled) && AsksHere(s, j)
    decreases j, s, 0
  {
    forall i | 0 <= i < |j.ms|
      ensures MemberMeets(s, j.ms[i].name, j.ms[i].value, Draft4) <==>
        MemberMeets(s, j.ms[i].name, j.ms[i].value, AsCompiled)
        && (j.ms[i].name in s.required && FindNamed(s.properties, j.ms[i].name).None? ==>
              AdditionalMeets(s.additionalProperties, j.ms[i].value, Draft4))
    {
      AdditionalParted(s.additionalProperties, j.ms[i].value);
      var k := FindNamed(s.properties, j.ms[i].name);
      if k.Some? { PlainReads(s.properties[k.value].schema, j.ms[i].value); }
      hide Meets, Plain, AdditionalMeets, FindNamed;
    }
    hide Meets, Plain, AdditionalMeets, MemberMeets, PlainBelow, RequiredMeets, FindNamed;
  }

  // ----- the validator on schemas as they are written -----

  /** For every schema as written, the streaming validator compiled from it decides the
      reading that fits the constructor. */
  lemma ValidatorDecides(s: Source, doc: Bytes, j: Value)
    requires Sized(j)
    ensures Machine.Run(Machine.Fresh(Compile(s), doc), Events(j)).valid <==> Meets(s, j, AsCompiled)
  {
    hide *;
    Validation.RootRun(Compile(s), doc, j);
    CompiledMeans(s, j);
  }

  /** For every plain schema, it decides draft 4. */
  lemma PlainSchemaDecides(s: Source, doc: Bytes, j: Value)
    requires Sized(j) && Plain(s)
    ensures Machine.Run(Machine.Fresh(Compile(s), doc), Events(j)).valid <==> Meets(s, j, Draft4)
  {
    hide *;
    ValidatorDecides(s, doc, j);
    PlainReads(s, j);
  }

  /** Where only the outermost schema object is not plain, the verdict is that of draft 4
      exactly when the validator does not accept what `AsksHere` would refuse. */
  lemma VerdictIsDraft4(s: Source, doc: Bytes, j: Value)
    requires Sized(j) && PlainBelow(s)
    ensures var valid := Machine.Run(Machine.Fresh(Compile(s), doc), Events(j)).valid;
      (valid <==> Meets(s, j, Draft4)) <==> (valid ==> AsksHere(s, j))
  {
    hide *;
    ValidatorDecides(s, doc, j);
    Parts(s, j);
  }

  /** `multipleOf` accepts the integers that are an integer times it, below zero as well. */
  lemma MultipleOfDecides(m: nat, n: Int64Or, doc: Bytes)
    requires m > 0
    ensures Machine.Run(Machine.Fresh(Compile(EMPTY.(multipleOf := m)), doc), Events(Number(n))).valid <==>
            exists k :: Times(k, m) == n
  {
    var s := EMPTY.(multipleOf := m);
    ValidatorDecides(s, doc, Number(n));
    NothingElseAsked(s, Number(n));
    hide Machine.Run, Meets, Compile, Times;
  }

  /** A schema whose only keywords are `enum`, `multipleOf` and `uniqueItems`. */
  lemma NothingElseAsked(s: Source, j: Value)
    requires s == EMPTY.(multipleOf := s.multipleOf, enums := s.enums, uniqueItems := s.uniqueItems)
    ensures Meets(s, j, AsCompiled) <==>
      && (s.enums == [] || exists i | 0 <= i < |s.enums| :: Hasher.HashOf(s.enums[i]) == Hasher.HashOf(j))
      && (j.Number? && s.multipleOf > 0 ==> IsMultiple(j.n, s.multipleOf))
      && (j.Array? && s.uniqueItems ==> UniqueHashes(j.es, |j.es|))
  {
    assert CombinedMeets(s, j, AsCompiled);
    if j.Array? { ArrayAsksNothing(s, j); }
    if j.Object? { ObjectAsksNothing(s, j); }
    hide Hasher.HashOf, IsMultiple, DecodedAll, UniqueHashes, ArrayMeets, ObjectMeets;
  }

  lemma ArrayAsksNothing(s: Source, j: Value)
    requires s == EMPTY.(multipleOf := s.multipleOf, enums := s.enums, uniqueItems := s.uniqueItems) && j.Array?
    ensures ArrayMeets(s, j, AsCompiled) <==> (s.uniqueItems ==> UniqueHashes(j.es, |j.es|))
  {
    hide UniqueHashes;
    forall i | 0 <= i < |j.es| ensures ItemMeets(s, i, j.es[i], AsCompiled) {}
  }

  lemma ObjectAsksNothing(s: Source, j: Value)
    requires s == EMPTY.(multipleOf := s.multipleOf, enums := s.enums, uniqueItems := s.uniqueItems) && j.Object?
    ensures ObjectMeets(s, j, AsCompiled)
  {
    forall i | 0 <= i < |j.ms| ensures MemberMeets(s, j.ms[i].name, j.ms[i].value, AsCompiled) {}
  }

  /** `minItems` asks nothing of an empty array if and only if it is zero or has more than 32
      bits. */
  lemma MinItemsOfNothing(m: nat, doc: Bytes)
    ensures Machine.Run(Machine.Fresh(Compile(EMPTY.(minItems := m)), doc), Events(Array([]))).valid <==> m == 0 || m > 4294967295
  {
    var s, j := EMPTY.(minItems := m), Array([]);
    ValidatorDecides(s, doc, j);
    assert CombinedMeets(s, j, AsCompiled);
    hide Compile, Machine.Run;
  }

  // ----- verdicts by hash -----

  /** An `enum` of one value accepts the values of its hash. */
  lemma EnumOfOne(v: Value, j: Value, doc: Bytes)
    requires Sized(j)
    ensures Machine.Run(Machine.Fresh(Compile(EMPTY.(enums := [v])), doc), Events(j)).valid <==> Hasher.HashOf(v) == Hasher.HashOf(j)
  {
    var s := EMPTY.(enums := [v]);
    ValidatorDecides(s, doc, j);
    NothingElseAsked(s, j);
    hide Machine.Run, Meets, Compile, Hasher.HashOf;
    assert s.enums[0] == v;
  }

  /** `{"enum":[true]}` accepts neither false nor null. */
  lemma EnumRefusesFalse(doc: Bytes)
    ensures Machine.Run(Machine.Fresh(Compile(EMPTY.(enums := [Bool(true)])), doc), Events(Bool(true))).valid
    ensures !Machine.Run(Machine.Fresh(Compile(EMPTY.(enums := [Bool(true)])), doc), Events(Bool(false))).valid
    ensures !Machine.Run(Machine.Fresh(Compile(EMPTY.(enums := [Bool(true)])), doc), Events(Null)).valid
  {
    hide *;
    NoSizes();
    EnumOfOne(Bool(true), Bool(true), doc);
    EnumOfOne(Bool(true), Bool(false), doc);
    EnumOfOne(Bool(true), Null, doc);
    HashSeparates.WordsDiffer();
  }

  lemma NoSizes()
    ensures Sized(Null) && Sized(Bool(true)) && Sized(Bool(false)) && forall n :: Sized(Number(n))
  {
  }

  /** An `enum` of one string refuses every string that differs from it in one byte. */
  lemma EnumRefusesOneByte(t: Bytes, i: nat, c: Byte, doc: Bytes)
    requires i < |t| <= NO_LIMIT && c != t[i]
    ensures !Machine.Run(Machine.Fresh(Compile(EMPTY.(enums := [String(t)])), doc), Events(String(t[i := c]))).valid
  {
    hide Machine.Run, Compile, Hasher.HashOf;
    EnumOfOne(String(t), String(t[i := c]), doc);
    HashSeparates.OneByteDiffers(t, i, c);
  }

  /** `uniqueItems` accepts two elements if and only if they have two hashes. */
  lemma UniqueTwo(a: Value, b: Value, doc: Bytes)
    requires Sized(a) && Sized(b)
    ensures Machine.Run(Machine.Fresh(Compile(EMPTY.(uniqueItems := true)), doc), Events(Array([a, b]))).valid <==>
            Hasher.HashOf(a) != Hasher.HashOf(b)
  {
    hide Machine.Run, Meets, Compile, Hasher.HashOf, UniqueHashes, Machine.Fresh;
    var s, j := EMPTY.(uniqueItems := true), Array([a, b]);
    TwoUnique(a, b);
    ValidatorDecides(s, doc, j);
    NothingElseAsked(s, j);
  }

  lemma TwoUnique(a: Value, b: Value)
    requires Sized(a) && Sized(b)
    ensures Sized(Array([a, b])) && (UniqueHashes([a, b], 2) <==> Hasher.HashOf(a) != Hasher.HashOf(b))
  {
    hide Hasher.HashOf;
    assert [a, b][0] == a && [a, b][1] == b;
  }

  /** So `[1,2]` is accepted, and no list of twice the same. */
  lemma UniqueNumbers(doc: Bytes)
    ensures Machine.Run(Machine.Fresh(Compile(EMPTY.(uniqueItems := true)), doc), Events(Array([Number(1), Number(2)]))).valid
    ensures forall v | Sized(v) :: !Machine.Run(Machine.Fresh(Compile(EMPTY.(uniqueItems := true)), doc), Events(Array([v, v]))).valid
  {
    hide *;
    NoSizes();
    UniqueTwo(Number(1), Number(2), doc);
    HashSeparates.OneIsNotTwo();
    forall v | Sized(v) ensures !Machine.Run(Machine.Fresh(Compile(EMPTY.(uniqueItems := true)), doc), Events(Array([v, v]))).valid {
      UniqueTwo(v, v, doc);
    }
  }

  // ----- departures from draft 4 -----

  const NAME_A: Bytes := ['a' as int]

  /** `{"a":1}` under a schema that requires `a` and has no properties. */
  lemma RequiredOnly(a: Additional)
    ensures var s, j := EMPTY.(required := [NAME_A], additionalProperties := a), Object([Member(NAME_A, Number(1))]);
      Meets(s, j, AsCompiled) && (Meets(s, j, Draft4) ==> AdditionalMeets(a, Number(1), Draft4))
  {
    var s, j := EMPTY.(required := [NAME_A], additionalProperties := a), Object([Member(NAME_A, Number(1))]);
    NoLongerAdditional(s, j);
    assert j.ms[0].name == NAME_A && s.required[0] == NAME_A && Occurs(NAME_A, j.ms) && CombinedMeets(s, j, AsCompiled);
    assert MemberMeets(s, NAME_A, j.ms[0].value, AsCompiled) && RequiredMeets(s, NAME_A, j.ms);
    hide CombinedMeets, AdditionalMeets, MemberMeets, RequiredMeets;
  }

  lemma NoLongerAdditional(s: Source, j: Value)
    requires s.properties == [] && j.Object? && |j.ms| > 0
    ensures Meets(s, j, Draft4) ==> AdditionalMeets(s.additionalProperties, j.ms[0].value, Draft4)
  {
    if Meets(s, j, Draft4) {
      assert ObjectMeets(s, j, Draft4);
      assert MemberMeets(s, j.ms[0].name, j.ms[0].value, Draft4);
    }
  }

  /** `{"required":["a"],"additionalProperties":false}` accepts `{"a":1}`. */
  lemma RequiredNameIsNotAdditional(doc: Bytes)
    ensures var s, j := EMPTY.(required := [NAME_A], additionalProperties := Flag(false)), Object([Member(NAME_A, Number(1))]);
      Machine.Run(Machine.Fresh(Compile(s), doc), Events(j)).valid && !Meets(s, j, Draft4)
  {
    var s, j := EMPTY.(required := [NAME_A], additionalProperties := Flag(false)), Object([Member(NAME_A, Number(1))]);
    RequiredOnly(Flag(false));
    hide Meets, Machine.Run, Compile;
    ValidatorDecides(s, doc, j);
  }

  /** `{"required":["a"],"additionalProperties":{"type":"string"}}` accepts it, too. */
  lemma RequiredNameHasNoSchema(doc: Bytes)
    ensures var t := EMPTY.(types := Some({StringType}));
      var s, j := EMPTY.(required := [NAME_A], additionalProperties := Given(t)), Object([Member(NAME_A, Number(1))]);
      Machine.Run(Machine.Fresh(Compile(s), doc), Events(j)).valid && !Meets(s, j, Draft4)
  {
    var t := EMPTY.(types := Some({StringType}));
    var s, j := EMPTY.(required := [NAME_A], additionalProperties := Given(t)), Object([Member(NAME_A, Number(1))]);
    assert !Meets(t, Number(1), Draft4);
    RequiredOnly(Given(t));
    hide Meets, Machine.Run, Compile;
    ValidatorDecides(s, doc, j);
  }

  /** `{"items":[],"additionalItems":false}` accepts `[1]`. */
  lemma EmptyTupleIsNoTuple(doc: Bytes)
    ensures var s, j := EMPTY.(items := Tuple([]), additionalItems := Flag(false)), Array([Number(1)]);
      Machine.Run(Machine.Fresh(Compile(s), doc), Events(j)).valid && !Meets(s, j, Draft4)
  {
    var s, j := EMPTY.(items := Tuple([]), additionalItems := Flag(false)), Array([Number(1)]);
    assert j.es[0] == Number(1) && !ItemMeets(s, 0, j.es[0], Draft4);
    ValidatorDecides(s, doc, j);
    hide Compile, Machine.Run;
  }

  /** `{"minItems":4294967296}` accepts `[]`. */
  lemma WideBoundIsIgnored(doc: Bytes)
    ensures var s, j := EMPTY.(minItems := 0x1_0000_0000), Array([]);
      Machine.Run(Machine.Fresh(Compile(s), doc), Events(j)).valid && !Meets(s, j, Draft4)
  {
    var s, j := EMPTY.(minItems := 0x1_0000_0000), Array([]);
    ValidatorDecides(s, doc, j);
    hide Compile, Machine.Run;
  }

  /** Where `enum` compares hashes it can accept another value: `{"enum":[{}]}` accepts any
      object of one member that stands there twice. */
  lemma EnumAcceptsDoubledMember(doc: Bytes, m: Member)
    requires Sized(m.value)
    ensures var s, j := EMPTY.(enums := [Object([])]), Object([m, m]);
      Machine.Run(Machine.Fresh(Compile(s), doc), Events(j)).valid && j !in s.enums
  {
    var s, j := EMPTY.(enums := [Object([])]), Object([m, m]);
    Hasher.IdenticalMembersCancel(m, []);
    assert [m, m] + [] == [m, m];
    assert Hasher.HashOf(s.enums[0]) == Hasher.HashOf(j);
    hide Hasher.HashOf, Compile, Machine.Run;
    ValidatorDecides(s, doc, j);
    assert CombinedMeets(s, j, AsCompiled);
    assert MemberMeets(s, m.name, m.value, AsCompiled);
  }
}
