/** The streaming schema validator of schema.h as a machine over handler calls: a
    stack of contexts, each with its own hasher and parallel sub-validators. A failed
    validator ignores further calls, which is what a traversal that stops at the first
    refusal amounts to. */
module Machine {
  import opened Common
  import opened Json
  import opened Schema
  import Hasher

  type Code = Hasher.Code

  datatype Context = Context(
    schema: Schema,
    valueSchema: Option<Schema>,
    hasher: Option<seq<Code>>,
    arrayElementHashCodes: seq<Code>,
    validators: seq<Validator>,
    propertyExist: Option<seq<bool>>,
    arrayElementIndex: nat,
    inArray: bool,
    valueUniqueness: bool,
    arrayUniqueness: bool)

  datatype Validator = Validator(
    root: Schema,
    schemaStack: seq<Context>,
    documentStack: Bytes,
    valid: bool)

  function Fresh(root: Schema, basePath: Bytes): Validator {
    Validator(root, [], basePath, true)
  }

  /** `PushSchema`. */
  function Blank(s: Schema, unique: bool): Context {
    Context(s, None, None, [], [], None, 0, false, false, unique)
  }

  // ----- the sub-validator table: allOf, anyOf, oneOf, not -----

  function SubCount(s: Schema): nat {
    |s.allOf| + |s.anyOf| + |s.oneOf| + (if s.notSchema.Some? then 1 else 0)
  }

  function Sub(s: Schema, i: nat): (t: Schema)
    requires i < SubCount(s)
    ensures t < s
  {
    var b1 := |s.allOf|;
    var b2 := b1 + |s.anyOf|;
    var b3 := b2 + |s.oneOf|;
    if i < b1 then s.allOf[i]
    else if i < b2 then s.anyOf[i - b1]
    else if i < b3 then s.oneOf[i - b2]
    else s.notSchema.value
  }

  function HasRequired(properties: seq<Property>): bool {
    exists i | 0 <= i < |properties| :: properties[i].required
  }

  // ----- document path -----


  /** Reference-token escaping of RFC 6901, section 3. */
  function Escaped(name: Bytes): Bytes
    decreases |name|
  {
    if name == [] then []
    else (if name[0] == TILDE then [TILDE, '0' as int]
          else if name[0] == SLASH then [TILDE, '1' as int]
          else [name[0]]) + Escaped(name[1..])
  }

  /** The loop of `EndValue`: pop characters up to and including a slash. */
  function PopToken(doc: Bytes): Bytes
    decreases |doc|
  {
    if doc == [] then []
    else if doc[|doc| - 1] == SLASH then doc[..|doc| - 1]
    else PopToken(doc[..|doc| - 1])
  }

  // ----- schema methods on the top context -----

  /** `Schema::BeginValue`: in an array, choose the schema of the next element. */
  function BeginTop(top: Context): (bool, Context) {
    if !top.inArray then (true, top)
    else
      var item := ItemSchema(top.schema, top.arrayElementIndex);
      (item.Some?,
       top.(valueUniqueness := top.valueUniqueness || top.schema.uniqueItems,
            valueSchema := Some(if item.Some? then item.value else TYPELESS),
            arrayElementIndex := top.arrayElementIndex + 1))
  }

  /** `Schema::Key`: choose the schema of the member's value. */
  function KeyTop(top: Context, name: Bytes): (bool, Context) {
    var member := MemberSchema(top.schema, name);
    var index := FindPropertyIndex(top.schema.properties, name);
    (member.Some?,
     top.(valueSchema := Some(if member.Some? then member.value else TYPELESS),
          propertyExist :=
            match (top.propertyExist, index)
            case (Some(exist), Some(i)) => if i < |exist| then Some(exist[i := true]) else Some(exist)
            case _ => top.propertyExist))
  }

  /** `Schema::EndObject`. */
  predicate EndObjectCheck(top: Context, memberCount: nat) {
    var s := top.schema;
    && (HasRequired(s.properties) ==>
          forall i | 0 <= i < |s.properties| ::
            s.properties[i].required && s.properties[i].schema.defaultValueLength == 0 ==>
              top.propertyExist.Some? && i < |top.propertyExist.value| && top.propertyExist.value[i])
    && s.minProperties <= memberCount <= s.maxProperties
  }

  /** `Schema::EndArray`. */
  predicate EndArrayCheck(top: Context, elementCount: nat) {
    top.schema.minItems <= elementCount <= top.schema.maxItems
  }

  /** How many of `count` sub-validators from `begin` on are still valid. */
  function CountValid(validators: seq<Validator>, begin: nat, count: nat): nat
    requires begin + count <= |validators|
  {
    if count == 0 then 0
    else CountValid(validators, begin, count - 1) + (if validators[begin + count - 1].valid then 1 else 0)
  }

  /** `Schema::EndValue`: the table of enum hashes. */
  predicate EnumCheck(top: Context) {
    top.schema.enums != [] && top.hasher.Some? ==>
      top.hasher.value != [] &&
      exists i | 0 <= i < |top.schema.enums| ::
        Hasher.HashOf(top.schema.enums[i]) == top.hasher.value[|top.hasher.value| - 1]
  }

  /** `Schema::EndValue`: allOf, anyOf, oneOf and not over their index ranges of the
      sub-validator table. */
  predicate TableCheck(s: Schema, validators: seq<Validator>)
    requires |validators| == SubCount(s)
  {
    var a, n, o := |s.allOf|, |s.anyOf|, |s.oneOf|;
    && CountValid(validators, 0, a) == a
    && (n > 0 ==> CountValid(validators, a, n) > 0)
    && (o > 0 ==> CountValid(validators, a + n, o) == 1)
    && (s.notSchema.Some? ==> !validators[a + n + o].valid)
  }

  predicate EndValueCheck(top: Context) {
    && EnumCheck(top)
    && (|top.validators| > 0 && |top.validators| == SubCount(top.schema) ==> TableCheck(top.schema, top.validators))
  }

  /** The second half of `EndValue`, after the context is popped: array uniqueness in
      the parent, then the document path. */
  function Close(v: Validator, hashed: bool, h: Code): (w: Validator)
    ensures w.root == v.root
  {
    var n := |v.schemaStack|;
    if n > 0 && hashed && v.schemaStack[n - 1].valueUniqueness then
      var parent := v.schemaStack[n - 1];
      if h in parent.arrayElementHashCodes then v.(valid := false)
      else
        v.(schemaStack := v.schemaStack[..n - 1] + [parent.(arrayElementHashCodes := parent.arrayElementHashCodes + [h])],
           documentStack := PopToken(v.documentStack))
    else v.(documentStack := PopToken(v.documentStack))
  }

  /** `GenericSchemaValidator::EndValue`. */
  function EndValue(v: Validator): (w: Validator)
    requires v.schemaStack != []
    ensures w.root == v.root
  {
    var n := |v.schemaStack|;
    var top := v.schemaStack[n - 1];
    if !EndValueCheck(top) then v.(valid := false)
    else
      var h := if top.hasher.Some? && top.arrayUniqueness && top.hasher.value != []
               then top.hasher.value[|top.hasher.value| - 1] else 0;
      Close(v.(schemaStack := v.schemaStack[..n - 1]), top.hasher.Some?, h)
  }

  // ----- one handler call -----

  /** The context of a value that begins with `e` under schema `s`, after the schema's
      own checks and after its new hasher and sub-validators have seen `e`. */
  function Opened(s: Schema, unique: bool, doc: Bytes, e: Event): Option<Context>
    decreases s, 0
  {
    if !StartCheck(s, e) then None
    else
      Some(Blank(s, unique).(
           hasher := if s.enums != [] || unique then Some(Hasher.Step([], e)) else None,
           validators := seq(SubCount(s), i requires 0 <= i < SubCount(s) => StepFresh(Sub(s, i), doc, e)),
           propertyExist :=
             if e.StartObjectEv? && HasRequired(s.properties) then Some(seq(|s.properties|, _ => false)) else None,
           inArray := e.StartArrayEv?))
  }

  /** The call that begins a value, from the state after `BeginValue`. */
  function Entered(v: Validator, s: Schema, unique: bool, e: Event): (w: Validator)
    ensures w.root == v.root
    decreases s, 2
  {
    match Opened(s, unique, v.documentStack, e)
    case None => v.(schemaStack := v.schemaStack + [Blank(s, unique)], valid := false)
    case Some(c) =>
      var w := v.(schemaStack := v.schemaStack + [c]);
      if IsScalarEvent(e) then EndValue(w) else w
  }

  /** A new validator's first call. */
  function StepFresh(root: Schema, basePath: Bytes, e: Event): (w: Validator)
    ensures w.root == root
    decreases root, 3
  {
    Entered(Fresh(root, basePath), root, false, e)
  }

  predicate BeginsValue(e: Event) {
    !(e.KeyEv? || e.EndObjectEv? || e.EndArrayEv?)
  }

  /** What one open context does with a call: its hasher and its sub-validators see it. */
  function FeedContext(c: Context, e: Event): Context
    decreases c
  {
    c.(hasher := match c.hasher case None => None case Some(h) => Some(Hasher.Step(h, e)),
       validators := seq(|c.validators|, i requires 0 <= i < |c.validators| => Step(c.validators[i], e)))
  }

  function Feed(cs: seq<Context>, e: Event): (fed: seq<Context>)
    ensures |fed| == |cs|
    decreases cs
  {
    seq(|cs|, i requires 0 <= i < |cs| => FeedContext(cs[i], e))
  }

  /** One handler call: a failed validator ignores it; otherwise the current schema's
      check, the parallel feed of every open context, and the end of a value. */
  function Step(v: Validator, e: Event): (w: Validator)
    ensures w.root == v.root
    decreases v
  {
    var n := |v.schemaStack|;
    if !v.valid then v
    else if n == 0 then
      if BeginsValue(e) then StepFresh(v.root, v.documentStack, e) else v
    else
      var top := v.schemaStack[n - 1];
      var fed := Feed(v.schemaStack, e);
      if e.KeyEv? then
        var doc := v.documentStack + [SLASH] + Escaped(e.s);
        if !KeyTop(top, e.s).0 then
          v.(schemaStack := v.schemaStack[n - 1 := KeyTop(top, e.s).1], documentStack := doc, valid := false)
        else v.(schemaStack := fed[n - 1 := KeyTop(fed[n - 1], e.s).1], documentStack := doc)
      else if e.EndObjectEv? then
        var w := v.(schemaStack := fed);
        if !EndObjectCheck(fed[n - 1], e.memberCount) then w.(valid := false) else EndValue(w)
      else if e.EndArrayEv? then
        var w := v.(schemaStack := fed[n - 1 := fed[n - 1].(inArray := false)]);
        if !EndArrayCheck(fed[n - 1], e.elementCount) then w.(valid := false) else EndValue(w)
      else
        var doc := if top.inArray then v.documentStack + [SLASH] + DecText(top.arrayElementIndex) else v.documentStack;
        var (ok, begun) := BeginTop(top);
        if !ok || begun.valueSchema.None? then
          v.(schemaStack := v.schemaStack[n - 1 := begun], documentStack := doc, valid := false)
        else
          var s, unique := begun.valueSchema.value, begun.valueUniqueness;
          match Opened(s, unique, doc, e)
          case None =>
            v.(schemaStack := v.schemaStack[n - 1 := begun] + [Blank(s, unique)], documentStack := doc, valid := false)
          case Some(c) =>
            var w := v.(schemaStack := fed[n - 1 := BeginTop(fed[n - 1]).1] + [c], documentStack := doc);
            if IsScalarEvent(e) then EndValue(w) else w
  }

  function Run(v: Validator, es: seq<Event>): Validator
    decreases |es|
  {
    if es == [] then v else Run(Step(v, es[0]), es[1..])
  }
}
