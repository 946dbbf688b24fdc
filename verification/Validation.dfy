/** Feeding a value's handler calls to a validator leaves it valid exactly when the value is valid. */
module Validation {
  import opened Common
  import opened Json
  import opened Schema
  import opened Machine
  import opened MachineProof
  import Hasher

  // ----- the shape of every value's run -----

  /** A validator about to receive a value: its top context, if any, asks for
      uniqueness exactly when `unique` says so. */
  predicate Ready(v: Validator, unique: bool) {
    v.valid && unique == (v.schemaStack != [] && v.schemaStack[|v.schemaStack| - 1].valueUniqueness)
  }

  /** The call that begins a value under schema `s`, from the state after `BeginValue`. */
  function Begin(v: Validator, s: Schema, unique: bool, e: Event): Validator {
    match Opened(s, unique, v.documentStack, e)
    case None => v.(schemaStack := v.schemaStack + [Blank(s, unique)], valid := false)
    case Some(c) =>
      var w := v.(schemaStack := Feed(v.schemaStack, e) + [c]);
      if IsScalarEvent(e) then EndValue(w) else w
  }

  /** The state after a valid value: every open context has seen its calls, and the
      parent has checked uniqueness and dropped the path token. */
  function Closed(v: Validator, s: Schema, unique: bool, j: Value): Validator {
    Close(v.(schemaStack := SeenAll(v.schemaStack, Events(j))), Hashes(s, unique), if unique then Hasher.HashOf(j) else 0)
  }

  ghost predicate Outcome(v: Validator, s: Schema, unique: bool, j: Value, r: Validator) {
    if Valid(s, j) then r == Closed(v, s, unique, j) else !r.valid
  }

  lemma BeginFresh(s: Schema, doc: Bytes, e: Event)
    requires BeginsValue(e)
    ensures Step(Fresh(s, doc), e) == Begin(Fresh(s, doc), s, false, e)
  {
    hide Opened, EndValue;
    var v := Fresh(s, doc);
    assert Feed(v.schemaStack, e) == v.schemaStack;
    assert Step(v, e) == StepFresh(s, doc, e) == Entered(v, s, false, e);
  }

  function PathFor(v: Validator, top: Context): Bytes {
    if top.inArray then v.documentStack + [SLASH] + DecText(top.arrayElementIndex) else v.documentStack
  }

  /** In an open container, the call that begins a value first lets the container
      choose the schema; feeding and choosing commute. */
  lemma BeginInside(v: Validator, top: Context, front: seq<Context>, e: Event)
    requires v.valid && v.schemaStack == front + [top] && BeginsValue(e)
    requires BeginTop(top).0 && BeginTop(top).1.valueSchema.Some?
    ensures var begun := BeginTop(top).1;
      Step(v, e) == Begin(v.(schemaStack := front + [begun], documentStack := PathFor(v, top)),
                          begun.valueSchema.value, begun.valueUniqueness, e)
  {
    hide Opened, EndValue, ItemSchema, DecText, Hasher.Step;
    var begun := BeginTop(top).1;
    var n := |v.schemaStack|;
    var fed := Feed(v.schemaStack, e);
    assert v.schemaStack[n - 1] == top;
    FeedCommutes(top, e);
    assert fed[n - 1 := BeginTop(fed[n - 1]).1] == Feed(front + [begun], e);
    assert v.schemaStack[n - 1 := begun] == front + [begun];
  }

  lemma FeedCommutes(top: Context, e: Event)
    ensures BeginTop(FeedContext(top, e)).1 == FeedContext(BeginTop(top).1, e)
  {
    hide ItemSchema, Hasher.Step, Step;
  }

  // ----- the end of a value -----

  /** A context whose value is complete. */
  ghost predicate Complete(top: Context, s: Schema, unique: bool, doc: Bytes, j: Value) {
    var live := Live(s, unique, doc, Events(j));
    top.schema == s && top.arrayUniqueness == unique && top.hasher == live.hasher && top.validators == live.validators
  }

  lemma EndsValue(v: Validator, cs: seq<Context>, top: Context, s: Schema, unique: bool, doc: Bytes, j: Value)
    requires v.schemaStack == cs + [top] && Complete(top, s, unique, doc, j) && SubsDecide(s, doc, j)
    ensures EndValue(v) ==
      if InEnum(s, j) && CombinedOk(s, j)
      then Close(v.(schemaStack := cs), Hashes(s, unique), if unique then Hasher.HashOf(j) else 0)
      else v.(valid := false)
  {
    hide Hasher.HashOf, Hasher.Run, Run, Valid, Events, InEnum, CombinedOk, EndValueCheck, Close, SubCount, Sub;
    Hasher.RunIsHash([], j);
    assert [] + [Hasher.HashOf(j)] == [Hasher.HashOf(j)];
    EndCheckDecides(s, j, top);
    assert v.schemaStack[..|v.schemaStack| - 1] == cs;
  }

  /** A null, boolean, number or string. */
  lemma ScalarRun(v: Validator, s: Schema, unique: bool, j: Value)
    requires !j.Array? && !j.Object? && Ready(v, unique) && SubsDecide(s, v.documentStack, j)
    ensures Outcome(v, s, unique, j, Begin(v, s, unique, Events(j)[0]))
  {
    hide Hasher.HashOf, Hasher.Run, Run, InEnum, CombinedOk, EndValueCheck, Close, SubCount, Sub, SubsDecide, Opened, StartCheck, ShallowOk, EndValue, Live, Feed, SeenAll;
    var e := Events(j)[0];
    assert Events(j) == [e];
    ScalarCheck(s, j);
    OpenedIsLive(s, unique, v.documentStack, e);
    if StartCheck(s, e) {
      var c := Opened(s, unique, v.documentStack, e).value;
      SeenAllOne(v.schemaStack, e);
      LiveShape(s, unique, v.documentStack, [e]);
      EndsValue(v.(schemaStack := Feed(v.schemaStack, e) + [c]), Feed(v.schemaStack, e), c, s, unique, v.documentStack, j);
    }
  }

  lemma LiveShape(s: Schema, unique: bool, doc: Bytes, pre: seq<Event>)
    ensures Live(s, unique, doc, pre).schema == s && Live(s, unique, doc, pre).arrayUniqueness == unique
  {
  }

  // ----- arrays -----

  /** Calls of an array up to its `k`-th element. */
  function ArrayPrefix(j: Value, k: nat): seq<Event>
    requires j.Array? && k <= |j.es|
  {
    [StartArrayEv] + ElementEvents(j, k)
  }

  /** The array's context after `k` elements. */
  function ArrayTop(s: Schema, unique: bool, doc: Bytes, j: Value, k: nat): Context
    requires j.Array? && k <= |j.es|
  {
    Live(s, unique, doc, ArrayPrefix(j, k)).(
      inArray := true,
      arrayElementIndex := k,
      valueUniqueness := k > 0 && s.uniqueItems,
      valueSchema := if k == 0 then None else ItemSchema(s, k - 1),
      arrayElementHashCodes := if s.uniqueItems then Hasher.ElementHashes(j, k) else [])
  }

  /** The validator after `k` valid elements: the outer contexts have seen the calls,
      and the path is back at the array. */
  function AtElement(v: Validator, s: Schema, unique: bool, j: Value, k: nat): Validator
    requires j.Array? && k <= |j.es|
  {
    v.(schemaStack := SeenAll(v.schemaStack, ArrayPrefix(j, k)) + [ArrayTop(s, unique, v.documentStack, j, k)])
  }

  lemma ArrayStart(v: Validator, s: Schema, unique: bool, j: Value)
    requires v.valid && j.Array? && ArrayType in s.types
    ensures Begin(v, s, unique, StartArrayEv) == AtElement(v, s, unique, j, 0)
  {
    hide Opened, SeenAll, Feed, Hasher.Run, Hasher.ElementHashes, Run, SubCount, Sub;
    OpenedIsLive(s, unique, v.documentStack, StartArrayEv);
    assert ArrayPrefix(j, 0) == [StartArrayEv];
    SeenAllOne(v.schemaStack, StartArrayEv);
    NoElements(j);
  }

  lemma NoElements(j: Value)
    requires j.Array?
    ensures Hasher.ElementHashes(j, 0) == []
  {
  }

  lemma PopAppended(doc: Bytes, token: Bytes)
    requires SLASH !in token
    ensures PopToken(doc + [SLASH] + token) == doc
    decreases |token|
  {
    var d := doc + [SLASH] + token;
    if token == [] {
      assert d == doc + [SLASH];
      assert d[..|d| - 1] == doc;
    } else {
      var t := token[..|token| - 1];
      assert d[..|d| - 1] == doc + [SLASH] + t;
      PopAppended(doc, t);
    }
  }

  lemma ElementPath(doc: Bytes, k: nat)
    ensures PopToken(doc + [SLASH] + DecText(k)) == doc
  {
    assert SLASH !in DecText(k);
    PopAppended(doc, DecText(k));
  }

  /** The hash of element `k` repeats an earlier one exactly when the first `k + 1`
      hashes are not distinct. */
  lemma RepeatedHash(j: Value, k: nat)
    requires j.Array? && k < |j.es| && UniqueHashes(j.es, k)
    ensures Hasher.HashOf(j.es[k]) in Hasher.ElementHashes(j, k) <==> !UniqueHashes(j.es, k + 1)
  {
    hide Hasher.HashOf;
    HashesAre(j, k);
  }

  lemma {:induction false} HashesAre(j: Value, k: nat)
    requires j.Array? && k <= |j.es|
    ensures forall i | 0 <= i < k :: Hasher.ElementHashes(j, k)[i] == Hasher.HashOf(j.es[i])
  {
    hide Hasher.HashOf;
    if k > 0 { HashesAre(j, k - 1); }
  }

  // ----- the induction -----

  /** Every value leaves the validator as its schema demands. */
  lemma {:induction false} ValueRun(v: Validator, s: Schema, unique: bool, j: Value)
    requires Ready(v, unique)
    ensures Outcome(v, s, unique, j, Run(Begin(v, s, unique, Events(j)[0]), Events(j)[1..]))
    decreases j, s, 3
  {
    hide *;
    SubsRun(s, v.documentStack, j);
    if j.Array? {
      ArrayRun(v, s, unique, j);
    } else if j.Object? {
      ObjectRun(v, s, unique, j);
    } else {
      ScalarRun(v, s, unique, j);
      NothingLeft(Begin(v, s, unique, Events(j)[0]), j);
    }
  }

  lemma NothingLeft(v: Validator, j: Value)
    requires !j.Array? && !j.Object?
    ensures Run(v, Events(j)[1..]) == v
  {
    assert Events(j)[1..] == [];
  }

  /** The parallel sub-validators decide their schemas. */
  lemma {:induction false} SubsRun(s: Schema, doc: Bytes, j: Value)
    ensures SubsDecide(s, doc, j)
    decreases j, s, 2
  {
    forall i | 0 <= i < SubCount(s)
      ensures Run(Fresh(Sub(s, i), doc), Events(j)).valid <==> Valid(Sub(s, i), j)
    {
      var t := Sub(s, i);
      RootRun(t, doc, j);
    }
  }

  /** A fresh validator decides its schema: after the calls of one value it is valid
      exactly when the value is, and then its context stack is empty again. */
  lemma {:induction false} RootRun(s: Schema, doc: Bytes, j: Value)
    ensures Run(Fresh(s, doc), Events(j)).valid <==> Valid(s, j)
    ensures Valid(s, j) ==> Run(Fresh(s, doc), Events(j)) == Fresh(s, PopToken(doc))
    decreases j, s, 4
  {
    var v := Fresh(s, doc);
    ValueRun(v, s, false, j);
    FirstBegins(j);
    BeginFresh(s, doc, Events(j)[0]);
    RunFirst(v, Events(j));
    ClosedFresh(s, doc, j);
    hide *;
  }

  lemma ClosedFresh(s: Schema, doc: Bytes, j: Value)
    ensures Closed(Fresh(s, doc), s, false, j) == Fresh(s, PopToken(doc))
  {
    hide Events;
    assert SeenAll(Fresh(s, doc).schemaStack, Events(j)) == [];
  }

  lemma FirstBegins(j: Value)
    ensures BeginsValue(Events(j)[0])
  {
  }

  // ----- arrays: the induction over elements -----

  /** The validator once the array has chosen the schema of element `k`. */
  function InElement(v: Validator, s: Schema, unique: bool, j: Value, k: nat): Validator
    requires j.Array? && k < |j.es|
  {
    var at := AtElement(v, s, unique, j, k);
    var top := ArrayTop(s, unique, v.documentStack, j, k);
    at.(schemaStack := SeenAll(v.schemaStack, ArrayPrefix(j, k)) + [BeginTop(top).1], documentStack := PathFor(at, top))
  }

  lemma ElementBegins(v: Validator, s: Schema, unique: bool, j: Value, k: nat)
    requires v.valid && j.Array? && k < |j.es|
    ensures var r := Run(AtElement(v, s, unique, j, k), Events(j.es[k]));
      match ItemSchema(s, k)
      case None => !r.valid
      case Some(item) =>
        Ready(InElement(v, s, unique, j, k), s.uniqueItems)
        && r == Run(Begin(InElement(v, s, unique, j, k), item, s.uniqueItems, Events(j.es[k])[0]), Events(j.es[k])[1..])
  {
    var at := AtElement(v, s, unique, j, k);
    var front, top := SeenAll(v.schemaStack, ArrayPrefix(j, k)), ArrayTop(s, unique, v.documentStack, j, k);
    var es := Events(j.es[k]);
    FirstBegins(j.es[k]);
    RunFirst(at, es);
    hide Events, Run, Step, Begin, SeenAll, ArrayPrefix, Live, ItemSchema, DecText, Hasher.ElementHashes;
    if ItemSchema(s, k).None? {
      Disallowed(at, front, top, es[0]);
      RunInvalid(Step(at, es[0]), es[1..]);
    } else {
      BeginInside(at, top, front, es[0]);
    }
  }

  lemma OneMoreElement(s: Schema, j: Value, k: nat)
    requires j.Array? && k < |j.es| && ElementsOk(s, j, k)
    ensures ElementsOk(s, j, k + 1) <==>
      ItemSchema(s, k).Some? && Valid(ItemSchema(s, k).value, j.es[k]) && (s.uniqueItems ==> UniqueHashes(j.es, k + 1))
    ensures s.uniqueItems ==> UniqueHashes(j.es, k)
  {
    hide Valid, Hasher.HashOf, ItemSchema;
  }

  /** One element. */
  lemma {:induction false} ElementRun(v: Validator, s: Schema, unique: bool, j: Value, k: nat)
    requires Ready(v, unique) && j.Array? && k < |j.es| && ElementsOk(s, j, k)
    ensures var r := Run(AtElement(v, s, unique, j, k), Events(j.es[k]));
      if ElementsOk(s, j, k + 1) then r == AtElement(v, s, unique, j, k + 1) else !r.valid
    decreases j, s, 0, k
  {
    OneMoreElement(s, j, k);
    ElementBegins(v, s, unique, j, k);
    hide Events, Run, Begin, AtElement, InElement, ElementsOk, Valid, UniqueHashes, ItemSchema, Closed;
    if ItemSchema(s, k).Some? {
      var item := ItemSchema(s, k).value;
      ValueRun(InElement(v, s, unique, j, k), item, s.uniqueItems, j.es[k]);
      ElementCloses(v, s, unique, j, k);
    }
  }

  lemma Disallowed(v: Validator, front: seq<Context>, top: Context, e: Event)
    requires v.valid && v.schemaStack == front + [top] && BeginsValue(e) && !BeginTop(top).0
    ensures !Step(v, e).valid
  {
    hide Opened, EndValue, Feed, BeginTop;
  }

  /** A valid element's closing: uniqueness against the earlier hashes, and the index
      token dropped from the path. */
  lemma ElementCloses(v: Validator, s: Schema, unique: bool, j: Value, k: nat)
    requires v.valid && j.Array? && k < |j.es| && ItemSchema(s, k).Some?
    requires s.uniqueItems ==> UniqueHashes(j.es, k)
    ensures var r := Closed(InElement(v, s, unique, j, k), ItemSchema(s, k).value, s.uniqueItems, j.es[k]);
      if s.uniqueItems ==> UniqueHashes(j.es, k + 1) then r == AtElement(v, s, unique, j, k + 1) else !r.valid
  {
    var es := Events(j.es[k]);
    var front, top := SeenAll(v.schemaStack, ArrayPrefix(j, k)), ArrayTop(s, unique, v.documentStack, j, k);
    var begun := BeginTop(top).1;
    assert ArrayPrefix(j, k) + es == ArrayPrefix(j, k + 1);
    SeenAllConcat(front, begun, es);
    SeenAllAppend(v.schemaStack, ArrayPrefix(j, k), es);
    SeenElement(s, unique, v.documentStack, j, k);
    ElementPath(v.documentStack, k);
    if s.uniqueItems { RepeatedHash(j, k); }
    hide Events, SeenAll, Seen, Hasher.HashOf, UniqueHashes, ItemSchema, ArrayPrefix, Live, PopToken, DecText, Hashes;
  }

  /** What the array's context becomes while its `k`-th element is fed. */
  lemma SeenElement(s: Schema, unique: bool, doc: Bytes, j: Value, k: nat)
    requires j.Array? && k < |j.es| && ItemSchema(s, k).Some?
    ensures Seen(BeginTop(ArrayTop(s, unique, doc, j, k)).1, Events(j.es[k])) ==
      ArrayTop(s, unique, doc, j, k + 1).(arrayElementHashCodes := if s.uniqueItems then Hasher.ElementHashes(j, k) else [])
  {
    var es := Events(j.es[k]);
    assert ArrayPrefix(j, k) + es == ArrayPrefix(j, k + 1);
    LiveAppend(s, unique, doc, ArrayPrefix(j, k), es);
    hide Events, Run, Hasher.Run, Hasher.ElementHashes, ItemSchema, ArrayPrefix, SubCount, Sub, Hashes;
  }

  /** The elements in order. */
  lemma {:induction false} ElementsRun(v: Validator, s: Schema, unique: bool, j: Value, k: nat)
    requires Ready(v, unique) && j.Array? && k <= |j.es|
    ensures var r := Run(AtElement(v, s, unique, j, 0), ElementEvents(j, k));
      if ElementsOk(s, j, k) then r == AtElement(v, s, unique, j, k) else !r.valid
    decreases j, s, 1, k
  {
    hide Run, AtElement, ElementsOk, Events;
    if k == 0 {
      NoElementsRun(v, s, unique, j);
    } else {
      ElementsRun(v, s, unique, j, k - 1);
      var before := Run(AtElement(v, s, unique, j, 0), ElementEvents(j, k - 1));
      RunAppend(AtElement(v, s, unique, j, 0), ElementEvents(j, k - 1), Events(j.es[k - 1]));
      if ElementsOk(s, j, k - 1) {
        ElementRun(v, s, unique, j, k - 1);
      } else {
        RunInvalid(before, Events(j.es[k - 1]));
        FewerElements(s, j, k);
      }
    }
  }

  lemma NoElementsRun(v: Validator, s: Schema, unique: bool, j: Value)
    requires j.Array?
    ensures Run(AtElement(v, s, unique, j, 0), ElementEvents(j, 0)) == AtElement(v, s, unique, j, 0)
    ensures ElementsOk(s, j, 0)
  {
    hide AtElement;
  }

  lemma FewerElements(s: Schema, j: Value, k: nat)
    requires j.Array? && 0 < k <= |j.es|
    ensures ElementsOk(s, j, k) ==> ElementsOk(s, j, k - 1)
  {
    hide Valid, Hasher.HashOf;
  }

  /** The closing bracket: size bounds, then the end of the value. */
  lemma ArrayEnd(v: Validator, s: Schema, unique: bool, j: Value)
    requires v.valid && j.Array? && SubsDecide(s, v.documentStack, j)
    ensures var r := Step(AtElement(v, s, unique, j, |j.es|), EndArrayEv(|j.es|));
      if s.minItems <= |j.es| <= s.maxItems && InEnum(s, j) && CombinedOk(s, j) then r == Closed(v, s, unique, j) else !r.valid
  {
    var n, e := |j.es|, EndArrayEv(|j.es|);
    var at := AtElement(v, s, unique, j, n);
    var front, top := SeenAll(v.schemaStack, ArrayPrefix(j, n)), ArrayTop(s, unique, v.documentStack, j, n);
    assert Events(j) == ArrayPrefix(j, n) + [e];
    SeenAllOne(front, e);
    SeenAllAppend(v.schemaStack, ArrayPrefix(j, n), [e]);
    var closing := Seen(top, [e]).(inArray := false);
    ClosingElement(s, unique, v.documentStack, j);
    StepEndArray(at, front, top, n);
    EndsValue(at.(schemaStack := Feed(front, e) + [closing]), Feed(front, e), closing, s, unique, v.documentStack, j);
    hide Events, SeenAll, Seen, Feed, Step, EndValue, Hasher.HashOf, InEnum, CombinedOk, SubsDecide, Hashes, Close, ArrayPrefix, Complete;
  }

  lemma ClosingElement(s: Schema, unique: bool, doc: Bytes, j: Value)
    requires j.Array?
    ensures Complete(Seen(ArrayTop(s, unique, doc, j, |j.es|), [EndArrayEv(|j.es|)]).(inArray := false), s, unique, doc, j)
  {
    var e := EndArrayEv(|j.es|);
    assert Events(j) == ArrayPrefix(j, |j.es|) + [e];
    LiveAppend(s, unique, doc, ArrayPrefix(j, |j.es|), [e]);
    hide Events, Run, Hasher.Run, Hasher.ElementHashes, ItemSchema, ArrayPrefix, SubCount, Sub, Hashes;
  }

  lemma StepEndArray(v: Validator, front: seq<Context>, top: Context, n: nat)
    requires v.valid && v.schemaStack == front + [top]
    ensures var e := EndArrayEv(n);
      var r := Step(v, e);
      if top.schema.minItems <= n <= top.schema.maxItems
      then r == EndValue(v.(schemaStack := Feed(front, e) + [Seen(top, [e]).(inArray := false)]))
      else !r.valid
  {
    var e := EndArrayEv(n);
    SeenOne(top, e);
    var fed := Feed(v.schemaStack, e);
    assert fed == Feed(front, e) + [FeedContext(top, e)];
    hide EndValue, Hasher.Step, Seen;
    assert fed[|fed| - 1 := fed[|fed| - 1].(inArray := false)] == Feed(front, e) + [FeedContext(top, e).(inArray := false)];
  }

  /** An array. */
  lemma {:induction false} ArrayRun(v: Validator, s: Schema, unique: bool, j: Value)
    requires Ready(v, unique) && j.Array? && SubsDecide(s, v.documentStack, j)
    ensures Outcome(v, s, unique, j, Run(Begin(v, s, unique, Events(j)[0]), Events(j)[1..]))
    decreases j, s, 2
  {
    var n := |j.es|;
    var start := Begin(v, s, unique, StartArrayEv);
    assert Events(j)[0] == StartArrayEv;
    assert Events(j)[1..] == ElementEvents(j, n) + [EndArrayEv(n)];
    if ArrayType !in s.types {
      RunInvalid(start, Events(j)[1..]);
    } else {
      ArrayStart(v, s, unique, j);
      ElementsRun(v, s, unique, j, n);
      RunAppend(start, ElementEvents(j, n), [EndArrayEv(n)]);
      RunOne(Run(start, ElementEvents(j, n)), EndArrayEv(n));
      ArrayEnd(v, s, unique, j);
      hide Run, AtElement, ElementsOk, Events, Step, Begin, InEnum, CombinedOk, Closed, SubsDecide;
    }
  }

  // ----- objects -----

  /** Calls of an object up to its `k`-th member. */
  function ObjectPrefix(j: Value, k: nat): seq<Event>
    requires j.Object? && k <= |j.ms|
  {
    [StartObjectEv] + MemberEvents(j, k)
  }

  /** `propertyExist` after `k` members. */
  function Exist(s: Schema, j: Value, k: nat): Option<seq<bool>>
    requires j.Object? && k <= |j.ms|
  {
    if HasRequired(s.properties)
    then Some(seq(|s.properties|, p requires 0 <= p < |s.properties| => Present(s, j.ms, k, p)))
    else None
  }

  /** The object's context after `k` members. */
  function ObjectTop(s: Schema, unique: bool, doc: Bytes, j: Value, k: nat): Context
    requires j.Object? && k <= |j.ms|
  {
    Live(s, unique, doc, ObjectPrefix(j, k)).(
      propertyExist := Exist(s, j, k),
      valueSchema := if k == 0 then None else MemberSchema(s, j.ms[k - 1].name))
  }

  function AtMember(v: Validator, s: Schema, unique: bool, j: Value, k: nat): Validator
    requires j.Object? && k <= |j.ms|
  {
    v.(schemaStack := SeenAll(v.schemaStack, ObjectPrefix(j, k)) + [ObjectTop(s, unique, v.documentStack, j, k)])
  }

  /** The object's context once the key of member `k` has been seen. */
  function KeyedTop(s: Schema, unique: bool, doc: Bytes, j: Value, k: nat): Context
    requires j.Object? && k < |j.ms|
  {
    Live(s, unique, doc, ObjectPrefix(j, k) + [KeyEv(j.ms[k].name)]).(
      propertyExist := Exist(s, j, k + 1),
      valueSchema := MemberSchema(s, j.ms[k].name))
  }

  function InMember(v: Validator, s: Schema, unique: bool, j: Value, k: nat): Validator
    requires j.Object? && k < |j.ms|
  {
    v.(schemaStack := SeenAll(v.schemaStack, ObjectPrefix(j, k) + [KeyEv(j.ms[k].name)])
                        + [KeyedTop(s, unique, v.documentStack, j, k)],
       documentStack := v.documentStack + [SLASH] + Escaped(j.ms[k].name))
  }

  lemma ObjectStart(v: Validator, s: Schema, unique: bool, j: Value)
    requires v.valid && j.Object? && ObjectType in s.types
    ensures Begin(v, s, unique, StartObjectEv) == AtMember(v, s, unique, j, 0)
  {
    hide Opened, SeenAll, Feed, Hasher.Run, Run, SubCount, Sub, FindPropertyIndex, HasRequired;
    OpenedIsLive(s, unique, v.documentStack, StartObjectEv);
    assert ObjectPrefix(j, 0) == [StartObjectEv];
    SeenAllOne(v.schemaStack, StartObjectEv);
    if HasRequired(s.properties) {
      assert Exist(s, j, 0).value == seq(|s.properties|, _ => false);
    }
  }

  lemma {:induction false} NoSlash(name: Bytes)
    ensures SLASH !in Escaped(name)
    decreases |name|
  {
    if name != [] { NoSlash(name[1..]); }
  }

  /** One token is appended for a key and exactly that token is removed at the end of
      its value, whatever slashes and tildes the key contains. */
  lemma KeyPath(doc: Bytes, name: Bytes)
    ensures PopToken(doc + [SLASH] + Escaped(name)) == doc
  {
    NoSlash(name);
    PopAppended(doc, Escaped(name));
  }

  lemma ExistStep(s: Schema, j: Value, k: nat)
    requires j.Object? && k < |j.ms| && HasRequired(s.properties)
    ensures Exist(s, j, k + 1).value ==
      match FindPropertyIndex(s.properties, j.ms[k].name)
      case None => Exist(s, j, k).value
      case Some(i) => Exist(s, j, k).value[i := true]
  {
    hide FindPropertyIndex;
    var index := FindPropertyIndex(s.properties, j.ms[k].name);
    forall p | 0 <= p < |s.properties|
      ensures Present(s, j.ms, k + 1, p) <==> Present(s, j.ms, k, p) || index == Some(p)
    {
      if index == Some(p) { assert FindPropertyIndex(s.properties, j.ms[k].name) == Some(p); }
    }
    FoundInRange(s.properties, j.ms[k].name);
  }

  lemma FoundInRange(properties: seq<Property>, name: Bytes)
    ensures FindPropertyIndex(properties, name).Some? ==> FindPropertyIndex(properties, name).value < |properties|
  {
  }

  lemma KeyOnTop(s: Schema, unique: bool, doc: Bytes, j: Value, k: nat)
    requires j.Object? && k < |j.ms| && MemberSchema(s, j.ms[k].name).Some?
    ensures var e := KeyEv(j.ms[k].name);
      KeyTop(FeedContext(ObjectTop(s, unique, doc, j, k), e), e.s).1 == KeyedTop(s, unique, doc, j, k)
  {
    var e := KeyEv(j.ms[k].name);
    SeenOne(ObjectTop(s, unique, doc, j, k), e);
    LiveAppend(s, unique, doc, ObjectPrefix(j, k), [e]);
    FoundInRange(s.properties, j.ms[k].name);
    if HasRequired(s.properties) { ExistStep(s, j, k); }
    hide FeedContext, ObjectPrefix, Run, Hasher.Run, SubCount, Sub, Hashes, FindPropertyIndex, MemberSchema, Present, HasRequired;
  }

  lemma StepKey(v: Validator, front: seq<Context>, top: Context, name: Bytes)
    requires v.valid && v.schemaStack == front + [top]
    ensures var e := KeyEv(name);
      var r := Step(v, e);
      if MemberSchema(top.schema, name).Some?
      then r == v.(schemaStack := Feed(front, e) + [KeyTop(FeedContext(top, e), name).1],
                   documentStack := v.documentStack + [SLASH] + Escaped(name))
      else !r.valid
  {
    var e := KeyEv(name);
    hide MemberSchema, Hasher.Step, FindPropertyIndex, EndValue, Escaped;
    var fed := Feed(v.schemaStack, e);
    assert fed == Feed(front, e) + [FeedContext(top, e)];
    assert v.schemaStack[|v.schemaStack| - 1] == top;
    assert fed[|fed| - 1 := KeyTop(fed[|fed| - 1], name).1] == Feed(front, e) + [KeyTop(FeedContext(top, e), name).1];
  }

  /** The key of a member. */
  lemma KeyRun(v: Validator, s: Schema, unique: bool, j: Value, k: nat)
    requires v.valid && j.Object? && k < |j.ms|
    ensures var r := Step(AtMember(v, s, unique, j, k), KeyEv(j.ms[k].name));
      if MemberSchema(s, j.ms[k].name).Some? then r == InMember(v, s, unique, j, k) else !r.valid
  {
    var e := KeyEv(j.ms[k].name);
    var front, top := SeenAll(v.schemaStack, ObjectPrefix(j, k)), ObjectTop(s, unique, v.documentStack, j, k);
    StepKey(AtMember(v, s, unique, j, k), front, top, e.s);
    SeenAllOne(front, e);
    SeenAllAppend(v.schemaStack, ObjectPrefix(j, k), [e]);
    if MemberSchema(s, j.ms[k].name).Some? { KeyOnTop(s, unique, v.documentStack, j, k); }
    hide Step, SeenAll, Feed, FeedContext, ObjectPrefix, Run, Hasher.Run, KeyTop, MemberSchema, Exist, KeyedTop, Escaped, SubCount, Sub, Hashes;
  }

  /** The value of a member begins under the schema the key chose. */
  lemma MemberBegins(v: Validator, s: Schema, unique: bool, j: Value, k: nat)
    requires v.valid && j.Object? && k < |j.ms| && MemberSchema(s, j.ms[k].name).Some?
    ensures var w := InMember(v, s, unique, j, k);
      var es := Events(j.ms[k].value);
      Ready(w, false) && Run(w, es) == Run(Begin(w, MemberSchema(s, j.ms[k].name).value, false, es[0]), es[1..])
  {
    var w := InMember(v, s, unique, j, k);
    var es := Events(j.ms[k].value);
    var front := SeenAll(v.schemaStack, ObjectPrefix(j, k) + [KeyEv(j.ms[k].name)]);
    FirstBegins(j.ms[k].value);
    RunFirst(w, es);
    hide Events, Run, Step, Begin, SeenAll, ObjectPrefix, Hasher.Run, MemberSchema, Exist, Escaped, SubCount, Sub, Hashes;
    BeginInside(w, KeyedTop(s, unique, v.documentStack, j, k), front, es[0]);
  }

  /** A valid member's closing: only the path token changes. */
  lemma MemberCloses(v: Validator, s: Schema, unique: bool, j: Value, k: nat)
    requires v.valid && j.Object? && k < |j.ms| && MemberSchema(s, j.ms[k].name).Some?
    ensures Closed(InMember(v, s, unique, j, k), MemberSchema(s, j.ms[k].name).value, false, j.ms[k].value)
      == AtMember(v, s, unique, j, k + 1)
  {
    var es, e := Events(j.ms[k].value), KeyEv(j.ms[k].name);
    var pre := ObjectPrefix(j, k) + [e];
    assert pre + es == ObjectPrefix(j, k + 1);
    SeenAllConcat(SeenAll(v.schemaStack, pre), KeyedTop(s, unique, v.documentStack, j, k), es);
    SeenAllAppend(v.schemaStack, pre, es);
    SeenMember(s, unique, v.documentStack, j, k);
    KeyPath(v.documentStack, j.ms[k].name);
    hide Events, SeenAll, Seen, MemberSchema, ObjectPrefix, Live, PopToken, Escaped, Hashes, Exist, ObjectTop;
  }

  lemma SeenMember(s: Schema, unique: bool, doc: Bytes, j: Value, k: nat)
    requires j.Object? && k < |j.ms|
    ensures Seen(KeyedTop(s, unique, doc, j, k), Events(j.ms[k].value)) == ObjectTop(s, unique, doc, j, k + 1)
    ensures !KeyedTop(s, unique, doc, j, k).valueUniqueness && !ObjectTop(s, unique, doc, j, k + 1).valueUniqueness
  {
    var es := Events(j.ms[k].value);
    var pre := ObjectPrefix(j, k) + [KeyEv(j.ms[k].name)];
    assert pre + es == ObjectPrefix(j, k + 1);
    LiveAppend(s, unique, doc, pre, es);
    hide Events, Run, Hasher.Run, MemberSchema, ObjectPrefix, SubCount, Sub, Hashes, Exist;
  }

  lemma OneMoreMember(s: Schema, j: Value, k: nat)
    requires j.Object? && k < |j.ms|
    ensures MembersOk(s, j, k + 1) <==>
      MembersOk(s, j, k) && MemberSchema(s, j.ms[k].name).Some? && Valid(MemberSchema(s, j.ms[k].name).value, j.ms[k].value)
  {
    hide Valid, MemberSchema;
  }

  /** One member: its key, then its value. */
  lemma {:induction false} MemberRun(v: Validator, s: Schema, unique: bool, j: Value, k: nat)
    requires Ready(v, unique) && j.Object? && k < |j.ms| && MembersOk(s, j, k)
    ensures var r := Run(Step(AtMember(v, s, unique, j, k), KeyEv(j.ms[k].name)), Events(j.ms[k].value));
      if MembersOk(s, j, k + 1) then r == AtMember(v, s, unique, j, k + 1) else !r.valid
    decreases j, s, 0, k
  {
    OneMoreMember(s, j, k);
    KeyRun(v, s, unique, j, k);
    hide Events, Run, Step, Begin, AtMember, InMember, MembersOk, Valid, MemberSchema, Closed;
    if MemberSchema(s, j.ms[k].name).Some? {
      MemberBegins(v, s, unique, j, k);
      ValueRun(InMember(v, s, unique, j, k), MemberSchema(s, j.ms[k].name).value, false, j.ms[k].value);
      MemberCloses(v, s, unique, j, k);
    } else {
      RunInvalid(Step(AtMember(v, s, unique, j, k), KeyEv(j.ms[k].name)), Events(j.ms[k].value));
    }
  }

  /** The members in order. */
  lemma {:induction false} MembersRun(v: Validator, s: Schema, unique: bool, j: Value, k: nat)
    requires Ready(v, unique) && j.Object? && k <= |j.ms|
    ensures var r := Run(AtMember(v, s, unique, j, 0), MemberEvents(j, k));
      if MembersOk(s, j, k) then r == AtMember(v, s, unique, j, k) else !r.valid
    decreases j, s, 1, k
  {
    hide Run, AtMember, MembersOk, Events, Step;
    var start := AtMember(v, s, unique, j, 0);
    if k == 0 {
      NoMembersRun(v, s, unique, j);
    } else {
      MembersRun(v, s, unique, j, k - 1);
      var key, es := KeyEv(j.ms[k - 1].name), Events(j.ms[k - 1].value);
      var before := Run(start, MemberEvents(j, k - 1));
      RunAppend(start, MemberEvents(j, k - 1) + [key], es);
      RunAppend(start, MemberEvents(j, k - 1), [key]);
      RunOne(before, key);
      OneMoreMember(s, j, k - 1);
      if MembersOk(s, j, k - 1) {
        MemberRun(v, s, unique, j, k - 1);
      } else {
        RunInvalid(before, [key]);
        RunInvalid(before, es);
      }
    }
  }

  lemma NoMembersRun(v: Validator, s: Schema, unique: bool, j: Value)
    requires j.Object?
    ensures Run(AtMember(v, s, unique, j, 0), MemberEvents(j, 0)) == AtMember(v, s, unique, j, 0)
    ensures MembersOk(s, j, 0)
  {
    hide AtMember;
  }

  lemma RequiredIsExist(s: Schema, top: Context, j: Value)
    requires j.Object? && top.schema == s && top.propertyExist == Exist(s, j, |j.ms|)
    ensures EndObjectCheck(top, |j.ms|) <==> RequiredOk(s, j.ms) && s.minProperties <= |j.ms| <= s.maxProperties
  {
    hide FindPropertyIndex, Present;
  }

  lemma StepEndObject(v: Validator, front: seq<Context>, top: Context, n: nat)
    requires v.valid && v.schemaStack == front + [top]
    ensures var e := EndObjectEv(n);
      var r := Step(v, e);
      if EndObjectCheck(Seen(top, [e]), n)
      then r == EndValue(v.(schemaStack := Feed(front, e) + [Seen(top, [e])]))
      else !r.valid
  {
    var e := EndObjectEv(n);
    SeenOne(top, e);
    var fed := Feed(v.schemaStack, e);
    assert fed == Feed(front, e) + [FeedContext(top, e)];
    hide EndValue, Hasher.Step, Seen, EndObjectCheck;
  }

  lemma ClosingMember(s: Schema, unique: bool, doc: Bytes, j: Value)
    requires j.Object?
    ensures var closing := Seen(ObjectTop(s, unique, doc, j, |j.ms|), [EndObjectEv(|j.ms|)]);
      Complete(closing, s, unique, doc, j) && closing.propertyExist == Exist(s, j, |j.ms|)
  {
    var e := EndObjectEv(|j.ms|);
    assert Events(j) == ObjectPrefix(j, |j.ms|) + [e];
    LiveAppend(s, unique, doc, ObjectPrefix(j, |j.ms|), [e]);
    hide Events, Run, Hasher.Run, Exist, MemberSchema, ObjectPrefix, SubCount, Sub, Hashes;
  }

  /** The closing brace: required members and size bounds, then the end of the value. */
  lemma ObjectEnd(v: Validator, s: Schema, unique: bool, j: Value)
    requires v.valid && j.Object? && SubsDecide(s, v.documentStack, j)
    ensures var r := Step(AtMember(v, s, unique, j, |j.ms|), EndObjectEv(|j.ms|));
      if RequiredOk(s, j.ms) && s.minProperties <= |j.ms| <= s.maxProperties && InEnum(s, j) && CombinedOk(s, j)
      then r == Closed(v, s, unique, j) else !r.valid
  {
    var n, e := |j.ms|, EndObjectEv(|j.ms|);
    var at := AtMember(v, s, unique, j, n);
    var front, top := SeenAll(v.schemaStack, ObjectPrefix(j, n)), ObjectTop(s, unique, v.documentStack, j, n);
    assert Events(j) == ObjectPrefix(j, n) + [e];
    SeenAllOne(front, e);
    SeenAllAppend(v.schemaStack, ObjectPrefix(j, n), [e]);
    var closing := Seen(top, [e]);
    ClosingMember(s, unique, v.documentStack, j);
    RequiredIsExist(s, closing, j);
    StepEndObject(at, front, top, n);
    EndsValue(at.(schemaStack := Feed(front, e) + [closing]), Feed(front, e), closing, s, unique, v.documentStack, j);
    hide Events, SeenAll, Seen, Feed, Step, EndValue, Hasher.HashOf, InEnum, CombinedOk, SubsDecide, Hashes, Close,
         ObjectPrefix, Complete, EndObjectCheck, RequiredOk, Exist, ObjectTop;
  }

  /** An object. */
  lemma {:induction false} ObjectRun(v: Validator, s: Schema, unique: bool, j: Value)
    requires Ready(v, unique) && j.Object? && SubsDecide(s, v.documentStack, j)
    ensures Outcome(v, s, unique, j, Run(Begin(v, s, unique, Events(j)[0]), Events(j)[1..]))
    decreases j, s, 2
  {
    var n := |j.ms|;
    var start := Begin(v, s, unique, StartObjectEv);
    assert Events(j)[0] == StartObjectEv;
    assert Events(j)[1..] == MemberEvents(j, n) + [EndObjectEv(n)];
    if ObjectType !in s.types {
      RunInvalid(start, Events(j)[1..]);
    } else {
      ObjectStart(v, s, unique, j);
      MembersRun(v, s, unique, j, n);
      RunAppend(start, MemberEvents(j, n), [EndObjectEv(n)]);
      RunOne(Run(start, MemberEvents(j, n)), EndObjectEv(n));
      if MembersOk(s, j, n) {
        ObjectEnd(v, s, unique, j);
      } else {
        RunInvalid(Run(start, MemberEvents(j, n)), [EndObjectEv(n)]);
      }
      hide Run, AtMember, MembersOk, Events, Step, Begin, InEnum, CombinedOk, Closed, SubsDecide, RequiredOk;
    }
  }
}
