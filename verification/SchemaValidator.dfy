/** The validator object of schema.h: handler methods that update the context stack,
    the document path and the `valid_` flag in place. */
module SchemaValidator {
  import opened Common
  import opened Json
  import opened Schema
  import opened Machine
  import MachineProof
  import Validation
  import Hasher

  /** The top context as `CreateParallelValidator` leaves it: a new hasher and new
      sub-validators that have not yet seen the call. */
  function Created(s: Schema, unique: bool, doc: Bytes, e: Event): Context {
    Blank(s, unique).(
      hasher := if s.enums != [] || unique then Some([]) else None,
      validators := seq(SubCount(s), i requires 0 <= i < SubCount(s) => Fresh(Sub(s, i), doc)),
      propertyExist :=
        if e.StartObjectEv? && HasRequired(s.properties) then Some(seq(|s.properties|, _ => false)) else None,
      inArray := e.StartArrayEv?)
  }

  lemma CreatedFed(s: Schema, unique: bool, doc: Bytes, e: Event)
    requires BeginsValue(e) && StartCheck(s, e)
    ensures Opened(s, unique, doc, e) == Some(FeedContext(Created(s, unique, doc, e), e))
  {
    hide StartCheck, Hasher.Step, HasRequired, Entered;
    var c := FeedContext(Created(s, unique, doc, e), e);
    forall i | 0 <= i < SubCount(s)
      ensures Step(Fresh(Sub(s, i), doc), e) == StepFresh(Sub(s, i), doc, e) {}
    assert Opened(s, unique, doc, e).value.validators == c.validators;
  }

  /** `BeginValue`: whether the open container has chosen a schema, and the state with the
      context for it. */
  function Chosen(v: Validator): (r: (bool, Validator))
    ensures r.0 ==> r.1.schemaStack != []
  {
    var n := |v.schemaStack|;
    if n == 0 then (true, v.(schemaStack := [Blank(v.root, false)]))
    else
      var top := v.schemaStack[n - 1];
      var (ok, begun) := BeginTop(top);
      var w := v.(schemaStack := v.schemaStack[n - 1 := begun], documentStack := Validation.PathFor(v, top));
      if ok && begun.valueSchema.Some?
      then (true, w.(schemaStack := w.schemaStack + [Blank(begun.valueSchema.value, begun.valueUniqueness)]))
      else (false, w)
  }

  /** The rest of the call: check, create, feed every context, and end a scalar. */
  function Started(w: Validator, e: Event): Validator
    requires w.schemaStack != []
  {
    var n := |w.schemaStack|;
    var top := w.schemaStack[n - 1];
    if !StartCheck(top.schema, e) then w.(valid := false)
    else
      var c := Created(top.schema, top.arrayUniqueness, w.documentStack, e);
      var x := w.(schemaStack := Feed(w.schemaStack[n - 1 := c], e));
      if IsScalarEvent(e) then Machine.EndValue(x) else x
  }

  /** The call that begins a value in the order the object performs it. */
  function BeginInOrder(v: Validator, e: Event): Validator {
    var (ok, w) := Chosen(v);
    if ok then Started(w, e) else w.(valid := false)
  }

  lemma FeedConcat(cs: seq<Context>, c: Context, e: Event)
    ensures Feed(cs + [c], e) == Feed(cs, e) + [FeedContext(c, e)]
  {
    hide FeedContext;
  }

  /** Check, create and feed, however they are grouped. */
  lemma StartedBegins(v: Validator, s: Schema, unique: bool, e: Event)
    requires BeginsValue(e)
    ensures Started(v.(schemaStack := v.schemaStack + [Blank(s, unique)]), e) == Validation.Begin(v, s, unique, e)
  {
    hide Machine.EndValue, FeedContext, Opened, StartCheck, Created, Feed;
    var c := Created(s, unique, v.documentStack, e);
    var stack := v.schemaStack + [Blank(s, unique)];
    assert stack[|stack| - 1 := c] == v.schemaStack + [c];
    if StartCheck(s, e) {
      CreatedFed(s, unique, v.documentStack, e);
      FeedConcat(v.schemaStack, c, e);
    } else {
      NotOpened(s, unique, v.documentStack, e);
    }
  }

  lemma NotOpened(s: Schema, unique: bool, doc: Bytes, e: Event)
    requires !StartCheck(s, e)
    ensures Opened(s, unique, doc, e) == None
  {
    hide StartCheck;
  }

  lemma BeginOrder(v: Validator, e: Event)
    requires v.valid && BeginsValue(e)
    ensures Step(v, e) == BeginInOrder(v, e)
  {
    hide Step;
    if |v.schemaStack| == 0 {
      OrderFresh(v, e);
    } else if BeginTop(v.schemaStack[|v.schemaStack| - 1]).0 && BeginTop(v.schemaStack[|v.schemaStack| - 1]).1.valueSchema.Some? {
      OrderInside(v, e);
    } else {
      OrderRefused(v, e);
    }
  }

  lemma OrderFresh(v: Validator, e: Event)
    requires v.valid && BeginsValue(e) && v.schemaStack == []
    ensures Step(v, e) == BeginInOrder(v, e)
  {
    Validation.BeginFresh(v.root, v.documentStack, e);
    assert v == Fresh(v.root, v.documentStack);
    hide Step, Started, Validation.Begin;
    StartedBegins(v, v.root, false, e);
    assert [] + [Blank(v.root, false)] == [Blank(v.root, false)];
  }

  lemma OrderInside(v: Validator, e: Event)
    requires v.valid && BeginsValue(e) && v.schemaStack != []
    requires var top := v.schemaStack[|v.schemaStack| - 1]; BeginTop(top).0 && BeginTop(top).1.valueSchema.Some?
    ensures Step(v, e) == BeginInOrder(v, e)
  {
    hide Step, Started, Validation.Begin, Validation.PathFor, BeginTop;
    var n := |v.schemaStack|;
    var top, front := v.schemaStack[n - 1], v.schemaStack[..n - 1];
    var begun := BeginTop(top).1;
    var at := v.(schemaStack := front + [begun], documentStack := Validation.PathFor(v, top));
    assert v.schemaStack[n - 1 := begun] == front + [begun];
    Validation.BeginInside(v, top, front, e);
    StartedBegins(at, begun.valueSchema.value, begun.valueUniqueness, e);
  }

  lemma OrderRefused(v: Validator, e: Event)
    requires v.valid && BeginsValue(e) && v.schemaStack != []
    requires var top := v.schemaStack[|v.schemaStack| - 1]; !(BeginTop(top).0 && BeginTop(top).1.valueSchema.Some?)
    ensures Step(v, e) == BeginInOrder(v, e)
  {
    hide Started, BeginTop, DecText, Feed, Opened;
  }

  lemma KeyCommutes(stack: seq<Context>, name: Bytes)
    requires stack != []
    ensures var n, e := |stack|, KeyEv(name);
      Feed(stack[n - 1 := KeyTop(stack[n - 1], name).1], e)
        == Feed(stack, e)[n - 1 := KeyTop(Feed(stack, e)[n - 1], name).1]
  {
    var n, e := |stack|, KeyEv(name);
    KeyFeed(stack[n - 1], name);
    hide FeedContext, KeyTop;
    assert Feed(stack, e)[n - 1] == FeedContext(stack[n - 1], e);
  }

  lemma KeyFeed(top: Context, name: Bytes)
    ensures FeedContext(KeyTop(top, name).1, KeyEv(name)) == KeyTop(FeedContext(top, KeyEv(name)), name).1
  {
    hide MemberSchema, FindPropertyIndex, Step, Hasher.Step;
  }

  lemma EndArrayIs(v: Validator, elementCount: nat)
    requires v.valid && v.schemaStack != []
    ensures var n, e := |v.schemaStack|, EndArrayEv(elementCount);
      var fed := Feed(v.schemaStack, e);
      var now := fed[n - 1].(inArray := false);
      var w := v.(schemaStack := fed[n - 1 := now]);
      Step(v, e) == (if !EndArrayCheck(now, elementCount) then w.(valid := false) else Machine.EndValue(w))
  {
    hide Machine.EndValue, Feed;
  }

  class GenericSchemaValidator {
    const root: Schema
    var schemaStack: seq<Context>
    var documentStack: Bytes
    var valid: bool

    constructor (root: Schema)
      ensures this.root == root && State() == Fresh(root, [])
    {
      this.root := root;
      schemaStack, documentStack, valid := [], [], true;
    }

    ghost function State(): Validator
      reads this
    {
      Validator(root, schemaStack, documentStack, valid)
    }

    /** `BeginValue`: the open container chooses a schema and a context is pushed. */
    method BeginValue() returns (ok: bool)
      modifies this
      ensures (ok, State()) == Chosen(old(State()))
    {
      hide ItemSchema, DecText;
      var n := |schemaStack|;
      if n == 0 {
        schemaStack := [Blank(root, false)];
        return true;
      }
      var top := schemaStack[n - 1];
      if top.inArray {
        documentStack := documentStack + [SLASH] + DecText(top.arrayElementIndex);
      }
      var chosen := BeginTop(top);
      schemaStack := schemaStack[n - 1 := chosen.1];
      ok := chosen.0 && chosen.1.valueSchema.Some?;
      if ok {
        schemaStack := schemaStack + [Blank(chosen.1.valueSchema.value, chosen.1.valueUniqueness)];
      }
    }

    /** `Schema::Null` to `Schema::StartArray` on the pushed context. */
    method StartSchema(e: Event) returns (ok: bool)
      requires schemaStack != []
      modifies this
      ensures valid == old(valid) && documentStack == old(documentStack)
      ensures var n := |old(schemaStack)|;
        var top := old(schemaStack)[n - 1];
        && ok == StartCheck(top.schema, e)
        && schemaStack == if ok then old(schemaStack)[n - 1 := Created(top.schema, top.arrayUniqueness, documentStack, e)]
                          else old(schemaStack)
    {
      hide StartCheck, SubCount, Sub, HasRequired;
      var n := |schemaStack|;
      var top := schemaStack[n - 1];
      ok := StartCheck(top.schema, e);
      if ok {
        schemaStack := schemaStack[n - 1 := Created(top.schema, top.arrayUniqueness, documentStack, e)];
      }
    }

    /** Every open context's hasher and sub-validators see the call. */
    method Parallel(e: Event)
      modifies this
      ensures valid == old(valid) && documentStack == old(documentStack)
      ensures schemaStack == Feed(old(schemaStack), e)
    {
      hide Step, Hasher.Step;
      for i := 0 to |schemaStack|
        invariant valid == old(valid) && documentStack == old(documentStack)
        invariant |schemaStack| == |old(schemaStack)|
        invariant forall k | 0 <= k < i :: schemaStack[k] == FeedContext(old(schemaStack)[k], e)
        invariant forall k | i <= k < |schemaStack| :: schemaStack[k] == old(schemaStack)[k]
      {
        var c := schemaStack[i];
        if c.hasher.Some? {
          c := c.(hasher := Some(Hasher.Step(c.hasher.value, e)));
        }
        var subs := c.validators;
        for k := 0 to |subs|
          invariant |subs| == |c.validators|
          invariant forall m | 0 <= m < k :: subs[m] == Step(c.validators[m], e)
          invariant forall m | k <= m < |subs| :: subs[m] == c.validators[m]
        {
          subs := subs[k := Step(subs[k], e)];
        }
        assert subs == FeedContext(schemaStack[i], e).validators;
        schemaStack := schemaStack[i := c.(validators := subs)];
      }
    }

    /** `EndValue`: the end checks of the top schema, the pop, uniqueness in the parent
        array and the path. */
    method EndValue() returns (ok: bool)
      requires schemaStack != [] && valid
      modifies this
      ensures State() == Machine.EndValue(old(State()))
      ensures ok == valid
    {
      hide EndValueCheck;
      var n := |schemaStack|;
      var top := schemaStack[n - 1];
      if !EndValueCheck(top) {
        valid := false;
        return false;
      }
      var hashed := top.hasher.Some?;
      var h := if hashed && top.arrayUniqueness && top.hasher.value != []
               then top.hasher.value[|top.hasher.value| - 1] else 0;
      schemaStack := schemaStack[..n - 1];
      if n > 1 && hashed && schemaStack[n - 2].valueUniqueness {
        var parent := schemaStack[n - 2];
        for i := 0 to |parent.arrayElementHashCodes|
          invariant schemaStack == old(schemaStack)[..n - 1] && documentStack == old(documentStack) && valid
          invariant h !in parent.arrayElementHashCodes[..i]
        {
          if parent.arrayElementHashCodes[i] == h {
            valid := false;
            return false;
          }
        }
        assert parent.arrayElementHashCodes[..|parent.arrayElementHashCodes|] == parent.arrayElementHashCodes;
        schemaStack := schemaStack[..n - 2] + [parent.(arrayElementHashCodes := parent.arrayElementHashCodes + [h])];
      }
      ghost var doc, stack := documentStack, schemaStack;
      var popped: Byte := 0;
      while documentStack != [] && popped != SLASH
        invariant schemaStack == stack && valid
        invariant PopToken(doc) == if popped == SLASH then documentStack else PopToken(documentStack)
      {
        popped := documentStack[|documentStack| - 1];
        documentStack := documentStack[..|documentStack| - 1];
      }
      ok := true;
    }

    /** The calls that begin a value. */
    method Begin(e: Event) returns (ok: bool)
      requires BeginsValue(e)
      modifies this
      ensures State() == Step(old(State()), e)
      ensures ok == valid
    {
      if !valid { return false; }
      BeginOrder(State(), e);
      hide Step, StartCheck, Machine.EndValue, Feed, Created, Chosen;
      ok := BeginValue();
      if !ok {
        valid := false;
        return;
      }
      ok := StartSchema(e);
      if !ok {
        valid := false;
        return;
      }
      ok := AfterStart(e);
    }

    /** The rest of a call that begins a value: the parallel feed, and the end of a scalar. */
    method AfterStart(e: Event) returns (ok: bool)
      requires valid && schemaStack != []
      modifies this
      ensures var w := old(State()).(schemaStack := Feed(old(schemaStack), e));
        State() == (if IsScalarEvent(e) then Machine.EndValue(w) else w) && ok == valid
    {
      hide Feed, Machine.EndValue;
      Parallel(e);
      ok := true;
      if IsScalarEvent(e) {
        ok := EndValue();
      }
    }

    method Key(name: Bytes) returns (ok: bool)
      requires schemaStack != []
      modifies this
      ensures State() == Step(old(State()), KeyEv(name))
      ensures ok == valid
    {
      if !valid { return false; }
      hide MemberSchema, FindPropertyIndex, Feed, FeedContext, Hasher.Step, Escaped;
      var n := |schemaStack|;
      documentStack := documentStack + [SLASH] + Escaped(name);
      var chosen := KeyTop(schemaStack[n - 1], name);
      ghost var stack := schemaStack;
      schemaStack := schemaStack[n - 1 := chosen.1];
      if !chosen.0 {
        valid := false;
        return false;
      }
      KeyCommutes(stack, name);
      Parallel(KeyEv(name));
      ok := true;
    }

    method EndObject(memberCount: nat) returns (ok: bool)
      requires schemaStack != []
      modifies this
      ensures State() == Step(old(State()), EndObjectEv(memberCount))
      ensures ok == valid
    {
      if !valid { return false; }
      hide EndObjectCheck, Machine.EndValue, Feed;
      Parallel(EndObjectEv(memberCount));
      if !EndObjectCheck(schemaStack[|schemaStack| - 1], memberCount) {
        valid := false;
        return false;
      }
      ok := EndValue();
    }

    method EndArray(elementCount: nat) returns (ok: bool)
      requires schemaStack != []
      modifies this
      ensures State() == Step(old(State()), EndArrayEv(elementCount))
      ensures ok == valid
    {
      if !valid { return false; }
      EndArrayIs(State(), elementCount);
      hide Machine.EndValue, Feed, Step, EndArrayCheck;
      Parallel(EndArrayEv(elementCount));
      var n := |schemaStack|;
      schemaStack := schemaStack[n - 1 := schemaStack[n - 1].(inArray := false)];
      if !EndArrayCheck(schemaStack[n - 1], elementCount) {
        valid := false;
        return false;
      }
      ok := EndValue();
    }

    /** `Reset`: back to a new validator, whatever happened before. */
    method Reset()
      modifies this
      ensures State() == Fresh(root, [])
    {
      while schemaStack != [] {
        schemaStack := schemaStack[..|schemaStack| - 1];
      }
      documentStack := [];
      valid := true;
    }
  }
}
