/** The DOM traversal of `JsonValidator::Validate`: `Accept` driving the schema validator. */
module JsonValidator {
  import opened Common
  import opened Json
  import opened Schema
  import opened Machine
  import opened SchemaValidator
  import opened DocumentPath
  import MachineProof
  import Validation

  lemma RunStops(v: Validator, a: seq<Event>, b: seq<Event>)
    requires !Run(v, a).valid
    ensures Run(v, a + b) == Run(v, a)
  {
    MachineProof.RunAppend(v, a, b);
    MachineProof.RunInvalid(Run(v, a), b);
  }

  /** A handler that is open for a value: still valid, mirroring the containers `w`. */
  ghost predicate Accepting(v: Validator, w: seq<Frame>) {
    v.valid && Mirrors(v, w, []) && Nested(w)
  }

  /** One more call of a run that has stayed valid. */
  lemma Extend(v0: Validator, pre: seq<Event>, w: seq<Frame>, e: Event)
    requires Run(v0, pre).valid && Mirrors(Run(v0, pre), w, []) && Nested(w) && Fits(w, e)
    ensures Step(Run(v0, pre), e) == Run(v0, pre + [e])
    ensures Step(Run(v0, pre), e).valid ==> Mirrors(Step(Run(v0, pre), e), Track(w, e), []) && Nested(Track(w, e))
  {
    hide Step, Mirrors, Track, Fits;
    MachineProof.RunAppend(v0, pre, [e]);
    MachineProof.RunOne(Run(v0, pre), e);
    if Step(Run(v0, pre), e).valid { StepMirrors(Run(v0, pre), w, e, []); }
  }

  /** `GenericValue::Accept`: send the calls of a value to the validator, stopping at
      the first refusal. The validator ends as if it had received every call. */
  method Accept(j: Value, handler: GenericSchemaValidator, ghost w: seq<Frame>) returns (ok: bool)
    requires Accepting(handler.State(), w) && Open(w)
    modifies handler
    ensures handler.State() == Run(old(handler.State()), Events(j))
    ensures ok == handler.valid
    ensures ok ==> Accepting(handler.State(), After(w))
    decreases j
  {
    if j.Array? {
      ok := AcceptArray(j, handler, w);
    } else if j.Object? {
      ok := AcceptObject(j, handler, w);
    } else {
      ghost var v0 := handler.State();
      var e := Events(j)[0];
      assert Events(j) == [] + [e];
      assert Run(v0, []) == v0;
      Extend(v0, [], w, e);
      ok := handler.Begin(e);
      hide Step, Mirrors, Entering;
    }
  }

  method AcceptArray(j: Value, handler: GenericSchemaValidator, ghost w: seq<Frame>) returns (ok: bool)
    requires j.Array? && Accepting(handler.State(), w) && Open(w)
    modifies handler
    ensures handler.State() == Run(old(handler.State()), Events(j))
    ensures ok == handler.valid
    ensures ok ==> Accepting(handler.State(), After(w))
    decreases j, 0
  {
    hide Step, Run, Mirrors, Entering, Nested, TrackAll, Conforms;
    ghost var v0 := handler.State();
    ghost var n := |j.es|;
    assert Events(j) == ([StartArrayEv] + ElementEvents(j, n)) + [EndArrayEv(n)];
    ArrayBegins(v0, w, j);
    ok := handler.Begin(StartArrayEv);
    if !ok {
      ghost var rest := ElementEvents(j, n) + [EndArrayEv(n)];
      assert Events(j) == [StartArrayEv] + rest;
      RunStops(v0, [StartArrayEv], rest);
      return;
    }
    for i := 0 to |j.es|
      invariant handler.State() == Run(v0, [StartArrayEv] + ElementEvents(j, i))
      invariant Accepting(handler.State(), Entering(w) + [Frame(true, i, None)])
    {
      ghost var pre := [StartArrayEv] + ElementEvents(j, i);
      assert [StartArrayEv] + ElementEvents(j, i + 1) == pre + Events(j.es[i]);
      ok := Accept(j.es[i], handler, Entering(w) + [Frame(true, i, None)]);
      MachineProof.RunAppend(v0, pre, Events(j.es[i]));
      AfterElement(Entering(w), i);
      if !ok {
        ElementsLeft(j, i + 1, n);
        ghost var done := [StartArrayEv] + ElementEvents(j, i + 1);
        assert Events(j) == done + Events(j)[|done|..];
        RunStops(v0, done, Events(j)[|done|..]);
        return;
      }
    }
    ArrayCloses(v0, w, j);
    ok := handler.EndArray(|j.es|);
  }

  lemma ArrayBegins(v0: Validator, w: seq<Frame>, j: Value)
    requires j.Array? && Accepting(v0, w) && Open(w)
    ensures Step(v0, StartArrayEv) == Run(v0, [StartArrayEv]) == Run(v0, [StartArrayEv] + ElementEvents(j, 0))
    ensures Step(v0, StartArrayEv).valid ==> Accepting(Step(v0, StartArrayEv), Entering(w) + [Frame(true, 0, None)])
  {
    assert Run(v0, []) == v0;
    hide Step, Mirrors, Entering;
    Extend(v0, [], w, StartArrayEv);
    assert [] + [StartArrayEv] == [StartArrayEv];
    assert [StartArrayEv] + ElementEvents(j, 0) == [StartArrayEv];
  }

  lemma {:induction false} ElementsLeft(j: Value, k: nat, n: nat)
    requires j.Array? && k <= n <= |j.es|
    ensures [StartArrayEv] + ElementEvents(j, k) <= [StartArrayEv] + ElementEvents(j, n) + [EndArrayEv(|j.es|)]
    decreases n - k
  {
    hide Events;
    if k < n { ElementsLeft(j, k + 1, n); }
  }

  lemma ArrayCloses(v0: Validator, w: seq<Frame>, j: Value)
    requires j.Array? && Open(w)
    requires var v := Run(v0, [StartArrayEv] + ElementEvents(j, |j.es|)); Accepting(v, Entering(w) + [Frame(true, |j.es|, None)])
    ensures var v := Run(v0, [StartArrayEv] + ElementEvents(j, |j.es|));
      && v.schemaStack != []
      && Step(v, EndArrayEv(|j.es|)) == Run(v0, Events(j))
      && (Step(v, EndArrayEv(|j.es|)).valid ==> Accepting(Step(v, EndArrayEv(|j.es|)), After(w)))
  {
    var inner := Entering(w) + [Frame(true, |j.es|, None)];
    var pre := [StartArrayEv] + ElementEvents(j, |j.es|);
    assert Events(j) == pre + [EndArrayEv(|j.es|)];
    assert inner[..|inner| - 1] == Entering(w);
    Extend(v0, pre, inner, EndArrayEv(|j.es|));
    hide Step, Run, Events, Entering, Path, Nested;
  }

  method AcceptObject(j: Value, handler: GenericSchemaValidator, ghost w: seq<Frame>) returns (ok: bool)
    requires j.Object? && Accepting(handler.State(), w) && Open(w)
    modifies handler
    ensures handler.State() == Run(old(handler.State()), Events(j))
    ensures ok == handler.valid
    ensures ok ==> Accepting(handler.State(), After(w))
    decreases j, 0
  {
    hide Step, Run, Mirrors, Entering, Nested, TrackAll, Conforms;
    ghost var v0 := handler.State();
    ghost var n := |j.ms|;
    ObjectBegins(v0, w, j);
    ok := handler.Begin(StartObjectEv);
    if !ok {
      ghost var rest := MemberEvents(j, n) + [EndObjectEv(n)];
      assert Events(j) == [StartObjectEv] + rest;
      RunStops(v0, [StartObjectEv], rest);
      return;
    }
    for i := 0 to |j.ms|
      invariant handler.State() == Run(v0, [StartObjectEv] + MemberEvents(j, i))
      invariant handler.valid && Mirrors(handler.State(), Entering(w) + [Frame(false, 0, None)], [])
      invariant Nested(Entering(w) + [Frame(false, 0, None)])
    {
      ghost var pre := [StartObjectEv] + MemberEvents(j, i);
      ghost var key := KeyEv(j.ms[i].name);
      ghost var named := Entering(w) + [Frame(false, 0, Some(j.ms[i].name))];
      KeyFits(v0, w, j, i);
      ok := handler.Key(j.ms[i].name);
      if !ok {
        MembersLeft(j, i, n);
        assert Events(j) == (pre + [key]) + Events(j)[|pre| + 1..];
        RunStops(v0, pre + [key], Events(j)[|pre| + 1..]);
        return;
      }
      ok := Accept(j.ms[i].value, handler, named);
      MachineProof.RunAppend(v0, pre + [key], Events(j.ms[i].value));
      assert [StartObjectEv] + MemberEvents(j, i + 1) == (pre + [key]) + Events(j.ms[i].value);
      AfterNamed(Entering(w), j.ms[i].name);
      if !ok {
        MembersPrefix(j, i + 1, n);
        ghost var done := [StartObjectEv] + MemberEvents(j, i + 1);
        assert Events(j) == done + Events(j)[|done|..];
        RunStops(v0, done, Events(j)[|done|..]);
        return;
      }
    }
    ObjectCloses(v0, w, j);
    ok := handler.EndObject(|j.ms|);
  }

  lemma ObjectBegins(v0: Validator, w: seq<Frame>, j: Value)
    requires j.Object? && Accepting(v0, w) && Open(w)
    ensures Step(v0, StartObjectEv) == Run(v0, [StartObjectEv]) == Run(v0, [StartObjectEv] + MemberEvents(j, 0))
    ensures var inner := Entering(w) + [Frame(false, 0, None)];
      Step(v0, StartObjectEv).valid ==> Mirrors(Step(v0, StartObjectEv), inner, []) && Nested(inner)
  {
    assert Run(v0, []) == v0;
    hide Step, Mirrors, Entering;
    Extend(v0, [], w, StartObjectEv);
    assert [] + [StartObjectEv] == [StartObjectEv];
    assert [StartObjectEv] + MemberEvents(j, 0) == [StartObjectEv];
  }

  lemma AfterNamed(w: seq<Frame>, name: Bytes)
    ensures After(w + [Frame(false, 0, Some(name))]) == w + [Frame(false, 0, None)]
  {
  }

  lemma KeyFits(v0: Validator, w: seq<Frame>, j: Value, i: nat)
    requires j.Object? && i < |j.ms|
    requires var v := Run(v0, [StartObjectEv] + MemberEvents(j, i));
      var inner := Entering(w) + [Frame(false, 0, None)];
      v.valid && Mirrors(v, inner, []) && Nested(inner)
    ensures var v := Run(v0, [StartObjectEv] + MemberEvents(j, i));
      var e := KeyEv(j.ms[i].name);
      && v.schemaStack != []
      && Step(v, e) == Run(v0, [StartObjectEv] + MemberEvents(j, i) + [e])
      && (Step(v, e).valid ==> Accepting(Step(v, e), Entering(w) + [Frame(false, 0, Some(j.ms[i].name))]))
  {
    var inner := Entering(w) + [Frame(false, 0, None)];
    var e := KeyEv(j.ms[i].name);
    Extend(v0, [StartObjectEv] + MemberEvents(j, i), inner, e);
    assert Track(inner, e) == Entering(w) + [Frame(false, 0, Some(j.ms[i].name))];
    hide Step, Run, Events, Entering, Path, Nested;
  }

  lemma {:induction false} MembersPrefix(j: Value, k: nat, n: nat)
    requires j.Object? && k <= n <= |j.ms|
    ensures [StartObjectEv] + MemberEvents(j, k) <= [StartObjectEv] + MemberEvents(j, n) + [EndObjectEv(|j.ms|)]
    decreases n - k
  {
    hide Events;
    if k < n { MembersPrefix(j, k + 1, n); }
  }

  lemma ObjectEventsAre(j: Value)
    requires j.Object?
    ensures Events(j) == [StartObjectEv] + MemberEvents(j, |j.ms|) + [EndObjectEv(|j.ms|)]
  {
    hide MemberEvents;
  }

  lemma NextMemberEvents(j: Value, k: nat)
    requires j.Object? && k < |j.ms|
    ensures MemberEvents(j, k) + [KeyEv(j.ms[k].name)] <= MemberEvents(j, k + 1)
  {
    hide Events;
  }

  lemma MembersLeft(j: Value, k: nat, n: nat)
    requires j.Object? && k < n == |j.ms|
    ensures [StartObjectEv] + MemberEvents(j, k) + [KeyEv(j.ms[k].name)] <= Events(j)
  {
    hide *;
    ObjectEventsAre(j);
    NextMemberEvents(j, k);
    MembersPrefix(j, k + 1, n);
  }

  lemma ObjectCloses(v0: Validator, w: seq<Frame>, j: Value)
    requires j.Object? && Open(w)
    requires var v := Run(v0, [StartObjectEv] + MemberEvents(j, |j.ms|));
      var inner := Entering(w) + [Frame(false, 0, None)];
      v.valid && Mirrors(v, inner, []) && Nested(inner)
    ensures var v := Run(v0, [StartObjectEv] + MemberEvents(j, |j.ms|));
      && v.schemaStack != []
      && Step(v, EndObjectEv(|j.ms|)) == Run(v0, Events(j))
      && (Step(v, EndObjectEv(|j.ms|)).valid ==> Accepting(Step(v, EndObjectEv(|j.ms|)), After(w)))
  {
    var inner := Entering(w) + [Frame(false, 0, None)];
    var pre := [StartObjectEv] + MemberEvents(j, |j.ms|);
    assert Events(j) == pre + [EndObjectEv(|j.ms|)];
    assert inner[..|inner| - 1] == Entering(w);
    Extend(v0, pre, inner, EndObjectEv(|j.ms|));
    hide Step, Run, Events, Entering, Path, Nested;
  }
}
