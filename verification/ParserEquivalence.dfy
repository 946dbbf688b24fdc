/** The recursive-descent parser and the pushdown machine send the same events and
    end in the same way on every text. */
module ParserEquivalence {
  import opened Common
  import opened Json
  import opened Tokens
  import opened Grammar

  /** States in which the machine expects a value. */
  predicate ExpectsValue(state: State) {
    state == Start || state == ArrayInitial || state == ElementDelimiter || state == KeyValueDelimiter
  }

  /** The state after a value. */
  function AfterValue(state: State): State {
    if ReturnState(state) == Start then Finish else ReturnState(state)
  }

  /** The machine past a value that ended at `pos`. */
  function Past(s: Bytes, m: Machine, state: State, r: Outcome): Machine
    requires r.Done?
  {
    Machine(state, m.stack, SkipSpace(s, r.pos), m.events + r.events)
  }

  /** A byte that cannot begin a value but has a token of its own. */
  predicate IsPunctuation(c: Byte) {
    c == CLOSE_BRACKET || c == CLOSE_BRACE || c == COMMA || c == COLON
  }

  /** The machine ends as the recursive parser does on the rest, except for the code at
      the very start of the text. */
  predicate Follows(s: Bytes, m: Machine, done: Machine, r: Outcome, convert: Converter)
    requires m.pos <= |s| && done.pos <= |s|
  {
    var i := Iterate(s, m, convert);
    match r
    case Done(events, _) => i == Iterate(s, done, convert)
    case Failed(events, code, offset) =>
      if m.state == Start && (IsPunctuation(Peek(s, m.pos)) || Peek(s, m.pos) == 0)
      then i == Failed(m.events + events, DocumentEmpty, offset) && code == ValueInvalid
      else i == Failed(m.events + events, code, offset)
  }

  lemma StepGo(s: Bytes, m: Machine, convert: Converter)
    requires m.pos <= |s| && Peek(s, m.pos) != 0 && Next(s, m, convert).Go?
    ensures var next := Next(s, m, convert).m;
      m.pos < next.pos <= |s| && Iterate(s, m, convert) == Iterate(s, next.(pos := SkipSpace(s, next.pos)), convert)
  {
    hide Next;
    NextAdvances(s, m, convert);
  }

  lemma StepStop(s: Bytes, m: Machine, convert: Converter)
    requires m.pos <= |s|
    requires Peek(s, m.pos) != 0 ==> !Next(s, m, convert).Go?
    requires Peek(s, m.pos) == 0 ==> m.state != Finish
    ensures Iterate(s, m, convert) ==
      if Peek(s, m.pos) != 0 && Next(s, m, convert).Stop?
      then Failed(Next(s, m, convert).events, Next(s, m, convert).code, Next(s, m, convert).offset)
      else Failed(m.events, ErrorOf(m.state), m.pos)
  {
    hide Next;
  }

  lemma NoNumber(s: Bytes, p: nat, convert: Converter)
    requires p <= |s| && (IsPunctuation(Peek(s, p)) || Peek(s, p) == 0)
    ensures ValueAt(s, p, convert) == Failed([], ValueInvalid, p)
  {
  }

  /** A name, string or number, or nothing that can begin a value. */
  lemma ScalarFollows(s: Bytes, m: Machine, convert: Converter)
    requires m.pos <= |s| && ExpectsValue(m.state) && (m.state == ArrayInitial ==> Peek(s, m.pos) != CLOSE_BRACKET)
    requires Peek(s, m.pos) != OPEN_BRACE && Peek(s, m.pos) != OPEN_BRACKET
    ensures var r := ValueAt(s, m.pos, convert);
      Follows(s, m, if r.Done? then Past(s, m, AfterValue(m.state), r) else m, r, convert)
  {
    var c := Peek(s, m.pos);
    if c == 0 || IsPunctuation(c) {
      NoNumber(s, m.pos, convert);
      hide ValueAt, Iterate;
      assert m.events + [] == m.events;
      StepStop(s, m, convert);
    } else {
      hide ScalarAt, Iterate;
      var r := ScalarAt(s, m.pos, convert);
      assert ValueAt(s, m.pos, convert) == r;
      assert Next(s, m, convert) == TakeScalar(m, r, AfterValue(m.state));
      hide ValueAt, Next;
      if r.Done? { StepGo(s, m, convert); } else { StepStop(s, m, convert); }
    }
  }

  /** Every value. */
  lemma {:induction false} ValueFollows(s: Bytes, m: Machine, convert: Converter)
    requires m.pos <= |s| && ExpectsValue(m.state) && (m.state == ArrayInitial ==> Peek(s, m.pos) != CLOSE_BRACKET)
    ensures var r := ValueAt(s, m.pos, convert);
      Follows(s, m, if r.Done? then Past(s, m, AfterValue(m.state), r) else m, r, convert)
    decreases |s| - m.pos, 2
  {
    hide Iterate, ValueAt, SkipSpace, Follows, Concludes;
    if Peek(s, m.pos) == OPEN_BRACE {
      ObjectFollows(s, m, convert);
      ConcludesFollows(s, m, ValueAt(s, m.pos, convert), convert);
    } else if Peek(s, m.pos) == OPEN_BRACKET {
      ArrayFollows(s, m, convert);
      ConcludesFollows(s, m, ValueAt(s, m.pos, convert), convert);
    } else {
      ScalarFollows(s, m, convert);
    }
  }

  lemma {:induction false} ObjectFollows(s: Bytes, m: Machine, convert: Converter)
    requires m.pos < |s| && ExpectsValue(m.state) && Peek(s, m.pos) == OPEN_BRACE
    ensures Concludes(s, m, m.stack, ReturnState(m.state), ValueAt(s, m.pos, convert), convert)
    decreases |s| - m.pos, 1
  {
    hide ValueAt, Iterate, MembersFrom, SkipSpace, Peek, ScalarAt, StringAt, Next;
    UnfoldObject(s, m.pos, convert);
    Enters(s, m, true, convert);
    var ret := ReturnState(m.state);
    var inside := Inside(s, m, true);
    if Peek(s, inside.pos) == CLOSE_BRACE {
      ClosesAtOnce(s, inside, m.stack, ret, true, convert);
      EmptyConcludes(s, m, inside, ret, StartObjectEv, EndObjectEv(0), convert);
    } else {
      MembersFollow(s, inside, m.stack, ret, 0, convert);
      ConcludesAfter(s, m, inside, [StartObjectEv], m.stack, ret, MembersFrom(s, inside.pos, 0, convert), convert);
    }
  }

  /** What the recursive parser does with an object. */
  lemma UnfoldObject(s: Bytes, p: nat, convert: Converter)
    requires p < |s| && Peek(s, p) == OPEN_BRACE
    ensures var i := SkipSpace(s, p + 1);
      ValueAt(s, p, convert) ==
      if Peek(s, i) == CLOSE_BRACE then Done([StartObjectEv, EndObjectEv(0)], i + 1)
      else Prefixed([StartObjectEv], MembersFrom(s, i, 0, convert))
  {
    assert ValueAt(s, p, convert) == ObjectAt(s, p, convert);
    hide ValueAt, MembersFrom, SkipSpace;
  }

  /** What the recursive parser does with an array. */
  lemma UnfoldArray(s: Bytes, p: nat, convert: Converter)
    requires p < |s| && Peek(s, p) == OPEN_BRACKET
    ensures var i := SkipSpace(s, p + 1);
      ValueAt(s, p, convert) ==
      if Peek(s, i) == CLOSE_BRACKET then Done([StartArrayEv, EndArrayEv(0)], i + 1)
      else Prefixed([StartArrayEv], ElementsFrom(s, i, 0, convert))
  {
    assert ValueAt(s, p, convert) == ArrayAt(s, p, convert);
    hide ValueAt, ElementsFrom, SkipSpace;
  }

  /** The machine just inside a container that begins at its position. */
  function Inside(s: Bytes, m: Machine, isObject: bool): Machine {
    Machine(if isObject then ObjectInitial else ArrayInitial, m.stack + [Frame(ReturnState(m.state), 0)],
            SkipSpace(s, m.pos + 1), m.events + [if isObject then StartObjectEv else StartArrayEv])
  }

  lemma PredictOpening(state: State)
    requires ExpectsValue(state)
    ensures Predict(state, LeftBracket) == ArrayInitial && Predict(state, LeftCurlyBracket) == ObjectInitial
  {
  }

  /** The machine enters a container. */
  lemma Enters(s: Bytes, m: Machine, isObject: bool, convert: Converter)
    requires m.pos < |s| && ExpectsValue(m.state) && Peek(s, m.pos) == if isObject then OPEN_BRACE else OPEN_BRACKET
    ensures Iterate(s, m, convert) == Iterate(s, Inside(s, m, isObject), convert)
  {
    PredictOpening(m.state);
    hide Iterate, Predict, ScalarAt, StringAt, SkipSpace;
    StepGo(s, m, convert);
  }

  /** A container treated alike is a value treated alike. */
  lemma ConcludesFollows(s: Bytes, m: Machine, r: Outcome, convert: Converter)
    requires m.pos < |s| && (Peek(s, m.pos) == OPEN_BRACE || Peek(s, m.pos) == OPEN_BRACKET) && (r.Done? ==> r.pos <= |s|)
    requires Concludes(s, m, m.stack, ReturnState(m.state), r, convert)
    ensures Follows(s, m, if r.Done? then Past(s, m, AfterValue(m.state), r) else m, r, convert)
  {
    hide Iterate, SkipSpace;
  }

  lemma ClosesAtOnce(s: Bytes, m: Machine, stack: seq<Frame>, ret: State, isObject: bool, convert: Converter)
    requires m.pos <= |s| && m.stack == stack + [Frame(ret, 0)]
    requires if isObject then m.state == ObjectInitial && Peek(s, m.pos) == CLOSE_BRACE
             else m.state == ArrayInitial && Peek(s, m.pos) == CLOSE_BRACKET
    ensures m.pos < |s| &&
      Concludes(s, m, stack, ret, Done([if isObject then EndObjectEv(0) else EndArrayEv(0)], m.pos + 1), convert)
  {
    hide Iterate, ScalarAt, StringAt, SkipSpace;
    StepGo(s, m, convert);
  }

  /** An empty container: its two events. */
  lemma EmptyConcludes(s: Bytes, m: Machine, inside: Machine, ret: State, start: Event, end: Event, convert: Converter)
    requires m.pos <= |s| && inside.pos < |s| && inside.events == m.events + [start]
    requires Iterate(s, m, convert) == Iterate(s, inside, convert)
    requires Concludes(s, inside, m.stack, ret, Done([end], inside.pos + 1), convert)
    ensures Concludes(s, m, m.stack, ret, Done([start, end], inside.pos + 1), convert)
  {
    hide Iterate, Concludes;
    ConcludesAfter(s, m, inside, [start], m.stack, ret, Done([end], inside.pos + 1), convert);
    assert [start] + [end] == [start, end];
  }

  // ----- one transition at a time -----

  /** The machine that goes on after a container that was opened from a state returning
      to `ret` has ended at `pos`. */
  function Closed(s: Bytes, m: Machine, stack: seq<Frame>, ret: State, pos: nat, sent: seq<Event>): Machine {
    Machine(if ret == Start then Finish else ret, stack, SkipSpace(s, pos), m.events + sent)
  }

  /** The rest of a container: the machine inside it ends as the recursive loop does. */
  predicate Concludes(s: Bytes, m: Machine, stack: seq<Frame>, ret: State, r: Outcome, convert: Converter)
    requires m.pos <= |s| && (r.Done? ==> r.pos <= |s|)
  {
    match r
    case Done(events, pos) => Iterate(s, m, convert) == Iterate(s, Closed(s, m, stack, ret, pos, events), convert)
    case Failed(events, code, offset) => Iterate(s, m, convert) == Failed(m.events + events, code, offset)
  }

  lemma KeyFollows(s: Bytes, m: Machine, convert: Converter)
    requires m.pos <= |s| && (m.state == MemberDelimiter || m.state == ObjectInitial)
    requires m.state == ObjectInitial ==> Peek(s, m.pos) != CLOSE_BRACE
    ensures var key := StringAt(s, m.pos, true);
      Iterate(s, m, convert) ==
      if Peek(s, m.pos) != QUOTE then Failed(m.events, ObjectMissName, m.pos)
      else if key.Failed? then Failed(m.events + key.events, key.code, key.offset)
      else Iterate(s, Past(s, m, MemberKey, key), convert)
  {
    hide Iterate, StringAt;
    if Peek(s, m.pos) == QUOTE && StringAt(s, m.pos, true).Done? {
      StepGo(s, m, convert);
    } else {
      StepStop(s, m, convert);
    }
  }

  lemma ColonFollows(s: Bytes, m: Machine, convert: Converter)
    requires m.pos <= |s| && m.state == MemberKey
    ensures m.pos < |s| || Peek(s, m.pos) != COLON
    ensures Iterate(s, m, convert) ==
      if Peek(s, m.pos) != COLON then Failed(m.events, ObjectMissColon, m.pos)
      else Iterate(s, Machine(KeyValueDelimiter, m.stack, SkipSpace(s, m.pos + 1), m.events), convert)
  {
    hide Iterate;
    if Peek(s, m.pos) == COLON { StepGo(s, m, convert); } else { StepStop(s, m, convert); }
  }

  /** After a member or an element: a comma, the container's end, or an error. */
  lemma DelimiterFollows(s: Bytes, m: Machine, stack: seq<Frame>, ret: State, count: nat, convert: Converter)
    requires m.pos <= |s| && m.stack == stack + [Frame(ret, count)] && (m.state == MemberValue || m.state == Element)
    ensures var isObject := m.state == MemberValue;
      var c := Peek(s, m.pos);
      (c != 0 ==> m.pos < |s|) &&
      Iterate(s, m, convert) ==
      if c == COMMA then
        Iterate(s, Machine(if isObject then MemberDelimiter else ElementDelimiter, stack + [Frame(ret, count + 1)],
                           SkipSpace(s, m.pos + 1), m.events), convert)
      else if c == (if isObject then CLOSE_BRACE else CLOSE_BRACKET) then
        Iterate(s, Closed(s, m, stack, ret, m.pos + 1,
                          [if isObject then EndObjectEv(count + 1) else EndArrayEv(count + 1)]), convert)
      else Failed(m.events, if isObject then ObjectMissCommaOrCurlyBracket else ArrayMissCommaOrSquareBracket, m.pos)
  {
    hide Iterate;
    var c := Peek(s, m.pos);
    if c == COMMA || c == (if m.state == MemberValue then CLOSE_BRACE else CLOSE_BRACKET) {
      StepGo(s, m, convert);
      if c == COMMA {
        assert m.stack[|stack| := Frame(ret, count + 1)] == stack + [Frame(ret, count + 1)];
      } else {
        assert m.stack[..|stack|] == stack;
      }
    } else {
      StepStop(s, m, convert);
    }
  }

  // ----- the loops inside a container -----

  /** What has been sent before a part of a container moves in front of it. */
  lemma ConcludesAfter(s: Bytes, m: Machine, n: Machine, sent: seq<Event>, stack: seq<Frame>, ret: State, r: Outcome,
                       convert: Converter)
    requires m.pos <= |s| && n.pos <= |s| && (r.Done? ==> r.pos <= |s|)
    requires Iterate(s, m, convert) == Iterate(s, n, convert) && n.events == m.events + sent
    requires Concludes(s, n, stack, ret, r, convert)
    ensures Concludes(s, m, stack, ret, Prefixed(sent, r), convert)
  {
    hide Iterate;
    Regrouped(m.events, sent, r.events);
  }

  /** The machine at a member's value. */
  function AtValue(s: Bytes, m: Machine, key: Outcome, colon: nat): Machine
    requires key.Done?
  {
    Machine(KeyValueDelimiter, m.stack, SkipSpace(s, colon + 1), m.events + key.events)
  }

  /** A member up to its value. */
  lemma HeadFollows(s: Bytes, m: Machine, convert: Converter)
    requires m.pos <= |s| && (m.state == MemberDelimiter || m.state == ObjectInitial)
    requires m.state == ObjectInitial ==> Peek(s, m.pos) != CLOSE_BRACE
    ensures var key := StringAt(s, m.pos, true);
      Iterate(s, m, convert) ==
      if Peek(s, m.pos) != QUOTE then Failed(m.events, ObjectMissName, m.pos)
      else if key.Failed? then Failed(m.events + key.events, key.code, key.offset)
      else
        var colon := SkipSpace(s, key.pos);
        if Peek(s, colon) != COLON then Failed(m.events + key.events, ObjectMissColon, colon)
        else Iterate(s, AtValue(s, m, key, colon), convert)
  {
    hide Iterate, StringAt, SkipSpace;
    KeyFollows(s, m, convert);
    var key := StringAt(s, m.pos, true);
    if key.Done? {
      ColonFollows(s, Past(s, m, MemberKey, key), convert);
    }
  }

  lemma {:induction false} MembersFollow(s: Bytes, m: Machine, stack: seq<Frame>, ret: State, count: nat, convert: Converter)
    requires m.pos <= |s| && m.stack == stack + [Frame(ret, count)]
    requires m.state == MemberDelimiter || m.state == ObjectInitial
    requires m.state == ObjectInitial ==> Peek(s, m.pos) != CLOSE_BRACE
    ensures Concludes(s, m, stack, ret, MembersFrom(s, m.pos, count, convert), convert)
    decreases |s| - m.pos, 3
  {
    hide Iterate, ValueAt, StringAt, MembersFrom, SkipSpace, ScalarAt, Next;
    HeadFollows(s, m, convert);
    UnfoldMembers(s, m.pos, count, convert);
    var key := StringAt(s, m.pos, true);
    if Peek(s, m.pos) == QUOTE && key.Done? && Peek(s, SkipSpace(s, key.pos)) == COLON {
      var v := AtValue(s, m, key, SkipSpace(s, key.pos));
      hide Peek;
      ValueFollows(s, v, convert);
      hide Follows;
      MemberFollows(s, m, v, key, stack, ret, count, convert);
    } else {
      assert m.events + [] == m.events;
    }
  }

  /** The recursive loop from a member's value on. */
  function MembersAfter(s: Bytes, key: Outcome, value: Outcome, count: nat, convert: Converter): Outcome
    requires key.Done? && key.pos <= |s| && (value.Done? ==> value.pos <= |s|)
  {
    if value.Failed? then Prefixed(key.events, value)
    else
      var sent := key.events + value.events;
      var i := SkipSpace(s, value.pos);
      if Peek(s, i) == COMMA then Prefixed(sent, MembersFrom(s, SkipSpace(s, i + 1), count + 1, convert))
      else if Peek(s, i) == CLOSE_BRACE then Done(sent + [EndObjectEv(count + 1)], i + 1)
      else Failed(sent, ObjectMissCommaOrCurlyBracket, i)
  }

  lemma UnfoldMembers(s: Bytes, p: nat, count: nat, convert: Converter)
    requires p <= |s|
    ensures var key := StringAt(s, p, true);
      MembersFrom(s, p, count, convert) == (
      if Peek(s, p) != QUOTE then Failed([], ObjectMissName, p)
      else if key.Failed? then key
      else
        var colon := SkipSpace(s, key.pos);
        if Peek(s, colon) != COLON then Failed(key.events, ObjectMissColon, colon)
        else MembersAfter(s, key, ValueAt(s, SkipSpace(s, colon + 1), convert), count, convert))
  {
    hide StringAt, ValueAt, SkipSpace, Peek;
  }

  /** From a member's value on. */
  lemma {:induction false} MemberFollows(s: Bytes, m: Machine, v: Machine, key: Outcome, stack: seq<Frame>, ret: State, count: nat,
                                         convert: Converter)
    requires m.pos < v.pos <= |s| && v.stack == m.stack == stack + [Frame(ret, count)]
    requires key.Done? && key.pos <= |s|
    requires v.state == KeyValueDelimiter && v.events == m.events + key.events
    requires Iterate(s, m, convert) == Iterate(s, v, convert)
    requires var r := ValueAt(s, v.pos, convert);
      Follows(s, v, if r.Done? then Past(s, v, MemberValue, r) else v, r, convert)
    ensures var r := MembersAfter(s, key, ValueAt(s, v.pos, convert), count, convert);
      (r.Done? ==> r.pos <= |s|) && Concludes(s, m, stack, ret, r, convert)
    decreases |s| - m.pos, 0
  {
    hide Iterate, ValueAt, MembersFrom, SkipSpace, Peek;
    var r := ValueAt(s, v.pos, convert);
    if r.Failed? {
      ConcludesAfter(s, m, v, key.events, stack, ret, r, convert);
    } else {
      var d := Past(s, v, MemberValue, r);
      var sent := key.events + r.events;
      assert d.events == m.events + sent;
      DelimiterFollows(s, d, stack, ret, count, convert);
      if Peek(s, d.pos) == COMMA {
        var n := Machine(MemberDelimiter, stack + [Frame(ret, count + 1)], SkipSpace(s, d.pos + 1), d.events);
        MembersFollow(s, n, stack, ret, count + 1, convert);
        ConcludesAfter(s, m, n, sent, stack, ret, MembersFrom(s, n.pos, count + 1, convert), convert);
      } else {
        Regrouped(m.events, sent, [EndObjectEv(count + 1)]);
      }
    }
  }

  lemma UnfoldElements(s: Bytes, p: nat, count: nat, convert: Converter)
    requires p <= |s|
    ensures var value := ValueAt(s, p, convert);
      ElementsFrom(s, p, count, convert) == (
      if value.Failed? then value
      else
        var i := SkipSpace(s, value.pos);
        if Peek(s, i) == COMMA then Prefixed(value.events, ElementsFrom(s, SkipSpace(s, i + 1), count + 1, convert))
        else if Peek(s, i) == CLOSE_BRACKET then Done(value.events + [EndArrayEv(count + 1)], i + 1)
        else Failed(value.events, ArrayMissCommaOrSquareBracket, i))
  {
    hide ValueAt, SkipSpace, Peek;
  }

  lemma {:induction false} ElementsFollow(s: Bytes, m: Machine, stack: seq<Frame>, ret: State, count: nat, convert: Converter)
    requires m.pos <= |s| && m.stack == stack + [Frame(ret, count)]
    requires m.state == ElementDelimiter || m.state == ArrayInitial
    requires m.state == ArrayInitial ==> Peek(s, m.pos) != CLOSE_BRACKET
    ensures Concludes(s, m, stack, ret, ElementsFrom(s, m.pos, count, convert), convert)
    decreases |s| - m.pos, 3
  {
    hide Iterate, ValueAt, ElementsFrom, SkipSpace, Peek, ScalarAt, StringAt, Next;
    UnfoldElements(s, m.pos, count, convert);
    ValueFollows(s, m, convert);
    var r := ValueAt(s, m.pos, convert);
    if r.Done? {
      var d := Past(s, m, Element, r);
      DelimiterFollows(s, d, stack, ret, count, convert);
      if Peek(s, d.pos) == COMMA {
        var n := Machine(ElementDelimiter, stack + [Frame(ret, count + 1)], SkipSpace(s, d.pos + 1), d.events);
        ElementsFollow(s, n, stack, ret, count + 1, convert);
        ConcludesAfter(s, m, n, r.events, stack, ret, ElementsFrom(s, n.pos, count + 1, convert), convert);
      } else {
        Regrouped(m.events, r.events, [EndArrayEv(count + 1)]);
      }
    }
  }

  lemma {:induction false} ArrayFollows(s: Bytes, m: Machine, convert: Converter)
    requires m.pos < |s| && ExpectsValue(m.state) && Peek(s, m.pos) == OPEN_BRACKET
    ensures Concludes(s, m, m.stack, ReturnState(m.state), ValueAt(s, m.pos, convert), convert)
    decreases |s| - m.pos, 1
  {
    hide ValueAt, Iterate, ElementsFrom, SkipSpace, Peek, ScalarAt, StringAt, Next;
    UnfoldArray(s, m.pos, convert);
    Enters(s, m, false, convert);
    var ret := ReturnState(m.state);
    var inside := Inside(s, m, false);
    if Peek(s, inside.pos) == CLOSE_BRACKET {
      ClosesAtOnce(s, inside, m.stack, ret, false, convert);
      EmptyConcludes(s, m, inside, ret, StartArrayEv, EndArrayEv(0), convert);
    } else {
      ElementsFollow(s, inside, m.stack, ret, 0, convert);
      ConcludesAfter(s, m, inside, [StartArrayEv], m.stack, ret, ElementsFrom(s, inside.pos, 0, convert), convert);
    }
  }

  // ----- whole texts -----

  /** Both parsers send the same events, accept the same texts and stop at the same
      offset; the codes differ exactly when the first significant byte is one of the four
      punctuation bytes, where one says the value is invalid and the other that the
      document is empty. */
  lemma ParsersAgree(s: Bytes, convert: Converter)
    ensures var r, i := Parse(s, convert), IterativeParse(s, convert);
      if IsPunctuation(Peek(s, SkipSpace(s, 0)))
      then r == Failed([], ValueInvalid, SkipSpace(s, 0)) && i == Failed([], DocumentEmpty, SkipSpace(s, 0))
      else r == i
  {
    var p := SkipSpace(s, 0);
    var m := Machine(Start, [], p, []);
    if Peek(s, p) != 0 {
      if IsPunctuation(Peek(s, p)) { NoNumber(s, p, convert); }
      ValueFollows(s, m, convert);
      var r := ValueAt(s, p, convert);
      assert [] + r.events == r.events;
      if r.Done? { EndsAfterRoot(s, Past(s, m, Finish, r), convert); }
    }
    hide Next, ValueAt;
  }

  lemma EndsAfterRoot(s: Bytes, m: Machine, convert: Converter)
    requires m.pos <= |s| && m.state == Finish
    ensures Iterate(s, m, convert) ==
      if Peek(s, m.pos) == 0 then Done(m.events, m.pos) else Failed(m.events, DocumentRootNotSingular, m.pos)
  {
    if Peek(s, m.pos) != 0 { StepStop(s, m, convert); }
  }
}
