/** `GenericReader`: the recursive parser and the pushdown machine at work on a stream,
    each sending events to a handler that accepts everything. Every method is the
    function of `Grammar` or `Tokens` for what it parses, whether it succeeds or
    fails. */
module Reader {
  import opened Common
  import opened Grammar
  import opened Json
  import opened ParserEquivalence
  import opened Streams
  import opened Tokens
  import NumberReader
  import StringReader

  // ----- the pushdown machine's stack -----

  predicate IsInside(state: State) {
    !(state == Start || state == Finish || state == Error || state == SingleValue || state == ObjectFinish || state == ArrayFinish)
  }

  /** One frame per open container; only the outermost returns to the start state. */
  predicate Balanced(m: Machine) {
    (if IsInside(m.state) then m.stack != [] else m.stack == [] && (m.state == Start || m.state == Finish))
    && forall i | 0 <= i < |m.stack| ::
      if i == 0 then m.stack[i].state == Start else m.stack[i].state == Element || m.stack[i].state == MemberValue
  }

  lemma IterateEnds(s: Bytes, m: Machine, convert: Converter)
    requires m.pos <= |s| && Peek(s, m.pos) == 0
    ensures Iterate(s, m, convert) ==
      if m.state == Finish then Done(m.events, m.pos) else Failed(m.events, ErrorOf(m.state), m.pos)
  {
  }

  /** Delimiters and ends are only predicted inside a container. */
  lemma PredictedFromInside(state: State, token: Token)
    ensures var dst := Predict(state, token);
      dst == MemberDelimiter || dst == ElementDelimiter || dst == ObjectFinish || dst == ArrayFinish ==> IsInside(state)
  {
  }

  /** The stack is never popped when empty. */
  lemma BalancedKept(s: Bytes, m: Machine, convert: Converter)
    requires m.pos < |s| && Balanced(m)
    ensures Next(s, m, convert).Go? ==> Balanced(Next(s, m, convert).m)
  {
    hide ScalarAt, StringAt, Tokenize;
  }

  class GenericReader {
    const is_: StringStream
    const convert: Converter
    /** What the handler has received. */
    var sent: seq<Event>
    /** `parseResult_`: the error code and its offset. */
    var failure: Option<(ParseErrorCode, nat)>
    /** The pushdown machine's stack. */
    var stack_: seq<Frame>

    constructor (is_: StringStream, convert: Converter)
      ensures this.is_ == is_ && this.convert == convert && sent == [] && failure == None
    {
      this.is_, this.convert := is_, convert;
      sent, failure, stack_ := [], None, [];
    }

    /** Parsing got to `r` after `before` had been sent. */
    ghost predicate Reached(r: Outcome, before: seq<Event>)
      reads this, is_
    {
      match r
      case Done(events, pos) => failure == None && sent == before + events && is_.pos == pos
      case Failed(events, code, offset) => failure == Some((code, offset)) && sent == before + events
    }

    method SetParseError(code: ParseErrorCode, offset: nat)
      modifies this`failure
      ensures failure == Some((code, offset))
    {
      failure := Some((code, offset));
    }

    method SkipWhitespace()
      requires is_.pos <= |is_.text|
      modifies is_
      ensures is_.pos == SkipSpace(is_.text, old(is_.pos))
    {
      var c := is_.Peek();
      while IsSpace(c)
        invariant is_.pos <= |is_.text| && c == Peek(is_.text, is_.pos)
        invariant SkipSpace(is_.text, is_.pos) == SkipSpace(is_.text, old(is_.pos))
        decreases |is_.text| - is_.pos
      {
        var _ := is_.Take();
        c := is_.Peek();
      }
    }

    // ----- scalars -----

    /** `ParseNull`, `ParseTrue` and `ParseFalse`. */
    method ParseName(word: Bytes, e: Event)
      requires is_.pos <= |is_.text| && failure == None
      modifies `sent, `failure, is_
      ensures Reached(NameAt(is_.text, old(is_.pos), word, e), old(sent))
    {
      var i := 0;
      ghost var start := is_.pos;
      while i < |word|
        invariant i <= |word| && is_.pos == start + i
        invariant failure == None && sent == old(sent)
        invariant Matching(is_.text, start, word) == i + Matching(is_.text, is_.pos, word[i..])
      {
        assert word[i..][0] == word[i] && word[i..][1..] == word[i + 1..];
        var found := is_.Consume(word[i]);
        if !found {
          SetParseError(ValueInvalid, is_.pos);
          return;
        }
        i := i + 1;
      }
      sent := sent + [e];
    }

    method ParseString(isKey: bool)
      requires is_.pos < |is_.text| && failure == None
      modifies `sent, `failure, is_
      ensures Reached(StringAt(is_.text, old(is_.pos), isKey), old(sent))
    {
      var _ := is_.Take();
      var os := new OutputStream();
      var error := StringReader.ParseStringToStream(is_, os);
      if error.Some? {
        failure := error;
        return;
      }
      var s := os.out[..|os.out| - 1];
      sent := sent + [if isKey then KeyEv(s) else StringEv(s)];
    }

    method ParseNumber()
      requires is_.pos <= |is_.text| && failure == None
      modifies `sent, `failure, is_
      ensures Reached(NumberAt(is_.text, old(is_.pos), convert), old(sent))
    {
      var o, _ := NumberReader.ParseNumber(is_, convert);
      sent := sent + o.events;
      if o.Failed? { SetParseError(o.code, o.offset); }
    }

    /** `ParseValue` where no container begins. */
    method ParseScalar()
      requires is_.pos <= |is_.text| && failure == None
      modifies `sent, `failure, is_
      ensures Reached(ScalarAt(is_.text, old(is_.pos), convert), old(sent))
    {
      hide NameAt, StringAt, NumberAt;
      var c := is_.Peek();
      if c == 'n' as int { ParseName(NULL_TEXT, NullEv); }
      else if c == 't' as int { ParseName(TRUE_TEXT, BoolEv(true)); }
      else if c == 'f' as int { ParseName(FALSE_TEXT, BoolEv(false)); }
      else if c == QUOTE { ParseString(false); }
      else { ParseNumber(); }
    }

    // ----- recursive descent -----

    method ParseValue()
      requires is_.pos <= |is_.text| && failure == None
      modifies `sent, `failure, is_
      ensures Reached(ValueAt(is_.text, old(is_.pos), convert), old(sent))
      decreases |is_.text| - is_.pos, 2
    {
      var c := is_.Peek();
      if c == OPEN_BRACE { ParseObject(); }
      else if c == OPEN_BRACKET { ParseArray(); }
      else { ParseScalar(); }
    }

    method ParseObject()
      requires is_.pos < |is_.text| && failure == None && Peek(is_.text, is_.pos) == OPEN_BRACE
      modifies `sent, `failure, is_
      ensures Reached(ValueAt(is_.text, old(is_.pos), convert), old(sent))
      decreases |is_.text| - is_.pos, 1
    {
      UnfoldObject(is_.text, is_.pos, convert);
      hide ValueAt, MembersFrom, SkipSpace;
      var _ := is_.Take();
      sent := sent + [StartObjectEv];
      SkipWhitespace();
      var empty := is_.Consume(CLOSE_BRACE);
      if empty {
        sent := sent + [EndObjectEv(0)];
        Regrouped(old(sent), [StartObjectEv], [EndObjectEv(0)]);
        assert [StartObjectEv] + [EndObjectEv(0)] == [StartObjectEv, EndObjectEv(0)];
        return;
      }
      ghost var rest := MembersFrom(is_.text, is_.pos, 0, convert);
      Regrouped(sent[..|sent| - 1], [StartObjectEv], rest.events);
      ParseMembers();
    }

    /** The loop of `ParseObject`. */
    method ParseMembers()
      requires is_.pos <= |is_.text| && failure == None
      modifies `sent, `failure, is_
      ensures Reached(MembersFrom(is_.text, old(is_.pos), 0, convert), old(sent))
      decreases |is_.text| - is_.pos, 4
    {
      hide MembersFrom, MemberAt;
      var memberCount, more := 0, true;
      ghost var whole := MembersFrom(is_.text, is_.pos, 0, convert);
      ghost var before: seq<Event> := [];
      Reassociated([], [], whole);
      while more
        invariant old(is_.pos) <= is_.pos <= |is_.text| || !more
        invariant more ==> failure == None && whole == Prefixed(before, MembersFrom(is_.text, is_.pos, memberCount, convert))
        invariant sent == old(sent) + before
        invariant !more ==> Reached(whole, old(sent))
        decreases more, |is_.text| - is_.pos
      {
        ghost var p, sofar := is_.pos, sent;
        UnfoldMember(is_.text, p, memberCount, convert);
        ghost var one := MemberAt(is_.text, p, memberCount, convert).0;
        more := ParseMember(memberCount);
        memberCount := memberCount + 1;
        Regrouped(old(sent), before, one.events);
        if more { Reassociated(before, one.events, MembersFrom(is_.text, is_.pos, memberCount, convert)); }
        before := before + one.events;
      }
    }

    /** One member, then the comma or the closing brace; `more` after a comma. */
    method ParseMember(memberCount: nat) returns (more: bool)
      requires is_.pos <= |is_.text| && failure == None
      modifies `sent, `failure, is_
      ensures var (r, again) := MemberAt(is_.text, old(is_.pos), memberCount, convert);
        Reached(r, old(sent)) && more == again
      decreases |is_.text| - is_.pos, 3
    {
      hide ValueAt, StringAt, SkipSpace;
      more := false;
      var c := is_.Peek();
      if c != QUOTE {
        SetParseError(ObjectMissName, is_.pos);
        return;
      }
      ghost var start := is_.pos;
      ParseString(true);
      if failure.Some? { return; }
      ghost var key := StringAt(is_.text, start, true);
      SkipWhitespace();
      var colon := is_.Consume(COLON);
      if !colon {
        SetParseError(ObjectMissColon, is_.pos);
        return;
      }
      SkipWhitespace();
      ghost var value := ValueAt(is_.text, is_.pos, convert);
      ParseValue();
      Regrouped(old(sent), key.events, value.events);
      if failure.Some? { return; }
      SkipWhitespace();
      var d := is_.Peek();
      if d == COMMA {
        var _ := is_.Take();
        SkipWhitespace();
        more := true;
      } else if d == CLOSE_BRACE {
        var _ := is_.Take();
        sent := sent + [EndObjectEv(memberCount + 1)];
        Regrouped(old(sent), key.events + value.events, [EndObjectEv(memberCount + 1)]);
      } else {
        SetParseError(ObjectMissCommaOrCurlyBracket, is_.pos);
      }
    }

    method ParseArray()
      requires is_.pos < |is_.text| && failure == None && Peek(is_.text, is_.pos) == OPEN_BRACKET
      modifies `sent, `failure, is_
      ensures Reached(ValueAt(is_.text, old(is_.pos), convert), old(sent))
      decreases |is_.text| - is_.pos, 1
    {
      UnfoldArray(is_.text, is_.pos, convert);
      hide ValueAt, ElementsFrom, SkipSpace;
      var _ := is_.Take();
      sent := sent + [StartArrayEv];
      SkipWhitespace();
      var empty := is_.Consume(CLOSE_BRACKET);
      if empty {
        sent := sent + [EndArrayEv(0)];
        Regrouped(old(sent), [StartArrayEv], [EndArrayEv(0)]);
        assert [StartArrayEv] + [EndArrayEv(0)] == [StartArrayEv, EndArrayEv(0)];
        return;
      }
      ghost var rest := ElementsFrom(is_.text, is_.pos, 0, convert);
      Regrouped(sent[..|sent| - 1], [StartArrayEv], rest.events);
      ParseElements();
    }

    /** The loop of `ParseArray`. */
    method ParseElements()
      requires is_.pos <= |is_.text| && failure == None
      modifies `sent, `failure, is_
      ensures Reached(ElementsFrom(is_.text, old(is_.pos), 0, convert), old(sent))
      decreases |is_.text| - is_.pos, 4
    {
      hide ElementsFrom, ElementAt;
      var elementCount, more := 0, true;
      ghost var whole := ElementsFrom(is_.text, is_.pos, 0, convert);
      ghost var before: seq<Event> := [];
      Reassociated([], [], whole);
      while more
        invariant old(is_.pos) <= is_.pos <= |is_.text| || !more
        invariant more ==> failure == None && whole == Prefixed(before, ElementsFrom(is_.text, is_.pos, elementCount, convert))
        invariant sent == old(sent) + before
        invariant !more ==> Reached(whole, old(sent))
        decreases more, |is_.text| - is_.pos
      {
        ghost var p := is_.pos;
        UnfoldElement(is_.text, p, elementCount, convert);
        ghost var one := ElementAt(is_.text, p, elementCount, convert).0;
        more := ParseElement(elementCount);
        elementCount := elementCount + 1;
        Regrouped(old(sent), before, one.events);
        if more { Reassociated(before, one.events, ElementsFrom(is_.text, is_.pos, elementCount, convert)); }
        before := before + one.events;
      }
    }

    /** One element, then the comma or the closing bracket; `more` after a comma. */
    method ParseElement(elementCount: nat) returns (more: bool)
      requires is_.pos <= |is_.text| && failure == None
      modifies `sent, `failure, is_
      ensures var (r, again) := ElementAt(is_.text, old(is_.pos), elementCount, convert);
        Reached(r, old(sent)) && more == again
      decreases |is_.text| - is_.pos, 3
    {
      hide ValueAt, SkipSpace;
      more := false;
      ghost var value := ValueAt(is_.text, is_.pos, convert);
      ParseValue();
      if failure.Some? { return; }
      SkipWhitespace();
      more := is_.Consume(COMMA);
      if more {
        SkipWhitespace();
        return;
      }
      var end := is_.Consume(CLOSE_BRACKET);
      if end {
        sent := sent + [EndArrayEv(elementCount + 1)];
        Regrouped(old(sent), value.events, [EndArrayEv(elementCount + 1)]);
      } else {
        SetParseError(ArrayMissCommaOrSquareBracket, is_.pos);
      }
    }

    /** `Parse`. */
    method Parse()
      requires is_.pos == 0 && sent == []
      modifies `sent, `failure, is_
      ensures Reached(Grammar.Parse(is_.text, convert), [])
    {
      hide ValueAt, SkipSpace;
      failure := None;
      SkipWhitespace();
      var c := is_.Peek();
      if c == 0 {
        SetParseError(DocumentEmpty, is_.pos);
        return;
      }
      ParseValue();
      if failure.Some? { return; }
      SkipWhitespace();
      c := is_.Peek();
      if c != 0 { SetParseError(DocumentRootNotSingular, is_.pos); }
    }

    // ----- the pushdown machine -----

    /** The machine this reader is, in `state`. */
    ghost function Current(state: State): Machine
      reads this, is_
    {
      Machine(state, stack_, is_.pos, sent)
    }

    /** The reader after a transition from `m`: in state `d` unless it stopped. */
    ghost predicate Moved(m: Machine, move: Move, d: State)
      reads this, is_
    {
      match move
      case Go(next) => failure == None && d != Error && Current(d) == next
      case Stop(events, code, offset) => d == Error && failure == Some((code, offset)) && sent == events
      case Stuck => d == Error && failure == None && sent == m.events && is_.pos == m.pos
    }

    method TransitValue(src: State, dst: State) returns (d: State)
      requires is_.pos <= |is_.text| && failure == None && dst != Error
      modifies this, is_
      ensures Moved(old(Current(src)), TakeScalar(old(Current(src)), ScalarAt(is_.text, old(is_.pos), convert), dst), d)
    {
      hide ScalarAt;
      ParseScalar();
      d := if failure.Some? then Error else dst;
    }

    method TransitKey(src: State, dst: State) returns (d: State)
      requires is_.pos < |is_.text| && failure == None && dst != Error
      modifies this, is_
      ensures Moved(old(Current(src)), TakeScalar(old(Current(src)), StringAt(is_.text, old(is_.pos), true), dst), d)
    {
      hide StringAt;
      ParseString(true);
      d := if failure.Some? then Error else dst;
    }

    method TransitOpen(src: State, dst: State) returns (d: State)
      requires is_.pos < |is_.text| && failure == None && (dst == ObjectInitial || dst == ArrayInitial)
      modifies this, is_
      ensures Moved(old(Current(src)), Grammar.Transit(is_.text, old(Current(src)), dst, convert), d)
    {
      var n := src;
      if src == ArrayInitial || src == ElementDelimiter { n := Element; }
      else if src == KeyValueDelimiter { n := MemberValue; }
      stack_ := stack_ + [Frame(n, 0)];
      sent := sent + [if dst == ObjectInitial then StartObjectEv else StartArrayEv];
      var _ := is_.Take();
      d := dst;
    }

    method TransitClose(src: State, dst: State) returns (d: State)
      requires is_.pos < |is_.text| && failure == None && (dst == ObjectFinish || dst == ArrayFinish)
      requires stack_ != [] && stack_[|stack_| - 1].state != Error
      modifies this, is_
      ensures Moved(old(Current(src)), Grammar.Transit(is_.text, old(Current(src)), dst, convert), d)
    {
      if dst == ObjectFinish && src == MemberDelimiter {
        SetParseError(ObjectMissName, is_.pos);
        return Error;
      }
      if dst == ArrayFinish && src == ElementDelimiter {
        SetParseError(ValueInvalid, is_.pos);
        return Error;
      }
      var top := stack_[|stack_| - 1];
      var c := top.count;
      if src == (if dst == ObjectFinish then MemberValue else Element) { c := c + 1; }
      stack_ := stack_[..|stack_| - 1];
      d := top.state;
      if d == Start { d := Finish; }
      sent := sent + [if dst == ObjectFinish then EndObjectEv(c) else EndArrayEv(c)];
      var _ := is_.Take();
    }

    method TransitDelimiter(src: State, dst: State) returns (d: State)
      requires is_.pos < |is_.text| && failure == None && (dst == MemberDelimiter || dst == ElementDelimiter) && stack_ != []
      modifies this, is_
      ensures Moved(old(Current(src)), Grammar.Transit(is_.text, old(Current(src)), dst, convert), d)
    {
      var _ := is_.Take();
      var n := |stack_|;
      stack_ := stack_[n - 1 := stack_[n - 1].(count := stack_[n - 1].count + 1)];
      d := dst;
    }

    /** `Transit`: advance the stream and the stack towards the predicted state. */
    method Transit(src: State, dst: State) returns (d: State)
      requires is_.pos < |is_.text| && failure == None && Balanced(Current(src)) && dst == Predict(src, Tokenize(Peek(is_.text, is_.pos)))
      modifies this, is_
      ensures Moved(old(Current(src)), Grammar.Transit(is_.text, old(Current(src)), dst, convert), d)
    {
      PredictedFromInside(src, Tokenize(Peek(is_.text, is_.pos)));
      hide Predict, Tokenize, ScalarAt, StringAt, CloseFrame, Grammar.Count;
      if dst == Error {
        d := dst;
      } else if dst == ObjectInitial || dst == ArrayInitial {
        d := TransitOpen(src, dst);
      } else if dst == MemberKey {
        d := TransitKey(src, dst);
      } else if dst == KeyValueDelimiter {
        var _ := is_.Take();
        d := dst;
      } else if dst == MemberValue || dst == Element {
        d := TransitValue(src, dst);
      } else if dst == MemberDelimiter || dst == ElementDelimiter {
        d := TransitDelimiter(src, dst);
      } else if dst == ObjectFinish || dst == ArrayFinish {
        d := TransitClose(src, dst);
      } else {
        d := TransitValue(src, Finish);
      }
    }

    method HandleError(src: State)
      modifies this`failure
      ensures failure == if old(failure).Some? then old(failure) else Some((ErrorOf(src), is_.pos))
    {
      if failure.Some? { return; }
      SetParseError(ErrorOf(src), is_.pos);
    }

    /** One turn of the loop: a transition and the white space after it, or the error. */
    method Turn(state: State) returns (d: State)
      requires is_.pos < |is_.text| && Peek(is_.text, is_.pos) != 0 && failure == None && Balanced(Current(state))
      modifies this, is_
      ensures d == Error ==>
              failure.Some? && Iterate(is_.text, old(Current(state)), convert) == Failed(sent, failure.value.0, failure.value.1)
      ensures d != Error ==>
              failure == None && old(is_.pos) < is_.pos <= |is_.text| && Balanced(Current(d))
              && Iterate(is_.text, Current(d), convert) == Iterate(is_.text, old(Current(state)), convert)
    {
      ghost var m := Current(state);
      BalancedKept(is_.text, m, convert);
      if Next(is_.text, m, convert).Go? { StepGo(is_.text, m, convert); } else { StepStop(is_.text, m, convert); }
      hide Grammar.Transit, Predict, Tokenize, Iterate, SkipSpace;
      var c := is_.Peek();
      d := Transit(state, Predict(state, Tokenize(c)));
      if d == Error { HandleError(state); } else { SkipWhitespace(); }
    }

    /** `IterativeParse`. */
    method IterativeParse()
      requires is_.pos == 0 && sent == []
      modifies this, is_
      ensures Reached(Grammar.IterativeParse(is_.text, convert), [])
    {
      failure, stack_ := None, [];
      var state := Start;
      SkipWhitespace();
      ghost var whole := Grammar.IterativeParse(is_.text, convert);
      hide Iterate, SkipSpace, Grammar.IterativeParse;
      var c := is_.Peek();
      while c != 0
        invariant is_.pos <= |is_.text| && c == Peek(is_.text, is_.pos)
        invariant failure == None && Balanced(Current(state)) && Iterate(is_.text, Current(state), convert) == whole
        decreases |is_.text| - is_.pos
      {
        var d := Turn(state);
        if d == Error { break; }
        state := d;
        c := is_.Peek();
      }
      assert [] + sent == sent;
      if c == 0 { IterateEnds(is_.text, Current(state), convert); }
      if state != Finish { HandleError(state); }
    }
  }
}
