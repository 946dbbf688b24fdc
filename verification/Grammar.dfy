/** The two parsers of reader.h as functions of the text: recursive descent, and the
    table-driven pushdown machine with its states and counts on a stack. Both end with
    the events they have sent and either the position behind the text or the code and
    offset of an error. */
module Grammar {
  import opened Common
  import opened Json
  import opened Tokens

  /** The outcome of what follows, after `before` has already been sent. */
  function Prefixed(before: seq<Event>, r: Outcome): Outcome {
    match r
    case Done(events, pos) => Done(before + events, pos)
    case Failed(events, code, offset) => Failed(before + events, code, offset)
  }

  // ----- recursive descent -----

  function ValueAt(s: Bytes, p: nat, convert: Converter): (r: Outcome)
    requires p <= |s|
    ensures r.Done? ==> p < r.pos <= |s|
    decreases |s| - p, 2
  {
    if Peek(s, p) == OPEN_BRACE then ObjectAt(s, p, convert)
    else if Peek(s, p) == OPEN_BRACKET then ArrayAt(s, p, convert)
    else ScalarAt(s, p, convert)
  }

  function ObjectAt(s: Bytes, p: nat, convert: Converter): (r: Outcome)
    requires p < |s|
    ensures r.Done? ==> p < r.pos <= |s|
    decreases |s| - p, 1
  {
    var i := SkipSpace(s, p + 1);
    if Peek(s, i) == CLOSE_BRACE then Done([StartObjectEv, EndObjectEv(0)], i + 1)
    else Prefixed([StartObjectEv], MembersFrom(s, i, 0, convert))
  }

  /** Members from `p` on, `count` of them already parsed, up to the closing brace. */
  function MembersFrom(s: Bytes, p: nat, count: nat, convert: Converter): (r: Outcome)
    requires p <= |s|
    ensures r.Done? ==> p < r.pos <= |s|
    decreases |s| - p, 3
  {
    if Peek(s, p) != QUOTE then Failed([], ObjectMissName, p)
    else
      var key := StringAt(s, p, true);
      if key.Failed? then key
      else
        var colon := SkipSpace(s, key.pos);
        if Peek(s, colon) != COLON then Failed(key.events, ObjectMissColon, colon)
        else
          var value := ValueAt(s, SkipSpace(s, colon + 1), convert);
          if value.Failed? then Prefixed(key.events, value)
          else
            var sent := key.events + value.events;
            var i := SkipSpace(s, value.pos);
            if Peek(s, i) == COMMA then Prefixed(sent, MembersFrom(s, SkipSpace(s, i + 1), count + 1, convert))
            else if Peek(s, i) == CLOSE_BRACE then Done(sent + [EndObjectEv(count + 1)], i + 1)
            else Failed(sent, ObjectMissCommaOrCurlyBracket, i)
  }

  function ArrayAt(s: Bytes, p: nat, convert: Converter): (r: Outcome)
    requires p < |s|
    ensures r.Done? ==> p < r.pos <= |s|
    decreases |s| - p, 1
  {
    var i := SkipSpace(s, p + 1);
    if Peek(s, i) == CLOSE_BRACKET then Done([StartArrayEv, EndArrayEv(0)], i + 1)
    else Prefixed([StartArrayEv], ElementsFrom(s, i, 0, convert))
  }

  /** Elements from `p` on, `count` of them already parsed, up to the closing bracket. */
  function ElementsFrom(s: Bytes, p: nat, count: nat, convert: Converter): (r: Outcome)
    requires p <= |s|
    ensures r.Done? ==> p < r.pos <= |s|
    decreases |s| - p, 3
  {
    var value := ValueAt(s, p, convert);
    if value.Failed? then value
    else
      var i := SkipSpace(s, value.pos);
      if Peek(s, i) == COMMA then Prefixed(value.events, ElementsFrom(s, SkipSpace(s, i + 1), count + 1, convert))
      else if Peek(s, i) == CLOSE_BRACKET then Done(value.events + [EndArrayEv(count + 1)], i + 1)
      else Failed(value.events, ArrayMissCommaOrSquareBracket, i)
  }

  /** `Parse`: one value with nothing but white space around it. */
  function Parse(s: Bytes, convert: Converter): Outcome {
    var p := SkipSpace(s, 0);
    if Peek(s, p) == 0 then Failed([], DocumentEmpty, p)
    else
      var value := ValueAt(s, p, convert);
      if value.Failed? then value
      else
        var q := SkipSpace(s, value.pos);
        if Peek(s, q) != 0 then Failed(value.events, DocumentRootNotSingular, q) else Done(value.events, q)
  }

  // ----- one turn of a container's loop -----

  /** One member from `p` on with what separates it from the next; whether one follows. */
  function MemberAt(s: Bytes, p: nat, count: nat, convert: Converter): (o: (Outcome, bool))
    requires p <= |s|
    ensures o.0.Done? ==> p < o.0.pos <= |s|
    ensures o.1 ==> o.0.Done?
  {
    if Peek(s, p) != QUOTE then (Failed([], ObjectMissName, p), false)
    else
      var key := StringAt(s, p, true);
      if key.Failed? then (key, false)
      else
        var colon := SkipSpace(s, key.pos);
        if Peek(s, colon) != COLON then (Failed(key.events, ObjectMissColon, colon), false)
        else
          var value := ValueAt(s, SkipSpace(s, colon + 1), convert);
          if value.Failed? then (Prefixed(key.events, value), false)
          else
            var sent := key.events + value.events;
            var i := SkipSpace(s, value.pos);
            if Peek(s, i) == COMMA then (Done(sent, SkipSpace(s, i + 1)), true)
            else if Peek(s, i) == CLOSE_BRACE then (Done(sent + [EndObjectEv(count + 1)], i + 1), false)
            else (Failed(sent, ObjectMissCommaOrCurlyBracket, i), false)
  }

  lemma UnfoldMember(s: Bytes, p: nat, count: nat, convert: Converter)
    requires p <= |s|
    ensures var (r, more) := MemberAt(s, p, count, convert);
      MembersFrom(s, p, count, convert) ==
      if more then Prefixed(r.events, MembersFrom(s, r.pos, count + 1, convert)) else r
  {
    hide StringAt, ValueAt, SkipSpace;
  }

  /** One element from `p` on with what separates it from the next; whether one follows. */
  function ElementAt(s: Bytes, p: nat, count: nat, convert: Converter): (o: (Outcome, bool))
    requires p <= |s|
    ensures o.0.Done? ==> p < o.0.pos <= |s|
    ensures o.1 ==> o.0.Done?
  {
    var value := ValueAt(s, p, convert);
    if value.Failed? then (value, false)
    else
      var i := SkipSpace(s, value.pos);
      if Peek(s, i) == COMMA then (Done(value.events, SkipSpace(s, i + 1)), true)
      else if Peek(s, i) == CLOSE_BRACKET then (Done(value.events + [EndArrayEv(count + 1)], i + 1), false)
      else (Failed(value.events, ArrayMissCommaOrSquareBracket, i), false)
  }

  lemma UnfoldElement(s: Bytes, p: nat, count: nat, convert: Converter)
    requires p <= |s|
    ensures var (r, more) := ElementAt(s, p, count, convert);
      ElementsFrom(s, p, count, convert) ==
      if more then Prefixed(r.events, ElementsFrom(s, r.pos, count + 1, convert)) else r
  {
    hide ValueAt, SkipSpace;
  }

  lemma Reassociated(a: seq<Event>, b: seq<Event>, r: Outcome)
    ensures Prefixed(a + b, r) == Prefixed(a, Prefixed(b, r))
    ensures Prefixed([], r) == r
  {
    assert a + b + r.events == a + (b + r.events);
    assert [] + r.events == r.events;
  }

  // ----- the pushdown machine -----

  datatype State =
    | Finish | Error | Start
    | ObjectInitial | MemberKey | MemberValue | ObjectFinish
    | ArrayInitial | Element | ArrayFinish
    | SingleValue
    | ElementDelimiter | MemberDelimiter | KeyValueDelimiter

  datatype Token =
    | LeftBracket | RightBracket | LeftCurlyBracket | RightCurlyBracket
    | Comma | Colon | StringTok | FalseTok | TrueTok | NullTok | NumberTok

  function Tokenize(c: Byte): Token {
    if c == QUOTE then StringTok
    else if c == COMMA then Comma
    else if c == COLON then Colon
    else if c == OPEN_BRACKET then LeftBracket
    else if c == CLOSE_BRACKET then RightBracket
    else if c == 'f' as int then FalseTok
    else if c == 'n' as int then NullTok
    else if c == 't' as int then TrueTok
    else if c == OPEN_BRACE then LeftCurlyBracket
    else if c == CLOSE_BRACE then RightCurlyBracket
    else NumberTok
  }

  /** One row of the table for a state that expects a value. */
  function PredictValue(token: Token, closing: State, scalar: State): State {
    match token
    case LeftBracket => ArrayInitial
    case RightBracket => closing
    case LeftCurlyBracket => ObjectInitial
    case RightCurlyBracket => Error
    case Comma => Error
    case Colon => Error
    case _ => scalar
  }

  /** The table: current state and one token of lookahead give the candidate state. */
  function Predict(state: State, token: Token): State {
    match state
    case Start => PredictValue(token, Error, SingleValue)
    case ArrayInitial => PredictValue(token, ArrayFinish, Element)
    case ElementDelimiter => PredictValue(token, ArrayFinish, Element)
    case KeyValueDelimiter => PredictValue(token, Error, MemberValue)
    case ObjectInitial => if token.RightCurlyBracket? then ObjectFinish else if token.StringTok? then MemberKey else Error
    case MemberDelimiter => if token.RightCurlyBracket? then ObjectFinish else if token.StringTok? then MemberKey else Error
    case MemberKey => if token.Colon? then KeyValueDelimiter else Error
    case MemberValue =>
      if token.RightCurlyBracket? then ObjectFinish else if token.Comma? then MemberDelimiter else Error
    case Element => if token.RightBracket? then ArrayFinish else if token.Comma? then ElementDelimiter else Error
    case _ => Error
  }

  /** The state to return to and the values completed so far, one per open container. */
  datatype Frame = Frame(state: State, count: nat)

  datatype Machine = Machine(state: State, stack: seq<Frame>, pos: nat, events: seq<Event>)

  /** `Transit`'s answer: the next machine, a parse error it has set, or an error state
      without one. */
  datatype Move = Go(m: Machine) | Stop(events: seq<Event>, code: ParseErrorCode, offset: nat) | Stuck

  /** The code `HandleError` reports for a state. */
  function ErrorOf(state: State): ParseErrorCode {
    match state
    case Start => DocumentEmpty
    case Finish => DocumentRootNotSingular
    case ObjectInitial => ObjectMissName
    case MemberDelimiter => ObjectMissName
    case MemberKey => ObjectMissColon
    case MemberValue => ObjectMissCommaOrCurlyBracket
    case KeyValueDelimiter => ValueInvalid
    case ArrayInitial => ValueInvalid
    case ElementDelimiter => ValueInvalid
    case _ => ArrayMissCommaOrSquareBracket
  }

  /** The state a container's end returns to, remembered when it begins. */
  function ReturnState(src: State): State {
    if src == ArrayInitial || src == ElementDelimiter then Element
    else if src == KeyValueDelimiter then MemberValue
    else src
  }

  function TakeScalar(m: Machine, r: Outcome, next: State): Move {
    match r
    case Done(events, pos) => Go(Machine(next, m.stack, pos, m.events + events))
    case Failed(events, code, offset) => Stop(m.events + events, code, offset)
  }

  /** The end of a container: pop its frame, count the last value, report the end. */
  function CloseFrame(m: Machine, last: bool, isObject: bool): Move
    requires m.stack != []
  {
    var top := m.stack[|m.stack| - 1];
    var c := if last then top.count + 1 else top.count;
    var n := if top.state == Start then Finish else top.state;
    Go(Machine(n, m.stack[..|m.stack| - 1], m.pos + 1, m.events + [if isObject then EndObjectEv(c) else EndArrayEv(c)]))
  }

  function Transit(s: Bytes, m: Machine, dst: State, convert: Converter): Move
    requires m.pos <= |s|
  {
    match dst
    case Error => Stuck
    case ObjectInitial =>
      Go(Machine(dst, m.stack + [Frame(ReturnState(m.state), 0)], m.pos + 1, m.events + [StartObjectEv]))
    case ArrayInitial =>
      Go(Machine(dst, m.stack + [Frame(ReturnState(m.state), 0)], m.pos + 1, m.events + [StartArrayEv]))
    case MemberKey => TakeScalar(m, StringAt(s, m.pos, true), dst)
    case KeyValueDelimiter => Go(m.(state := dst, pos := m.pos + 1))
    case MemberValue => TakeScalar(m, ScalarAt(s, m.pos, convert), dst)
    case Element => TakeScalar(m, ScalarAt(s, m.pos, convert), dst)
    case MemberDelimiter => Count(m, dst)
    case ElementDelimiter => Count(m, dst)
    case ObjectFinish =>
      if m.state == MemberDelimiter then Stop(m.events, ObjectMissName, m.pos)
      else if m.stack == [] then Stuck
      else CloseFrame(m, m.state == MemberValue, true)
    case ArrayFinish =>
      if m.state == ElementDelimiter then Stop(m.events, ValueInvalid, m.pos)
      else if m.stack == [] then Stuck
      else CloseFrame(m, m.state == Element, false)
    case _ => TakeScalar(m, ScalarAt(s, m.pos, convert), Finish)
  }

  /** A delimiter counts the value before it. */
  function Count(m: Machine, dst: State): Move {
    var n := |m.stack|;
    if n == 0 then Stuck
    else Go(m.(state := dst, pos := m.pos + 1, stack := m.stack[n - 1 := m.stack[n - 1].(count := m.stack[n - 1].count + 1)]))
  }

  /** What the machine does on the byte it sees. */
  function Next(s: Bytes, m: Machine, convert: Converter): Move
    requires m.pos <= |s|
  {
    Transit(s, m, Predict(m.state, Tokenize(Peek(s, m.pos))), convert)
  }

  lemma NextAdvances(s: Bytes, m: Machine, convert: Converter)
    requires m.pos < |s| && Next(s, m, convert).Go?
    ensures m.pos < Next(s, m, convert).m.pos <= |s|
  {
    hide StringAt, ScalarAt, Tokenize, Predict;
  }

  /** The loop of `IterativeParse` from a machine whose position is past white space. */
  function Iterate(s: Bytes, m: Machine, convert: Converter): Outcome
    requires m.pos <= |s|
    decreases |s| - m.pos
  {
    if Peek(s, m.pos) == 0 then
      if m.state == Finish then Done(m.events, m.pos) else Failed(m.events, ErrorOf(m.state), m.pos)
    else
      match Next(s, m, convert)
      case Stuck => Failed(m.events, ErrorOf(m.state), m.pos)
      case Stop(events, code, offset) => Failed(events, code, offset)
      case Go(next) =>
        NextAdvances(s, m, convert);
        Iterate(s, next.(pos := SkipSpace(s, next.pos)), convert)
  }

  function IterativeParse(s: Bytes, convert: Converter): Outcome {
    Iterate(s, Machine(Start, [], SkipSpace(s, 0), []), convert)
  }
}
