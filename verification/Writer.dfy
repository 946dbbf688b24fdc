/** `Writer`: JSON text produced event by event, with commas and colons placed from the
    value counts of the open levels. */
module Writers {
  import opened Common
  import opened Json
  import opened Streams
  import opened Tokens

  // ----- the text of each scalar -----

  /** The byte the escape table holds for `c`: none when `c` is written as it is. */
  function EscapeClass(c: Byte): Option<Byte> {
    if c == QUOTE then Some(QUOTE)
    else if c == BACKSLASH then Some(BACKSLASH)
    else if c == 8 then Some('b' as int)
    else if c == 9 then Some('t' as int)
    else if c == 10 then Some('n' as int)
    else if c == 12 then Some('f' as int)
    else if c == 13 then Some('r' as int)
    else if c < 0x20 then Some(LOWER_U)
    else None
  }

  function EscapedByte(c: Byte): (r: Bytes)
    ensures r != []
  {
    match EscapeClass(c)
    case None => [c]
    case Some(e) =>
      if e == LOWER_U then [BACKSLASH, e, '0' as int, '0' as int, HexDigit(c / 16), HexDigit(c % 16)]
      else [BACKSLASH, e]
  }

  function JsonEscaped(s: Bytes): Bytes {
    if s == [] then [] else JsonEscaped(s[..|s| - 1]) + EscapedByte(s[|s| - 1])
  }

  /** The escapes by the codes of their characters: a control byte without a letter has four
      digits, two of them zero. */
  lemma EscapeTable(c: Byte)
    ensures EscapedByte(c) ==
      if c == 0x22 || c == 0x5C then [0x5C, c]
      else if c == 0x08 then [0x5C, 0x62]
      else if c == 0x09 then [0x5C, 0x74]
      else if c == 0x0A then [0x5C, 0x6E]
      else if c == 0x0C then [0x5C, 0x66]
      else if c == 0x0D then [0x5C, 0x72]
      else if c < 0x10 then [0x5C, 0x75, 0x30, 0x30, 0x30, if c < 0x0A then 0x30 + c else 0x37 + c]
      else if c < 0x20 then [0x5C, 0x75, 0x30, 0x30, 0x31, if c < 0x1A then 0x20 + c else 0x27 + c]
      else [c]
  {
  }

  lemma Quoted(out: Bytes, text: Bytes)
    ensures out + [QUOTE] + text + [QUOTE] == out + ([QUOTE] + text + [QUOTE])
  {
  }

  lemma EscapedNothing()
    ensures JsonEscaped([]) == []
  {
  }

  lemma EscapedStep(s: Bytes, i: nat)
    requires i < |s|
    ensures JsonEscaped(s[..i + 1]) == JsonEscaped(s[..i]) + EscapedByte(s[i])
  {
    assert s[..i + 1][..i] == s[..i];
  }

  function StringText(s: Bytes): Bytes {
    [QUOTE] + JsonEscaped(s) + [QUOTE]
  }

  // ----- the machine -----

  datatype Level = Level(inArray: bool, valueCount: nat)

  datatype Written = Written(out: Bytes, levels: seq<Level>, hasRoot: bool)

  /** `Prefix`: the separator a value or name needs, and its count. */
  function Separated(w: Written): Written {
    if w.levels == [] then w.(hasRoot := true)
    else
      var n := |w.levels| - 1;
      var top := w.levels[n];
      var separator :=
        if top.valueCount == 0 then []
        else if top.inArray || top.valueCount % 2 == 0 then [COMMA] else [COLON];
      w.(out := w.out + separator, levels := w.levels[n := top.(valueCount := top.valueCount + 1)])
  }

  function Put(w: Written, text: Bytes): Written {
    w.(out := w.out + text)
  }

  function Push(w: Written, inArray: bool): Written {
    w.(levels := w.levels + [Level(inArray, 0)])
  }

  function Pop(w: Written): Written {
    if w.levels == [] then w else w.(levels := w.levels[..|w.levels| - 1])
  }

  function WordOf(e: Event): Bytes
    requires IsScalarEvent(e)
  {
    match e
    case NullEv => NULL_TEXT
    case BoolEv(b) => if b then TRUE_TEXT else FALSE_TEXT
    case IntEv(i) => IntText(i)
    case UintEv(u) => IntText(u)
    case Int64Ev(i) => IntText(i)
    case Uint64Ev(u) => IntText(u)
    case DoubleEv(image) => image
    case StringEv(s) => StringText(s)
  }

  function Step(w: Written, e: Event): Written {
    match e
    case StartObjectEv => Put(Push(Separated(w), false), [OPEN_BRACE])
    case StartArrayEv => Put(Push(Separated(w), true), [OPEN_BRACKET])
    case KeyEv(s) => Put(Separated(w), StringText(s))
    case EndObjectEv(_) => Put(Pop(w), [CLOSE_BRACE])
    case EndArrayEv(_) => Put(Pop(w), [CLOSE_BRACKET])
    case NullEv => Put(Separated(w), WordOf(e))
    case BoolEv(_) => Put(Separated(w), WordOf(e))
    case IntEv(_) => Put(Separated(w), WordOf(e))
    case UintEv(_) => Put(Separated(w), WordOf(e))
    case Int64Ev(_) => Put(Separated(w), WordOf(e))
    case Uint64Ev(_) => Put(Separated(w), WordOf(e))
    case DoubleEv(_) => Put(Separated(w), WordOf(e))
    case StringEv(_) => Put(Separated(w), WordOf(e))
  }

  function Run(w: Written, es: seq<Event>): Written {
    if es == [] then w else Step(Run(w, es[..|es| - 1]), es[|es| - 1])
  }

  lemma {:induction false} RunAppend(w: Written, a: seq<Event>, b: seq<Event>)
    ensures Run(w, a + b) == Run(Run(w, a), b)
  {
    hide Step;
    if b == [] {
      assert a + b == a;
    } else {
      var n := |b| - 1;
      assert (a + b)[..|a| + n] == a + b[..n];
      RunAppend(w, a, b[..n]);
    }
  }

  lemma RunOne(w: Written, e: Event)
    ensures Run(w, [e]) == Step(w, e)
  {
    assert [e][..0] == [];
  }

  // ----- JSON text of a value -----

  /** The JSON text of a value, without white space. */
  function TextOf(j: Value): (t: Bytes)
    decreases j, 1
  {
    match j
    case Null => NULL_TEXT
    case Bool(b) => if b then TRUE_TEXT else FALSE_TEXT
    case Number(n) => IntText(n)
    case Double(image) => image
    case String(s) => StringText(s)
    case Array(es) => [OPEN_BRACKET] + ElementsText(j, |es|) + [CLOSE_BRACKET]
    case Object(ms) => [OPEN_BRACE] + MembersText(j, |ms|) + [CLOSE_BRACE]
  }

  /** The first `k` elements, separated by commas. */
  function ElementsText(j: Value, k: nat): Bytes
    requires j.Array? && k <= |j.es|
    decreases j, 0, k
  {
    if k == 0 then []
    else ElementsText(j, k - 1) + (if k == 1 then [] else [COMMA]) + TextOf(j.es[k - 1])
  }

  /** The first `k` members, names and values separated by colons. */
  function MembersText(j: Value, k: nat): Bytes
    requires j.Object? && k <= |j.ms|
    decreases j, 0, k
  {
    if k == 0 then []
    else
      MembersText(j, k - 1) + (if k == 1 then [] else [COMMA]) + StringText(j.ms[k - 1].name) + [COLON]
      + TextOf(j.ms[k - 1].value)
  }

  // ----- the machine inside a level -----

  /** A state whose innermost level has `count` values, which have added `text`. */
  function Counted(w: Written, count: nat, text: Bytes): Written
    requires w.levels != []
  {
    var n := |w.levels| - 1;
    w.(out := w.out + text, levels := w.levels[n := w.levels[n].(valueCount := count)])
  }

  predicate JustOpened(w: Written, inArray: bool) {
    w.levels != [] && w.levels[|w.levels| - 1] == Level(inArray, 0)
  }

  lemma PutCounted(w: Written, count: nat, text: Bytes, more: Bytes)
    requires w.levels != []
    ensures Put(Counted(w, count, text), more) == Counted(w, count, text + more)
  {
    assert w.out + text + more == w.out + (text + more);
  }

  function Separator(inArray: bool, count: nat): Bytes {
    if count == 0 then [] else if inArray || count % 2 == 0 then [COMMA] else [COLON]
  }

  lemma PrefixCounted(w: Written, inArray: bool, count: nat, text: Bytes)
    requires JustOpened(w, inArray)
    ensures Separated(Counted(w, count, text)) == Counted(w, count + 1, text + Separator(inArray, count))
  {
    assert w.out + text + Separator(inArray, count) == w.out + (text + Separator(inArray, count));
  }

  lemma NothingCounted(w: Written, inArray: bool)
    requires JustOpened(w, inArray)
    ensures Counted(w, 0, []) == w
  {
    assert w.out + [] == w.out;
  }

  /** A level that has been filled is closed again. */
  lemma Closes(w: Written, inArray: bool, count: nat, open: Byte, text: Bytes, close: Byte)
    ensures var inside := Put(Push(w, inArray), [open]);
      JustOpened(inside, inArray) && Put(Pop(Counted(inside, count, text)), [close]) == Put(w, [open] + text + [close])
  {
    var inside := Put(Push(w, inArray), [open]);
    assert Counted(inside, count, text).levels[..|w.levels|] == w.levels;
    assert w.out + [open] + text + [close] == w.out + ([open] + text + [close]);
  }

  // ----- the machine prints the text -----

  /** Whatever level a value is written at, its events add the separator and its text. */
  lemma {:induction false} WritesValue(w: Written, j: Value)
    ensures Run(w, Events(j)) == Put(Separated(w), TextOf(j))
    decreases j, 1
  {
    match j
    case Array(es) => WritesArray(w, j);
    case Object(ms) => WritesObject(w, j);
    case Null => RunOne(w, Events(j)[0]);
    case Bool(_) => RunOne(w, Events(j)[0]);
    case Number(_) => RunOne(w, Events(j)[0]);
    case Double(_) => RunOne(w, Events(j)[0]);
    case String(_) => RunOne(w, Events(j)[0]);
  }

  lemma {:induction false} WritesArray(w: Written, j: Value)
    requires j.Array?
    ensures Run(w, Events(j)) == Put(Separated(w), TextOf(j))
    decreases j, 0, |j.es|, 1
  {
    var n := |j.es|;
    var inside := Step(w, StartArrayEv);
    Closes(Separated(w), true, n, OPEN_BRACKET, ElementsText(j, n), CLOSE_BRACKET);
    RunBetween(w, StartArrayEv, ElementEvents(j, n), EndArrayEv(n));
    WritesElements(inside, j, n);
    assert TextOf(j) == [OPEN_BRACKET] + ElementsText(j, n) + [CLOSE_BRACKET];
    assert Events(j) == [StartArrayEv] + ElementEvents(j, n) + [EndArrayEv(n)];
    hide TextOf, Events, ElementsText, ElementEvents, Run, Separated, Counted, Put, Push, Pop;
  }

  lemma {:induction false} WritesObject(w: Written, j: Value)
    requires j.Object?
    ensures Run(w, Events(j)) == Put(Separated(w), TextOf(j))
    decreases j, 0, |j.ms|, 1
  {
    var n := |j.ms|;
    var inside := Step(w, StartObjectEv);
    Closes(Separated(w), false, 2 * n, OPEN_BRACE, MembersText(j, n), CLOSE_BRACE);
    RunBetween(w, StartObjectEv, MemberEvents(j, n), EndObjectEv(n));
    WritesMembers(inside, j, n);
    assert TextOf(j) == [OPEN_BRACE] + MembersText(j, n) + [CLOSE_BRACE];
    assert Events(j) == [StartObjectEv] + MemberEvents(j, n) + [EndObjectEv(n)];
    hide TextOf, Events, MembersText, MemberEvents, Run, Separated, Counted, Put, Push, Pop;
  }

  lemma RunBetween(w: Written, start: Event, es: seq<Event>, end: Event)
    ensures Run(w, [start] + es + [end]) == Step(Run(Step(w, start), es), end)
  {
    RunOne(w, start);
    RunAppend(w, [start], es);
    RunLast(w, [start] + es, end);
  }

  lemma RunLast(w: Written, es: seq<Event>, e: Event)
    ensures Run(w, es + [e]) == Step(Run(w, es), e)
  {
    assert (es + [e])[..|es|] == es;
  }

  lemma {:induction false} WritesElements(w: Written, j: Value, k: nat)
    requires j.Array? && k <= |j.es| && JustOpened(w, true)
    ensures Run(w, ElementEvents(j, k)) == Counted(w, k, ElementsText(j, k))
    decreases j, 0, k, 0
  {
    hide *;
    if k == 0 {
      WritesNoElements(w, j);
    } else {
      var e := j.es[k - 1];
      var text := ElementsText(j, k - 1);
      ElementsStep(j, k);
      ElementEventsStep(j, k);
      JustOpenedLevels(w, true);
      WritesElements(w, j, k - 1);
      WritesValue(Counted(w, k - 1, text), e);
      RunAppend(w, ElementEvents(j, k - 1), Events(e));
      PrefixCounted(w, true, k - 1, text);
      PutCounted(w, k, text + Separator(true, k - 1), TextOf(e));
    }
  }

  lemma WritesNoElements(w: Written, j: Value)
    requires j.Array? && JustOpened(w, true)
    ensures Run(w, ElementEvents(j, 0)) == Counted(w, 0, ElementsText(j, 0))
  {
    NothingCounted(w, true);
  }

  lemma ElementEventsStep(j: Value, k: nat)
    requires j.Array? && 0 < k <= |j.es|
    ensures ElementEvents(j, k) == ElementEvents(j, k - 1) + Events(j.es[k - 1])
  {
  }

  lemma JustOpenedLevels(w: Written, inArray: bool)
    requires JustOpened(w, inArray)
    ensures w.levels != []
  {
  }

  lemma {:induction false} WritesMembers(w: Written, j: Value, k: nat)
    requires j.Object? && k <= |j.ms| && JustOpened(w, false)
    ensures Run(w, MemberEvents(j, k)) == Counted(w, 2 * k, MembersText(j, k))
    decreases j, 0, k, 0
  {
    if k == 0 { WritesNoMembers(w, j); } else { WritesLastMember(w, j, k); }
  }

  lemma WritesNoMembers(w: Written, j: Value)
    requires j.Object? && JustOpened(w, false)
    ensures Run(w, MemberEvents(j, 0)) == Counted(w, 0, MembersText(j, 0))
  {
    NothingCounted(w, false);
  }

  lemma {:induction false} WritesLastMember(w: Written, j: Value, k: nat)
    requires j.Object? && 0 < k <= |j.ms| && JustOpened(w, false)
    ensures Run(w, MemberEvents(j, k)) == Counted(w, 2 * k, MembersText(j, k))
    decreases j, 0, k - 1, 2
  {
    hide *;
    MembersStep(j, k);
    MemberEventsStep(j, k);
    WritesMembers(w, j, k - 1);
    WritesMember(w, j, k, MembersText(j, k - 1));
    RunAppend(w, MemberEvents(j, k - 1), [KeyEv(j.ms[k - 1].name)] + Events(j.ms[k - 1].value));
  }

  lemma MembersStep(j: Value, k: nat)
    requires j.Object? && 0 < k <= |j.ms|
    ensures var m := j.ms[k - 1];
      MembersText(j, k) == MembersText(j, k - 1) + Separator(false, 2 * k - 2) + StringText(m.name) + [COLON] + TextOf(m.value)
  {
    hide TextOf, StringText;
  }

  lemma MemberEventsStep(j: Value, k: nat)
    requires j.Object? && 0 < k <= |j.ms|
    ensures MemberEvents(j, k) == MemberEvents(j, k - 1) + ([KeyEv(j.ms[k - 1].name)] + Events(j.ms[k - 1].value))
  {
    var m := j.ms[k - 1];
    assert MemberEvents(j, k) == MemberEvents(j, k - 1) + [KeyEv(m.name)] + Events(m.value);
    hide Events;
  }

  /** A name and its value after `k - 1` members, which have added `text`. */
  lemma {:induction false} WritesMember(w: Written, j: Value, k: nat, text: Bytes)
    requires j.Object? && 0 < k <= |j.ms| && JustOpened(w, false)
    ensures var m := j.ms[k - 1];
      Run(Counted(w, 2 * k - 2, text), [KeyEv(m.name)] + Events(m.value)) ==
      Counted(w, 2 * k, text + Separator(false, 2 * k - 2) + StringText(m.name) + [COLON] + TextOf(m.value))
    decreases j, 0, k - 1, 1
  {
    var m := j.ms[k - 1];
    var before := Counted(w, 2 * k - 2, text);
    var named := text + Separator(false, 2 * k - 2) + StringText(m.name);
    assert Separator(false, 2 * k - 1) == [COLON];
    WritesName(w, 2 * k - 2, text, m.name);
    RunOne(before, KeyEv(m.name));
    hide *;
    RunAppend(before, [KeyEv(m.name)], Events(m.value));
    WritesValue(Counted(w, 2 * k - 1, named), m.value);
    PrefixCounted(w, false, 2 * k - 1, named);
    PutCounted(w, 2 * k, named + [COLON], TextOf(m.value));
  }

  lemma WritesName(w: Written, count: nat, text: Bytes, name: Bytes)
    requires JustOpened(w, false)
    ensures Step(Counted(w, count, text), KeyEv(name)) ==
            Put(Separated(Counted(w, count, text)), StringText(name)) ==
            Counted(w, count + 1, text + Separator(false, count) + StringText(name))
  {
    PrefixCounted(w, false, count, text);
    PutCounted(w, count + 1, text + Separator(false, count), StringText(name));
  }

  // ----- the writer itself -----

  class Writer {
    const os_: OutputStream
    var level_stack_: seq<Level>
    var hasRoot_: bool

    constructor (os: OutputStream)
      ensures os_ == os && level_stack_ == [] && !hasRoot_
    {
      os_ := os;
      level_stack_, hasRoot_ := [], false;
    }

    ghost function State(): Written
      reads this, os_
    {
      Written(os_.out, level_stack_, hasRoot_)
    }

    /** What the writer asserts of a value or, when `isName`, of a name: one root only, and
        a name wherever an object expects one. */
    ghost predicate Expects(isName: bool)
      reads this
    {
      if level_stack_ == [] then !hasRoot_
      else
        var top := level_stack_[|level_stack_| - 1];
        !top.inArray && top.valueCount % 2 == 0 ==> isName
    }

    method Prefix(ghost isName: bool)
      requires Expects(isName)
      modifies this, os_
      ensures State() == Separated(old(State()))
    {
      if level_stack_ != [] {
        var n := |level_stack_| - 1;
        var level := level_stack_[n];
        if level.valueCount > 0 {
          if level.inArray { os_.Put(COMMA); }
          else { os_.Put(if level.valueCount % 2 == 0 then COMMA else COLON); }
        }
        level_stack_ := level_stack_[n := level.(valueCount := level.valueCount + 1)];
      } else {
        hasRoot_ := true;
      }
    }

    /** Text that needs no escaping: names, numbers and brackets. */
    method WriteText(text: Bytes)
      modifies os_
      ensures State() == Put(old(State()), text)
    {
      var i := 0;
      while i < |text|
        invariant 0 <= i <= |text| && os_.out == old(os_.out) + text[..i]
      {
        os_.Put(text[i]);
        i := i + 1;
      }
    }

    /** One byte of a string, escaped when the table says so. */
    method WriteByte(c: Byte)
      modifies os_
      ensures os_.out == old(os_.out) + EscapedByte(c)
    {
      var class_ := EscapeClass(c);
      if class_.Some? {
        os_.Put(BACKSLASH);
        os_.Put(class_.value);
        if class_.value == LOWER_U {
          os_.Put('0' as int);
          os_.Put('0' as int);
          os_.Put(HexDigit(c / 16));
          os_.Put(HexDigit(c % 16));
        }
      } else {
        os_.Put(c);
      }
    }

    method WriteString(s: Bytes)
      modifies os_
      ensures State() == Put(old(State()), StringText(s))
    {
      os_.Put(QUOTE);
      ghost var start := os_.out;
      var i := 0;
      hide EscapedByte, JsonEscaped;
      assert s[..0] == [] && JsonEscaped([]) == [] by { EscapedNothing(); }
      while i < |s|
        invariant 0 <= i <= |s| && os_.out == start + JsonEscaped(s[..i])
      {
        WriteByte(s[i]);
        EscapedStep(s, i);
        i := i + 1;
      }
      assert s[..i] == s;
      os_.Put(QUOTE);
      Quoted(old(os_.out), JsonEscaped(s));
    }

    /** `Null`, `Bool`, `Int`, `Uint`, `Int64`, `Uint64` and `Double`. */
    method Scalar(word: Bytes)
      requires Expects(false)
      modifies this, os_
      ensures State() == Put(Separated(old(State())), word)
    {
      Prefix(false);
      WriteText(word);
    }

    method String(s: Bytes, ghost isName: bool)
      requires Expects(isName)
      modifies this, os_
      ensures State() == Put(Separated(old(State())), StringText(s))
    {
      Prefix(isName);
      WriteString(s);
    }

    /** `StartObject` and `StartArray`. */
    method Start(inArray: bool, bracket: Byte)
      requires Expects(false)
      modifies this, os_
      ensures State() == Put(Push(Separated(old(State())), inArray), [bracket])
    {
      Prefix(false);
      level_stack_ := level_stack_ + [Level(inArray, 0)];
      os_.Put(bracket);
    }

    /** `EndObject` and `EndArray`. */
    method End(inArray: bool, bracket: Byte)
      requires level_stack_ != []
      requires var top := level_stack_[|level_stack_| - 1];
        top.inArray == inArray && (!inArray ==> top.valueCount % 2 == 0)
      modifies this, os_
      ensures State() == Put(Pop(old(State())), [bracket])
    {
      level_stack_ := level_stack_[..|level_stack_| - 1];
      os_.Put(bracket);
    }
  }

  // ----- `Accept` -----

  /** `Accept` of a value into a writer that expects one: the separator and the value's
      text, with the levels as they were. */
  method Accept(j: Value, w: Writer)
    requires w.Expects(false)
    modifies w, w.os_
    ensures w.State() == Put(Separated(old(w.State())), TextOf(j))
    decreases j, 1
  {
    match j
    case Null => w.Scalar(NULL_TEXT);
    case Bool(b) => w.Scalar(if b then TRUE_TEXT else FALSE_TEXT);
    case Number(n) => w.Scalar(IntText(n));
    case Double(image) => w.Scalar(image);
    case String(s) => w.String(s, false);
    case Array(es) => AcceptArray(j, w);
    case Object(ms) => AcceptObject(j, w);
  }

  method AcceptArray(j: Value, w: Writer)
    requires j.Array? && w.Expects(false)
    modifies w, w.os_
    ensures w.State() == Put(Separated(old(w.State())), TextOf(j))
    decreases j, 0
  {
    ghost var before := Separated(w.State());
    w.Start(true, OPEN_BRACKET);
    ghost var inside := w.State();
    Closes(before, true, |j.es|, OPEN_BRACKET, ElementsText(j, |j.es|), CLOSE_BRACKET);
    NothingCounted(inside, true);
    hide TextOf, ElementsText, Separated, Put, Push, Pop;
    EmptyText(j);
    var i := 0;
    while i < |j.es|
      invariant 0 <= i <= |j.es| && JustOpened(inside, true)
      invariant w.State() == Counted(inside, i, ElementsText(j, i))
    {
      ghost var text := ElementsText(j, i);
      PrefixCounted(inside, true, i, text);
      PutCounted(inside, i + 1, text + Separator(true, i), TextOf(j.es[i]));
      ElementsStep(j, i + 1);
      Accept(j.es[i], w);
      i := i + 1;
    }
    w.End(true, CLOSE_BRACKET);
    ContainerText(j);
  }

  method AcceptObject(j: Value, w: Writer)
    requires j.Object? && w.Expects(false)
    modifies w, w.os_
    ensures w.State() == Put(Separated(old(w.State())), TextOf(j))
    decreases j, 0, 1
  {
    hide TextOf, MembersText, Separated, Put, Push, Pop, StringText, Separator, ElementsText, JsonEscaped;
    ghost var before := Separated(w.State());
    w.Start(false, OPEN_BRACE);
    ghost var inside := w.State();
    Closes(before, false, 2 * |j.ms|, OPEN_BRACE, MembersText(j, |j.ms|), CLOSE_BRACE);
    NothingCounted(inside, false);
    EmptyText(j);
    var i := 0;
    while i < |j.ms|
      invariant 0 <= i <= |j.ms| && JustOpened(inside, false)
      invariant w.State() == Counted(inside, 2 * i, MembersText(j, i))
    {
      AcceptMember(j, i, w, inside);
      i := i + 1;
    }
    ColonAfterName(i);
    w.End(false, CLOSE_BRACE);
    ContainerText(j);
  }

  lemma ColonAfterName(i: nat)
    ensures Separator(false, 2 * i + 1) == [COLON] && (2 * i) % 2 == 0 && (2 * i + 1) % 2 == 1
  {
  }

  /** A member: its name, then its value. */
  method AcceptMember(j: Value, i: nat, w: Writer, ghost inside: Written)
    requires j.Object? && i < |j.ms| && JustOpened(inside, false)
    requires w.State() == Counted(inside, 2 * i, MembersText(j, i))
    modifies w, w.os_
    ensures w.State() == Counted(inside, 2 * i + 2, MembersText(j, i + 1))
    decreases j, 0, 0
  {
    hide TextOf, MembersText, StringText, Separator, Step, Put, Separated;
    ghost var text := MembersText(j, i);
    ghost var named := text + Separator(false, 2 * i) + StringText(j.ms[i].name);
    MembersStep(j, i + 1);
    ColonAfterName(i);
    WritesName(inside, 2 * i, text, j.ms[i].name);
    w.String(j.ms[i].name, true);
    PrefixCounted(inside, false, 2 * i + 1, named);
    PutCounted(inside, 2 * i + 2, named + [COLON], TextOf(j.ms[i].value));
    Accept(j.ms[i].value, w);
  }

  lemma ElementsStep(j: Value, k: nat)
    requires j.Array? && 0 < k <= |j.es|
    ensures ElementsText(j, k) == ElementsText(j, k - 1) + Separator(true, k - 1) + TextOf(j.es[k - 1])
  {
    hide TextOf;
  }

  lemma EmptyText(j: Value)
    ensures j.Array? ==> ElementsText(j, 0) == []
    ensures j.Object? ==> MembersText(j, 0) == []
  {
  }

  lemma ContainerText(j: Value)
    ensures j.Array? ==> TextOf(j) == [OPEN_BRACKET] + ElementsText(j, |j.es|) + [CLOSE_BRACKET]
    ensures j.Object? ==> TextOf(j) == [OPEN_BRACE] + MembersText(j, |j.ms|) + [CLOSE_BRACE]
  {
  }
}
