/** The texts of JSON, by the grammar of RFC 8259, and the values they stand for. */
module JsonTexts {
  import opened Common
  import opened Json
  import opened NumberGrammar
  import opened Tokens
  import opened Utf8
  import Documents
  import Grammar
  import ParserEquivalence

  // ----- the grammar -----

  /** Section 2: space, horizontal tab, line feed and carriage return. */
  predicate IsWhite(t: Bytes) {
    forall i | 0 <= i < |t| :: t[i] == 0x20 || t[i] == 0x09 || t[i] == 0x0A || t[i] == 0x0D
  }

  /** Section 7: a character for itself, a short escape, four hexadecimal digits, or twice four
      for the surrogate pair of a character beyond the basic plane. */
  datatype Char = Itself(c: Byte) | Short(letter: Byte) | Unicode(digits: Bytes) | Pair(high: Bytes, low: Bytes)

  /** The byte behind a backslash and the byte it stands for. */
  function ShortByte(letter: Byte): Option<Byte> {
    if letter == 0x22 then Some(0x22)
    else if letter == 0x5C then Some(0x5C)
    else if letter == 0x2F then Some(0x2F)
    else if letter == 0x62 then Some(0x08)
    else if letter == 0x66 then Some(0x0C)
    else if letter == 0x6E then Some(0x0A)
    else if letter == 0x72 then Some(0x0D)
    else if letter == 0x74 then Some(0x09)
    else None
  }

  predicate IsHex4(t: Bytes) {
    |t| == 4 && forall i | 0 <= i < 4 :: HexDigitValue(t[i]).Some?
  }

  function Hex4Value(t: Bytes): (n: nat)
    requires IsHex4(t)
    ensures n < 0x10000
  {
    ((HexDigitValue(t[0]).value * 16 + HexDigitValue(t[1]).value) * 16 + HexDigitValue(t[2]).value) * 16
    + HexDigitValue(t[3]).value
  }

  /** The bytes of a string may be any from the space on but quote and backslash, and no half
      of a surrogate pair stands alone. */
  predicate IsChar(c: Char) {
    match c
    case Itself(b) => b >= 0x20 && b != 0x22 && b != 0x5C
    case Short(letter) => ShortByte(letter).Some?
    case Unicode(digits) => IsHex4(digits) && !(0xD800 <= Hex4Value(digits) <= 0xDFFF)
    case Pair(high, low) =>
      && IsHex4(high) && 0xD800 <= Hex4Value(high) <= 0xDBFF
      && IsHex4(low) && 0xDC00 <= Hex4Value(low) <= 0xDFFF
  }

  function CharText(c: Char): Bytes {
    match c
    case Itself(b) => [b]
    case Short(letter) => [0x5C, letter]
    case Unicode(digits) => [0x5C, 0x75] + digits
    case Pair(high, low) => [0x5C, 0x75] + high + ([0x5C, 0x75] + low)
  }

  function CharBytes(c: Char): Bytes
    requires IsChar(c)
  {
    match c
    case Itself(b) => [b]
    case Short(letter) => [ShortByte(letter).value]
    case Unicode(digits) => Encoded(Hex4Value(digits))
    case Pair(high, low) => Encoded(0x10000 + (Hex4Value(high) - 0xD800) * 0x400 + (Hex4Value(low) - 0xDC00))
  }

  predicate AreChars(cs: seq<Char>) {
    forall i | 0 <= i < |cs| :: IsChar(cs[i])
  }

  function CharsText(cs: seq<Char>): Bytes {
    if cs == [] then [] else CharText(cs[0]) + CharsText(cs[1..])
  }

  function CharsBytes(cs: seq<Char>): Bytes
    requires AreChars(cs)
  {
    if cs == [] then []
    else
      assert IsChar(cs[0]);
      CharBytes(cs[0]) + CharsBytes(cs[1..])
  }

  function QuotedText(cs: seq<Char>): Bytes {
    [0x22] + CharsText(cs) + [0x22]
  }

  /** Section 3: a value as it is spelled. */
  datatype Spelling =
    | NullWord
    | TrueWord
    | FalseWord
    | NumberWord(n: Literal)
    | StringWord(cs: seq<Char>)
    | EmptyArray(white: Bytes)
    | ArrayOf(es: Elements)
    | EmptyObject(white: Bytes)
    | ObjectOf(ms: Members)

  /** Sections 4 and 5: with the white space around each of them. */
  datatype Elements = Elements(before: Bytes, value: Spelling, after: Bytes, more: Option<Elements>)

  datatype Members = Members(
    before: Bytes, name: seq<Char>, beforeColon: Bytes, afterColon: Bytes, value: Spelling, after: Bytes, more: Option<Members>)

  predicate IsSpelling(v: Spelling) {
    match v
    case NullWord => true
    case TrueWord => true
    case FalseWord => true
    case NumberWord(n) => IsNumber(n)
    case StringWord(cs) => AreChars(cs)
    case EmptyArray(white) => IsWhite(white)
    case ArrayOf(es) => AreElements(es)
    case EmptyObject(white) => IsWhite(white)
    case ObjectOf(ms) => AreMembers(ms)
  }

  predicate AreElements(e: Elements) {
    IsWhite(e.before) && IsSpelling(e.value) && IsWhite(e.after) && (e.more.Some? ==> AreElements(e.more.value))
  }

  predicate AreMembers(m: Members) {
    && IsWhite(m.before) && AreChars(m.name) && IsWhite(m.beforeColon) && IsWhite(m.afterColon)
    && IsSpelling(m.value) && IsWhite(m.after) && (m.more.Some? ==> AreMembers(m.more.value))
  }

  function TextOf(v: Spelling): Bytes
    decreases v, 0
  {
    match v
    case NullWord => Ascii("null")
    case TrueWord => Ascii("true")
    case FalseWord => Ascii("false")
    case NumberWord(n) => LiteralText(n)
    case StringWord(cs) => QuotedText(cs)
    case EmptyArray(white) => [0x5B] + white + [0x5D]
    case ArrayOf(es) => [0x5B] + ElementsText(es)
    case EmptyObject(white) => [0x7B] + white + [0x7D]
    case ObjectOf(ms) => [0x7B] + MembersText(ms)
  }

  function ElementsText(e: Elements): Bytes
    decreases e, 1
  {
    e.before + TextOf(e.value) + e.after + ElementsRest(e)
  }

  function ElementsRest(e: Elements): Bytes
    decreases e, 0
  {
    if e.more.None? then [0x5D] else [0x2C] + ElementsText(e.more.value)
  }

  function MembersText(m: Members): Bytes
    decreases m, 1
  {
    m.before + QuotedText(m.name) + m.beforeColon + [0x3A] + m.afterColon + TextOf(m.value) + m.after + MembersRest(m)
  }

  function MembersRest(m: Members): Bytes
    decreases m, 0
  {
    if m.more.None? then [0x7D] else [0x2C] + MembersText(m.more.value)
  }

  // ----- what a spelling stands for -----

  /** An integer of 64 bits is itself, any other number the double its text is converted to. */
  function NumberTree(n: Literal, convert: Converter): Value
    requires IsNumber(n)
  {
    if IsInteger64(n) then Number(IntegerValue(n))
    else
      match convert(LiteralText(n))
      case Some(image) => Double(image)
      case None => Double([])
  }

  function TreeOf(v: Spelling, convert: Converter): Value
    requires IsSpelling(v)
  {
    match v
    case NullWord => Null
    case TrueWord => Bool(true)
    case FalseWord => Bool(false)
    case NumberWord(n) => NumberTree(n, convert)
    case StringWord(cs) => String(CharsBytes(cs))
    case EmptyArray(_) => Array([])
    case ArrayOf(es) => Array(ElementTrees(es, convert))
    case EmptyObject(_) => Object([])
    case ObjectOf(ms) => Object(MemberTrees(ms, convert))
  }

  function ElementTrees(e: Elements, convert: Converter): seq<Value>
    requires AreElements(e)
  {
    [TreeOf(e.value, convert)] + if e.more.None? then [] else ElementTrees(e.more.value, convert)
  }

  function MemberTrees(m: Members, convert: Converter): seq<Member>
    requires AreMembers(m)
  {
    [Member(CharsBytes(m.name), TreeOf(m.value, convert))] + if m.more.None? then [] else MemberTrees(m.more.value, convert)
  }

  /** Every double of the spelling has a conversion. */
  predicate Converts(v: Spelling, convert: Converter)
    requires IsSpelling(v)
  {
    match v
    case NumberWord(n) => IsInteger64(n) || convert(LiteralText(n)).Some?
    case ArrayOf(es) => ElementsConvert(es, convert)
    case ObjectOf(ms) => MembersConvert(ms, convert)
    case _ => true
  }

  predicate ElementsConvert(e: Elements, convert: Converter)
    requires AreElements(e)
  {
    Converts(e.value, convert) && (e.more.Some? ==> ElementsConvert(e.more.value, convert))
  }

  predicate MembersConvert(m: Members, convert: Converter)
    requires AreMembers(m)
  {
    Converts(m.value, convert) && (m.more.Some? ==> MembersConvert(m.more.value, convert))
  }

  /** No number has an exponent above 308. */
  predicate Moderate(v: Spelling)
    requires IsSpelling(v)
  {
    match v
    case NumberWord(n) => NegativeExponent(n) || Exponent(n) <= 308
    case ArrayOf(es) => ElementsModerate(es)
    case ObjectOf(ms) => MembersModerate(ms)
    case _ => true
  }

  predicate ElementsModerate(e: Elements)
    requires AreElements(e)
  {
    Moderate(e.value) && (e.more.Some? ==> ElementsModerate(e.more.value))
  }

  predicate MembersModerate(m: Members)
    requires AreMembers(m)
  {
    Moderate(m.value) && (m.more.Some? ==> MembersModerate(m.more.value))
  }

  // ----- white space -----

  lemma NoSpace(s: Bytes, p: nat)
    requires !IsSpace(Peek(s, p))
    ensures SkipSpace(s, p) == p
  {
  }

  lemma SpaceIsWhite(c: Byte)
    ensures IsSpace(c) <==> IsWhite([c])
  {
    assert [c][0] == c;
  }

  lemma {:induction false} SkipsWhite(s: Bytes, p: nat, w: Bytes)
    requires IsWhite(w) && Sits(s, p, w) && !IsSpace(Peek(s, p + |w|))
    ensures SkipSpace(s, p) == p + |w|
    decreases |w|
  {
    if w != [] {
      SitsAt(s, p, w, 0);
      SpaceIsWhite(w[0]);
      assert s[p + 1..p + |w|] == s[p..p + |w|][1..] == w[1..];
      SkipsWhite(s, p + 1, w[1..]);
    }
  }

  lemma {:induction false} SkippedIsWhite(s: Bytes, p: nat)
    requires p <= |s|
    ensures p <= SkipSpace(s, p) <= |s| && IsWhite(s[p..SkipSpace(s, p)])
    decreases |s| - p
  {
    var q := SkipSpace(s, p);
    if p < q {
      SkippedIsWhite(s, p + 1);
      assert s[p..q] == [s[p]] + s[p + 1..q];
    }
  }

  // ----- strings -----

  lemma Hex4Reads(s: Bytes, p: nat, t: Bytes)
    requires IsHex4(t) && Sits(s, p, t)
    ensures Hex4(s, p) == Some(Hex4Value(t))
  {
    SitsAt(s, p, t, 0);
    SitsAt(s, p, t, 1);
    SitsAt(s, p, t, 2);
    SitsAt(s, p, t, 3);
    SameDigits(t[0]);
    SameDigits(t[1]);
    SameDigits(t[2]);
    SameDigits(t[3]);
    hide HexValue, HexDigitValue;
  }

  lemma Hex4Spelled(s: Bytes, p: nat)
    requires Hex4(s, p).Some?
    ensures p + 4 <= |s| && IsHex4(s[p..p + 4]) && Hex4(s, p) == Some(Hex4Value(s[p..p + 4]))
  {
    SameDigits(s[p]);
    SameDigits(s[p + 1]);
    SameDigits(s[p + 2]);
    SameDigits(s[p + 3]);
    hide HexValue, HexDigitValue;
  }

  lemma ShortIsEscape(letter: Byte)
    ensures ShortByte(letter) == EscapeOf(letter)
  {
  }

  lemma PlainReads(s: Bytes, i: nat, c: Char, acc: Bytes)
    requires IsChar(c) && (c.Itself? || c.Short?) && Sits(s, i, CharText(c))
    ensures StringFrom(s, i, acc) == StringFrom(s, i + |CharText(c)|, acc + CharBytes(c))
  {
    var t := CharText(c);
    SitsAt(s, i, t, 0);
    if c.Short? {
      SitsAt(s, i, t, 1);
      ShortIsEscape(c.letter);
    }
    hide EscapeOf, ShortByte, UnicodeEscape, Encoded, Sits;
  }

  lemma UnicodeReads(s: Bytes, i: nat, digits: Bytes)
    requires IsChar(Unicode(digits)) && Sits(s, i, CharText(Unicode(digits)))
    ensures Peek(s, i) == BACKSLASH && Peek(s, i + 1) == LOWER_U && |CharText(Unicode(digits))| == 6
    ensures UnicodeEscape(s, i) == (Some(Hex4Value(digits)), ValueInvalid, i + 6)
  {
    hide Hex4Value, Hex4, HexDigitValue;
    SitsAt(s, i, CharText(Unicode(digits)), 0);
    SitsAt(s, i, CharText(Unicode(digits)), 1);
    SitsBoth(s, i, [0x5C, 0x75], digits);
    Hex4Reads(s, i + 2, digits);
  }

  lemma PairReads(s: Bytes, i: nat, high: Bytes, low: Bytes)
    requires IsChar(Pair(high, low)) && Sits(s, i, CharText(Pair(high, low)))
    ensures Peek(s, i) == BACKSLASH && Peek(s, i + 1) == LOWER_U && |CharText(Pair(high, low))| == 12
    ensures UnicodeEscape(s, i) ==
            (Some(0x10000 + (Hex4Value(high) - 0xD800) * 0x400 + (Hex4Value(low) - 0xDC00)), ValueInvalid, i + 12)
  {
    hide Hex4Value, Hex4, HexDigitValue;
    SitsAt(s, i, CharText(Pair(high, low)), 0);
    SitsAt(s, i, CharText(Pair(high, low)), 1);
    PairSits(s, i, high, low);
  }

  /** One character is read as the bytes it stands for. */
  lemma CharReads(s: Bytes, i: nat, c: Char, acc: Bytes)
    requires IsChar(c) && Sits(s, i, CharText(c))
    ensures StringFrom(s, i, acc) == StringFrom(s, i + |CharText(c)|, acc + CharBytes(c))
  {
    hide UnicodeEscape, Encoded, Hex4Value, StringFrom, HexDigitValue, Sits, CharText, IsHex4;
    if c.Unicode? {
      UnicodeReads(s, i, c.digits);
      EscapeRead(s, i, acc, 6, Hex4Value(c.digits));
    } else if c.Pair? {
      PairReads(s, i, c.high, c.low);
      EscapeRead(s, i, acc, 12, 0x10000 + (Hex4Value(c.high) - 0xD800) * 0x400 + (Hex4Value(c.low) - 0xDC00));
    } else {
      PlainReads(s, i, c, acc);
    }
  }

  lemma PairSits(s: Bytes, i: nat, high: Bytes, low: Bytes)
    requires IsChar(Pair(high, low)) && Sits(s, i, CharText(Pair(high, low)))
    ensures |CharText(Pair(high, low))| == 12 && i + 12 <= |s|
    ensures Hex4(s, i + 2) == Some(Hex4Value(high)) && Hex4(s, i + 8) == Some(Hex4Value(low))
    ensures Peek(s, i + 6) == BACKSLASH && Peek(s, i + 7) == LOWER_U
  {
    SitsBoth(s, i, [0x5C, 0x75] + high, [0x5C, 0x75] + low);
    SitsBoth(s, i, [0x5C, 0x75], high);
    SitsBoth(s, i + 6, [0x5C, 0x75], low);
    SitsAt(s, i + 6, [0x5C, 0x75], 0);
    SitsAt(s, i + 6, [0x5C, 0x75], 1);
    Hex4Reads(s, i + 2, high);
    Hex4Reads(s, i + 8, low);
    hide Hex4Value, Hex4, HexDigitValue;
  }

  lemma EscapeRead(s: Bytes, i: nat, acc: Bytes, length: nat, cp: nat)
    requires Peek(s, i) == BACKSLASH && Peek(s, i + 1) == LOWER_U && cp <= 0x10FFFF
    requires var (point, code, next) := UnicodeEscape(s, i); point == Some(cp) && next == i + length
    ensures StringFrom(s, i, acc) == StringFrom(s, i + length, acc + Encoded(cp))
  {
    hide UnicodeEscape, Encoded;
  }

  lemma {:induction false} CharsRead(s: Bytes, i: nat, cs: seq<Char>, acc: Bytes)
    requires AreChars(cs) && Sits(s, i, CharsText(cs)) && Peek(s, i + |CharsText(cs)|) == QUOTE
    ensures StringFrom(s, i, acc) == StringDone(acc + CharsBytes(cs), i + |CharsText(cs)| + 1)
    decreases |cs|
  {
    hide *;
    if cs == [] {
      NoChars();
      QuoteEnds(s, i, acc);
      assert acc + [] == acc;
    } else {
      var c, rest := cs[0], cs[1..];
      assert cs == [c] + rest;
      FirstChar(cs);
      CharsJoin(c, rest);
      SitsBoth(s, i, CharText(c), CharsText(rest));
      CharReads(s, i, c, acc);
      CharsRead(s, i + |CharText(c)|, rest, acc + CharBytes(c));
      Regrouped(acc, CharBytes(c), CharsBytes(rest));
    }
  }

  lemma FirstChar(cs: seq<Char>)
    requires AreChars(cs) && cs != []
    ensures IsChar(cs[0]) && AreChars(cs[1..])
  {
    hide IsChar;
  }

  lemma NoChars()
    ensures AreChars([]) && CharsText([]) == [] && CharsBytes([]) == []
  {
  }

  lemma CharsJoin(first: Char, rest: seq<Char>)
    requires IsChar(first) && AreChars(rest)
    ensures AreChars([first] + rest) && CharsText([first] + rest) == CharText(first) + CharsText(rest)
    ensures CharsBytes([first] + rest) == CharBytes(first) + CharsBytes(rest)
  {
    hide IsChar, CharText, CharBytes;
    assert ([first] + rest)[1..] == rest;
  }

  lemma StringReads(s: Bytes, p: nat, cs: seq<Char>, isKey: bool)
    requires AreChars(cs) && Sits(s, p, QuotedText(cs))
    ensures Peek(s, p) == QUOTE
    ensures StringAt(s, p, isKey) ==
            Done([if isKey then KeyEv(CharsBytes(cs)) else StringEv(CharsBytes(cs))], p + |QuotedText(cs)|)
  {
    hide CharsText, CharsBytes;
    var t := CharsText(cs);
    SitsAt(s, p, QuotedText(cs), 0);
    SitsAt(s, p, QuotedText(cs), 1 + |t|);
    SitsBoth(s, p, [0x22] + t, [0x22]);
    SitsBoth(s, p, [0x22], t);
    CharsRead(s, p + 1, cs, []);
    assert [] + CharsBytes(cs) == CharsBytes(cs);
    hide StringFrom;
  }

  /** What the loop reads are characters of the grammar. */
  lemma {:induction false} CharsSpelled(s: Bytes, i: nat, acc: Bytes) returns (cs: seq<Char>)
    requires StringFrom(s, i, acc).StringDone?
    ensures var end := StringFrom(s, i, acc).pos;
      i < end <= |s| && AreChars(cs) && s[i..end] == CharsText(cs) + [0x22]
    decreases |s| - i
  {
    hide *;
    var end := StringFrom(s, i, acc).pos;
    if Peek(s, i) == QUOTE {
      cs := [];
      NoChars();
      QuoteEnds(s, i, acc);
    } else {
      var first, next, more := CharSpelled(s, i, acc);
      var rest := CharsSpelled(s, next, more);
      cs := [first] + rest;
      CharsJoin(first, rest);
      assert s[i..end] == s[i..next] + s[next..end];
    }
  }

  lemma QuoteEnds(s: Bytes, i: nat, acc: Bytes)
    requires Peek(s, i) == QUOTE
    ensures i < |s| && StringFrom(s, i, acc) == StringDone(acc, i + 1) && s[i..i + 1] == [0x22]
  {
  }

  lemma CharSpelled(s: Bytes, i: nat, acc: Bytes) returns (c: Char, next: nat, more: Bytes)
    requires StringFrom(s, i, acc).StringDone? && Peek(s, i) != QUOTE
    ensures i < next <= |s| && IsChar(c) && CharText(c) == s[i..next]
    ensures StringFrom(s, i, acc) == StringFrom(s, next, more)
  {
    hide Encoded, Hex4, Hex4Value, HexDigitValue;
    if Peek(s, i) == BACKSLASH {
      var e := Peek(s, i + 1);
      if EscapeOf(e).Some? {
        c, next, more := Short(e), i + 2, acc + [EscapeOf(e).value];
      } else {
        var (cp, code, at) := UnicodeEscape(s, i);
        next, more := at, acc + Encoded(cp.value);
        c := EscapeSpelled(s, i);
      }
    } else {
      c, next, more := Itself(s[i]), i + 1, acc + [s[i]];
    }
  }

  lemma EscapeSpelled(s: Bytes, i: nat) returns (c: Char)
    requires Peek(s, i) == BACKSLASH && Peek(s, i + 1) == LOWER_U && UnicodeEscape(s, i).0.Some?
    ensures var next := UnicodeEscape(s, i).2; i < next <= |s| && IsChar(c) && CharText(c) == s[i..next]
  {
    hide Hex4, Hex4Value, HexDigitValue;
    Hex4Spelled(s, i + 2);
    var high := s[i + 2..i + 6];
    if UnicodeEscape(s, i).2 == i + 6 {
      c := Unicode(high);
      assert s[i..i + 6] == [s[i], s[i + 1]] + high;
    } else {
      Hex4Spelled(s, i + 8);
      var low := s[i + 8..i + 12];
      c := Pair(high, low);
      assert s[i..i + 12] == [s[i], s[i + 1]] + high + ([s[i + 6], s[i + 7]] + low);
    }
  }

  // ----- every text of the grammar is read -----

  /** What reading ends with: the events of the tree at the end of the text, or a number that
      has no conversion or an exponent above 308. */
  predicate Reads(r: Outcome, end: nat, es: seq<Event>, converts: bool, moderate: bool) {
    match r
    case Done(events, pos) => pos == end && Documents.CanonicalAll(events) == es && converts
    case Failed(_, code, _) => code == NumberTooBig && !(converts && moderate)
  }

  lemma ReadsPrefixed(first: seq<Event>, es: seq<Event>, rest: Outcome, end: nat, more: seq<Event>, converts: bool, moderate: bool, now: bool)
    requires Reads(rest, end, more, converts, moderate) && Documents.CanonicalAll(first) == es
    ensures Reads(Grammar.Prefixed(first, rest), end, es + more, converts, now && moderate)
  {
    Documents.CanonicalAppend(first, rest.events);
    hide Documents.CanonicalAll;
  }

  /** A byte behind which a value has ended. */
  predicate Follows(v: Spelling, c: Byte) {
    v.NumberWord? ==> !Continues(v.n, c)
  }

  predicate Delimits(c: Byte) {
    IsSpace(c) || c == 0x2C || c == 0x5D || c == 0x7D
  }

  lemma DelimiterFollows(v: Spelling, c: Byte)
    requires Delimits(c)
    ensures Follows(v, c)
  {
  }

  lemma EndFollows(v: Spelling)
    ensures Follows(v, 0)
  {
  }

  /** How a value can begin. */
  lemma TextBegins(v: Spelling)
    requires IsSpelling(v)
    ensures var t := TextOf(v);
      t != [] && !IsSpace(t[0]) && t[0] != 0 && t[0] != CLOSE_BRACKET && t[0] != CLOSE_BRACE
    ensures v.NumberWord? ==> IsDigit(TextOf(v)[0]) || TextOf(v)[0] == MINUS
  {
    hide ElementsText, MembersText, CharsText;
  }

  lemma NumberReads(s: Bytes, p: nat, v: Spelling, convert: Converter)
    requires v.NumberWord? && IsSpelling(v) && Sits(s, p, TextOf(v)) && Follows(v, Peek(s, p + |TextOf(v)|))
    ensures Reads(Grammar.ValueAt(s, p, convert), p + |TextOf(v)|, Events(TreeOf(v, convert)), Converts(v, convert), Moderate(v))
  {
    NumberSits(s, p, v);
    hide *;
    var folded := NumberComplete(s, p, v.n, convert);
    TextBegins(v);
    SitsAt(s, p, TextOf(v), 0);
    NumberLooked(s, p, convert);
    NumberIsRead(v.n, p, p + |TextOf(v)|, folded, convert);
  }

  lemma NumberSits(s: Bytes, p: nat, v: Spelling)
    requires v.NumberWord? && IsSpelling(v) && Sits(s, p, TextOf(v)) && Follows(v, Peek(s, p + |TextOf(v)|))
    ensures IsNumber(v.n) && TextOf(v) == LiteralText(v.n) && !Continues(v.n, Peek(s, p + |LiteralText(v.n)|))
    ensures p + |LiteralText(v.n)| <= |s| && s[p..p + |LiteralText(v.n)|] == LiteralText(v.n)
  {
    hide IsNumber, LiteralText, Continues;
  }

  lemma NumberLooked(s: Bytes, p: nat, convert: Converter)
    requires p < |s| && (IsDigit(s[p]) || s[p] == MINUS)
    ensures Grammar.ValueAt(s, p, convert) == NumberAt(s, p, convert)
  {
    hide NumberAt;
  }

  lemma NumberIsRead(n: Literal, p: nat, end: nat, folded: nat, convert: Converter)
    requires IsNumber(n)
    ensures var v := NumberWord(n);
      Reads(ReadsAs(n, p, end, folded, convert), end, Events(TreeOf(v, convert)), Converts(v, convert), Moderate(v))
  {
    hide LiteralText, Exponent;
    var r := ReadsAs(n, p, end, folded, convert);
    if r.Done? {
      Documents.CanonicalOne(r.events[0]);
      assert r.events == [r.events[0]];
      if IsInteger64(n) { IntegerIsTree(n.minus, DecValue(n.int_)); }
    }
    hide DecValue, Documents.CanonicalAll, Documents.Canonical, IntegerEvent, NumberEvent;
  }

  lemma IntegerIsTree(minus: bool, n: nat)
    requires -0x8000_0000_0000_0000 <= (if minus then -(n as int) else n) <= 0xFFFF_FFFF_FFFF_FFFF
    ensures Documents.Canonical(IntegerEvent(minus, n)) == NumberEvent(if minus then -(n as int) else n)
  {
  }

  lemma NameReads(s: Bytes, p: nat, word: Bytes, e: Event)
    requires Sits(s, p, word)
    ensures NameAt(s, p, word, e) == Done([e], p + |word|)
  {
    MatchesAll(s, p, word);
  }

  lemma {:induction false} MatchesAll(s: Bytes, p: nat, word: Bytes)
    requires Sits(s, p, word)
    ensures Matching(s, p, word) == |word|
    decreases |word|
  {
    if word != [] {
      SitsAt(s, p, word, 0);
      assert s[p + 1..p + |word|] == s[p..p + |word|][1..] == word[1..];
      MatchesAll(s, p + 1, word[1..]);
    }
  }

  lemma WordReads(s: Bytes, p: nat, v: Spelling, convert: Converter)
    requires (v.NullWord? || v.TrueWord? || v.FalseWord? || v.StringWord?) && IsSpelling(v) && Sits(s, p, TextOf(v))
    ensures Reads(Grammar.ValueAt(s, p, convert), p + |TextOf(v)|, Events(TreeOf(v, convert)), Converts(v, convert), Moderate(v))
  {
    hide *;
    var e := WordIs(v, convert);
    if v.StringWord? { QuotedIsRead(s, p, v, convert); } else { WordIsRead(s, p, TextOf(v), e, convert); }
    ReadsOne(e, p + |TextOf(v)|);
  }

  /** The one event of a word or a string. */
  lemma WordIs(v: Spelling, convert: Converter) returns (e: Event)
    requires (v.NullWord? || v.TrueWord? || v.FalseWord? || v.StringWord?) && IsSpelling(v)
    ensures Events(TreeOf(v, convert)) == [e] && Converts(v, convert) && Moderate(v) && Documents.Canonical(e) == e
    ensures if v.StringWord? then AreChars(v.cs) && TextOf(v) == QuotedText(v.cs) && e == StringEv(CharsBytes(v.cs))
            else IsWord(TextOf(v), e)
  {
    hide QuotedText, AreChars, CharsBytes;
    assert Ascii("null") == NULL_TEXT && Ascii("true") == TRUE_TEXT && Ascii("false") == FALSE_TEXT;
    e := Events(TreeOf(v, convert))[0];
  }

  predicate IsWord(word: Bytes, e: Event) {
    (word == NULL_TEXT && e == NullEv) || (word == TRUE_TEXT && e == BoolEv(true)) || (word == FALSE_TEXT && e == BoolEv(false))
  }

  lemma WordIsRead(s: Bytes, p: nat, word: Bytes, e: Event, convert: Converter)
    requires IsWord(word, e) && Sits(s, p, word)
    ensures Grammar.ValueAt(s, p, convert) == Done([e], p + |word|)
  {
    SitsAt(s, p, word, 0);
    NameReads(s, p, word, e);
    hide NameAt, Sits;
  }

  lemma QuotedIsRead(s: Bytes, p: nat, v: Spelling, convert: Converter)
    requires v.StringWord? && AreChars(v.cs) && TextOf(v) == QuotedText(v.cs) && Sits(s, p, TextOf(v))
    ensures Grammar.ValueAt(s, p, convert) == Done([StringEv(CharsBytes(v.cs))], p + |TextOf(v)|)
  {
    StringReads(s, p, v.cs, false);
    hide StringAt, QuotedText, CharsBytes, Sits, AreChars;
  }

  lemma ReadsOne(e: Event, end: nat)
    requires Documents.Canonical(e) == e
    ensures Reads(Done([e], end), end, [e], true, true)
  {
    Documents.CanonicalOne(e);
    hide Documents.CanonicalAll, Documents.Canonical;
  }

  // ----- events of lists -----

  function AllEvents(vs: seq<Value>): seq<Event> {
    if vs == [] then [] else Events(vs[0]) + AllEvents(vs[1..])
  }

  lemma {:induction false} ElementsFlat(vs: seq<Value>, k: nat)
    requires k <= |vs|
    ensures ElementEvents(Array(vs), k) + AllEvents(vs[k..]) == AllEvents(vs)
    decreases k
  {
    if k == 0 {
      assert vs[0..] == vs;
    } else {
      hide Events;
      ElementsFlat(vs, k - 1);
      assert vs[k - 1..][1..] == vs[k..];
      assert ElementEvents(Array(vs), k - 1) + (Events(vs[k - 1]) + AllEvents(vs[k..])) ==
             ElementEvents(Array(vs), k - 1) + Events(vs[k - 1]) + AllEvents(vs[k..]);
    }
  }

  lemma ArrayFlat(vs: seq<Value>)
    ensures Events(Array(vs)) == [StartArrayEv] + (AllEvents(vs) + [EndArrayEv(|vs|)])
  {
    ElementsFlat(vs, |vs|);
    assert vs[|vs|..] == [];
    hide ElementEvents;
    var es := ElementEvents(Array(vs), |vs|);
    assert es + [] == es && [StartArrayEv] + es + [EndArrayEv(|vs|)] == [StartArrayEv] + (es + [EndArrayEv(|vs|)]);
  }

  function AllMembers(ms: seq<Member>): seq<Event> {
    if ms == [] then [] else [KeyEv(ms[0].name)] + Events(ms[0].value) + AllMembers(ms[1..])
  }

  lemma {:induction false} MembersFlat(ms: seq<Member>, k: nat)
    requires k <= |ms|
    ensures MemberEvents(Object(ms), k) + AllMembers(ms[k..]) == AllMembers(ms)
    decreases k
  {
    if k == 0 {
      assert ms[0..] == ms;
    } else {
      hide Events;
      MembersFlat(ms, k - 1);
      assert ms[k - 1..][1..] == ms[k..];
      var before, key, value, rest := MemberEvents(Object(ms), k - 1), [KeyEv(ms[k - 1].name)], Events(ms[k - 1].value), AllMembers(ms[k..]);
      assert before + (key + value + rest) == before + key + value + rest;
    }
  }

  lemma ObjectFlat(ms: seq<Member>)
    ensures Events(Object(ms)) == [StartObjectEv] + (AllMembers(ms) + [EndObjectEv(|ms|)])
  {
    MembersFlat(ms, |ms|);
    assert ms[|ms|..] == [];
    hide MemberEvents;
    var es := MemberEvents(Object(ms), |ms|);
    assert es + [] == es && [StartObjectEv] + es + [EndObjectEv(|ms|)] == [StartObjectEv] + (es + [EndObjectEv(|ms|)]);
  }

  // ----- the elements of an array -----

  lemma PartsSit(s: Bytes, p: nat, a: Bytes, b: Bytes, c: Bytes, d: Bytes)
    requires Sits(s, p, a + b + c + d)
    ensures Sits(s, p, a) && Sits(s, p + |a|, b) && Sits(s, p + |a| + |b|, c) && Sits(s, p + |a| + |b| + |c|, d)
  {
    SitsBoth(s, p, a + b + c, d);
    SitsBoth(s, p, a + b, c);
    SitsBoth(s, p, a, b);
  }

  /** White space and a delimiter: what stands there, and where skipping ends. */
  lemma WhiteThenDelimiter(s: Bytes, p: nat, w: Bytes, t: Bytes)
    requires IsWhite(w) && Sits(s, p, w) && Sits(s, p + |w|, t) && t != [] && t[0] != 0
    requires Delimits(t[0]) && !IsSpace(t[0])
    ensures Delimits(Peek(s, p)) && SkipSpace(s, p) == p + |w| && Peek(s, p + |w|) == t[0]
  {
    SitsAt(s, p + |w|, t, 0);
    SkipsWhite(s, p, w);
    if w != [] {
      SitsAt(s, p, w, 0);
      SpaceIsWhite(w[0]);
      assert IsWhite([w[0]]);
    }
    hide SkipSpace;
  }

  /** White space in front of a value. */
  lemma WhiteThenValue(s: Bytes, p: nat, w: Bytes, v: Spelling)
    requires IsWhite(w) && IsSpelling(v) && Sits(s, p, w) && Sits(s, p + |w|, TextOf(v))
    ensures SkipSpace(s, p) == p + |w| < |s| && Peek(s, p + |w|) == TextOf(v)[0]
    ensures Peek(s, p + |w|) != CLOSE_BRACKET && Peek(s, p + |w|) != CLOSE_BRACE && Peek(s, p + |w|) != 0
  {
    TextBegins(v);
    SitsAt(s, p + |w|, TextOf(v), 0);
    SkipsWhite(s, p, w);
    hide SkipSpace, TextOf, IsSpelling;
  }

  lemma RestBegins(e: Elements)
    ensures var t := ElementsRest(e); t != [] && (e.more.None? ==> |t| == 1) && t[0] == if e.more.None? then 0x5D else 0x2C
  {
    hide ElementsText;
  }

  /** Where the parts of an element stand. */
  lemma ElementSits(s: Bytes, p: nat, e: Elements)
    requires AreElements(e) && Sits(s, p, ElementsText(e))
    ensures var p1 := p + |e.before|;
      var p2 := p1 + |TextOf(e.value)|;
      var p3 := p2 + |e.after|;
      && SkipSpace(s, p) == p1 < |s| && Sits(s, p1, TextOf(e.value)) && Peek(s, p1) != CLOSE_BRACKET
      && Follows(e.value, Peek(s, p2)) && p2 <= |s| && SkipSpace(s, p2) == p3 && Sits(s, p3, ElementsRest(e))
      && Peek(s, p3) == (if e.more.None? then CLOSE_BRACKET else COMMA)
      && p + |ElementsText(e)| == p3 + |ElementsRest(e)|
      && (e.more.Some? ==> Sits(s, p3 + 1, ElementsText(e.more.value)) && |ElementsRest(e)| == 1 + |ElementsText(e.more.value)|)
      && (e.more.None? ==> |ElementsRest(e)| == 1)
  {
    hide *;
    ElementParts(e);
    PartsSit(s, p, e.before, TextOf(e.value), e.after, ElementsRest(e));
    RestBegins(e);
    WhiteThenValue(s, p, e.before, e.value);
    var p2 := p + |e.before| + |TextOf(e.value)|;
    CommaDelimits();
    WhiteThenDelimiter(s, p2, e.after, ElementsRest(e));
    DelimiterFollows(e.value, Peek(s, p2));
    if e.more.Some? { SitsBoth(s, p2 + |e.after|, [0x2C], ElementsText(e.more.value)); }
    SitsWithin(s, p2, e.after);
  }

  lemma ElementParts(e: Elements)
    requires AreElements(e)
    ensures IsWhite(e.before) && IsWhite(e.after) && IsSpelling(e.value)
    ensures ElementsText(e) == e.before + TextOf(e.value) + e.after + ElementsRest(e)
    ensures e.more.Some? ==> ElementsRest(e) == [0x2C] + ElementsText(e.more.value)
  {
    hide IsWhite, IsSpelling, TextOf;
  }

  lemma CommaDelimits()
    ensures Delimits(0x2C) && Delimits(0x5D) && Delimits(0x7D) && !IsSpace(0x2C) && !IsSpace(0x5D) && !IsSpace(0x7D)
    ensures !IsSpace(0x3A) && !IsSpace(0x22) && QUOTE == 0x22 && COLON == 0x3A && COMMA == 0x2C && CLOSE_BRACKET == 0x5D && CLOSE_BRACE == 0x7D
  {
  }

  lemma ElementLast(s: Bytes, p: nat, count: nat, convert: Converter, events: seq<Event>, p2: nat, p3: nat)
    requires p <= |s| && p2 <= |s| && Grammar.ValueAt(s, p, convert) == Done(events, p2) && SkipSpace(s, p2) == p3 && Peek(s, p3) == CLOSE_BRACKET
    ensures Grammar.ElementsFrom(s, p, count, convert) == Done(events + [EndArrayEv(count + 1)], p3 + 1)
  {
    hide Grammar.ValueAt, SkipSpace;
  }

  lemma ElementThenMore(s: Bytes, p: nat, count: nat, convert: Converter, events: seq<Event>, p2: nat, p3: nat, p4: nat)
    requires p <= |s| && p2 <= |s| && Grammar.ValueAt(s, p, convert) == Done(events, p2) && SkipSpace(s, p2) == p3
    requires Peek(s, p3) == COMMA && SkipSpace(s, p3 + 1) == p4
    ensures p4 <= |s| && Grammar.ElementsFrom(s, p, count, convert) == Grammar.Prefixed(events, Grammar.ElementsFrom(s, p4, count + 1, convert))
  {
    hide Grammar.ValueAt;
  }

  lemma ElementFails(s: Bytes, p: nat, count: nat, convert: Converter)
    requires p <= |s| && Grammar.ValueAt(s, p, convert).Failed?
    ensures Grammar.ElementsFrom(s, p, count, convert) == Grammar.ValueAt(s, p, convert)
  {
    hide Grammar.ValueAt, SkipSpace;
  }

  /** The events of a list, `count` elements having come before. */
  function ListEvents(vs: seq<Value>, count: nat): seq<Event> {
    AllEvents(vs) + [EndArrayEv(count + |vs|)]
  }

  lemma ListOfOne(v: Value, count: nat)
    ensures ListEvents([v], count) == Events(v) + [EndArrayEv(count + 1)]
  {
    hide Events;
    assert [v][1..] == [] && Events(v) + [] == Events(v);
    assert AllEvents([v]) == Events(v) + AllEvents([]);
  }

  lemma ListOfMore(v: Value, vs: seq<Value>, count: nat)
    ensures ListEvents([v] + vs, count) == Events(v) + ListEvents(vs, count + 1)
  {
    hide Events;
    assert ([v] + vs)[1..] == vs;
    assert Events(v) + AllEvents(vs) + [EndArrayEv(count + 1 + |vs|)] == Events(v) + (AllEvents(vs) + [EndArrayEv(count + 1 + |vs|)]);
  }

  lemma {:induction false} ElementsRead(s: Bytes, p: nat, e: Elements, count: nat, convert: Converter)
    requires AreElements(e) && Sits(s, p, ElementsText(e))
    ensures p + |e.before| <= |s|
    ensures Reads(Grammar.ElementsFrom(s, p + |e.before|, count, convert), p + |ElementsText(e)|,
                  ListEvents(ElementTrees(e, convert), count), ElementsConvert(e, convert), ElementsModerate(e))
    decreases e, 1
  {
    hide *;
    var p1 := p + |e.before|;
    var p2 := p1 + |TextOf(e.value)|;
    var p3 := p2 + |e.after|;
    ElementSits(s, p, e);
    ElementIs(e, convert);
    ValueReads(s, p1, e.value, convert);
    var r := Grammar.ValueAt(s, p1, convert);
    var tree := TreeOf(e.value, convert);
    if r.Failed? {
      ElementFails(s, p1, count, convert);
      FailsLater(r, p2, Events(tree), Converts(e.value, convert), Moderate(e.value), p + |ElementsText(e)|,
                 ListEvents(ElementTrees(e, convert), count), ElementsConvert(e, convert), ElementsModerate(e));
    } else {
      DoneIs(r, p2, Events(tree), Converts(e.value, convert), Moderate(e.value));
      if e.more.None? {
        ElementLast(s, p1, count, convert, r.events, p2, p3);
        ListOfOne(tree, count);
        DoneAppends(r.events, Events(tree), EndArrayEv(count + 1), p3 + 1, ElementsModerate(e));
      } else {
        var more := e.more.value;
        ElementsRead(s, p3 + 1, more, count + 1, convert);
        ElementSits(s, p3 + 1, more);
        ElementThenMore(s, p1, count, convert, r.events, p2, p3, p3 + 1 + |more.before|);
        ListOfMore(tree, ElementTrees(more, convert), count);
        ReadsPrefixed(r.events, Events(tree), Grammar.ElementsFrom(s, p3 + 1 + |more.before|, count + 1, convert),
                      p + |ElementsText(e)|, ListEvents(ElementTrees(more, convert), count + 1),
                      ElementsConvert(more, convert), ElementsModerate(more), Moderate(e.value));
      }
    }
  }

  lemma FailsLater(r: Outcome, end: nat, es: seq<Event>, converts: bool, moderate: bool,
                   all: nat, more: seq<Event>, allConvert: bool, allModerate: bool)
    requires r.Failed? && Reads(r, end, es, converts, moderate) && (allConvert ==> converts) && (allModerate ==> moderate)
    ensures Reads(r, all, more, allConvert, allModerate)
  {
  }

  lemma DoneIs(r: Outcome, end: nat, es: seq<Event>, converts: bool, moderate: bool)
    requires r.Done? && Reads(r, end, es, converts, moderate)
    ensures r == Done(r.events, end) && Documents.CanonicalAll(r.events) == es && converts
  {
  }

  lemma ReadModerately(r: Outcome, end: nat, es: seq<Event>)
    requires Reads(r, end, es, true, true)
    ensures r == Done(r.events, end) && Documents.CanonicalAll(r.events) == es
  {
  }

  lemma DoneAppends(events: seq<Event>, es: seq<Event>, e: Event, end: nat, moderate: bool)
    requires Documents.CanonicalAll(events) == es && Documents.Canonical(e) == e
    ensures Reads(Done(events + [e], end), end, es + [e], true, moderate)
  {
    Documents.CanonicalAppend(events, [e]);
    Documents.CanonicalOne(e);
    hide Documents.CanonicalAll;
  }

  lemma ElementIs(e: Elements, convert: Converter)
    requires AreElements(e)
    ensures IsSpelling(e.value) && (e.more.Some? ==> AreElements(e.more.value))
    ensures ElementsConvert(e, convert) <==> Converts(e.value, convert) && (e.more.Some? ==> ElementsConvert(e.more.value, convert))
    ensures ElementsModerate(e) <==> Moderate(e.value) && (e.more.Some? ==> ElementsModerate(e.more.value))
    ensures ElementTrees(e, convert) ==
      if e.more.None? then [TreeOf(e.value, convert)] else [TreeOf(e.value, convert)] + ElementTrees(e.more.value, convert)
    ensures forall n :: Documents.Canonical(EndArrayEv(n)) == EndArrayEv(n)
  {
    hide TreeOf, Converts, Moderate;
    assert [TreeOf(e.value, convert)] + [] == [TreeOf(e.value, convert)];
  }

  // ----- the members of an object -----

  lemma MembersRestBegins(m: Members)
    ensures var t := MembersRest(m); t != [] && (m.more.None? ==> |t| == 1) && t[0] == if m.more.None? then 0x7D else 0x2C
  {
    hide MembersText;
  }

  /** Where the name of a member and its colon stand. */
  lemma NameSits(s: Bytes, p: nat, m: Members)
    requires AreMembers(m) && Sits(s, p, MembersText(m))
    ensures var p1 := p + |m.before|;
      var p2 := p1 + |QuotedText(m.name)|;
      var p3 := p2 + |m.beforeColon|;
      && SkipSpace(s, p) == p1 < |s| && Peek(s, p1) == QUOTE && Sits(s, p1, QuotedText(m.name))
      && SkipSpace(s, p2) == p3 < |s| && Peek(s, p3) == COLON
      && Sits(s, p3 + 1, m.afterColon + TextOf(m.value) + m.after + MembersRest(m))
      && p + |MembersText(m)| == p3 + 1 + |m.afterColon| + |TextOf(m.value)| + |m.after| + |MembersRest(m)|
  {
    hide *;
    var rest := m.afterColon + TextOf(m.value) + m.after + MembersRest(m);
    var name := QuotedText(m.name);
    MemberWhite(m);
    NameFirst(m);
    PartsSit(s, p, m.before, name, m.beforeColon, [0x3A] + rest);
    var p1 := p + |m.before|;
    var p3 := p1 + |name| + |m.beforeColon|;
    QuoteBegins(m.name);
    ByteSits(s, p1, name);
    CommaDelimits();
    SkipsWhite(s, p, m.before);
    SitsBoth(s, p3, [0x3A], rest);
    ByteSits(s, p3, [0x3A]);
    SkipsWhite(s, p1 + |name|, m.beforeColon);
  }

  lemma NameFirst(m: Members)
    ensures MembersText(m) ==
      m.before + QuotedText(m.name) + m.beforeColon + ([0x3A] + (m.afterColon + TextOf(m.value) + m.after + MembersRest(m)))
  {
    hide QuotedText, TextOf, MembersRest;
  }

  lemma ByteSits(s: Bytes, p: nat, t: Bytes)
    requires Sits(s, p, t) && t != []
    ensures p < |s| && Peek(s, p) == t[0]
  {
    SitsAt(s, p, t, 0);
  }

  lemma QuoteBegins(cs: seq<Char>)
    ensures QuotedText(cs) != [] && QuotedText(cs)[0] == 0x22
  {
    hide CharsText;
  }

  /** Where its value and what follows stand. */
  lemma MemberSits(s: Bytes, p: nat, m: Members)
    requires AreMembers(m) && Sits(s, p, m.afterColon + TextOf(m.value) + m.after + MembersRest(m))
    ensures var p1 := p + |m.afterColon|;
      var p2 := p1 + |TextOf(m.value)|;
      var p3 := p2 + |m.after|;
      && SkipSpace(s, p) == p1 <= |s| && Sits(s, p1, TextOf(m.value))
      && Follows(m.value, Peek(s, p2)) && p2 <= |s| && SkipSpace(s, p2) == p3 < |s| && Sits(s, p3, MembersRest(m))
      && Peek(s, p3) == (if m.more.None? then CLOSE_BRACE else COMMA)
      && (m.more.Some? ==> Sits(s, p3 + 1, MembersText(m.more.value)) && |MembersRest(m)| == 1 + |MembersText(m.more.value)|)
      && (m.more.None? ==> |MembersRest(m)| == 1)
  {
    hide *;
    MemberWhite(m);
    PartsSit(s, p, m.afterColon, TextOf(m.value), m.after, MembersRest(m));
    MembersRestBegins(m);
    WhiteThenValue(s, p, m.afterColon, m.value);
    var p2 := p + |m.afterColon| + |TextOf(m.value)|;
    CommaDelimits();
    WhiteThenDelimiter(s, p2, m.after, MembersRest(m));
    DelimiterFollows(m.value, Peek(s, p2));
    if m.more.Some? {
      MembersGoOn(m);
      SitsBoth(s, p2 + |m.after|, [0x2C], MembersText(m.more.value));
    }
    SitsWithin(s, p2, m.after);
    SitsWithin(s, p2 + |m.after|, MembersRest(m));
  }

  lemma MemberWhite(m: Members)
    requires AreMembers(m)
    ensures IsWhite(m.before) && IsWhite(m.beforeColon) && IsWhite(m.afterColon) && IsWhite(m.after) && IsSpelling(m.value)
  {
  }

  lemma MembersGoOn(m: Members)
    requires m.more.Some?
    ensures MembersRest(m) == [0x2C] + MembersText(m.more.value)
  {
  }

  lemma SitsWithin(s: Bytes, p: nat, t: Bytes)
    requires Sits(s, p, t)
    ensures p + |t| <= |s|
  {
  }

  /** The parts of one turn of the member loop, when the name and its colon have been read. */
  lemma MemberTurn(s: Bytes, p: nat, count: nat, convert: Converter, name: Bytes, p2: nat, p3: nat, p4: nat)
    requires p < p2 <= |s| && Peek(s, p) == QUOTE && StringAt(s, p, true) == Done([KeyEv(name)], p2)
    requires SkipSpace(s, p2) == p3 && Peek(s, p3) == COLON && SkipSpace(s, p3 + 1) == p4 && p4 <= |s|
    ensures var value := Grammar.ValueAt(s, p4, convert);
      Grammar.MembersFrom(s, p, count, convert) ==
      if value.Failed? then Grammar.Prefixed([KeyEv(name)], value)
      else
        var sent := [KeyEv(name)] + value.events;
        var i := SkipSpace(s, value.pos);
        if Peek(s, i) == COMMA then
          Grammar.Prefixed(sent, Grammar.MembersFrom(s, SkipSpace(s, i + 1), count + 1, convert))
        else if Peek(s, i) == CLOSE_BRACE then Done(sent + [EndObjectEv(count + 1)], i + 1)
        else Failed(sent, ObjectMissCommaOrCurlyBracket, i)
  {
    hide Grammar.ValueAt, StringAt;
  }

  function ObjectEvents(ms: seq<Member>, count: nat): seq<Event> {
    AllMembers(ms) + [EndObjectEv(count + |ms|)]
  }

  lemma ObjectOfOne(m: Member, count: nat)
    ensures ObjectEvents([m], count) == [KeyEv(m.name)] + Events(m.value) + [EndObjectEv(count + 1)]
  {
    hide Events;
    assert [m][1..] == [];
    assert AllMembers([m]) == [KeyEv(m.name)] + Events(m.value) + AllMembers([]);
    var es := [KeyEv(m.name)] + Events(m.value);
    assert es + [] == es;
  }

  lemma ObjectOfMore(m: Member, ms: seq<Member>, count: nat)
    ensures ObjectEvents([m] + ms, count) == [KeyEv(m.name)] + Events(m.value) + ObjectEvents(ms, count + 1)
  {
    hide Events;
    assert ([m] + ms)[1..] == ms;
    var es, end := [KeyEv(m.name)] + Events(m.value), [EndObjectEv(count + 1 + |ms|)];
    assert es + AllMembers(ms) + end == es + (AllMembers(ms) + end);
  }

  lemma KeyCanonical(name: Bytes, events: seq<Event>)
    ensures Documents.CanonicalAll([KeyEv(name)] + events) == [KeyEv(name)] + Documents.CanonicalAll(events)
  {
    Documents.CanonicalAppend([KeyEv(name)], events);
    Documents.CanonicalOne(KeyEv(name));
    hide Documents.CanonicalAll;
  }

  lemma MemberIs(m: Members, convert: Converter)
    requires AreMembers(m)
    ensures IsSpelling(m.value) && AreChars(m.name) && (m.more.Some? ==> AreMembers(m.more.value))
    ensures MembersConvert(m, convert) <==> Converts(m.value, convert) && (m.more.Some? ==> MembersConvert(m.more.value, convert))
    ensures MembersModerate(m) <==> Moderate(m.value) && (m.more.Some? ==> MembersModerate(m.more.value))
    ensures var now := Member(CharsBytes(m.name), TreeOf(m.value, convert));
      MemberTrees(m, convert) == if m.more.None? then [now] else [now] + MemberTrees(m.more.value, convert)
    ensures forall n :: Documents.Canonical(EndObjectEv(n)) == EndObjectEv(n)
  {
    hide TreeOf, Converts, Moderate, CharsBytes;
    var now := Member(CharsBytes(m.name), TreeOf(m.value, convert));
    assert [now] + [] == [now];
  }

  lemma {:induction false} MembersRead(s: Bytes, p: nat, m: Members, count: nat, convert: Converter)
    requires AreMembers(m) && Sits(s, p, MembersText(m))
    ensures p + |m.before| <= |s|
    ensures Reads(Grammar.MembersFrom(s, p + |m.before|, count, convert), p + |MembersText(m)|,
                  ObjectEvents(MemberTrees(m, convert), count), MembersConvert(m, convert), MembersModerate(m))
    decreases m, 1
  {
    hide *;
    var p1 := p + |m.before|;
    var p2 := p1 + |QuotedText(m.name)|;
    var p3 := p2 + |m.beforeColon|;
    var p4 := p3 + 1 + |m.afterColon|;
    var p5 := p4 + |TextOf(m.value)|;
    var p6 := p5 + |m.after|;
    CommaDelimits();
    NameSits(s, p, m);
    MemberSits(s, p3 + 1, m);
    MemberIs(m, convert);
    StringReads(s, p1, m.name, true);
    ValueReads(s, p4, m.value, convert);
    var r, name, tree := Grammar.ValueAt(s, p4, convert), CharsBytes(m.name), TreeOf(m.value, convert);
    QuoteBegins(m.name);
    MemberTurn(s, p1, count, convert, name, p2, p3, p4);
    KeyCanonical(name, r.events);
    if r.Failed? {
      FailsBehind([KeyEv(name)], r);
      FailsLater(r, p5, Events(tree), Converts(m.value, convert), Moderate(m.value), p + |MembersText(m)|,
                 ObjectEvents(MemberTrees(m, convert), count), MembersConvert(m, convert), MembersModerate(m));
      SameFailure(r, Grammar.Prefixed([KeyEv(name)], r), p + |MembersText(m)|, ObjectEvents(MemberTrees(m, convert), count),
                  MembersConvert(m, convert), MembersModerate(m));
    } else {
      DoneIs(r, p5, Events(tree), Converts(m.value, convert), Moderate(m.value));
      var sent := [KeyEv(name)] + r.events;
      if m.more.None? {
        ObjectOfOne(Member(name, tree), count);
        DoneAppends(sent, [KeyEv(name)] + Events(tree), EndObjectEv(count + 1), p6 + 1, MembersModerate(m));
      } else {
        var more := m.more.value;
        MembersRead(s, p6 + 1, more, count + 1, convert);
        NameSits(s, p6 + 1, more);
        ObjectOfMore(Member(name, tree), MemberTrees(more, convert), count);
        ReadsPrefixed(sent, [KeyEv(name)] + Events(tree), Grammar.MembersFrom(s, p6 + 1 + |more.before|, count + 1, convert),
                      p + |MembersText(m)|, ObjectEvents(MemberTrees(more, convert), count + 1),
                      MembersConvert(more, convert), MembersModerate(more), Moderate(m.value));
      }
    }
  }

  lemma FailsBehind(before: seq<Event>, r: Outcome)
    requires r.Failed?
    ensures Grammar.Prefixed(before, r).Failed? && Grammar.Prefixed(before, r).code == r.code
  {
  }

  lemma SameFailure(r: Outcome, q: Outcome, end: nat, es: seq<Event>, converts: bool, moderate: bool)
    requires r.Failed? && q.Failed? && q.code == r.code && Reads(r, end, es, converts, moderate)
    ensures Reads(q, end, es, converts, moderate)
  {
  }

  // ----- values -----

  /** A text of the grammar is read to its end as the tree it stands for, wherever it stands and
      whatever white space it has, unless a number of it has no conversion or an exponent above
      308. */
  lemma {:induction false} ValueReads(s: Bytes, p: nat, v: Spelling, convert: Converter)
    requires IsSpelling(v) && Sits(s, p, TextOf(v)) && Follows(v, Peek(s, p + |TextOf(v)|))
    ensures Reads(Grammar.ValueAt(s, p, convert), p + |TextOf(v)|, Events(TreeOf(v, convert)), Converts(v, convert), Moderate(v))
    decreases v, 0
  {
    hide *;
    match v {
      case NumberWord(_) => NumberReads(s, p, v, convert);
      case EmptyArray(_) => EmptyArrayReads(s, p, v, convert);
      case EmptyObject(_) => EmptyObjectReads(s, p, v, convert);
      case ArrayOf(es) =>
        ArrayIs(v, convert);
        SitsBoth(s, p, [0x5B], ElementsText(es));
        SitsAt(s, p, [0x5B], 0);
        ElementSits(s, p + 1, es);
        ElementsRead(s, p + 1, es, 0, convert);
        OpensArray(s, p, p + 1 + |es.before|, convert);
        ArrayFlat(ElementTrees(es, convert));
        ReadsPrefixed([StartArrayEv], [StartArrayEv], Grammar.ElementsFrom(s, p + 1 + |es.before|, 0, convert), p + |TextOf(v)|,
                      ListEvents(ElementTrees(es, convert), 0), ElementsConvert(es, convert), ElementsModerate(es), true);
      case ObjectOf(ms) =>
        ObjectIs(v, convert);
        SitsBoth(s, p, [0x7B], MembersText(ms));
        SitsAt(s, p, [0x7B], 0);
        NameSits(s, p + 1, ms);
        MembersRead(s, p + 1, ms, 0, convert);
        OpensObject(s, p, p + 1 + |ms.before|, convert);
        ObjectFlat(MemberTrees(ms, convert));
        ReadsPrefixed([StartObjectEv], [StartObjectEv], Grammar.MembersFrom(s, p + 1 + |ms.before|, 0, convert), p + |TextOf(v)|,
                      ObjectEvents(MemberTrees(ms, convert), 0), MembersConvert(ms, convert), MembersModerate(ms), true);
      case _ => WordReads(s, p, v, convert);
    }
  }

  lemma ArrayIs(v: Spelling, convert: Converter)
    requires v.ArrayOf? && IsSpelling(v)
    ensures AreElements(v.es) && TextOf(v) == [0x5B] + ElementsText(v.es) && TreeOf(v, convert) == Array(ElementTrees(v.es, convert))
    ensures (Converts(v, convert) <==> ElementsConvert(v.es, convert)) && (Moderate(v) <==> ElementsModerate(v.es))
    ensures Documents.CanonicalAll([StartArrayEv]) == [StartArrayEv]
    ensures ListEvents(ElementTrees(v.es, convert), 0) == AllEvents(ElementTrees(v.es, convert)) + [EndArrayEv(|ElementTrees(v.es, convert)|)]
  {
    Documents.CanonicalOne(StartArrayEv);
    hide ElementsText, ElementTrees, AreElements, Documents.CanonicalAll, AllEvents;
  }

  lemma ObjectIs(v: Spelling, convert: Converter)
    requires v.ObjectOf? && IsSpelling(v)
    ensures AreMembers(v.ms) && TextOf(v) == [0x7B] + MembersText(v.ms) && TreeOf(v, convert) == Object(MemberTrees(v.ms, convert))
    ensures (Converts(v, convert) <==> MembersConvert(v.ms, convert)) && (Moderate(v) <==> MembersModerate(v.ms))
    ensures Documents.CanonicalAll([StartObjectEv]) == [StartObjectEv]
    ensures ObjectEvents(MemberTrees(v.ms, convert), 0) == AllMembers(MemberTrees(v.ms, convert)) + [EndObjectEv(|MemberTrees(v.ms, convert)|)]
  {
    Documents.CanonicalOne(StartObjectEv);
    hide MembersText, MemberTrees, AreMembers, Documents.CanonicalAll, AllMembers;
  }

  lemma OpensArray(s: Bytes, p: nat, i: nat, convert: Converter)
    requires p < |s| && s[p] == 0x5B && SkipSpace(s, p + 1) == i && i <= |s| && Peek(s, i) != CLOSE_BRACKET
    ensures Grammar.ValueAt(s, p, convert) == Grammar.Prefixed([StartArrayEv], Grammar.ElementsFrom(s, i, 0, convert))
  {
    ParserEquivalence.UnfoldArray(s, p, convert);
    hide Grammar.ValueAt, SkipSpace;
  }

  lemma OpensObject(s: Bytes, p: nat, i: nat, convert: Converter)
    requires p < |s| && s[p] == 0x7B && SkipSpace(s, p + 1) == i && i <= |s| && Peek(s, i) == QUOTE
    ensures Grammar.ValueAt(s, p, convert) == Grammar.Prefixed([StartObjectEv], Grammar.MembersFrom(s, i, 0, convert))
  {
    ParserEquivalence.UnfoldObject(s, p, convert);
    hide Grammar.ValueAt, SkipSpace;
  }

  lemma EmptySits(s: Bytes, p: nat, open: Byte, white: Bytes, close: Byte)
    requires IsWhite(white) && (close == 0x5D || close == 0x7D) && Sits(s, p, [open] + white + [close])
    ensures Peek(s, p) == open && p < |s|
    ensures SkipSpace(s, p + 1) == p + 1 + |white| && Peek(s, p + 1 + |white|) == close && p + 2 + |white| <= |s|
  {
    SitsBoth(s, p, [open] + white, [close]);
    SitsBoth(s, p, [open], white);
    SitsAt(s, p, [open], 0);
    CommaDelimits();
    WhiteThenDelimiter(s, p + 1, white, [close]);
    hide SkipSpace, IsWhite, Delimits;
  }

  lemma EmptyArrayReads(s: Bytes, p: nat, v: Spelling, convert: Converter)
    requires v.EmptyArray? && IsSpelling(v) && Sits(s, p, TextOf(v))
    ensures Reads(Grammar.ValueAt(s, p, convert), p + |TextOf(v)|, Events(TreeOf(v, convert)), Converts(v, convert), Moderate(v))
  {
    hide Sits, IsWhite, SkipSpace, Grammar.ValueAt, Documents.CanonicalAll, Events;
    EmptySits(s, p, 0x5B, v.white, 0x5D);
    ParserEquivalence.UnfoldArray(s, p, convert);
    EmptyArrayEvents();
  }

  lemma EmptyObjectReads(s: Bytes, p: nat, v: Spelling, convert: Converter)
    requires v.EmptyObject? && IsSpelling(v) && Sits(s, p, TextOf(v))
    ensures Reads(Grammar.ValueAt(s, p, convert), p + |TextOf(v)|, Events(TreeOf(v, convert)), Converts(v, convert), Moderate(v))
  {
    hide Sits, IsWhite, SkipSpace, Grammar.ValueAt, Documents.CanonicalAll, Events;
    EmptySits(s, p, 0x7B, v.white, 0x7D);
    ParserEquivalence.UnfoldObject(s, p, convert);
    EmptyObjectEvents();
  }

  lemma TwoCanonical(a: Event, b: Event)
    requires Documents.Canonical(a) == a && Documents.Canonical(b) == b
    ensures Documents.CanonicalAll([a, b]) == [a, b]
  {
    hide Documents.CanonicalAll, Documents.Canonical;
    Documents.CanonicalOne(a);
    Documents.CanonicalOne(b);
    Documents.CanonicalAppend([a], [b]);
    assert [a] + [b] == [a, b];
  }

  lemma EmptyArrayEvents()
    ensures Events(Array([])) == [StartArrayEv, EndArrayEv(0)] == Documents.CanonicalAll([StartArrayEv, EndArrayEv(0)])
  {
    hide Documents.CanonicalAll;
    TwoCanonical(StartArrayEv, EndArrayEv(0));
    assert ElementEvents(Array([]), 0) == [];
    assert [StartArrayEv] + [] + [EndArrayEv(0)] == [StartArrayEv, EndArrayEv(0)];
  }

  lemma EmptyObjectEvents()
    ensures Events(Object([])) == [StartObjectEv, EndObjectEv(0)] == Documents.CanonicalAll([StartObjectEv, EndObjectEv(0)])
  {
    hide Documents.CanonicalAll;
    TwoCanonical(StartObjectEv, EndObjectEv(0));
    assert MemberEvents(Object([]), 0) == [];
    assert [StartObjectEv] + [] + [EndObjectEv(0)] == [StartObjectEv, EndObjectEv(0)];
  }

  // ----- what is read is a text of the grammar -----

  lemma {:induction false} MatchedSits(s: Bytes, p: nat, word: Bytes)
    requires Matching(s, p, word) == |word| && forall i | 0 <= i < |word| :: word[i] != 0
    ensures word != [] ==> p + |word| <= |s| && s[p..p + |word|] == word
    decreases |word|
  {
    if word != [] {
      MatchedSits(s, p + 1, word[1..]);
      assert s[p] == word[0];
      assert s[p..p + |word|] == [s[p]] + s[p + 1..p + |word|];
    }
  }

  lemma ScalarSpelled(s: Bytes, p: nat, convert: Converter) returns (v: Spelling)
    requires p <= |s| && ScalarAt(s, p, convert).Done?
    ensures var end := ScalarAt(s, p, convert).pos;
      end <= |s| && IsSpelling(v) && TextOf(v) == s[p..end] && Follows(v, Peek(s, end))
  {
    hide StringFrom, NumberAt, Matching, IsNumber, LiteralText, Continues, CharsText, AreChars;
    var c := Peek(s, p);
    if c == 'n' as int {
      v := NullWord;
      assert Ascii("null") == NULL_TEXT;
      MatchedSits(s, p, NULL_TEXT);
    } else if c == 't' as int {
      v := TrueWord;
      assert Ascii("true") == TRUE_TEXT;
      MatchedSits(s, p, TRUE_TEXT);
    } else if c == 'f' as int {
      v := FalseWord;
      assert Ascii("false") == FALSE_TEXT;
      MatchedSits(s, p, FALSE_TEXT);
    } else if c == QUOTE {
      var cs := NameSpelled(s, p, false);
      v := StringWord(cs);
    } else {
      var n := NumberSound(s, p, convert);
      v := NumberWord(n);
    }
  }

  lemma NameSpelled(s: Bytes, p: nat, isKey: bool) returns (cs: seq<Char>)
    requires Peek(s, p) == QUOTE && StringAt(s, p, isKey).Done?
    ensures var end := StringAt(s, p, isKey).pos; p < end <= |s| && AreChars(cs) && QuotedText(cs) == s[p..end]
  {
    hide StringFrom, CharsText, AreChars;
    cs := CharsSpelled(s, p + 1, []);
    var end := StringAt(s, p, isKey).pos;
    assert s[p..end] == [s[p]] + s[p + 1..end];
    assert [0x22] + (CharsText(cs) + [0x22]) == [0x22] + CharsText(cs) + [0x22];
  }

  lemma {:induction false} ValueSpelled(s: Bytes, p: nat, convert: Converter) returns (v: Spelling)
    requires p <= |s| && Grammar.ValueAt(s, p, convert).Done?
    ensures var end := Grammar.ValueAt(s, p, convert).pos;
      end <= |s| && IsSpelling(v) && TextOf(v) == s[p..end] && Follows(v, Peek(s, end))
    decreases |s| - p, 2
  {
    if Peek(s, p) == OPEN_BRACKET {
      v := ArraySpelled(s, p, convert);
    } else if Peek(s, p) == OPEN_BRACE {
      v := ObjectSpelled(s, p, convert);
    } else {
      assert Grammar.ValueAt(s, p, convert) == ScalarAt(s, p, convert);
      hide *;
      v := ScalarSpelled(s, p, convert);
    }
  }

  lemma {:induction false} ArraySpelled(s: Bytes, p: nat, convert: Converter) returns (v: Spelling)
    requires p < |s| && s[p] == OPEN_BRACKET && Grammar.ValueAt(s, p, convert).Done?
    ensures var end := Grammar.ValueAt(s, p, convert).pos;
      p < end <= |s| && IsSpelling(v) && TextOf(v) == s[p..end] && Follows(v, Peek(s, end))
    decreases |s| - p, 1
  {
    hide Grammar.ValueAt, Grammar.ElementsFrom, SkipSpace, IsWhite, ElementsText, AreElements;
    ParserEquivalence.UnfoldArray(s, p, convert);
    SkippedIsWhite(s, p + 1);
    var i, end := SkipSpace(s, p + 1), Grammar.ValueAt(s, p, convert).pos;
    if Peek(s, i) == CLOSE_BRACKET {
      v := EmptyArray(s[p + 1..i]);
      assert s[p..end] == [s[p]] + s[p + 1..i] + [s[i]];
    } else {
      var e := ElementsSpelled(s, i, 0, convert);
      v := ArrayOf(e.(before := s[p + 1..i]));
      WhiteBefore(e, s[p + 1..i]);
      assert s[p..end] == [s[p]] + (s[p + 1..i] + s[i..end]);
    }
  }

  lemma WhiteBefore(e: Elements, white: Bytes)
    requires e.before == [] && AreElements(e) && IsWhite(white)
    ensures AreElements(e.(before := white)) && ElementsText(e.(before := white)) == white + ElementsText(e)
  {
    hide IsWhite, TextOf, IsSpelling, ElementsRest;
    var t, rest := TextOf(e.value), ElementsRest(e);
    RestIsMore(e, white);
    assert white + t + e.after + rest == white + ([] + t + e.after + rest);
  }

  lemma RestIsMore(e: Elements, white: Bytes)
    ensures ElementsRest(e.(before := white)) == ElementsRest(e)
  {
    hide ElementsText;
  }

  lemma {:induction false} ElementsSpelled(s: Bytes, p: nat, count: nat, convert: Converter) returns (e: Elements)
    requires p <= |s| && Grammar.ElementsFrom(s, p, count, convert).Done?
    ensures var end := Grammar.ElementsFrom(s, p, count, convert).pos;
      p < end <= |s| && e.before == [] && AreElements(e) && ElementsText(e) == s[p..end]
    decreases |s| - p, 3
  {
    hide *;
    var a, i, next, end := ElementTurn(s, p, count, convert);
    var v := ValueSpelled(s, p, convert);
    SkippedIsWhite(s, a);
    NoWhite();
    if Peek(s, i) == CLOSE_BRACKET {
      e := Elements([], v, s[a..i], None);
      OneElement(v, s[a..i]);
      assert s[p..end] == s[p..a] + s[a..i] + [0x5D];
    } else {
      var more := ElementsSpelled(s, next, count + 1, convert);
      SkippedIsWhite(s, i + 1);
      WhiteBefore(more, s[i + 1..next]);
      e := Elements([], v, s[a..i], Some(more.(before := s[i + 1..next])));
      MoreElements(v, s[a..i], more.(before := s[i + 1..next]));
      assert s[p..end] == s[p..a] + s[a..i] + ([0x2C] + (s[i + 1..next] + s[next..end]));
    }
  }

  lemma NoWhite()
    ensures IsWhite([])
  {
  }

  /** Where a turn of the element loop that comes to an end passes. */
  lemma ElementTurn(s: Bytes, p: nat, count: nat, convert: Converter) returns (a: nat, i: nat, next: nat, end: nat)
    requires p <= |s| && Grammar.ElementsFrom(s, p, count, convert).Done?
    ensures Grammar.ValueAt(s, p, convert).Done? && a == Grammar.ValueAt(s, p, convert).pos && p < a <= |s|
    ensures i == SkipSpace(s, a) && a <= i < |s| && end == Grammar.ElementsFrom(s, p, count, convert).pos && i < end <= |s|
    ensures s[i] == (if Peek(s, i) == CLOSE_BRACKET then 0x5D else 0x2C) && (Peek(s, i) == CLOSE_BRACKET ==> end == i + 1)
    ensures Peek(s, i) != CLOSE_BRACKET ==>
      next == SkipSpace(s, i + 1) && i < next <= |s| &&
      var r := Grammar.ElementsFrom(s, next, count + 1, convert); r.Done? && r.pos == end
  {
    hide Grammar.ValueAt, SkipSpace;
    a := Grammar.ValueAt(s, p, convert).pos;
    i := SkipSpace(s, a);
    next := SkipSpace(s, i + 1);
    end := Grammar.ElementsFrom(s, p, count, convert).pos;
  }

  lemma OneElement(v: Spelling, after: Bytes)
    requires IsSpelling(v) && IsWhite(after) && IsWhite([])
    ensures var e := Elements([], v, after, None); AreElements(e) && ElementsText(e) == TextOf(v) + after + [0x5D]
  {
    hide IsSpelling, IsWhite, TextOf;
    assert [] + TextOf(v) == TextOf(v);
  }

  lemma MoreElements(v: Spelling, after: Bytes, more: Elements)
    requires IsSpelling(v) && IsWhite(after) && IsWhite([]) && AreElements(more)
    ensures var e := Elements([], v, after, Some(more));
      AreElements(e) && ElementsText(e) == TextOf(v) + after + ([0x2C] + ElementsText(more))
  {
    hide IsSpelling, IsWhite, TextOf;
    assert [] + TextOf(v) == TextOf(v);
    var e := Elements([], v, after, Some(more));
    assert ElementsRest(e) == [0x2C] + ElementsText(more);
    hide ElementsRest;
    assert AreElements(e);
    hide AreElements;
  }

  lemma {:induction false} ObjectSpelled(s: Bytes, p: nat, convert: Converter) returns (v: Spelling)
    requires p < |s| && s[p] == OPEN_BRACE && Grammar.ValueAt(s, p, convert).Done?
    ensures var end := Grammar.ValueAt(s, p, convert).pos;
      p < end <= |s| && IsSpelling(v) && TextOf(v) == s[p..end] && Follows(v, Peek(s, end))
    decreases |s| - p, 1
  {
    hide Grammar.ValueAt, Grammar.MembersFrom, SkipSpace, IsWhite, MembersText, AreMembers;
    ParserEquivalence.UnfoldObject(s, p, convert);
    SkippedIsWhite(s, p + 1);
    var i, end := SkipSpace(s, p + 1), Grammar.ValueAt(s, p, convert).pos;
    if Peek(s, i) == CLOSE_BRACE {
      v := EmptyObject(s[p + 1..i]);
      assert s[p..end] == [s[p]] + s[p + 1..i] + [s[i]];
    } else {
      var m := MembersSpelled(s, i, 0, convert);
      v := ObjectOf(m.(before := s[p + 1..i]));
      WhiteBeforeName(m, s[p + 1..i]);
      assert s[p..end] == [s[p]] + (s[p + 1..i] + s[i..end]);
    }
  }

  function AfterName(m: Members): Bytes {
    QuotedText(m.name) + m.beforeColon + [0x3A] + m.afterColon + TextOf(m.value) + m.after + MembersRest(m)
  }

  lemma MembersByName(m: Members)
    ensures MembersText(m) == m.before + AfterName(m)
  {
    hide QuotedText, TextOf, MembersRest;
    var a, b, c, d, e, f, g := QuotedText(m.name), m.beforeColon, [0x3A], m.afterColon, TextOf(m.value), m.after, MembersRest(m);
    assert m.before + a + b + c + d + e + f + g == m.before + (a + b + c + d + e + f + g);
  }

  lemma WhiteBeforeName(m: Members, white: Bytes)
    requires m.before == [] && AreMembers(m) && IsWhite(white)
    ensures AreMembers(m.(before := white)) && MembersText(m.(before := white)) == white + MembersText(m)
  {
    MembersByName(m);
    MembersByName(m.(before := white));
    SameAfterName(m, white);
    hide IsWhite, IsSpelling, MembersText, AfterName, AreChars;
    assert [] + AfterName(m) == AfterName(m);
  }

  lemma SameAfterName(m: Members, white: Bytes)
    ensures AfterName(m.(before := white)) == AfterName(m)
  {
    hide QuotedText, TextOf, MembersText;
  }

  lemma {:induction false} MembersSpelled(s: Bytes, p: nat, count: nat, convert: Converter) returns (m: Members)
    requires p <= |s| && Grammar.MembersFrom(s, p, count, convert).Done?
    ensures var end := Grammar.MembersFrom(s, p, count, convert).pos;
      p < end <= |s| && m.before == [] && AreMembers(m) && MembersText(m) == s[p..end]
    decreases |s| - p, 3
  {
    hide *;
    var a, colon, b, c, i, next, end := MemberPasses(s, p, count, convert);
    var name := NameSpelled(s, p, true);
    var v := ValueSpelled(s, b, convert);
    SkippedIsWhite(s, a);
    SkippedIsWhite(s, colon + 1);
    SkippedIsWhite(s, c);
    NoWhite();
    MemberSlices(s, p, a, colon, b, c, i);
    if Peek(s, i) == CLOSE_BRACE {
      m := Members([], name, s[a..colon], s[colon + 1..b], v, s[c..i], None);
      OneMember(m);
      assert s[p..end] == s[p..i] + [0x7D];
    } else {
      var more := MembersSpelled(s, next, count + 1, convert);
      SkippedIsWhite(s, i + 1);
      WhiteBeforeName(more, s[i + 1..next]);
      m := Members([], name, s[a..colon], s[colon + 1..b], v, s[c..i], Some(more.(before := s[i + 1..next])));
      OneMember(m);
      assert s[p..end] == s[p..i] + ([0x2C] + (s[i + 1..next] + s[next..end]));
    }
  }

  lemma MemberSlices(s: Bytes, p: nat, a: nat, colon: nat, b: nat, c: nat, i: nat)
    requires p <= a <= colon < b <= c <= i <= |s| && s[colon] == 0x3A
    ensures s[p..i] == s[p..a] + s[a..colon] + [0x3A] + s[colon + 1..b] + s[b..c] + s[c..i]
  {
    assert s[p..colon] == s[p..a] + s[a..colon];
    assert s[p..colon + 1] == s[p..colon] + [0x3A];
    assert s[p..b] == s[p..colon + 1] + s[colon + 1..b];
    assert s[p..c] == s[p..b] + s[b..c];
    assert s[p..i] == s[p..c] + s[c..i];
  }

  /** Where a turn of the member loop that comes to an end passes: behind the name, at the
      colon, at the value, behind it, at what follows, and at the next name. */
  lemma MemberPasses(s: Bytes, p: nat, count: nat, convert: Converter)
    returns (a: nat, colon: nat, b: nat, c: nat, i: nat, next: nat, end: nat)
    requires p <= |s| && Grammar.MembersFrom(s, p, count, convert).Done?
    ensures Peek(s, p) == QUOTE && StringAt(s, p, true).Done? && a == StringAt(s, p, true).pos && p < a <= |s|
    ensures colon == SkipSpace(s, a) && a <= colon < |s| && s[colon] == 0x3A && b == SkipSpace(s, colon + 1) && colon < b <= |s|
    ensures Grammar.ValueAt(s, b, convert).Done? && c == Grammar.ValueAt(s, b, convert).pos && b < c <= |s|
    ensures i == SkipSpace(s, c) && c <= i < |s| && end == Grammar.MembersFrom(s, p, count, convert).pos && i < end <= |s|
    ensures s[i] == (if Peek(s, i) == CLOSE_BRACE then 0x7D else 0x2C) && (Peek(s, i) == CLOSE_BRACE ==> end == i + 1)
    ensures Peek(s, i) != CLOSE_BRACE ==>
      next == SkipSpace(s, i + 1) && i < next <= |s| &&
      var r := Grammar.MembersFrom(s, next, count + 1, convert); r.Done? && r.pos == end
  {
    hide Grammar.ValueAt, SkipSpace, StringAt;
    a := StringAt(s, p, true).pos;
    colon := SkipSpace(s, a);
    b := SkipSpace(s, colon + 1);
    c := Grammar.ValueAt(s, b, convert).pos;
    i := SkipSpace(s, c);
    next := SkipSpace(s, i + 1);
    end := Grammar.MembersFrom(s, p, count, convert).pos;
  }

  lemma OneMember(m: Members)
    requires m.before == [] && IsWhite([]) && AreChars(m.name) && IsWhite(m.beforeColon) && IsWhite(m.afterColon)
    requires IsSpelling(m.value) && IsWhite(m.after) && (m.more.Some? ==> AreMembers(m.more.value))
    ensures AreMembers(m)
    ensures MembersText(m) ==
      QuotedText(m.name) + m.beforeColon + [0x3A] + m.afterColon + TextOf(m.value) + m.after
      + (if m.more.None? then [0x7D] else [0x2C] + MembersText(m.more.value))
  {
    assert MembersRest(m) == if m.more.None? then [0x7D] else [0x2C] + MembersText(m.more.value);
    assert AreMembers(m);
    MembersByName(m);
    assert [] + AfterName(m) == AfterName(m);
    hide QuotedText, TextOf, MembersText, IsWhite, IsSpelling, AreChars, MembersRest, AreMembers;
  }

  /** Accepted values are trees. */
  lemma ValueIsTree(s: Bytes, p: nat, convert: Converter) returns (v: Value)
    requires p <= |s| && Grammar.ValueAt(s, p, convert).Done?
    ensures Documents.CanonicalAll(Grammar.ValueAt(s, p, convert).events) == Events(v)
  {
    hide *;
    var t := ValueSpelled(s, p, convert);
    var r := Grammar.ValueAt(s, p, convert);
    Slice(s, p, r.pos);
    ValueReads(s, p, t, convert);
    v := TreeOf(t, convert);
    DoneIs(r, r.pos, Events(v), Converts(t, convert), Moderate(t));
  }

  lemma Slice(s: Bytes, p: nat, q: nat)
    requires p <= q <= |s|
    ensures Sits(s, p, s[p..q]) && p + |s[p..q]| == q
  {
  }
}
