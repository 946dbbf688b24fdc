/** What reader.h recognises below the level of containers: white space, string
    literals, numbers and the three names, as functions of the text and a position.
    A position at or past the end shows the terminator, as in a zero-terminated
    stream. */
module Tokens {
  import opened Common
  import opened Json
  import opened Utf8

  datatype ParseErrorCode =
    | DocumentEmpty
    | DocumentRootNotSingular
    | ValueInvalid
    | ObjectMissName
    | ObjectMissColon
    | ObjectMissCommaOrCurlyBracket
    | ArrayMissCommaOrSquareBracket
    | StringUnicodeEscapeInvalidHex
    | StringUnicodeSurrogateInvalid
    | StringEscapeInvalid
    | StringMissQuotationMark
    | StringInvalidEncoding
    | NumberTooBig
    | NumberMissFraction
    | NumberMissExponent

  /** How parsing ends: the events sent, and where it stopped. */
  datatype Outcome =
    | Done(events: seq<Event>, pos: nat)
    | Failed(events: seq<Event>, code: ParseErrorCode, offset: nat)

  /** Decimal-to-binary conversion of a literal; nothing when the result exceeds the
      largest double. Floating-point arithmetic is a parameter of the parser. */
  type Converter = Bytes -> Option<Bytes>

  const BACKSLASH: Byte := '\\' as int
  const COLON: Byte := ':' as int
  const OPEN_BRACKET: Byte := '[' as int
  const CLOSE_BRACKET: Byte := ']' as int
  const LOWER_U: Byte := 'u' as int

  // ----- white space -----

  predicate IsSpace(c: Byte) {
    c == ' ' as int || c == '\n' as int || c == '\r' as int || c == '\t' as int
  }

  function SkipSpace(s: Bytes, p: nat): (q: nat)
    ensures p <= q && (p <= |s| ==> q <= |s|) && !IsSpace(Peek(s, q))
    decreases |s| - p
  {
    if p < |s| && IsSpace(s[p]) then SkipSpace(s, p + 1) else p
  }

  // ----- names -----

  /** How many leading bytes of `word` stand at `p`. */
  function Matching(s: Bytes, p: nat, word: Bytes): (n: nat)
    ensures n <= |word|
    ensures n == |word| && (forall i | 0 <= i < |word| :: word[i] != 0) ==> p + n <= |s| || n == 0
    decreases |word|
  {
    if word == [] || Peek(s, p) != word[0] then 0
    else
      var n := Matching(s, p + 1, word[1..]);
      assert forall i | 0 <= i < |word[1..]| :: word[1..][i] == word[i + 1];
      1 + n
  }

  const NULL_TEXT: Bytes := ['n' as int, 'u' as int, 'l' as int, 'l' as int]

  function NameAt(s: Bytes, p: nat, word: Bytes, e: Event): Outcome {
    var n := Matching(s, p, word);
    if n == |word| then Done([e], p + n) else Failed([], ValueInvalid, p + n)
  }

  // ----- strings -----

  /** The character a one-letter escape denotes. */
  function EscapeOf(c: Byte): Option<Byte> {
    if c == QUOTE || c == '/' as int || c == BACKSLASH then Some(c)
    else if c == 'b' as int then Some(8)
    else if c == 'f' as int then Some(12)
    else if c == 'n' as int then Some(10)
    else if c == 'r' as int then Some(13)
    else if c == 't' as int then Some(9)
    else None
  }

  /** Four hexadecimal digits. */
  function Hex4(s: Bytes, p: nat): (r: Option<nat>)
    ensures r.Some? ==> r.value < 0x10000 && p + 4 <= |s|
  {
    var a, b, c, d := HexValue(Peek(s, p)), HexValue(Peek(s, p + 1)), HexValue(Peek(s, p + 2)), HexValue(Peek(s, p + 3));
    if a.Some? && b.Some? && c.Some? && d.Some?
    then Some(a.value * 0x1000 + b.value * 0x100 + c.value * 0x10 + d.value)
    else None
  }

  datatype StringOutcome = StringDone(value: Bytes, pos: nat) | StringFailed(code: ParseErrorCode, offset: nat)

  /** A `\u` escape whose backslash is at `i`: the code point and the position after it. */
  function UnicodeEscape(s: Bytes, i: nat): (r: (Option<nat>, ParseErrorCode, nat))
    ensures r.0.Some? ==> r.0.value <= 0x10FFFF && i < r.2 <= |s|
  {
    match Hex4(s, i + 2)
    case None => (None, StringUnicodeEscapeInvalidHex, i)
    case Some(high) =>
      if high < 0xD800 || high > 0xDFFF then (Some(high), ValueInvalid, i + 6)
      else if high > 0xDBFF || Peek(s, i + 6) != BACKSLASH || Peek(s, i + 7) != LOWER_U then
        (None, StringUnicodeSurrogateInvalid, i)
      else
        match Hex4(s, i + 8)
        case None => (None, StringUnicodeEscapeInvalidHex, i)
        case Some(low) =>
          if low < 0xDC00 || low > 0xDFFF then (None, StringUnicodeSurrogateInvalid, i)
          else (Some((high - 0xD800) * 0x400 + (low - 0xDC00) + 0x10000), ValueInvalid, i + 12)
  }

  /** The rest of a string literal from `i` on, after `acc` has been decoded. */
  function StringFrom(s: Bytes, i: nat, acc: Bytes): (r: StringOutcome)
    ensures r.StringDone? ==> i < r.pos <= |s|
    decreases |s| - i
  {
    var c := Peek(s, i);
    if c == BACKSLASH then
      var e := Peek(s, i + 1);
      if EscapeOf(e).Some? then StringFrom(s, i + 2, acc + [EscapeOf(e).value])
      else if e == LOWER_U then
        var (cp, code, next) := UnicodeEscape(s, i);
        if cp.None? then StringFailed(code, next) else StringFrom(s, next, acc + Encoded(cp.value))
      else StringFailed(StringEscapeInvalid, i)
    else if c == QUOTE then StringDone(acc, i + 1)
    else if c == 0 then StringFailed(StringMissQuotationMark, i)
    else if c < 0x20 then StringFailed(StringInvalidEncoding, i)
    else StringFrom(s, i + 1, acc + [c])
  }

  /** A string literal whose opening quote is at `p`. */
  function StringAt(s: Bytes, p: nat, isKey: bool): (r: Outcome)
    ensures r.Done? ==> p < r.pos <= |s| && |r.events| == 1
  {
    match StringFrom(s, p + 1, [])
    case StringDone(value, pos) => Done([if isKey then KeyEv(value) else StringEv(value)], pos)
    case StringFailed(code, offset) => Failed([], code, offset)
  }

  // ----- numbers -----

  function DigitsValue(s: Bytes, p: nat, q: nat): nat
    requires p <= q <= |s| && forall i | p <= i < q :: IsDigit(s[i])
  {
    DecValue(s[p..q])
  }

  /** Fraction digits that scale the exponent: exactly accumulated ones while the
      significand is at most 2^53 - 1, then as many as give 17 significant digits. */
  function FoldedExact(s: Bytes, i: nat, significand: nat, significant: nat): (r: (nat, nat, nat))
    requires i <= |s|
    ensures i <= r.0 <= DigitsEnd(s, i)
    decreases |s| - i
  {
    if i < |s| && IsDigit(s[i]) && significand <= 0x1F_FFFF_FFFF_FFFF then
      var next := significand * 10 + (s[i] - '0' as int);
      FoldedExact(s, i + 1, next, if next != 0 then significant + 1 else significant)
    else (i, significand, significant)
  }

  function FoldedRounded(s: Bytes, i: nat, positive: bool, significant: nat): nat
    requires i <= |s|
    decreases |s| - i
  {
    if i < |s| && IsDigit(s[i]) then
      if significant < 17 then
        var p := positive || s[i] != '0' as int;
        1 + FoldedRounded(s, i + 1, p, if p then significant + 1 else significant)
      else FoldedRounded(s, i + 1, positive, significant)
    else 0
  }

  /** `-expFrac` of a fraction that starts at `i`, after an integer part of value `n`
      and `digits` digits; `big` when the integer part did not fit 64 bits. */
  function FoldedFraction(s: Bytes, i: nat, n: nat, digits: nat, big: bool): nat
    requires i <= |s|
  {
    var significant := if digits > 0 then digits - 1 else 0;
    if big then FoldedRounded(s, i, true, significant)
    else
      var (k, m, d) := FoldedExact(s, i, n, significant);
      (k - i) + FoldedRounded(s, k, m > 0, d)
  }

  /** Whether an integer part is outside the 64-bit range of its sign. */
  predicate TooWide(minus: bool, n: nat) {
    if minus then n > 0x8000_0000_0000_0000 else n > 0xFFFF_FFFF_FFFF_FFFF
  }

  /** The event of an integer literal: the first representation that holds it. */
  function IntegerEvent(minus: bool, n: nat): Event {
    if minus then if n <= 0x8000_0000 then IntEv(0 - n) else Int64Ev(0 - n)
    else if n <= 0xFFFF_FFFF then UintEv(n) else Uint64Ev(n)
  }

  /** The end of an integer part that begins at `q`: a leading zero stands alone. */
  function IntegerEnd(s: Bytes, q: nat): (r: nat)
    requires q < |s| && IsDigit(s[q])
    ensures q < r <= |s| && forall i | q <= i < r :: IsDigit(s[i])
  {
    if s[q] == '0' as int then q + 1 else
      assert DigitsEnd(s, q) > q;
      DigitsEnd(s, q)
  }

  /** A number literal at `p`. */
  function NumberAt(s: Bytes, p: nat, convert: Converter): (r: Outcome)
    requires p <= |s|
    ensures r.Done? ==> p < r.pos <= |s| && |r.events| == 1
  {
    var minus := Peek(s, p) == MINUS;
    var q := if minus then p + 1 else p;
    if !IsDigit(Peek(s, q)) then Failed([], ValueInvalid, q)
    else FractionFrom(s, p, minus, q, IntegerEnd(s, q), convert)
  }

  /** The rest of a literal after its integer part `[q..r)`. */
  function FractionFrom(s: Bytes, p: nat, minus: bool, q: nat, r: nat, convert: Converter): (o: Outcome)
    requires p <= q < r <= |s| && forall i | q <= i < r :: IsDigit(s[i])
    ensures o.Done? ==> r <= o.pos <= |s| && |o.events| == 1
  {
    var n := DigitsValue(s, q, r);
    if Peek(s, r) != POINT then ExponentFrom(s, p, minus, n, r, 0, TooWide(minus, n), convert)
    else if !IsDigit(Peek(s, r + 1)) then Failed([], NumberMissFraction, r + 1)
    else
      ExponentFrom(s, p, minus, n, DigitsEnd(s, r + 1), FoldedFraction(s, r + 1, n, r - q, TooWide(minus, n)), true, convert)
  }

  /** The rest of a literal from `f` on, where only an exponent can still come. */
  function ExponentFrom(s: Bytes, p: nat, minus: bool, n: nat, f: nat, folded: nat, isDouble: bool, convert: Converter): (o: Outcome)
    requires p <= f <= |s| && (!isDouble ==> !TooWide(minus, n))
    ensures o.Done? ==> f <= o.pos <= |s| && |o.events| == 1
  {
    if Peek(s, f) != 'e' as int && Peek(s, f) != 'E' as int then
      if isDouble then DoubleFrom(s, p, f, convert) else Done([IntegerEvent(minus, n)], f)
    else
      var sign := Peek(s, f + 1);
      var g := if sign == PLUS || sign == MINUS then f + 2 else f + 1;
      if !IsDigit(Peek(s, g)) then Failed([], NumberMissExponent, g)
      else if sign != MINUS && DigitsValue(s, g, DigitsEnd(s, g)) > 308 + folded then Failed([], NumberTooBig, p)
      else DoubleFrom(s, p, DigitsEnd(s, g), convert)
  }

  /** The literal `[p..end)` as a double. */
  function DoubleFrom(s: Bytes, p: nat, end: nat, convert: Converter): (o: Outcome)
    requires p <= end <= |s|
    ensures o.Done? ==> o.pos == end && |o.events| == 1
  {
    match convert(s[p..end])
    case None => Failed([], NumberTooBig, p)
    case Some(image) => Done([DoubleEv(image)], end)
  }

  /** A value that is not a container: name, string or number. */
  function ScalarAt(s: Bytes, p: nat, convert: Converter): (r: Outcome)
    requires p <= |s|
    ensures r.Done? ==> p < r.pos <= |s|
  {
    var c := Peek(s, p);
    if c == 'n' as int then NameAt(s, p, NULL_TEXT, NullEv)
    else if c == 't' as int then NameAt(s, p, TRUE_TEXT, BoolEv(true))
    else if c == 'f' as int then NameAt(s, p, FALSE_TEXT, BoolEv(false))
    else if c == QUOTE then StringAt(s, p, false)
    else NumberAt(s, p, convert)
  }
}
